/** Opening and closing of the controller: clients hold channels, channels hold the root,
    the root holds its PCI provider. */
module OpenProtocol {
  import opened Wrappers

  /** Services are told apart by a number. */
  type Id = nat

  /** The root.  `log` lists the provider's opens (true) and closes (false). */
  datatype Root = Root(nubs: set<Id>, openNubs: set<Id>, providerOpen: bool, log: seq<bool>)

  /** `handleOpen` of the root; `accepts` is the answer of the provider, if asked. */
  function RootOpen(s: Root, client: Id, accepts: bool): (Root, bool) {
    if client !in s.nubs || client in s.openNubs then (s, false)
    else if s.openNubs == {} then
      if accepts then (s.(openNubs := {client}, providerOpen := true, log := s.log + [true]), true) else (s, false)
    else (s.(openNubs := s.openNubs + {client}), true)
  }

  /** `handleClose` of the root. */
  function RootClose(s: Root, client: Id): Root {
    if client !in s.openNubs then s
    else
      var held := s.openNubs - {client};
      if held == {} then s.(openNubs := held, providerOpen := false, log := s.log + [false])
      else s.(openNubs := held)
  }

  /** The whole: `owners` gives for each channel in use the client that has it. */
  datatype System = System(root: Root, owners: map<Id, Id>)

  /** `handleOpen` of a channel; `superAccepts` is the answer of the superclass. */
  function ChannelOpen(s: System, channel: Id, client: Id, accepts: bool, superAccepts: bool): (System, bool) {
    var (root, granted) := RootOpen(s.root, channel, accepts);
    if !granted then (s, false)
    else if superAccepts then (System(root, s.owners[channel := client]), true)
    else (System(RootClose(root, channel), s.owners), false)
  }

  /** `handleClose` of a channel.  The superclass forgets the client if it is the owner;
      the root is closed in any case. */
  function ChannelClose(s: System, channel: Id, client: Id): System {
    var owners := if channel in s.owners && s.owners[channel] == client then s.owners - {channel} else s.owners;
    System(RootClose(s.root, channel), owners)
  }

  /** A request as the services get it.  A close reaches `handleClose` only from a client
      that has the channel open; that is the superclass's doing. */
  datatype Request =
    | Open(channel: Id, client: Id, accepts: bool, superAccepts: bool)
    | Close(channel: Id, client: Id)
    | StrangerOpen(client: Id, accepts: bool)
    | StrangerClose(client: Id)

  ghost predicate Possible(s: System, r: Request) {
    match r
    case Open(channel, _, _, _) => channel in s.root.nubs
    case Close(channel, _) => channel in s.root.nubs
    case StrangerOpen(client, _) => client !in s.root.nubs
    case StrangerClose(client) => client !in s.root.nubs
  }

  function Next(s: System, r: Request): System {
    match r
    case Open(channel, client, accepts, superAccepts) => ChannelOpen(s, channel, client, accepts, superAccepts).0
    case Close(channel, client) =>
      if channel in s.owners && s.owners[channel] == client then ChannelClose(s, channel, client) else s
    case StrangerOpen(client, accepts) => System(RootOpen(s.root, client, accepts).0, s.owners)
    case StrangerClose(client) => System(RootClose(s.root, client), s.owners)
  }

  /** Opens and closes take turns, an open first. */
  ghost predicate Alternates(log: seq<bool>) {
    forall i :: 0 <= i < |log| ==> (log[i] <==> i % 2 == 0)
  }

  ghost predicate RootInv(s: Root) {
    && s.openNubs <= s.nubs
    && (s.providerOpen <==> s.openNubs != {})
    && Alternates(s.log) && (s.providerOpen <==> |s.log| % 2 == 1)
  }

  /** The provider is open exactly when some channel is held; held channels are known
      ones; the provider's opens and closes alternate; and the root is held for exactly
      the channels that a client has. */
  ghost predicate Inv(s: System) {
    RootInv(s.root) && s.owners.Keys == s.root.openNubs
  }

  lemma RootOpenInv(s: Root, client: Id, accepts: bool)
    requires RootInv(s)
    ensures var (s', ok) := RootOpen(s, client, accepts);
            && RootInv(s') && s'.nubs == s.nubs
            && (ok <==> client in s.nubs && client !in s.openNubs && (s.openNubs != {} || accepts))
            && s'.openNubs == if ok then s.openNubs + {client} else s.openNubs
  {
  }

  lemma RootCloseInv(s: Root, client: Id)
    requires RootInv(s)
    ensures RootInv(RootClose(s, client)) && RootClose(s, client).nubs == s.nubs
    ensures RootClose(s, client).openNubs == s.openNubs - {client}
  {
  }

  lemma NextInv(s: System, r: Request)
    requires Inv(s) && Possible(s, r)
    ensures Inv(Next(s, r)) && Next(s, r).root.nubs == s.root.nubs
  {
    match r
    case Open(channel, client, accepts, superAccepts) =>
      RootOpenInv(s.root, channel, accepts);
      RootCloseInv(RootOpen(s.root, channel, accepts).0, channel);
    case Close(channel, client) => RootCloseInv(s.root, channel);
    case StrangerOpen(client, accepts) =>
    case StrangerClose(client) =>
  }

  ghost predicate AllPossible(nubs: set<Id>, rs: seq<Request>) {
    forall i :: 0 <= i < |rs| ==> Possible(System(Root(nubs, {}, false, []), map[]), rs[i])
  }

  function Run(s: System, rs: seq<Request>): System
    decreases |rs|
  {
    if rs == [] then s else Run(Next(s, rs[0]), rs[1..])
  }

  lemma {:induction false} RunInv(s: System, rs: seq<Request>)
    requires Inv(s) && AllPossible(s.root.nubs, rs)
    ensures Inv(Run(s, rs))
    decreases |rs|
  {
    if rs != [] {
      assert Possible(System(Root(s.root.nubs, {}, false, []), map[]), rs[0]);
      NextInv(s, rs[0]);
      RunInv(Next(s, rs[0]), rs[1..]);
    }
  }

  /** Across all requests of any clients, from the state in which the driver starts. */
  lemma AllRunsHold(nubs: set<Id>, rs: seq<Request>)
    requires AllPossible(nubs, rs)
    ensures Inv(Run(System(Root(nubs, {}, false, []), map[]), rs))
  {
    RunInv(System(Root(nubs, {}, false, []), map[]), rs);
  }

  /** A channel opens if and only if the root knows it, does not yet hold it, is open or can
      open its provider, and the superclass agrees; then the client has the channel, the
      root holds it, and the provider was opened if no channel was held before. */
  lemma OpenSucceeds(s: System, channel: Id, client: Id, accepts: bool, superAccepts: bool)
    requires Inv(s)
    ensures var (s', ok) := ChannelOpen(s, channel, client, accepts, superAccepts);
            && (ok <==> && channel in s.root.nubs && channel !in s.root.openNubs
                        && (s.root.openNubs != {} || accepts) && superAccepts)
            && s'.owners == (if ok then s.owners[channel := client] else s.owners)
            && s'.root.openNubs == (if ok then s.root.openNubs + {channel} else s.root.openNubs)
            && (ok ==> && s'.root.providerOpen && channel in s'.owners && s'.owners[channel] == client
                       && s'.root.log == if s.root.openNubs == {} then s.root.log + [true] else s.root.log)
  {
    RootOpenInv(s.root, channel, accepts);
    if RootOpen(s.root, channel, accepts).1 && !superAccepts {
      RootCloseInv(RootOpen(s.root, channel, accepts).0, channel);
      assert s.root.openNubs + {channel} - {channel} == s.root.openNubs;
    }
  }

  /** A channel open that the superclass refuses leaves no trace but, if it was the only
      one, a matched open and close of the provider. */
  lemma RefusedOpenLeavesNoHold(s: System, channel: Id, client: Id, accepts: bool)
    requires Inv(s)
    ensures var (s', ok) := ChannelOpen(s, channel, client, accepts, false);
            && !ok && s' == s.(root := s.root.(log := s'.root.log))
            && (s'.root.log == s.root.log || s'.root.log == s.root.log + [true, false])
  {
    if channel in s.root.nubs && channel !in s.root.openNubs {
      assert s.root.openNubs + {channel} - {channel} == s.root.openNubs;
      assert s.root.log + [true] + [false] == s.root.log + [true, false];
    }
  }

  /** An open followed by the owner's close gives back the state, but for the log. */
  lemma CloseUndoesOpen(s: System, channel: Id, client: Id, accepts: bool)
    requires Inv(s) && ChannelOpen(s, channel, client, accepts, true).1
    ensures var s' := ChannelClose(ChannelOpen(s, channel, client, accepts, true).0, channel, client);
            s' == s.(root := s.root.(log := s'.root.log))
  {
    assert s.root.openNubs + {channel} - {channel} == s.root.openNubs;
    assert s.owners[channel := client] - {channel} == s.owners;
  }

  /** `handleClose` of a channel does not check its client.  The holds stay consistent if
      and only if the client is the owner, or the channel is not in use. */
  lemma UncheckedClose(s: System, channel: Id, client: Id)
    requires Inv(s)
    ensures Inv(ChannelClose(s, channel, client))
       <==> channel !in s.owners || s.owners[channel] == client
  {
    RootCloseInv(s.root, channel);
    var s' := ChannelClose(s, channel, client);
    if channel in s.owners && s.owners[channel] != client {
      assert channel in s'.owners.Keys && channel !in s'.root.openNubs;
    }
  }

  // ----- the services -----

  /** The PCI device, as far as it is opened and closed. */
  class PciProvider {
    var isOpen: bool
    var log: seq<bool>

    constructor ()
      ensures !isOpen && log == []
    {
      isOpen, log := false, [];
    }

    method Open(accepts: bool) returns (ok: bool)
      modifies this
      ensures ok == accepts
      ensures isOpen == (old(isOpen) || accepts)
      ensures log == if accepts then old(log) + [true] else old(log)
    {
      ok := accepts;
      if accepts {
        isOpen, log := true, log + [true];
      }
    }

    method Close()
      modifies this
      ensures !isOpen && log == old(log) + [false]
    {
      isOpen, log := false, log + [false];
    }
  }

  class AtaRoot {
    const nubs: set<Id>
    const provider: PciProvider
    var openNubs: set<Id>

    constructor (nubs: set<Id>, provider: PciProvider)
      ensures this.nubs == nubs && this.provider == provider && openNubs == {}
    {
      this.nubs, this.provider, openNubs := nubs, provider, {};
    }

    function State(): Root
      reads this, provider
    {
      Root(nubs, openNubs, provider.isOpen, provider.log)
    }

    method HandleOpen(client: Id, accepts: bool) returns (ret: bool)
      requires RootInv(State())
      modifies this, provider
      ensures (State(), ret) == RootOpen(old(State()), client, accepts)
    {
      ret := true;
      if client !in nubs || client in openNubs {
        return false;
      }
      if openNubs == {} {
        ret := provider.Open(accepts);
      }
      if ret {
        openNubs := openNubs + {client};
        assert old(openNubs) == {} ==> openNubs == {client};
      }
    }

    method HandleClose(client: Id)
      modifies this, provider
      ensures State() == RootClose(old(State()), client)
    {
      if client !in openNubs {
        return;
      }
      openNubs := openNubs - {client};
      if openNubs == {} {
        provider.Close();
      }
    }

    /** With no client given, whether anybody has the root open. */
    method HandleIsOpen(client: Option<Id>) returns (r: bool)
      requires RootInv(State())
      ensures r <==> if client.Some? then client.value in openNubs else provider.isOpen
    {
      if client.Some? {
        r := client.value in openNubs;
      } else {
        r := openNubs != {};
      }
    }
  }

  class AtaChannel {
    const id: Id
    const provider: AtaRoot
    var owner: Option<Id>

    constructor (id: Id, provider: AtaRoot)
      ensures this.id == id && this.provider == provider && owner == None
    {
      this.id, this.provider, owner := id, provider, None;
    }

    /** This channel as a system of its own: the root, and its owner if it has one. */
    function State(): System
      reads this, provider, provider.provider
    {
      System(provider.State(), if owner.Some? then map[id := owner.value] else map[])
    }

    method HandleOpen(client: Id, accepts: bool, superAccepts: bool) returns (ret: bool)
      requires RootInv(provider.State())
      modifies this, provider, provider.provider
      ensures (State(), ret) == ChannelOpen(old(State()), id, client, accepts, superAccepts)
    {
      ret := false;
      var granted := provider.HandleOpen(id, accepts);
      if granted {
        ret := superAccepts;
        if ret {
          owner := Some(client);
          assert old(State()).owners[id := client] == State().owners;
        } else {
          provider.HandleClose(id);
        }
      }
    }

    method HandleClose(client: Id)
      modifies this, provider, provider.provider
      ensures State() == ChannelClose(old(State()), id, client)
    {
      if owner == Some(client) {
        owner := None;
      }
      provider.HandleClose(id);
    }
  }
}
