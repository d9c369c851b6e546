/** Runs of both channel drivers of a Serial ATA controller: scans, power transitions,
    and the loss of the port enable bits while everything is powered off. */
module SataRun {
  import Wrappers
  import opened PciConfig
  import opened SataPorts
  import opened IchSata

  /** A channel driver.  `pending`: the port enables are to be refreshed when power is
      raised; `scanned`: a scan has been done. */
  datatype Channel = Channel(mode: ChannelMode, known: Units, pending: bool, scanned: bool)

  datatype Controller = Controller(root: Root, config: Config, channels: seq<Channel>)

  datatype Event =
    | Scan(ch: nat, busy: nat -> bool, found: Units, seen: Config)
    | Power(ch: nat, off: bool)
    | Lose(left: Config)  // the controller loses its context

  /** The commands that a driver gives in an event, and the driver afterwards. */
  function Commands(root: Root, c: Channel, e: Event): seq<Command> {
    match e
    case Scan(_, busy, found, seen) =>
      ScanCommands(c.mode, RoundsFrom(busy, 0), Confirmed(root, c.mode, found, seen))
    case Power(_, off) => if !off && c.pending then SetUnits(c.mode, c.known, 0) else []
    case Lose(_) => []
  }

  function Moved(root: Root, c: Channel, e: Event): Channel {
    match e
    case Scan(_, busy, found, seen) => c.(known := Confirmed(root, c.mode, found, seen), scanned := true)
    case Power(_, off) => c.(pending := off)
    case Lose(_) => c
  }

  /** Context is only lost while every channel that has ports is off. */
  ghost predicate Allowed(s: Controller, e: Event) {
    match e
    case Lose(_) => forall i :: 0 <= i < |s.channels| ==> s.channels[i].pending || MaxDriveUnits(s.channels[i].mode) == 0
    case _ => e.ch < |s.channels|
  }

  function Next(s: Controller, e: Event): Controller
    requires Allowed(s, e)
  {
    match e
    case Lose(left) => s.(config := left)
    case _ =>
      var c := s.channels[e.ch];
      s.(config := Commanded(s.root, s.config, Commands(s.root, c, e)),
         channels := s.channels[e.ch := Moved(s.root, c, e)])
  }

  /** A Serial ATA controller whose ports have bits of their own, with channels that
      drive ports and share none.  (A parallel ATA channel has another driver.) */
  ghost predicate Serial(s: Controller) {
    && s.root.serial && Independent(s.root.Ports())
    && (forall i :: 0 <= i < |s.channels| ==> s.channels[i].mode != PATA)
    && (forall i, j, port :: 0 <= i < |s.channels| && 0 <= j < |s.channels| && i != j ==>
          !(HasPort(s.channels[i].mode, port) && HasPort(s.channels[j].mode, port)))
  }

  /** The ports of a channel are in step with its drive table. */
  ghost predicate InStep(s: Controller, i: nat)
    requires i < |s.channels|
  {
    var c := s.channels[i];
    c.scanned && !c.pending ==>
      forall u :: 0 <= u < MaxDriveUnits(c.mode) && PortForDrive(c.mode, u) < PORT_X ==>
        (Enabled(s.root, s.config, PortForDrive(c.mode, u)) <==> c.known[u])
  }

  /** No drive is known in a unit that the channel does not have. */
  ghost predicate Inv(s: Controller) {
    && Serial(s)
    && forall i :: 0 <= i < |s.channels| ==>
         InStep(s, i) && forall u :: MaxDriveUnits(s.channels[i].mode) <= u < MAX_DRIVES ==> !s.channels[i].known[u]
  }

  lemma CommandsAreOwn(root: Root, c: Channel, e: Event)
    ensures OnlyOwn(c.mode, Commands(root, c, e))
  {
    match e
    case Scan(_, busy, found, seen) => ScanOwn(c.mode, RoundsFrom(busy, 0), Confirmed(root, c.mode, found, seen));
    case Power(_, _) => SetUnitsOwn(c.mode, c.known, 0);
    case Lose(_) =>
  }

  lemma {:induction false} NoCommandOn(cmds: seq<Command>, mode: ChannelMode, port: nat, was: bool)
    requires OnlyOwn(mode, cmds) && port < PORT_X && !HasPort(mode, port)
    ensures LastCommand(cmds, port, was) == was
    decreases |cmds|
  {
    if cmds != [] {
      assert cmds[0] in cmds;
      NoCommandOn(cmds[1..], mode, port, was);
    }
  }

  /** No event of one channel changes a port of the other. */
  lemma OthersAreKept(s: Controller, e: Event, j: nat, port: nat)
    requires Serial(s) && Allowed(s, e) && !e.Lose?
    requires j < |s.channels| && j != e.ch && port < PORT_X && HasPort(s.channels[j].mode, port)
    ensures Enabled(s.root, Next(s, e).config, port) <==> Enabled(s.root, s.config, port)
  {
    var c := s.channels[e.ch];
    var cmds := Commands(s.root, c, e);
    CommandsAreOwn(s.root, c, e);
    NoCommandOn(cmds, c.mode, port, Enabled(s.root, s.config, port));
    EnabledAfter(s.root, s.config, cmds, port);
  }

  /** After a scan, or a refresh on power up, exactly the ports of known drives are on. */
  lemma OwnInStep(s: Controller, e: Event)
    requires Inv(s) && Allowed(s, e) && !e.Lose?
    ensures InStep(Next(s, e), e.ch)
  {
    var c, s' := s.channels[e.ch], Next(s, e);
    var c' := s'.channels[e.ch];
    var cmds := Commands(s.root, c, e);
    forall u | 0 <= u < MaxDriveUnits(c.mode) && PortForDrive(c.mode, u) < PORT_X && c'.scanned && !c'.pending
      ensures Enabled(s.root, s'.config, PortForDrive(c.mode, u)) <==> c'.known[u]
    {
      var port := PortForDrive(c.mode, u);
      EnabledAfter(s.root, s.config, cmds, port);
      if e.Scan? {
        RoundsBound(e.busy, 0);
        ScanLast(c.mode, RoundsFrom(e.busy, 0), c'.known, u, Enabled(s.root, s.config, port));
      } else if c.pending {
        SetUnitsLast(c.mode, c.known, u, Enabled(s.root, s.config, port));
      }
    }
  }

  lemma OtherInStep(s: Controller, e: Event, j: nat)
    requires Inv(s) && Allowed(s, e) && !e.Lose? && j < |s.channels| && j != e.ch
    ensures InStep(Next(s, e), j)
  {
    var c := s.channels[j];
    forall u | 0 <= u < MaxDriveUnits(c.mode) && PortForDrive(c.mode, u) < PORT_X
      ensures Enabled(s.root, Next(s, e).config, PortForDrive(c.mode, u)) <==> Enabled(s.root, s.config, PortForDrive(c.mode, u))
    {
      OthersAreKept(s, e, j, PortForDrive(c.mode, u));
    }
  }

  lemma NextInv(s: Controller, e: Event)
    requires Inv(s) && Allowed(s, e)
    ensures Inv(Next(s, e))
  {
    var s' := Next(s, e);
    if !e.Lose? {
      assert s'.channels[e.ch].mode == s.channels[e.ch].mode;
      OwnInStep(s, e);
      forall j | 0 <= j < |s.channels| && j != e.ch
        ensures InStep(s', j)
      {
        OtherInStep(s, e, j);
      }
    }
  }

  /** Every event of a run is allowed where it happens. */
  ghost predicate AllAllowed(s: Controller, run: seq<Event>)
    decreases |run|
  {
    run != [] ==> Allowed(s, run[0]) && AllAllowed(Next(s, run[0]), run[1..])
  }

  ghost function After(s: Controller, run: seq<Event>): Controller
    requires AllAllowed(s, run)
    decreases |run|
  {
    if run == [] then s else After(Next(s, run[0]), run[1..])
  }

  /** A parallel ATA channel is not driven by the Serial ATA driver. */
  function SerialOnly(mode: ChannelMode): ChannelMode {
    if mode == PATA then Disabled else mode
  }

  /** A controller with the modes that its mapping register gives, before any event. */
  ghost predicate Fresh(s: Controller, name: Wrappers.Option<SataPorts.Controller>, register: bv8) {
    && s.root.serial && Independent(s.root.Ports()) && |s.channels| == 2
    && var modes := ChannelModes(true, name, register);
       && s.channels[0] == Channel(SerialOnly(modes.0), [false, false], false, false)
       && s.channels[1] == Channel(SerialOnly(modes.1), [false, false], false, false)
  }

  lemma FreshInv(s: Controller, name: Wrappers.Option<SataPorts.Controller>, register: bv8)
    requires Fresh(s, name, register)
    ensures Inv(s)
  {
    var modes := ChannelModes(true, name, register);
    forall port: nat
      ensures !(HasPort(SerialOnly(modes.0), port) && HasPort(SerialOnly(modes.1), port))
    {
      ChannelsShareNoPort(true, name, register, port);
    }
  }

  lemma {:induction false} RunInv(s: Controller, run: seq<Event>)
    requires Inv(s) && AllAllowed(s, run)
    ensures Inv(After(s, run)) && |After(s, run).channels| == |s.channels|
    decreases |run|
  {
    if run != [] {
      NextInv(s, run[0]);
      RunInv(Next(s, run[0]), run[1..]);
    }
  }

  /** Over every run of scans and power requests on both channels, with the port enables
      lost arbitrarily while both are off: each channel that has been scanned and has no
      refresh pending has each port enabled exactly when its drive is known. */
  lemma PortsFollowTheDrives(s: Controller, run: seq<Event>, name: Wrappers.Option<SataPorts.Controller>,
                             register: bv8, i: nat, u: nat)
    requires Fresh(s, name, register) && AllAllowed(s, run)
    requires i < 2
    ensures var r := After(s, run);
            && |r.channels| == 2
            && var c := r.channels[i];
               c.scanned && !c.pending && u < MaxDriveUnits(c.mode) ==>
                 PortForDrive(c.mode, u) < PORT_X
                 && (Enabled(r.root, r.config, PortForDrive(c.mode, u)) <==> c.known[u])
  {
    FreshInv(s, name, register);
    RunInv(s, run);
  }

  // ----- the same at the level of single register reads and writes -----

  /** A driver on its own: what it becomes over its events, and the commands it gives. */
  function Driven(root: Root, c: Channel, es: seq<Event>): (Channel, seq<Command>)
    decreases |es|
  {
    if es == [] then (c, [])
    else
      var rest := Driven(root, Moved(root, c, es[0]), es[1..]);
      (rest.0, Commands(root, c, es[0]) + rest.1)
  }

  lemma {:induction false} DrivenLast(root: Root, c: Channel, es: seq<Event>, u: nat, was: bool)
    requires u < MaxDriveUnits(c.mode) && PortForDrive(c.mode, u) < PORT_X
    requires c.scanned && !c.pending ==> was == c.known[u]
    ensures var d := Driven(root, c, es);
            && d.0.mode == c.mode
            && (d.0.scanned && !d.0.pending ==> LastCommand(d.1, PortForDrive(c.mode, u), was) == d.0.known[u])
    decreases |es|
  {
    if es != [] {
      var port, e := PortForDrive(c.mode, u), es[0];
      var now, next := LastCommand(Commands(root, c, e), port, was), Moved(root, c, e);
      match e {
        case Scan(_, busy, found, seen) =>
          RoundsBound(busy, 0);
          ScanLast(c.mode, RoundsFrom(busy, 0), next.known, u, was);
        case Power(_, off) => SetUnitsLast(c.mode, c.known, u, was);
        case Lose(_) =>
      }
      DrivenLast(root, next, es[1..], u, now);
      LastCommandConcat(Commands(root, c, e), Driven(root, next, es[1..]).1, port, was);
    }
  }

  lemma {:induction false} DrivenOwn(root: Root, c: Channel, es: seq<Event>)
    ensures OnlyOwn(c.mode, Driven(root, c, es).1)
    decreases |es|
  {
    if es != [] {
      CommandsAreOwn(root, c, es[0]);
      DrivenOwn(root, Moved(root, c, es[0]), es[1..]);
    }
  }

  /** No drive is known in a unit that the channel does not have, and the mode stays. */
  lemma {:induction false} DrivenShape(root: Root, c: Channel, es: seq<Event>)
    requires forall u :: MaxDriveUnits(c.mode) <= u < MAX_DRIVES ==> !c.known[u]
    ensures var d := Driven(root, c, es).0;
            d.mode == c.mode && forall u :: MaxDriveUnits(c.mode) <= u < MAX_DRIVES ==> !d.known[u]
    decreases |es|
  {
    if es != [] {
      DrivenShape(root, Moved(root, c, es[0]), es[1..]);
    }
  }

  /** A part of a run: the drivers go through their scans and power requests at the same
      time, their locked register accesses interleaved as `schedule` says, until all are
      done; or, with every driver off and at rest, the context is lost. */
  datatype Part =
    | Together(es: seq<seq<Event>>, schedule: seq<nat>)
    | Lost(left: Config)

  function CommandsOf(s: Controller, es: seq<seq<Event>>): seq<seq<Command>>
    requires |es| == |s.channels|
  {
    seq(|es|, i requires 0 <= i < |es| => Driven(s.root, s.channels[i], es[i]).1)
  }

  function ChannelsAfter(s: Controller, es: seq<seq<Event>>): seq<Channel>
    requires |es| == |s.channels|
  {
    seq(|es|, i requires 0 <= i < |es| => Driven(s.root, s.channels[i], es[i]).0)
  }

  ghost predicate Possible(s: Controller, part: Part) {
    match part
    case Together(es, schedule) =>
      && |es| == |s.channels|
      && (forall i, j :: 0 <= i < |es| && 0 <= j < |es[i]| ==> !es[i][j].Lose?)
      && (forall k :: 0 <= k < |schedule| ==> schedule[k] < |es|)
      && Finished(Outcome(s.config, Programs(s.root, CommandsOf(s, es)), schedule))
    case Lost(left) => Allowed(s, Lose(left))
  }

  ghost function Done(s: Controller, part: Part): Controller
    requires Possible(s, part)
  {
    match part
    case Together(es, schedule) =>
      s.(config := Outcome(s.config, Programs(s.root, CommandsOf(s, es)), schedule).config,
         channels := ChannelsAfter(s, es))
    case Lost(left) => Next(s, Lose(left))
  }

  /** After a part in which the drivers work together, each port of a channel is as if the
      other drivers had not been there. */
  lemma TogetherInStep(s: Controller, part: Part, i: nat, u: nat)
    requires Inv(s) && part.Together? && Possible(s, part) && i < |s.channels|
    requires u < MaxDriveUnits(s.channels[i].mode) && PortForDrive(s.channels[i].mode, u) < PORT_X
    ensures var d, port := Done(s, part).channels[i], PortForDrive(s.channels[i].mode, u);
            d.scanned && !d.pending ==> (Enabled(s.root, Done(s, part).config, port) <==> d.known[u])
  {
    hide Finished, Enabled, Independent;
    var cmds: seq<seq<Command>> := CommandsOf(s, part.es);
    var port := PortForDrive(s.channels[i].mode, u);
    assert InStep(s, i);
    DrivenLast(s.root, s.channels[i], part.es[i], u, Enabled(s.root, s.config, port));
    assert HasPort(s.channels[i].mode, port);
    forall t, j | 0 <= t < |cmds| && t != i && 0 <= j < |cmds[t]|
      ensures cmds[t][j].port != port
    {
      DrivenOwn(s.root, s.channels[t], part.es[t]);
      assert cmds[t][j] in cmds[t] && !HasPort(s.channels[t].mode, port);
    }
    InterleavedCommands(s.root, s.config, cmds, part.schedule, i, port);
  }

  lemma TogetherIsInStep(s: Controller, part: Part, i: nat)
    requires Inv(s) && part.Together? && Possible(s, part) && i < |s.channels|
    ensures InStep(Done(s, part), i)
  {
    hide Finished, Enabled, Independent, HasPort;
    DrivenShape(s.root, s.channels[i], part.es[i]);
    var mode := s.channels[i].mode;
    forall u | 0 <= u < MaxDriveUnits(mode) && PortForDrive(mode, u) < PORT_X
      ensures var d := Done(s, part).channels[i];
              d.scanned && !d.pending ==> (Enabled(s.root, Done(s, part).config, PortForDrive(mode, u)) <==> d.known[u])
    {
      TogetherInStep(s, part, i, u);
    }
  }

  lemma DoneInv(s: Controller, part: Part)
    requires Inv(s) && Possible(s, part)
    ensures Inv(Done(s, part)) && |Done(s, part).channels| == |s.channels|
  {
    hide Finished, Enabled, Independent, HasPort;
    match part
    case Lost(left) => NextInv(s, Lose(left));
    case Together(es, schedule) =>
      var s' := Done(s, part);
      forall i | 0 <= i < |es|
        ensures s'.channels[i].mode == s.channels[i].mode
        ensures forall u :: MaxDriveUnits(s.channels[i].mode) <= u < MAX_DRIVES ==> !s'.channels[i].known[u]
      {
        DrivenShape(s.root, s.channels[i], es[i]);
      }
      forall i | 0 <= i < |es|
        ensures InStep(s', i)
      {
        TogetherIsInStep(s, part, i);
      }
  }

  ghost predicate AllPossible(s: Controller, parts: seq<Part>)
    decreases |parts|
  {
    parts != [] ==> Possible(s, parts[0]) && AllPossible(Done(s, parts[0]), parts[1..])
  }

  ghost function DoneAll(s: Controller, parts: seq<Part>): Controller
    requires AllPossible(s, parts)
    decreases |parts|
  {
    if parts == [] then s else DoneAll(Done(s, parts[0]), parts[1..])
  }

  lemma {:induction false} PartsInv(s: Controller, parts: seq<Part>)
    requires Inv(s) && AllPossible(s, parts)
    ensures Inv(DoneAll(s, parts)) && |DoneAll(s, parts).channels| == |s.channels|
    decreases |parts|
  {
    hide Inv, Possible, Done;
    if parts != [] {
      DoneInv(s, parts[0]);
      PartsInv(Done(s, parts[0]), parts[1..]);
    }
  }

  /** The same with both drivers at work at the same time, and the context lost any number
      of times in between. */
  lemma InterleavedDrivers(s: Controller, parts: seq<Part>, name: Wrappers.Option<SataPorts.Controller>,
                           register: bv8, i: nat, u: nat)
    requires Fresh(s, name, register) && AllPossible(s, parts)
    requires i < 2
    ensures var r := DoneAll(s, parts);
            && |r.channels| == 2
            && var c := r.channels[i];
               c.scanned && !c.pending && u < MaxDriveUnits(c.mode) ==>
                 PortForDrive(c.mode, u) < PORT_X
                 && (Enabled(r.root, r.config, PortForDrive(c.mode, u)) <==> c.known[u])
  {
    FreshInv(s, name, register);
    PartsInv(s, parts);
  }
}
