/** The Serial ATA channel driver: the bus scan and the power transitions that keep the
    port enable bits in step with the drive table. */
module IchSata {
  import opened PciConfig
  import opened SataPorts

  const MAX_DRIVES := 2

  /** A flag for each drive unit. */
  type Units = u: seq<bool> | |u| == MAX_DRIVES witness [false, false]

  // ----- the commands of a scan and of a power transition -----

  /** Commands for the units of a channel from `unit` up. */
  function SetUnits(mode: ChannelMode, on: Units, unit: nat): seq<Command>
    decreases MaxDriveUnits(mode) - unit
  {
    if unit >= MaxDriveUnits(mode) then []
    else [Command(PortForDrive(mode, unit), on[unit])] + SetUnits(mode, on, unit + 1)
  }

  /** Disable, then enable, every port of the channel. */
  function ResetCommands(mode: ChannelMode, rounds: nat): seq<Command> {
    if rounds == 0 then []
    else ResetCommands(mode, rounds - 1) + SetUnits(mode, [false, false], 0) + SetUnits(mode, [true, true], 0)
  }

  /** Disable the ports of unknown drives. */
  function UnusedOff(mode: ChannelMode, known: Units, unit: nat): seq<Command>
    decreases MaxDriveUnits(mode) - unit
  {
    if unit >= MaxDriveUnits(mode) then []
    else (if known[unit] then [] else [Command(PortForDrive(mode, unit), false)]) + UnusedOff(mode, known, unit + 1)
  }

  /** The status register is polled every 10 ms; `busy(i)` is what poll `i` reads.  The
      channel is reset before poll 0, 100, 200 and 300, until a poll is not busy. */
  function RoundsFrom(busy: nat -> bool, poll: nat): nat
    decreases 301 - poll
  {
    if poll > 300 then 0
    else (if poll % 100 == 0 then 1 else 0) + if busy(poll) then RoundsFrom(busy, poll + 1) else 0
  }

  lemma RoundsStep(busy: nat -> bool, poll: nat)
    ensures RoundsFrom(busy, poll)
         == if poll > 300 then 0
            else (if poll % 100 == 0 then 1 else 0) + if busy(poll) then RoundsFrom(busy, poll + 1) else 0
  {
  }

  /** At least one reset round, and at most four. */
  lemma {:induction false} RoundsBound(busy: nat -> bool, poll: nat)
    requires poll <= 301
    ensures RoundsFrom(busy, poll) <= (400 - poll) / 100
    ensures poll % 100 == 0 && poll <= 300 ==> RoundsFrom(busy, poll) >= 1
    decreases 301 - poll
  {
    if poll <= 300 {
      RoundsBound(busy, poll + 1);
    }
  }

  lemma SecondBegins(poll: nat)
    ensures (poll + 100) / 100 == (poll + 99) / 100 + if poll % 100 == 0 then 1 else 0
    ensures poll / 100 - (poll + 99) / 100 + 1 == if poll % 100 == 0 then 1 else 0
  {
  }

  /** Polling stops at the first poll that is not busy: one round for each second begun. */
  lemma {:induction false} RoundsExact(busy: nat -> bool, from: nat, last: nat)
    requires from <= last <= 300 && forall i :: from <= i < last ==> busy(i)
    requires !busy(last) || last == 300
    ensures RoundsFrom(busy, from) == last / 100 - (from + 99) / 100 + 1
    decreases last - from
  {
    hide RoundsFrom;
    RoundsStep(busy, from);
    SecondBegins(from);
    if from < last {
      RoundsExact(busy, from + 1, last);
    } else {
      RoundsStep(busy, 301);
    }
  }

  function Present(root: Root, seen: Config, port: nat): bool {
    port < PORT_X && root.serial &&
    var bits := root.Ports()[port];
    seen[bits.presenceOffset] & bits.presenceMask != 0
  }

  /** What is left of the drives that the bus scan found: those of units the channel has,
      whose port reports a device. */
  function Confirmed(root: Root, mode: ChannelMode, found: Units, seen: Config): Units {
    seq(MAX_DRIVES, u requires 0 <= u < MAX_DRIVES =>
      found[u] && u < MaxDriveUnits(mode) && Present(root, seen, PortForDrive(mode, u)))
  }

  /** The presence bits of a port, as the register at the offset of its map entry has them. */
  function PresenceBits(root: Root, seen: Config, port: nat): bv8
    requires port < PORT_X
  {
    seen[root.Ports()[port].presenceOffset] & root.Ports()[port].presenceMask
  }

  /** The drives that a scan leaves known, in the bits of the registers: those found, in a
      unit that the channel has, on a real port whose presence bit is set. */
  lemma ConfirmedDrives(root: Root, mode: ChannelMode, found: Units, seen: Config, u: nat)
    requires u < MAX_DRIVES
    ensures Confirmed(root, mode, found, seen)[u]
       <==> && root.serial && found[u] && u < MaxDriveUnits(mode) && PortForDrive(mode, u) < 4
            && PresenceBits(root, seen, PortForDrive(mode, u)) != 0
  {
  }

  function ScanCommands(mode: ChannelMode, rounds: nat, known: Units): seq<Command> {
    ResetCommands(mode, rounds) + UnusedOff(mode, known, 0)
  }

  // ----- what they come to -----

  lemma {:induction false} LastCommandConcat(a: seq<Command>, b: seq<Command>, port: nat, was: bool)
    ensures LastCommand(a + b, port, was) == LastCommand(b, port, LastCommand(a, port, was))
    decreases |a|
  {
    if a == [] {
      assert a + b == b;
    } else {
      assert (a + b)[1..] == a[1..] + b;
      LastCommandConcat(a[1..], b, port, if a[0].port == port then a[0].enable else was);
    }
  }

  lemma {:induction false} CommandWritesConcat(root: Root, a: seq<Command>, b: seq<Command>)
    ensures CommandWrites(root, a + b) == CommandWrites(root, a) + CommandWrites(root, b)
    decreases |a|
  {
    if a == [] {
      assert a + b == b && [] + CommandWrites(root, b) == CommandWrites(root, b);
    } else {
      assert (a + b)[1..] == a[1..] + b;
      CommandWritesConcat(root, a[1..], b);
    }
  }

  lemma CommandsConcat(root: Root, c: Config, a: seq<Command>, b: seq<Command>)
    ensures Commanded(root, c, a + b) == Commanded(root, Commanded(root, c, a), b)
  {
    CommandWritesConcat(root, a, b);
    ApplyAllConcat(c, CommandWrites(root, a), CommandWrites(root, b));
  }

  lemma OneCommand(root: Root, c: Config, port: nat, enable: bool)
    ensures Commanded(root, c, [Command(port, enable)])
         == if port < PORT_X && root.serial then Apply(c, PortWrites(root, port, enable)[0]) else c
  {
    var cmds, ws := [Command(port, enable)], PortWrites(root, port, enable);
    assert cmds[1..] == [] && CommandWrites(root, cmds) == ws + [] == ws;
    if ws != [] {
      assert ws[1..] == [] && ApplyAll(Apply(c, ws[0]), []) == Apply(c, ws[0]);
    }
  }

  lemma NoCommands(root: Root, c: Config)
    ensures Commanded(root, c, []) == c
  {
  }

  lemma NoResets(root: Root, c: Config, mode: ChannelMode)
    ensures Commanded(root, c, ResetCommands(mode, 0)) == c
  {
  }

  /** A port of the channel is left as its unit says. */
  lemma SetUnitsLast(mode: ChannelMode, on: Units, u: nat, was: bool)
    requires u < MaxDriveUnits(mode) && PortForDrive(mode, u) < PORT_X
    ensures LastCommand(SetUnits(mode, on, 0), PortForDrive(mode, u), was) == on[u]
  {
    var first := [Command(PortForDrive(mode, 0), on[0])];
    var second := SetUnits(mode, on, 1);
    assert SetUnits(mode, on, 2) == [];
    assert second == if MaxDriveUnits(mode) == 2 then [Command(PortForDrive(mode, 1), on[1])] else [];
    assert SetUnits(mode, on, 0) == first + second;
    LastCommandConcat(first, second, PortForDrive(mode, u), was);
  }

  lemma UnusedOffLast(mode: ChannelMode, known: Units, u: nat, was: bool)
    requires u < MaxDriveUnits(mode) && PortForDrive(mode, u) < PORT_X
    ensures LastCommand(UnusedOff(mode, known, 0), PortForDrive(mode, u), was) == (known[u] && was)
  {
    var port := PortForDrive(mode, u);
    var second := UnusedOff(mode, known, 1);
    assert UnusedOff(mode, known, 2) == [];
    assert second == if MaxDriveUnits(mode) == 2 && !known[1] then [Command(PortForDrive(mode, 1), false)] else [];
    var first := if known[0] then [] else [Command(PortForDrive(mode, 0), false)];
    assert UnusedOff(mode, known, 0) == first + second;
    LastCommandConcat(first, second, port, was);
  }

  lemma {:induction false} ResetLast(mode: ChannelMode, rounds: nat, u: nat, was: bool)
    requires rounds >= 1 && u < MaxDriveUnits(mode) && PortForDrive(mode, u) < PORT_X
    ensures LastCommand(ResetCommands(mode, rounds), PortForDrive(mode, u), was)
  {
    var before := ResetCommands(mode, rounds - 1) + SetUnits(mode, [false, false], 0);
    var port := PortForDrive(mode, u);
    LastCommandConcat(before, SetUnits(mode, [true, true], 0), port, was);
    SetUnitsLast(mode, [true, true], u, LastCommand(before, port, was));
  }

  /** After a scan with at least one reset round, exactly the ports of the known drives
      are enabled. */
  lemma ScanLast(mode: ChannelMode, rounds: nat, known: Units, u: nat, was: bool)
    requires rounds >= 1 && u < MaxDriveUnits(mode) && PortForDrive(mode, u) < PORT_X
    ensures LastCommand(ScanCommands(mode, rounds, known), PortForDrive(mode, u), was) == known[u]
  {
    var port := PortForDrive(mode, u);
    ResetLast(mode, rounds, u, was);
    LastCommandConcat(ResetCommands(mode, rounds), UnusedOff(mode, known, 0), port, was);
    UnusedOffLast(mode, known, u, true);
  }

  /** In a scan no port of the channel is switched on that was not switched off before: the
      last command on it was an off command. */
  ghost predicate OffFirst(cmds: seq<Command>, port: nat, was: bool) {
    forall b :: 0 <= b < |cmds| && cmds[b] == Command(port, true) ==> !LastCommand(cmds[..b], port, was)
  }

  lemma OffFirstJoin(a: seq<Command>, b: seq<Command>, port: nat, was: bool)
    requires OffFirst(a, port, was) && OffFirst(b, port, LastCommand(a, port, was))
    ensures OffFirst(a + b, port, was)
  {
    forall i | 0 <= i < |a + b| && (a + b)[i] == Command(port, true)
      ensures !LastCommand((a + b)[..i], port, was)
    {
      if i < |a| {
        assert (a + b)[..i] == a[..i];
      } else {
        assert (a + b)[..i] == a + b[..i - |a|];
        LastCommandConcat(a, b[..i - |a|], port, was);
      }
    }
  }

  lemma {:induction false} NoneOn(mode: ChannelMode, on: Units, unit: nat)
    ensures forall cmd :: cmd in UnusedOff(mode, on, unit) ==> !cmd.enable
    ensures on == [false, false] ==> forall cmd :: cmd in SetUnits(mode, on, unit) ==> !cmd.enable
    decreases MaxDriveUnits(mode) - unit
  {
    if unit < MaxDriveUnits(mode) {
      NoneOn(mode, on, unit + 1);
    }
  }

  lemma SetUnitsOff(mode: ChannelMode, port: nat, was: bool)
    ensures OffFirst(SetUnits(mode, [false, false], 0), port, was)
  {
    NoneOn(mode, [false, false], 0);
  }

  lemma SetUnitsOn(mode: ChannelMode, u: nat)
    requires u < MaxDriveUnits(mode) && PortForDrive(mode, u) < PORT_X
    ensures OffFirst(SetUnits(mode, [true, true], 0), PortForDrive(mode, u), false)
    ensures Command(PortForDrive(mode, u), true) in SetUnits(mode, [true, true], 0)
  {
    var first, second := [Command(PortForDrive(mode, 0), true)], SetUnits(mode, [true, true], 1);
    var port := PortForDrive(mode, u);
    assert SetUnits(mode, [true, true], 2) == [];
    assert second == if MaxDriveUnits(mode) == 2 then [Command(PortForDrive(mode, 1), true)] else [];
    assert SetUnits(mode, [true, true], 0) == first + second;
    if |second| == 1 {
      UnitsHaveTheirOwnPort(mode, u, 1 - u);
      assert (first + second)[..0] == [] && (first + second)[..1] == first;
    }
  }

  lemma NothingGoesOn(port: nat, was: bool)
    ensures OffFirst([], port, was)
  {
  }

  lemma OnlyOffCommands(cmds: seq<Command>, port: nat, was: bool)
    requires forall cmd :: cmd in cmds ==> !cmd.enable
    ensures OffFirst(cmds, port, was)
  {
  }

  /** Each reset round switches every port of the channel off and then on, and nothing else
      in a scan switches a port on. */
  lemma {:induction false} ResetIsOffThenOn(mode: ChannelMode, rounds: nat, known: Units, u: nat, was: bool)
    requires u < MaxDriveUnits(mode) && PortForDrive(mode, u) < PORT_X
    ensures OffFirst(ResetCommands(mode, rounds), PortForDrive(mode, u), was)
    ensures OffFirst(ScanCommands(mode, rounds, known), PortForDrive(mode, u), was)
    ensures rounds > 0 ==> Command(PortForDrive(mode, u), true) in ScanCommands(mode, rounds, known)
  {
    hide OffFirst, SetUnits, UnusedOff;
    var port := PortForDrive(mode, u);
    if rounds == 0 {
      assert OffFirst([], port, was) by { NothingGoesOn(port, was); }
    } else {
      var before, off, on := ResetCommands(mode, rounds - 1), SetUnits(mode, [false, false], 0), SetUnits(mode, [true, true], 0);
      ResetIsOffThenOn(mode, rounds - 1, known, u, was);
      SetUnitsOff(mode, port, LastCommand(before, port, was));
      OffFirstJoin(before, off, port, was);
      SetUnitsLast(mode, [false, false], u, LastCommand(before, port, was));
      LastCommandConcat(before, off, port, was);
      SetUnitsOn(mode, u);
      OffFirstJoin(before + off, on, port, was);
    }
    NoneOn(mode, known, 0);
    OnlyOffCommands(UnusedOff(mode, known, 0), port, LastCommand(ResetCommands(mode, rounds), port, was));
    OffFirstJoin(ResetCommands(mode, rounds), UnusedOff(mode, known, 0), port, was);
  }

  /** All commands are on ports of the channel. */
  ghost predicate OnlyOwn(mode: ChannelMode, cmds: seq<Command>) {
    forall cmd :: cmd in cmds ==> cmd.port >= PORT_X || HasPort(mode, cmd.port)
  }

  lemma {:induction false} SetUnitsOwn(mode: ChannelMode, on: Units, unit: nat)
    ensures OnlyOwn(mode, SetUnits(mode, on, unit)) && OnlyOwn(mode, UnusedOff(mode, on, unit))
    decreases MaxDriveUnits(mode) - unit
  {
    if unit < MaxDriveUnits(mode) {
      SetUnitsOwn(mode, on, unit + 1);
    }
  }

  lemma OwnConcat(mode: ChannelMode, a: seq<Command>, b: seq<Command>)
    requires OnlyOwn(mode, a) && OnlyOwn(mode, b)
    ensures OnlyOwn(mode, a + b)
  {
    hide HasPort;
  }

  lemma NoUnits(mode: ChannelMode)
    ensures SetUnits(mode, [true, true], MaxDriveUnits(mode)) == []
  {
  }

  lemma {:induction false} ResetOwn(mode: ChannelMode, rounds: nat)
    ensures OnlyOwn(mode, ResetCommands(mode, rounds))
  {
    hide OnlyOwn, SetUnits;
    if rounds == 0 {
      assert OnlyOwn(mode, []) by { SetUnitsOwn(mode, [true, true], MaxDriveUnits(mode)); NoUnits(mode); }
    } else {
      var off, on := SetUnits(mode, [false, false], 0), SetUnits(mode, [true, true], 0);
      ResetOwn(mode, rounds - 1);
      SetUnitsOwn(mode, [false, false], 0);
      SetUnitsOwn(mode, [true, true], 0);
      OwnConcat(mode, ResetCommands(mode, rounds - 1), off);
      OwnConcat(mode, ResetCommands(mode, rounds - 1) + off, on);
    }
  }

  lemma ScanOwn(mode: ChannelMode, rounds: nat, known: Units)
    ensures OnlyOwn(mode, ScanCommands(mode, rounds, known))
  {
    hide OnlyOwn, SetUnits, UnusedOff, ResetCommands;
    ResetOwn(mode, rounds);
    SetUnitsOwn(mode, known, 0);
    OwnConcat(mode, ResetCommands(mode, rounds), UnusedOff(mode, known, 0));
  }

  function Count(u: Units): nat {
    (if u[0] then 1 else 0) + if u[1] then 1 else 0
  }

  /** The drives that the bus scan found and the port status struck out. */
  function StruckOut(found: Units, known: Units): Units {
    seq(MAX_DRIVES, u requires 0 <= u < MAX_DRIVES => found[u] && !known[u])
  }

  /** The scan returns the number `count` of the bus scan.  If that counts the drives
      found, it is too large by those struck out, and right if and only if there are none. */
  lemma ReturnedCount(root: Root, mode: ChannelMode, found: Units, seen: Config, count: nat)
    requires count == Count(found)
    ensures var known := Confirmed(root, mode, found, seen);
            && count == Count(known) + Count(StruckOut(found, known))
            && (count == Count(known) <==> known == found)
  {
    hide Present;
    var known := Confirmed(root, mode, found, seen);
    assert (known[0] ==> found[0]) && (known[1] ==> found[1]);
    assert known == [known[0], known[1]] && found == [found[0], found[1]];
  }

  // ----- the driver -----

  lemma OneByte(c: Config, offset: Offset, data: bv8, mask: bv8)
    ensures c[offset := Masked(c[offset], data, mask)] == Apply(c, Write(offset, [data], [mask]))
  {
    hide Masked;
    var w := Write(offset, [data], [mask]);
    assert Load(c, w) == [c[offset]];
    assert Merge([c[offset]], w) == [Masked(c[offset], data, mask)];
  }

  class AtaRoot {
    const root: Root
    var config: Config

    constructor (root: Root, config: Config)
      ensures this.root == root && this.config == config
    {
      this.root, this.config := root, config;
    }

    method PciConfigWrite8(offset: Offset, data: bv8, mask: bv8)
      modifies this
      ensures config == Apply(old(config), Write(offset, [data], [mask]))
    {
      var u8 := config[offset];
      u8 := u8 & !mask;
      u8 := u8 | (mask & data);
      config := config[offset := u8];
      OneByte(old(config), offset, data, mask);
    }

    method SetSerialATAPortEnable(port: nat, enable: bool)
      modifies this
      ensures config == Commanded(root, old(config), [Command(port, enable)])
    {
      OneCommand(root, config, port, enable);
      if port < PORT_X && root.serial {
        var bits := root.Ports()[port];
        PciConfigWrite8(bits.enableOffset, if enable then bits.enableMask else 0, bits.enableMask);
      }
    }
  }

  class SataChannel {
    const provider: AtaRoot
    const mode: ChannelMode
    var known: Units
    var initPortEnable: bool

    constructor (provider: AtaRoot, mode: ChannelMode)
      ensures this.provider == provider && this.mode == mode && known == [false, false] && !initPortEnable
    {
      this.provider, this.mode := provider, mode;
      known, initPortEnable := [false, false], false;
    }

    /** Set the ports of all units. */
    method SetPorts(on: Units)
      modifies provider
      ensures provider.config == Commanded(provider.root, old(provider.config), SetUnits(mode, on, 0))
    {
      hide Commanded;
      ghost var root, c := provider.root, provider.config;
      ghost var done: seq<Command> := [];
      NoCommands(root, c);
      var i := 0;
      while i < MaxDriveUnits(mode)
        invariant 0 <= i <= MaxDriveUnits(mode)
        invariant done + SetUnits(mode, on, i) == SetUnits(mode, on, 0)
        invariant provider.config == Commanded(root, c, done)
      {
        var cmd := Command(PortForDrive(mode, i), on[i]);
        CommandsConcat(root, c, done, [cmd]);
        provider.SetSerialATAPortEnable(cmd.port, cmd.enable);
        assert done + SetUnits(mode, on, i) == done + [cmd] + SetUnits(mode, on, i + 1);
        done := done + [cmd];
        i := i + 1;
      }
      assert done + [] == done;
    }

    /** One round of the reset loop. */
    method ResetRound(ghost c: Config, ghost rounds: nat)
      requires provider.config == Commanded(provider.root, c, ResetCommands(mode, rounds))
      modifies provider
      ensures provider.config == Commanded(provider.root, c, ResetCommands(mode, rounds + 1))
    {
      hide Commanded, SetUnits;
      ghost var off, on := SetUnits(mode, [false, false], 0), SetUnits(mode, [true, true], 0);
      CommandsConcat(provider.root, c, ResetCommands(mode, rounds), off);
      CommandsConcat(provider.root, c, ResetCommands(mode, rounds) + off, on);
      SetPorts([false, false]);
      SetPorts([true, true]);
    }

    /** The reset loop; `busy(i)` is what poll `i` of the status register reads. */
    method ResetPorts(busy: nat -> bool)
      modifies provider
      ensures provider.config == Commanded(provider.root, old(provider.config), ResetCommands(mode, RoundsFrom(busy, 0)))
    {
      hide Commanded, ResetCommands, RoundsFrom;
      ghost var c, rounds := provider.config, 0;
      NoResets(provider.root, c, mode);
      var poll := 0;
      while poll <= 300
        invariant 0 <= poll <= 301
        invariant rounds + RoundsFrom(busy, poll) == RoundsFrom(busy, 0)
        invariant provider.config == Commanded(provider.root, c, ResetCommands(mode, rounds))
      {
        RoundsStep(busy, poll);
        if poll % 100 == 0 {
          ResetRound(c, rounds);
          rounds := rounds + 1;
        }
        if !busy(poll) {
          break;
        }
        poll := poll + 1;
      }
      RoundsStep(busy, 301);
    }

    /** Drives whose port reports no device are taken for unknown. */
    method ConfirmDrives(found: Units, seen: Config)
      modifies `known
      ensures known == Confirmed(provider.root, mode, found, seen)
    {
      known := found;
      for unit := 0 to MAX_DRIVES
        invariant forall u :: 0 <= u < MAX_DRIVES ==>
          known[u] == if u < unit then Confirmed(provider.root, mode, found, seen)[u] else found[u]
      {
        if known[unit] {
          if unit >= MaxDriveUnits(mode) || !Present(provider.root, seen, PortForDrive(mode, unit)) {
            known := known[unit := false];
          }
        }
      }
    }

    /** Turn off unused ports. */
    method DisableUnused()
      modifies provider
      ensures provider.config == Commanded(provider.root, old(provider.config), UnusedOff(mode, known, 0))
    {
      hide Commanded;
      ghost var root, c := provider.root, provider.config;
      ghost var done: seq<Command> := [];
      NoCommands(root, c);
      var unit := 0;
      while unit < MaxDriveUnits(mode)
        invariant 0 <= unit <= MaxDriveUnits(mode)
        invariant done + UnusedOff(mode, known, unit) == UnusedOff(mode, known, 0)
        invariant provider.config == Commanded(root, c, done)
      {
        if !known[unit] {
          ghost var cmd := Command(PortForDrive(mode, unit), false);
          CommandsConcat(root, c, done, [cmd]);
          provider.SetSerialATAPortEnable(PortForDrive(mode, unit), false);
          assert done + UnusedOff(mode, known, unit) == done + [cmd] + UnusedOff(mode, known, unit + 1);
          done := done + [cmd];
        } else {
          assert UnusedOff(mode, known, unit) == UnusedOff(mode, known, unit + 1);
        }
        unit := unit + 1;
      }
      assert done + [] == done;
    }

    /** The scan.  The bus scan of the superclass finds `found` and counts `count`; `seen`
        is what the registers then show. */
    method ScanForDrives(busy: nat -> bool, found: Units, count: nat, seen: Config) returns (unitsFound: nat)
      modifies this, provider
      ensures known == Confirmed(provider.root, mode, found, seen)
      ensures provider.root.serial ==>
                forall u :: 0 <= u < MAX_DRIVES ==>
                  (known[u] <==>
                     && found[u] && u < MaxDriveUnits(mode) && PortForDrive(mode, u) < 4
                     && PresenceBits(provider.root, seen, PortForDrive(mode, u)) != 0)
      ensures provider.config
           == Commanded(provider.root, old(provider.config), ScanCommands(mode, RoundsFrom(busy, 0), known))
      ensures unitsFound == count && initPortEnable == old(initPortEnable)
      ensures count == Count(found) ==> (unitsFound == Count(known) <==> known == found)
    {
      hide Commanded, ResetCommands, UnusedOff, RoundsFrom, Confirmed, Count, PresenceBits;
      ghost var c := provider.config;
      ResetPorts(busy);
      unitsFound := count;
      ConfirmDrives(found, seen);
      DisableUnused();
      ConfirmedDrives(provider.root, mode, found, seen, 0);
      ConfirmedDrives(provider.root, mode, found, seen, 1);
      if count == Count(found) {
        ReturnedCount(provider.root, mode, found, seen, count);
      }
      CommandsConcat(provider.root, c, ResetCommands(mode, RoundsFrom(busy, 0)), UnusedOff(mode, known, 0));
    }

    /** A power transition, to the off state or to another. */
    method SetPowerState(off: bool)
      modifies this, provider
      ensures known == old(known) && initPortEnable == off
      ensures provider.config
           == Commanded(provider.root, old(provider.config),
                        if !off && old(initPortEnable) then SetUnits(mode, known, 0) else [])
    {
      hide Commanded, SetUnits;
      NoCommands(provider.root, provider.config);
      if off {
        initPortEnable := true;
      } else if initPortEnable {
        SetPorts(known);
        initPortEnable := false;
      }
    }
  }
}
