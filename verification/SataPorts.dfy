/** Channel modes, drive units and ports of the Serial ATA controllers, and the masked
    writes that switch a port on or off. */
module SataPorts {
  import opened Wrappers
  import opened PciConfig

  datatype ChannelMode =
    | Disabled | PATA
    | SATAPort0 | SATAPort1 | SATAPort01 | SATAPort10 | SATAPort02 | SATAPort13

  /** The port that no drive has. */
  const PORT_X := 4

  /** `gChannelModeTable`. */
  function MaxDriveUnits(mode: ChannelMode): (n: nat)
    ensures n <= 2
  {
    match mode
    case Disabled => 0
    case SATAPort0 => 1
    case SATAPort1 => 1
    case _ => 2
  }

  function PortForDrive(mode: ChannelMode, unit: nat): (p: nat)
    ensures p <= PORT_X
  {
    if unit >= 2 then PORT_X
    else
      match mode
      case Disabled => PORT_X
      case PATA => PORT_X
      case SATAPort0 => if unit == 0 then 0 else PORT_X
      case SATAPort1 => if unit == 0 then 1 else PORT_X
      case SATAPort01 => if unit == 0 then 0 else 1
      case SATAPort10 => if unit == 0 then 1 else 0
      case SATAPort02 => if unit == 0 then 0 else 2
      case SATAPort13 => if unit == 0 then 1 else 3
  }

  datatype Controller = ICH5 | ICH6 | ESB2 | ICH6M | ICH7M | OtherName

  /** The tables indexed by the Port Mapping register. */
  function Ich5Modes(value: nat): (ChannelMode, ChannelMode)
    requires value < 8
  {
    match value
    case 0 => (SATAPort0, SATAPort1)
    case 1 => (SATAPort1, SATAPort0)
    case 4 => (SATAPort01, PATA)
    case 5 => (SATAPort10, PATA)
    case 6 => (PATA, SATAPort01)
    case 7 => (PATA, SATAPort10)
    case _ => (Disabled, Disabled)
  }

  function Ich6Modes(value: nat, mobile: bool): (ChannelMode, ChannelMode)
    requires value < 4
  {
    var second := if mobile then Disabled else SATAPort13;
    match value
    case 0 => (SATAPort02, second)
    case 1 => (PATA, second)
    case 2 => (SATAPort02, PATA)
    case _ => (Disabled, Disabled)
  }

  /** The modes of the two channels.  `name` is None when the driver personality gives
      no controller name. */
  function ChannelModes(serial: bool, name: Option<Controller>, register: bv8): (ChannelMode, ChannelMode) {
    if !serial then (PATA, PATA)
    else if name.None? then (Disabled, Disabled)
    else
      match name.value
      case ICH5 => Ich5Modes((register & 7) as nat)
      case ICH6M => Ich6Modes((register & 3) as nat, true)
      case ICH7M => Ich6Modes((register & 3) as nat, true)
      case _ => Ich6Modes((register & 3) as nat, false)
  }

  /** The ports that a channel's drive units have. */
  ghost predicate HasPort(mode: ChannelMode, port: nat) {
    port < PORT_X && exists unit :: 0 <= unit < MaxDriveUnits(mode) && PortForDrive(mode, unit) == port
  }

  /** Whatever the controller and its mapping register, the channels share no port, and
      the units of a channel have different ports. */
  lemma ChannelsShareNoPort(serial: bool, name: Option<Controller>, register: bv8, port: nat)
    ensures var modes := ChannelModes(serial, name, register);
            !(HasPort(modes.0, port) && HasPort(modes.1, port))
  {
    var modes := ChannelModes(serial, name, register);
    if name.Some? && name.value == ICH5 {
      assert modes in {(SATAPort0, SATAPort1), (SATAPort1, SATAPort0), (SATAPort01, PATA), (SATAPort10, PATA),
                       (PATA, SATAPort01), (PATA, SATAPort10), (Disabled, Disabled), (PATA, PATA)};
    }
  }

  lemma UnitsHaveTheirOwnPort(mode: ChannelMode, u: nat, v: nat)
    requires u < MaxDriveUnits(mode) && v < MaxDriveUnits(mode) && PortForDrive(mode, u) < PORT_X
    ensures PortForDrive(mode, u) == PortForDrive(mode, v) <==> u == v
  {
  }

  // ----- the enable bits -----

  /** A register of the configuration space, and bits in it. */
  type Offset = n: nat | n < CONFIG_SIZE
  datatype PortBits = PortBits(enableOffset: Offset, enableMask: bv8, presenceOffset: Offset, presenceMask: bv8)

  /** Port control and status register, at 0x92. */
  function DefaultPortMap(): seq<PortBits> {
    [PortBits(0x92, 0x01, 0x92, 0x10),
     PortBits(0x92, 0x02, 0x92, 0x20),
     PortBits(0x92, 0x04, 0x92, 0x40),
     PortBits(0x92, 0x08, 0x92, 0x80)]
  }

  /** The map in force: the `PCS Port Map` property, if it has the right size. */
  function PortMap(property: Option<seq<PortBits>>): (table: seq<PortBits>)
    ensures |table| == PORT_X
  {
    if property.Some? && |property.value| == PORT_X then property.value else DefaultPortMap()
  }

  /** The root's own circumstances, that do not change. */
  datatype Root = Root(serial: bool, property: Option<seq<PortBits>>) {
    function Ports(): (table: seq<PortBits>)
      ensures |table| == PORT_X
    {
      PortMap(property)
    }
  }

  /** Ports have bits, and no bit in common. */
  ghost predicate Independent(table: seq<PortBits>) {
    && (forall p :: 0 <= p < |table| ==> table[p].enableMask != 0)
    && (forall p, q :: 0 <= p < |table| && 0 <= q < |table| && p != q ==>
          table[p].enableOffset == table[q].enableOffset ==> table[p].enableMask & table[q].enableMask == 0)
  }

  lemma DefaultIsIndependent()
    ensures Independent(DefaultPortMap())
  {
    assert 0x01 as bv8 & 0x02 == 0 && 0x01 as bv8 & 0x04 == 0 && 0x01 as bv8 & 0x08 == 0;
    assert 0x02 as bv8 & 0x04 == 0 && 0x02 as bv8 & 0x08 == 0 && 0x04 as bv8 & 0x08 == 0;
  }

  function EnableBits(root: Root, port: nat): Bits
    requires port < PORT_X
  {
    Bits(root.Ports()[port].enableOffset, root.Ports()[port].enableMask)
  }

  predicate Enabled(root: Root, c: Config, port: nat)
    requires port < PORT_X
  {
    var b := EnableBits(root, port);
    c[b.at] & b.m != 0
  }

  /** `setSerialATAPortEnable`: nothing for the port that no drive has, or when the
      controller is not a Serial ATA controller. */
  function PortWrites(root: Root, port: nat, enable: bool): (ws: seq<Write>)
    ensures AllValid(ws) && |ws| <= 1
  {
    if port >= PORT_X || !root.serial then []
    else
      var bits := root.Ports()[port];
      [Write(bits.enableOffset, [if enable then bits.enableMask else 0], [bits.enableMask])]
  }

  datatype Command = Command(port: nat, enable: bool)

  /** A run of port commands. */
  function CommandWrites(root: Root, cmds: seq<Command>): (ws: seq<Write>)
    ensures AllValid(ws)
  {
    if cmds == [] then [] else PortWrites(root, cmds[0].port, cmds[0].enable) + CommandWrites(root, cmds[1..])
  }

  /** The plain map from ports to their state: the last command on the port decides. */
  function LastCommand(cmds: seq<Command>, port: nat, was: bool): bool {
    if cmds == [] then was
    else LastCommand(cmds[1..], port, if cmds[0].port == port then cmds[0].enable else was)
  }

  lemma SamePort(root: Root, port: nat, enable: bool, was: bv8)
    requires Independent(root.Ports()) && port < PORT_X && root.serial
    ensures var b, ws := EnableBits(root, port), PortWrites(root, port, enable);
            Whole(ws, b) && (Last(ws, b, was) != 0 <==> enable)
  {
    var b, ws := EnableBits(root, port), PortWrites(root, port, enable);
    assert b.m & b.m == b.m;
    assert Sets(ws[0], b);
    assert Last(ws, b, was) == Last(ws[1..], b, ws[0].data[0] & b.m);
  }

  lemma OtherPort(root: Root, cmd: Command, port: nat, was: bv8)
    requires Independent(root.Ports()) && port < PORT_X && root.serial && cmd.port != port
    ensures var b, ws := EnableBits(root, port), PortWrites(root, cmd.port, cmd.enable);
            AllLeave(ws, b) && Last(ws, b, was) == was
  {
    var b, ws := EnableBits(root, port), PortWrites(root, cmd.port, cmd.enable);
    if cmd.port < PORT_X {
      var other := EnableBits(root, cmd.port);
      assert root.Ports()[cmd.port].enableOffset == root.Ports()[port].enableOffset ==> other.m & b.m == 0;
      LeavesMeansUnset(ws[0], b, was);
      assert ws[1..] == [];
    }
  }

  /** The register refines the map: after any run of commands, however the writes of the
      enable bits are laid out, a port is enabled exactly if the last command on it said
      so, or if there was none and it was before. */
  lemma {:induction false} CommandsAreAMap(root: Root, cmds: seq<Command>, port: nat, was: bv8)
    requires Independent(root.Ports()) && port < PORT_X && root.serial
    ensures var b, ws := EnableBits(root, port), CommandWrites(root, cmds);
            Whole(ws, b) && (Last(ws, b, was) != 0 <==> LastCommand(cmds, port, was != 0))
    decreases |cmds|
  {
    if cmds != [] {
      var b, ws := EnableBits(root, port), PortWrites(root, cmds[0].port, cmds[0].enable);
      if cmds[0].port == port {
        SamePort(root, port, cmds[0].enable, was);
      } else {
        OtherPort(root, cmds[0], port, was);
      }
      CommandsAreAMap(root, cmds[1..], port, Last(ws, b, was));
      LastConcat(ws, CommandWrites(root, cmds[1..]), b, was);
    }
  }

  lemma {:induction false} OtherPortsAreLeft(root: Root, cmds: seq<Command>, port: nat)
    requires Independent(root.Ports()) && port < PORT_X && root.serial
    requires forall i :: 0 <= i < |cmds| ==> cmds[i].port != port
    ensures AllLeave(CommandWrites(root, cmds), EnableBits(root, port))
  {
    if cmds != [] {
      OtherPort(root, cmds[0], port, 0);
      OtherPortsAreLeft(root, cmds[1..], port);
    }
  }

  /** The bits belong to no port. */
  ghost predicate NoPortHas(root: Root, b: Bits) {
    forall p :: 0 <= p < PORT_X ==> EnableBits(root, p).at == b.at ==> EnableBits(root, p).m & b.m == 0
  }

  lemma {:induction false} OtherBitsUnwritten(root: Root, cmds: seq<Command>, b: Bits)
    requires b.at < CONFIG_SIZE && NoPortHas(root, b)
    ensures AllLeave(CommandWrites(root, cmds), b)
  {
    if cmds != [] {
      if cmds[0].port < PORT_X {
        assert EnableBits(root, cmds[0].port).at == b.at ==> EnableBits(root, cmds[0].port).m & b.m == 0;
      }
      OtherBitsUnwritten(root, cmds[1..], b);
    }
  }

  function Commanded(root: Root, c: Config, cmds: seq<Command>): Config {
    ApplyAll(c, CommandWrites(root, cmds))
  }

  lemma EnabledAfter(root: Root, c: Config, cmds: seq<Command>, port: nat)
    requires Independent(root.Ports()) && port < PORT_X && root.serial
    ensures Enabled(root, Commanded(root, c, cmds), port) <==> LastCommand(cmds, port, Enabled(root, c, port))
  {
    var b := EnableBits(root, port);
    CommandsAreAMap(root, cmds, port, c[b.at] & b.m);
    ApplyAllBits(c, CommandWrites(root, cmds), b);
  }

  lemma OtherBitsKept(root: Root, c: Config, cmds: seq<Command>, b: Bits)
    requires b.at < CONFIG_SIZE && NoPortHas(root, b)
    ensures Commanded(root, c, cmds)[b.at] & b.m == c[b.at] & b.m
  {
    if b.m != 0 {
      hide NoPortHas;
      var ws := CommandWrites(root, cmds);
      OtherBitsUnwritten(root, cmds, b);
      LeavesMeansLast(ws, b, c[b.at] & b.m);
      ApplyAllBits(c, ws, b);
    }
  }

  function Programs(root: Root, cmds: seq<seq<Command>>): (ps: seq<seq<Write>>)
    ensures |ps| == |cmds|
    ensures forall t :: 0 <= t < |ps| ==> ps[t] == CommandWrites(root, cmds[t]) && AllValid(ps[t])
  {
    seq(|cmds|, t requires 0 <= t < |cmds| => CommandWrites(root, cmds[t]))
  }

  /** Bits that no port has are what they were, after the commands of one driver and after
      those of any number of drivers under any schedule. */
  lemma OtherBitsAreLeft(root: Root, c: Config, cmds: seq<seq<Command>>, schedule: seq<nat>, b: Bits)
    requires b.at < CONFIG_SIZE && NoPortHas(root, b)
    requires forall i :: 0 <= i < |schedule| ==> schedule[i] < |cmds|
    requires Finished(Outcome(c, Programs(root, cmds), schedule))
    ensures forall t :: 0 <= t < |cmds| ==> Commanded(root, c, cmds[t])[b.at] & b.m == c[b.at] & b.m
    ensures Outcome(c, Programs(root, cmds), schedule).config[b.at] & b.m == c[b.at] & b.m
  {
    hide NoPortHas, Commanded, CommandWrites, Finished;
    forall t | 0 <= t < |cmds|
      ensures Commanded(root, c, cmds[t])[b.at] & b.m == c[b.at] & b.m
    {
      OtherBitsKept(root, c, cmds[t], b);
    }
    if cmds == [] {
      assert schedule == [];
    } else if b.m != 0 {
      var programs := Programs(root, cmds);
      forall t | 0 <= t < |cmds|
        ensures AllLeave(programs[t], b)
      {
        OtherBitsUnwritten(root, cmds[t], b);
      }
      LeavesMeansLast(programs[0], b, c[b.at] & b.m);
      OwnedBits(c, programs, schedule, 0, b);
    }
  }

  /** Two drivers, interleaved in any way at the level of reads and writes: each port is
      as the last command of the driver that has it says, whatever the other did. */
  lemma InterleavedCommands(root: Root, c: Config, cmds: seq<seq<Command>>, schedule: seq<nat>, t: nat, port: nat)
    requires Independent(root.Ports()) && port < PORT_X && root.serial && t < |cmds|
    requires forall i, j :: 0 <= i < |cmds| && i != t && 0 <= j < |cmds[i]| ==> cmds[i][j].port != port
    requires forall i :: 0 <= i < |schedule| ==> schedule[i] < |cmds|
    requires Finished(Outcome(c, Programs(root, cmds), schedule))
    ensures Enabled(root, Outcome(c, Programs(root, cmds), schedule).config, port)
       <==> LastCommand(cmds[t], port, Enabled(root, c, port))
  {
    var programs, b := Programs(root, cmds), EnableBits(root, port);
    CommandsAreAMap(root, cmds[t], port, c[b.at] & b.m);
    forall i | 0 <= i < |programs| && i != t
      ensures AllLeave(programs[i], b)
    {
      OtherPortsAreLeft(root, cmds[i], port);
    }
    OwnedBits(c, programs, schedule, t, b);
  }
}
