/** The Serial ATA driver in the bits of its registers: which ports the units of the two
    channels have, for each controller and value of the mapping register, and what a scan
    does to the port control and status register. */
module SataLaws {
  import opened Wrappers
  import opened PciConfig
  import opened SataPorts
  import opened IchSata

  /** The ports of a channel's units; 4 stands for no port. */
  function PortsOf(mode: ChannelMode): seq<nat> {
    seq(MaxDriveUnits(mode), u requires u >= 0 => PortForDrive(mode, u))
  }

  function Layout(name: Controller, register: bv8): (seq<nat>, seq<nat>) {
    var modes := ChannelModes(true, Some(name), register);
    (PortsOf(modes.0), PortsOf(modes.1))
  }

  /** The ports of each mode, in the order of the units. */
  lemma PortLists()
    ensures PortsOf(Disabled) == [] && PortsOf(PATA) == [4, 4]
    ensures PortsOf(SATAPort0) == [0] && PortsOf(SATAPort1) == [1]
    ensures PortsOf(SATAPort01) == [0, 1] && PortsOf(SATAPort10) == [1, 0]
    ensures PortsOf(SATAPort02) == [0, 2] && PortsOf(SATAPort13) == [1, 3]
  {
  }

  /** ICH5: bits 0 to 2 of the register. */
  lemma Ich5Layout(register: bv8)
    ensures Layout(ICH5, register)
         == (match register & 7
             case 0 => ([0], [1])
             case 1 => ([1], [0])
             case 4 => ([0, 1], [4, 4])
             case 5 => ([1, 0], [4, 4])
             case 6 => ([4, 4], [0, 1])
             case 7 => ([4, 4], [1, 0])
             case _ => ([], []))
  {
    PortLists();
  }

  /** All the others: bits 0 and 1.  The mobile ones have no ports 1 and 3. */
  lemma Ich6Layout(name: Controller, register: bv8)
    requires name != ICH5
    ensures Layout(name, register)
         == var second := if name in {ICH6M, ICH7M} then [] else [1, 3];
            (match register & 3
             case 0 => ([0, 2], second)
             case 1 => ([4, 4], second)
             case 2 => ([0, 2], [4, 4])
             case _ => ([], []))
  {
    PortLists();
  }

  /** Without a Serial ATA controller both channels are parallel; without a name, or with
      a reserved value of the register, both are disabled. */
  lemma NoLayout(name: Option<Controller>, register: bv8)
    ensures ChannelModes(false, name, register) == (PATA, PATA)
    ensures ChannelModes(true, None, register) == (Disabled, Disabled)
  {
  }

  /** The register at 0x92: bits 0 to 3 enable ports 0 to 3, ... */
  function EnableBit(port: nat): bv8
    requires port < 4
  {
    match port
    case 0 => 0x01
    case 1 => 0x02
    case 2 => 0x04
    case _ => 0x08
  }

  /** ... and bits 4 to 7 report a device on them. */
  function PresenceBit(port: nat): bv8
    requires port < 4
  {
    match port
    case 0 => 0x10
    case 1 => 0x20
    case 2 => 0x40
    case _ => 0x80
  }

  lemma DefaultBits(port: nat)
    requires port < 4
    ensures PortMap(None)[port] == PortBits(0x92, EnableBit(port), 0x92, PresenceBit(port))
  {
  }

  /** A map given as a property is used if it has an entry for each of the four ports. */
  lemma PropertyMap(table: seq<PortBits>)
    ensures PortMap(Some(table)) == if |table| == 4 then table else PortMap(None)
  {
  }

  lemma DefaultEnabled(c: Config, port: nat)
    requires port < 4
    ensures Enabled(Root(true, None), c, port) <==> c[0x92] & EnableBit(port) != 0
    ensures PresenceBits(Root(true, None), c, port) == c[0x92] & PresenceBit(port)
  {
    hide EnableBit, PresenceBit;
    DefaultBits(port);
  }

  lemma DefaultRoot()
    ensures Independent(Root(true, None).Ports())
  {
    DefaultIsIndependent();
  }

  /** After a scan with the default map: a drive is known if and only if the bus scan found
      it, its unit is one of the channel's with a port, and bit 4 + port of the register
      was set; and then, and only then, is bit `port` of the register set. */
  lemma ScanInBits(mode: ChannelMode, found: Units, seen: Config, c: Config, busy: nat -> bool, u: nat)
    requires u < MAX_DRIVES
    ensures var root := Root(true, None);
            var known := Confirmed(root, mode, found, seen);
            var after := Commanded(root, c, ScanCommands(mode, RoundsFrom(busy, 0), known));
            var port := PortForDrive(mode, u);
            && (known[u] <==> found[u] && u < |PortsOf(mode)| && port < 4 && seen[0x92] & PresenceBit(port) != 0)
            && (u < |PortsOf(mode)| && port < 4 ==> (after[0x92] & EnableBit(port) != 0 <==> known[u]))
  {
    hide Confirmed, ScanCommands, RoundsFrom, Commanded, EnableBit, PresenceBit, Enabled, PresenceBits, Independent;
    var root, port := Root(true, None), PortForDrive(mode, u);
    var known := Confirmed(root, mode, found, seen);
    ConfirmedDrives(root, mode, found, seen, u);
    if port < 4 {
      DefaultEnabled(seen, port);
      if u < MaxDriveUnits(mode) {
        var cmds := ScanCommands(mode, RoundsFrom(busy, 0), known);
        DefaultEnabled(Commanded(root, c, cmds), port);
        DefaultRoot();
        RoundsBound(busy, 0);
        ScanLast(mode, RoundsFrom(busy, 0), known, u, Enabled(root, c, port));
        EnabledAfter(root, c, cmds, port);
      }
    }
  }
}
