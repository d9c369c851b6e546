/** The text that the patcher writes for an HPET device. */
module HpetText {
  import opened AslText

  const HPET_DEVICE := "Device (HPET"
  const HPET_DEVICE_2 := "PNP0103"
  const RESOURCE_TEMPLATE := "ResourceTemplate ()"

  function Indent(width: nat, text: string): string {
    seq(width, _ => ' ') + text + "\n"
  }

  function Irq(): string { Indent(24, "IRQNoFlags ()") }

  /** The IRQs that are required in an HPET device. */
  function HpetIrqs(): (irqs: seq<string>)
    ensures |irqs| == 4
  {
    [Irq(), Indent(28, "{0}"), Irq(), Indent(28, "{8}")]
  }

  /** The device written when there is none: up to its first resource template, ... */
  function FixedHead(): seq<string> {
    ["\t\tDevice (HPET)\n",
     Indent(16, "{"),
     Indent(20, "Name (_HID, EisaId (\"PNP0103\"))")]
  }

  /** ... that template with the IRQs, ... */
  function FixedTemplate(): seq<string> {
    [Indent(20, "Name (ATT3, ResourceTemplate ()"), Indent(20, "{")]
    + HpetIrqs() + [Indent(24, "Memory32Fixed (ReadWrite,")]
  }

  function FixedRange(): seq<string> {
    [Indent(28, "0xFED00000,         // Address Base"),
     Indent(28, "0x00000400,         // Address Length"),
     Indent(28, ")"),
     Indent(20, "})")]
  }

  function FixedTemplate2(): seq<string> {
    [Indent(20, "Name (ATT4, ResourceTemplate ()"),
     Indent(20, "{"),
     Indent(20, "})")]
  }

  function FixedStatus(): seq<string> {
    [Indent(20, "Method (_STA, 0, NotSerialized)"),
     Indent(20, "{"),
     Indent(24, "Return (0x0F)"),
     Indent(20, "}")]
  }

  function FixedResources(): seq<string> {
    [Indent(20, "Method (_CRS, 0, NotSerialized)"),
     Indent(20, "{"),
     Indent(24, "Return (ATT3)"),
     Indent(20, "}"),
     Indent(16, "}")]
  }

  /** ... and the rest. */
  function FixedTail(): seq<string> {
    FixedRange() + FixedTemplate2() + FixedStatus() + FixedResources()
  }

  function FixedHpet(): (lines: seq<string>)
    ensures lines != []
  {
    FixedHead() + FixedTemplate() + FixedTail()
  }

  // ----- what the lines of that text contain -----

  lemma IndentContains(width: nat, text: string, needle: string, at: nat)
    requires MatchAt(text, needle, at)
    ensures Contains(Indent(width, text), needle)
  {
    var line := Indent(width, text);
    assert line[width + at..] == text[at..] + "\n";
    assert MatchAt(line, needle, width + at);
  }

  lemma IndentLacks(width: nat, text: string, needle: string, c: char)
    requires c in needle && c !in text && c != ' ' && c != '\n'
    ensures !Contains(Indent(width, text), needle)
  {
    MissingCharacter(Indent(width, text), needle, c);
  }

  lemma IrqsContainIrq()
    ensures Contains(Irq(), IRQ)
  {
    IndentContains(24, "IRQNoFlags ()", IRQ, 0);
  }

  lemma DeviceMarks()
    ensures Contains(FixedHead()[0], HPET_DEVICE)
  {
    assert MatchAt("\t\tDevice (HPET)\n", HPET_DEVICE, 2);
  }

  lemma OpenMarks()
    ensures var line := Indent(16, "{");
            DeltaElse(line) == 1 && !Contains(line, RESOURCE_TEMPLATE)
  {
    IndentContains(16, "{", "{", 0);
    IndentLacks(16, "{", RESOURCE_TEMPLATE, 'u');
  }

  lemma IndentBelow(width: nat, text: string, limit: char)
    requires forall i :: 0 <= i < |text| ==> text[i] < limit
    requires '\n' < ' ' < limit <= '{'
    ensures DeltaElse(Indent(width, text)) == 0
    ensures forall needle :: limit in needle ==> !Contains(Indent(width, text), needle)
  {
    assert '{' !in text && '}' !in text && limit !in text;
    IndentLacks(width, text, "{", '{');
    IndentLacks(width, text, "}", '}');
    forall needle | limit in needle
      ensures !Contains(Indent(width, text), needle)
    {
      IndentLacks(width, text, needle, limit);
    }
  }

  lemma HidMarks()
    ensures var line := Indent(20, "Name (_HID, EisaId (\"PNP0103\"))");
            DeltaElse(line) == 0 && !Contains(line, RESOURCE_TEMPLATE)
  {
    IndentBelow(20, "Name (_HID, EisaId (\"PNP0103\"))", 'u');
  }

  lemma TemplateMarks()
    ensures Contains(Indent(20, "Name (ATT3, ResourceTemplate ()"), RESOURCE_TEMPLATE)
  {
    IndentContains(20, "Name (ATT3, ResourceTemplate ()", RESOURCE_TEMPLATE, 12);
  }

  lemma TemplateBraceless()
    ensures DeltaElse(Indent(20, "Name (ATT3, ResourceTemplate ()")) == 0
  {
    IndentBelow(20, "Name (ATT3, ResourceTemplate ()", '{');
  }

  lemma MemoryMarks()
    ensures !Contains(Indent(24, "Memory32Fixed (ReadWrite,"), IRQ)
  {
    IndentLacks(24, "Memory32Fixed (ReadWrite,", IRQ, 'Q');
  }

  lemma RangeMarks()
    ensures DeltaElse(FixedRange()[0]) == 0
  {
    IndentBelow(28, "0xFED00000,         // Address Base", '{');
  }

  lemma BaseHasNoDevice()
    ensures !Contains(Indent(28, "0xFED00000,         // Address Base"), HPET_DEVICE)
  {
    IndentLacks(28, "0xFED00000,         // Address Base", HPET_DEVICE, 'H');
  }

  lemma RangeHasNoDevice()
    ensures forall i :: 0 <= i < |FixedRange()| ==> !Contains(FixedRange()[i], HPET_DEVICE)
  {
    hide Indent, Contains;
    BaseHasNoDevice();
    IndentLacks(28, "0x00000400,         // Address Length", HPET_DEVICE, 'H');
    IndentLacks(28, ")", HPET_DEVICE, 'H');
    IndentLacks(20, "})", HPET_DEVICE, 'H');
  }

  lemma Template2HasNoDevice()
    ensures forall i :: 0 <= i < |FixedTemplate2()| ==> !Contains(FixedTemplate2()[i], HPET_DEVICE)
  {
    hide Indent, Contains;
    IndentLacks(20, "Name (ATT4, ResourceTemplate ()", HPET_DEVICE, 'H');
    IndentLacks(20, "{", HPET_DEVICE, 'H');
    IndentLacks(20, "})", HPET_DEVICE, 'H');
  }

  lemma StatusHasNoDevice()
    ensures forall i :: 0 <= i < |FixedStatus()| ==> !Contains(FixedStatus()[i], HPET_DEVICE)
  {
    hide Indent, Contains;
    IndentLacks(20, "Method (_STA, 0, NotSerialized)", HPET_DEVICE, 'H');
    IndentLacks(20, "{", HPET_DEVICE, 'H');
    IndentLacks(24, "Return (0x0F)", HPET_DEVICE, 'H');
    IndentLacks(20, "}", HPET_DEVICE, 'H');
  }

  lemma ResourcesHasNoDevice()
    ensures forall i :: 0 <= i < |FixedResources()| ==> !Contains(FixedResources()[i], HPET_DEVICE)
  {
    hide Indent, Contains;
    IndentLacks(20, "Method (_CRS, 0, NotSerialized)", HPET_DEVICE, 'H');
    IndentLacks(20, "{", HPET_DEVICE, 'H');
    IndentLacks(24, "Return (ATT3)", HPET_DEVICE, 'H');
    IndentLacks(20, "}", HPET_DEVICE, 'H');
    IndentLacks(16, "}", HPET_DEVICE, 'H');
  }

  lemma TailHasNoDevice()
    ensures forall i :: 0 <= i < |FixedTail()| ==> !Contains(FixedTail()[i], HPET_DEVICE)
  {
    RangeHasNoDevice();
    Template2HasNoDevice();
    StatusHasNoDevice();
    ResourcesHasNoDevice();
  }
}
