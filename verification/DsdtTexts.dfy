/** What `patchHPET` writes, letter for letter: the interrupts that are put into a device,
    and the device that is put into a file. */
module DsdtTexts {
  import opened Wrappers
  import opened AslText
  import opened LineFiles
  import HpetText
  import HpetPass
  import HpetInsert

  // ----- the texts -----

  /** The interrupts 0 and 8. */
  function Interrupts(): seq<string> {
    ["                        IRQNoFlags ()\n",
     "                            {0}\n",
     "                        IRQNoFlags ()\n",
     "                            {8}\n"]
  }

  function NewDevice(): seq<string> {
    ["\t\tDevice (HPET)\n",
     "                " + "{" + "\n",
     "                    " + "Name (_HID, EisaId (\"PNP0103\"))" + "\n",
     "                    " + "Name (ATT3, ResourceTemplate ()" + "\n",
     "                    " + "{" + "\n",
     "                        IRQNoFlags ()\n",
     "                            {0}\n",
     "                        IRQNoFlags ()\n",
     "                            {8}\n",
     "                        " + "Memory32Fixed (ReadWrite," + "\n",
     "                            " + "0xFED00000,         // Address Base" + "\n",
     "                            " + "0x00000400,         // Address Length" + "\n",
     "                            " + ")" + "\n",
     "                    " + "})" + "\n",
     "                    " + "Name (ATT4, ResourceTemplate ()" + "\n",
     "                    " + "{" + "\n",
     "                    " + "})" + "\n",
     "                    " + "Method (_STA, 0, NotSerialized)" + "\n",
     "                    " + "{" + "\n",
     "                        " + "Return (0x0F)" + "\n",
     "                    " + "}" + "\n",
     "                    " + "Method (_CRS, 0, NotSerialized)" + "\n",
     "                    " + "{" + "\n",
     "                        " + "Return (ATT3)" + "\n",
     "                    " + "}" + "\n",
     "                " + "}" + "\n"]
  }

  lemma Indented16(text: string)
    ensures HpetText.Indent(16, text) == "                " + text + "\n"
  {
  }

  lemma Indented20(text: string)
    ensures HpetText.Indent(20, text) == "                    " + text + "\n"
  {
  }

  lemma Indented24(text: string)
    ensures HpetText.Indent(24, text) == "                        " + text + "\n"
  {
  }

  lemma Indented28(text: string)
    ensures HpetText.Indent(28, text) == "                            " + text + "\n"
  {
  }

  lemma Spelled24(text: string, line: string)
    requires line == "                        " + text + "\n"
    ensures HpetText.Indent(24, text) == line
  {
  }

  lemma Spelled28(text: string, line: string)
    requires line == "                            " + text + "\n"
    ensures HpetText.Indent(28, text) == line
  {
  }

  lemma InterruptsAreWritten()
    ensures HpetText.HpetIrqs() == Interrupts()
  {
    hide HpetText.Indent;
    Spelled24("IRQNoFlags ()", "                        IRQNoFlags ()\n");
    Spelled28("{0}", "                            {0}\n");
    Spelled28("{8}", "                            {8}\n");
  }

  lemma FixedHeadText()
    ensures HpetText.FixedHead()
            == ["\t\tDevice (HPET)\n",
                "                " + "{" + "\n",
                "                    " + "Name (_HID, EisaId (\"PNP0103\"))" + "\n"]
  {
    hide HpetText.Indent;
    Indented16("{");
    Indented20("Name (_HID, EisaId (\"PNP0103\"))");
  }

  lemma FixedTemplateText()
    ensures HpetText.FixedTemplate()
            == ["                    " + "Name (ATT3, ResourceTemplate ()" + "\n",
                "                    " + "{" + "\n",
                "                        IRQNoFlags ()\n",
                "                            {0}\n",
                "                        IRQNoFlags ()\n",
                "                            {8}\n",
                "                        " + "Memory32Fixed (ReadWrite," + "\n"]
  {
    hide HpetText.Indent;
    Indented20("Name (ATT3, ResourceTemplate ()");
    Indented20("{");
    Indented24("Memory32Fixed (ReadWrite,");
    InterruptsAreWritten();
  }

  lemma FixedRangeText()
    ensures HpetText.FixedRange()
            == ["                            " + "0xFED00000,         // Address Base" + "\n",
                "                            " + "0x00000400,         // Address Length" + "\n",
                "                            " + ")" + "\n",
                "                    " + "})" + "\n"]
  {
    hide HpetText.Indent;
    Indented28("0xFED00000,         // Address Base");
    Indented28("0x00000400,         // Address Length");
    Indented28(")");
    Indented20("})");
  }

  lemma FixedTemplate2Text()
    ensures HpetText.FixedTemplate2()
            == ["                    " + "Name (ATT4, ResourceTemplate ()" + "\n",
                "                    " + "{" + "\n",
                "                    " + "})" + "\n"]
  {
    hide HpetText.Indent;
    Indented20("Name (ATT4, ResourceTemplate ()");
    Indented20("{");
    Indented20("})");
  }

  lemma FixedStatusText()
    ensures HpetText.FixedStatus()
            == ["                    " + "Method (_STA, 0, NotSerialized)" + "\n",
                "                    " + "{" + "\n",
                "                        " + "Return (0x0F)" + "\n",
                "                    " + "}" + "\n"]
  {
    hide HpetText.Indent;
    Indented20("Method (_STA, 0, NotSerialized)");
    Indented20("{");
    Indented24("Return (0x0F)");
    Indented20("}");
  }

  lemma FixedResourcesText()
    ensures HpetText.FixedResources()
            == ["                    " + "Method (_CRS, 0, NotSerialized)" + "\n",
                "                    " + "{" + "\n",
                "                        " + "Return (ATT3)" + "\n",
                "                    " + "}" + "\n",
                "                " + "}" + "\n"]
  {
    hide HpetText.Indent;
    Indented20("Method (_CRS, 0, NotSerialized)");
    Indented20("{");
    Indented24("Return (ATT3)");
    Indented20("}");
    Indented16("}");
  }

  lemma NewDeviceIsWritten()
    ensures HpetText.FixedHpet() == NewDevice()
  {
    hide HpetText.Indent, HpetText.FixedHead, HpetText.FixedTemplate, HpetText.FixedRange, HpetText.FixedTemplate2,
         HpetText.FixedStatus, HpetText.FixedResources;
    FixedHeadText();
    FixedTemplateText();
    FixedRangeText();
    FixedTemplate2Text();
    FixedStatusText();
    FixedResourcesText();
  }

  // ----- the interrupts in a device that is there -----

  /** The only HPET device of the file is met in line `i`: by its name, with the opening
      brace still to come, or by its hardware id, inside that brace. */
  ghost predicate HpetMet(file: seq<string>, i: nat, count: int) {
    && i < |file|
    && (|| (Contains(file[i], "Device (HPET") && count == 0)
        || (!Contains(file[i], "Device (HPET") && Contains(file[i], "PNP0103") && count == 1))
    && (forall m :: 0 <= m < i ==> !Contains(file[m], "Device (HPET") && !Contains(file[m], "PNP0103"))
    && (forall m :: i < m < |file| ==> !Contains(file[m], "Device (HPET"))
  }

  /** Behind a device's first line the first resource template is in line `r`, with the
      count not zero up to there; it has `p` pairs of an IRQ line and another line. */
  ghost predicate FirstTemplate(body: seq<string>, count: int, r: nat, p: nat) {
    && r + 2 + 2 * p < |body|
    && (forall n :: 1 <= n <= r + 1 ==> HpetPass.CountElse(body[..n], count) != 0)
    && (forall n :: 0 <= n < r ==> !Contains(body[n], "ResourceTemplate ()")) && Contains(body[r], "ResourceTemplate ()")
    && (forall q :: 0 <= q < p ==> Contains(body[r + 2 + 2 * q], "IRQNoFlags ()"))
    && !Contains(body[r + 2 + 2 * p], "IRQNoFlags ()")
  }

  lemma {:induction false} PairsFromLines(lines: seq<string>, p: nat)
    requires 2 * p <= |lines| && forall q :: 0 <= q < p ==> Contains(lines[2 * q], "IRQNoFlags ()")
    ensures HpetPass.Pairs(lines, p)
    decreases p
  {
    hide Contains;
    if p > 0 {
      assert Contains(lines[2 * 0], "IRQNoFlags ()");
      forall q | 0 <= q < p - 1
        ensures Contains(lines[2..][2 * q], "IRQNoFlags ()")
      {
        assert lines[2..][2 * q] == lines[2 * (q + 1)];
      }
      PairsFromLines(lines[2..], p - 1);
    }
  }

  lemma {:induction false} InsideFromCounts(body: seq<string>, n: nat, count: int)
    requires n <= |body| && forall m :: 1 <= m <= n ==> HpetPass.CountElse(body[..m], count) != 0
    requires forall m :: 0 <= m < n ==> !Contains(body[m], "ResourceTemplate ()")
    ensures HpetPass.Inside(body, n, count)
    decreases n
  {
    hide Contains, DeltaElse;
    if n > 0 {
      var d := count + DeltaElse(body[0]);
      forall m | 0 <= m <= n - 1
        ensures HpetPass.CountElse(body[1..][..m], d) != 0
      {
        assert body[..m + 1][1..] == body[1..][..m];
      }
      assert body[1..][..0] == [];
      InsideFromCounts(body[1..], n - 1, d);
    }
  }

  lemma TemplateFound(body: seq<string>, count: int, r: nat, p: nat)
    requires FirstTemplate(body, count, r, p)
    ensures r + 2 + 2 * p < |body| && HpetPass.TemplateAt(body, count, r, p)
  {
    hide Contains, DeltaElse, HpetPass.Pairs, HpetPass.Inside, HpetPass.CountElse;
    InsideFromCounts(body, r, count);
    forall q | 0 <= q < p
      ensures Contains(body[r + 2..][2 * q], "IRQNoFlags ()")
    {
      assert body[r + 2..][2 * q] == body[r + 2 + 2 * q];
    }
    PairsFromLines(body[r + 2..], p);
  }

  lemma BracelessIsKept(rest: seq<string>)
    requires rest != [] && '{' !in rest[0] && '}' !in rest[0]
    ensures HpetPass.Keeps(rest, 0)
  {
    CountOfCharacters(rest[0]);
  }

  lemma HpetMetIsMark(file: seq<string>, i: nat, count: int)
    requires HpetMet(file, i, count)
    ensures i < |file| && HpetPass.DepthAfterHpet(file[i]) == count
    ensures HpetPass.OneMark(file, i) && HpetInsert.HasHpet(file)
  {
    hide Contains;
    assert HpetInsert.Marked(file[i]);
  }

  /** The IRQ pairs of the template go, and the interrupts 0 and 8 come in their place;
      nothing else changes if and only if the loop keeps the text behind the next line, as
      it does when the line after that has no brace. */
  lemma InterruptsReplaced(file: seq<string>, i: nat, count: int, r: nat, p: nat)
    requires HpetMet(file, i, count) && FirstTemplate(file[i + 1..], count, r, p)
    ensures var at := i + 1 + r + 2;
            var done := HpetInsert.Patch(file) == Some(file[..at] + Interrupts() + file[at + 2 * p..]);
            && (done <==> HpetPass.Keeps(file[at + 2 * p + 1..], 0))
            && (at + 2 * p + 1 < |file| && '{' !in file[at + 2 * p + 1] && '}' !in file[at + 2 * p + 1] ==> done)
  {
    hide Contains, HpetPass.Pass, HpetPass.Keeps, FirstTemplate, HpetPass.TemplateAt, Interrupts, HpetMet, HpetPass.OneMark,
         HpetInsert.HasHpet, HpetPass.DepthAfterHpet, HpetText.HpetIrqs;
    HpetMetIsMark(file, i, count);
    TemplateFound(file[i + 1..], count, r, p);
    InterruptsAreWritten();
    HpetPass.ReplacesIrqs(file, i, r, p);
    var rest := file[i + 1 + r + 2 + 2 * p + 1..];
    if rest != [] && '{' !in rest[0] && '}' !in rest[0] {
      BracelessIsKept(rest);
    }
  }

  // ----- the device in a file that has none -----

  /** The first RTC device is met in line `i`, by its name or by its hardware id. */
  ghost predicate RtcMet(file: seq<string>, i: nat, count: int) {
    && i < |file|
    && (|| (Contains(file[i], "Device (RTC") && count == 0)
        || (!Contains(file[i], "Device (RTC") && Contains(file[i], "PNP0B00") && count == 1))
    && (forall m :: 0 <= m < i ==> !Contains(file[m], "Device (RTC") && !Contains(file[m], "PNP0B00"))
  }

  lemma LaterNames(file: seq<string>, end: nat)
    requires end < |file|
    ensures HpetInsert.HasDevice(file[end + 1..]) <==> exists m :: end < m < |file| && Contains(file[m], "Device (RTC")
  {
    hide Contains;
    if m :| end < m < |file| && Contains(file[m], "Device (RTC") {
      assert file[end + 1..][m - end - 1] == file[m];
    }
  }

  /** The device is put behind the RTC device, and nothing else changes, if and only if a
      line follows and no line behind that one has the name of an RTC device. */
  lemma DeviceInserted(file: seq<string>, i: nat, count: int, k: nat)
    requires forall m :: 0 <= m < |file| ==> !Contains(file[m], "Device (HPET") && !Contains(file[m], "PNP0103")
    requires RtcMet(file, i, count) && CloseAt(file[i + 1..], count) == Some(k)
    ensures var end := i + k + 2;
            && end <= |file|
            && (HpetInsert.Patch(file) == Some(file[..end] + NewDevice() + file[end..])
                <==> end < |file| && forall m :: end < m < |file| ==> !Contains(file[m], "Device (RTC"))
  {
    hide Contains, HpetInsert.Patch, NewDevice, CloseAt, HpetText.FixedHpet;
    var end := i + k + 2;
    assert HpetInsert.FirstDevice(file, i, k);
    NewDeviceIsWritten();
    HpetInsert.InsertsOnlyTheDevice(file, i, k);
    if end < |file| {
      LaterNames(file, end);
    }
  }
}
