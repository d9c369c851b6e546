/** Inputs on which a promise fails, one for each that the other modules find false.  The
    lists of lines are such as reading a file can give. */
module Witnesses {
  import opened Wrappers
  import opened AslText
  import opened HpetText
  import RtcPass
  import HpetPass
  import HpetInsert
  import LineFiles
  import FileRuns
  import HpetEnds
  import UnendedFiles
  import ConfigPass
  import Replace
  import VersionPass
  import FreshPrefix
  import SataPorts
  import PciConfig
  import IchSata
  import OpenProtocol
  import Battery

  function Rtc(): string { "Device (RTC)\n" }
  function Hpet(): string { "Device (HPET)\n" }
  function Other(): string { "Device (X)\n" }
  function Open(): string { "{\n" }
  function Close(): string { "}\n" }
  function Template(): string { "ResourceTemplate ()\n" }
  function Interrupt(): string { "    IRQNoFlags ()\n" }
  function A(): string { "a\n" }
  function B(): string { "b\n" }
  function C(): string { "c\n" }

  /** Lines that reading a file can give. */
  ghost predicate Lines(lines: seq<string>) {
    LineFiles.ReadLines(LineFiles.Flatten(lines)) == lines
  }

  lemma LineStops(s: string)
    requires 2 <= |s| <= 20 && s[|s| - 1] == '\n' && forall i :: 0 <= i < |s| - 1 ==> s[i] != '\n'
    ensures LineFiles.Stops(s)
  {
  }

  /** Every line used here is one. */
  lemma AreLines(lines: seq<string>)
    requires forall i :: 0 <= i < |lines| ==>
      lines[i] in {Rtc(), Hpet(), Other(), Open(), Close(), Template(), Interrupt(), A(), B(), C()}
    ensures Lines(lines)
  {
    LineStops(Rtc());
    LineStops(Hpet());
    LineStops(Other());
    LineStops(Template());
    LineStops(Interrupt());
    LineStops(Open());
    LineStops(Close());
    LineStops(A());
    LineStops(B());
    LineStops(C());
    hide LineFiles.Stops, LineFiles.Readable;
    LineFiles.AllStopIsReadable(lines);
    LineFiles.ReadsBack(lines);
  }

  lemma TooShort(s: string, needle: string)
    requires |s| < |needle|
    ensures !Contains(s, needle)
  {
  }

  lemma StartsWith(s: string, needle: string)
    requires needle <= s
    ensures Contains(s, needle)
  {
    assert s[0..] == s && MatchAt(s, needle, 0);
  }

  lemma OneCharacter(s: string, c: char)
    requires |s| == 2 && s[1] == '\n' && c != '\n'
    ensures Contains(s, [c]) <==> s == [c, '\n']
  {
    if s == [c, '\n'] {
      StartsWith(s, [c]);
    } else {
      MissingCharacter(s, [c], c);
    }
  }

  /** A line of one character contains nothing that the patcher looks for but a brace. */
  lemma ShortLine(s: string)
    requires |s| == 2 && s[1] == '\n'
    ensures !Contains(s, RtcPass.RTC_DEVICE) && !Contains(s, RtcPass.RTC_DEVICE_2) && !Contains(s, IRQ)
    ensures !Contains(s, HPET_DEVICE) && !Contains(s, HPET_DEVICE_2) && !Contains(s, RESOURCE_TEMPLATE)
    ensures Delta(s) == DeltaElse(s) == if s == Open() then 1 else if s == Close() then -1 else 0
  {
    TooShort(s, RtcPass.RTC_DEVICE);
    TooShort(s, RtcPass.RTC_DEVICE_2);
    TooShort(s, IRQ);
    TooShort(s, HPET_DEVICE);
    TooShort(s, HPET_DEVICE_2);
    TooShort(s, RESOURCE_TEMPLATE);
    OneCharacter(s, '{');
    OneCharacter(s, '}');
  }

  lemma NoBrace(s: string)
    requires '{' !in s && '}' !in s
    ensures Delta(s) == DeltaElse(s) == 0
  {
    MissingCharacter(s, "{", '{');
    MissingCharacter(s, "}", '}');
  }

  lemma RtcStarts()
    ensures Contains(Rtc(), RtcPass.RTC_DEVICE)
  {
    assert Rtc() == RtcPass.RTC_DEVICE + ")\n";
    StartsWith(Rtc(), RtcPass.RTC_DEVICE);
  }

  lemma RtcFacts()
    ensures Contains(Rtc(), RtcPass.RTC_DEVICE) && !HpetInsert.Marked(Rtc()) && Delta(Rtc()) == 0
  {
    hide Contains;
    RtcStarts();
    MissingCharacter(Rtc(), HPET_DEVICE, 'H');
    MissingCharacter(Rtc(), HPET_DEVICE_2, 'P');
    NoBrace(Rtc());
  }

  lemma InterruptStarts()
    ensures Contains(Interrupt(), IRQ)
  {
    assert MatchAt(Interrupt(), IRQ, 4);
  }

  lemma InterruptFacts()
    ensures Contains(Interrupt(), IRQ) && !Contains(Interrupt(), RtcPass.RTC_DEVICE) && Delta(Interrupt()) == 0
  {
    hide Contains;
    InterruptStarts();
    NoBrace(Interrupt());
    MissingCharacter(Interrupt(), RtcPass.RTC_DEVICE, 'D');
  }

  lemma TemplateFacts()
    ensures Contains(Template(), RESOURCE_TEMPLATE) && DeltaElse(Template()) == 0
  {
    hide Contains;
    assert Template() == RESOURCE_TEMPLATE + "\n";
    StartsWith(Template(), RESOURCE_TEMPLATE);
    NoBrace(Template());
  }

  // ----- patchRTC -----

  /** Lines of one character that are no brace, and IRQ lines. */
  predicate Plain(lines: seq<string>) {
    forall m :: 0 <= m < |lines| ==>
      lines[m] == Interrupt() || (|lines[m]| == 2 && lines[m][1] == '\n' && lines[m] !in {Open(), Close()})
  }

  lemma {:induction false} ClosesLast(lines: seq<string>)
    requires Plain(lines)
    ensures CloseAt(lines + [Close()], 1) == Some(|lines|)
  {
    hide Contains, Delta;
    InterruptFacts();
    ShortLine(Close());
    if lines != [] {
      if lines[0] != Interrupt() {
        ShortLine(lines[0]);
      }
      ClosesLast(lines[1..]);
      assert (lines + [Close()])[1..] == lines[1..] + [Close()];
    }
  }

  lemma {:induction false} NoTrigger(lines: seq<string>)
    requires Plain(lines)
    ensures forall m :: 0 <= m < |lines| ==> !Contains(lines[m], RtcPass.RTC_DEVICE)
  {
    hide Contains;
    InterruptFacts();
    if lines != [] {
      if lines[0] != Interrupt() {
        ShortLine(lines[0]);
      }
      NoTrigger(lines[1..]);
    }
  }

  function Device(lines: seq<string>): seq<string> {
    [Rtc(), Open()] + lines + [Close()]
  }

  lemma DeviceShape(lines: seq<string>)
    requires Plain(lines)
    ensures RtcPass.NoneAfter(Device(lines)) && RtcPass.IsRtc(Rtc(), true) && RtcPass.IsRtc(Rtc(), false)
    ensures CloseAt(Device(lines)[1..], 0) == Some(|lines| + 1)
    ensures forall found, depth :: RtcPass.DepthAfterRtc(Rtc(), depth) == depth && RtcPass.IsRtc(Rtc(), found)
  {
    hide Contains, Delta;
    RtcFacts();
    ShortLine(Open());
    ShortLine(Close());
    NoTrigger(lines);
    ClosesLast(lines);
    assert Device(lines)[1..][1..] == lines + [Close()];
  }

  lemma FirstIrq(lines: seq<string>)
    requires |lines| >= 2 && lines[0] == Open() && lines[1] == Interrupt()
    ensures FirstWith(lines, IRQ) == Some(1)
  {
    hide Contains;
    InterruptFacts();
    ShortLine(Open());
  }

  /** A pair at the start of a device goes. */
  lemma FirstPairGoes(second: string, lines: seq<string>)
    requires Plain([Interrupt(), second] + lines)
    ensures RtcPass.Pass(Device([Interrupt(), second] + lines), false, 0) == Some(Device(lines))
  {
    hide Contains, Delta, RtcPass.Pass, CloseAt, RtcPass.IsRtc, RtcPass.NoneAfter, RtcPass.DepthAfterRtc;
    var text, k := Device([Interrupt(), second] + lines), |lines| + 3;
    DeviceShape([Interrupt(), second] + lines);
    RtcPass.NoneAfterIsBehind(text, 0);
    RtcPass.ScanExact(text, false, 0);
    FirstIrq(text[1..][..k]);
    assert RtcPass.PairAt(text, 0) == Some(1);
    assert text[..2] + text[4..] == Device(lines);
  }

  /** A device with two pairs: a second run takes out the second one. */
  lemma RtcIsNotIdempotent()
    ensures Lines([Rtc(), Open(), Interrupt(), A(), Interrupt(), B(), Close()])
    ensures RtcPass.Pass([Rtc(), Open(), Interrupt(), A(), Interrupt(), B(), Close()], false, 0)
         == Some([Rtc(), Open(), Interrupt(), B(), Close()])
    ensures RtcPass.Pass([Rtc(), Open(), Interrupt(), B(), Close()], false, 0) == Some([Rtc(), Open(), Close()])
  {
    hide RtcPass.Pass, Lines;
    AreLines([Rtc(), Open(), Interrupt(), A(), Interrupt(), B(), Close()]);
    FirstPairGoes(A(), [Interrupt(), B()]);
    FirstPairGoes(B(), []);
    assert Device([Interrupt(), A()] + [Interrupt(), B()]) == [Rtc(), Open(), Interrupt(), A(), Interrupt(), B(), Close()];
    assert Device([Interrupt(), B()]) == Device([Interrupt(), B()] + []) == [Rtc(), Open(), Interrupt(), B(), Close()];
    assert Device([]) == [Rtc(), Open(), Close()];
  }

  lemma SecondShape()
    ensures var second := [Rtc(), Open(), Close(), B(), Interrupt(), C(), Close()];
            && RtcPass.NoneAfter(second) && CloseAt(second[1..], 1) == Some(5)
            && FirstWith(second[1..][..5], IRQ) == Some(3)
  {
    hide Contains, Delta;
    ShortLine(Open());
    ShortLine(Close());
    ShortLine(B());
    ShortLine(C());
    InterruptFacts();
    assert Plain([B(), Interrupt(), C()]);
    ClosesLast([B(), Interrupt(), C()]);
    var body := [Open(), Close(), B(), Interrupt(), C(), Close()];
    assert body[1..][1..] == [B(), Interrupt(), C()] + [Close()];
    assert [Rtc(), Open(), Close(), B(), Interrupt(), C(), Close()][1..] == body;
  }

  lemma CountIsOne()
    ensures var first := [Rtc(), Open(), Interrupt(), A(), Close()];
            RtcPass.PairAt(first, 0) == Some(1) && RtcPass.CountLeft(first, 0) == 1
  {
    hide Contains, Delta, CloseAt, FirstWith;
    ShortLine(Open());
    InterruptFacts();
    DeviceShape([Interrupt(), A()]);
    var first := Device([Interrupt(), A()]);
    var body := first[1..];
    FirstIrq(body[..3]);
    assert body[..2] == [Open()] + [Interrupt()];
    BalanceConcat([Open()], [Interrupt()]);
    assert [Open()][1..] == [] && [Interrupt()][1..] == [];
    assert first == [Rtc(), Open(), Interrupt(), A(), Close()];
  }

  lemma SecondIsStripped()
    ensures var second := [Rtc(), Open(), Close(), B(), Interrupt(), C(), Close()];
            RtcPass.Scanned(second, 1) == Some([Rtc(), Open(), Close(), B(), Close()])
  {
    hide Contains, Delta, CloseAt, FirstWith;
    var second := [Rtc(), Open(), Close(), B(), Interrupt(), C(), Close()];
    SecondShape();
    DeviceShape([]);
    assert RtcPass.PairAt(second, 1) == Some(3);
    assert second[..4] + second[6..] == [Rtc(), Open(), Close(), B(), Close()];
  }

  lemma TwoTexts(first: seq<string>, second: seq<string>, out1: seq<string>, out2: seq<string>)
    requires first != [] && RtcPass.IsRtc(first[0], false) && RtcPass.NoneBehind(first, 0) && RtcPass.EndsIn(first, 0)
    requires second != [] && RtcPass.IsRtc(second[0], true) && RtcPass.NoneAfter(second)
    requires RtcPass.Scanned(first, 0) == Some(out1)
    requires RtcPass.Scanned(second, RtcPass.CountLeft(first, 0)) == Some(out2)
    ensures RtcPass.Pass(first + second, false, 0) == Some(out1 + out2)
  {
    hide RtcPass.IsRtc, RtcPass.EndsIn, RtcPass.NoneBehind, RtcPass.NoneAfter, RtcPass.Scanned, RtcPass.CountLeft, RtcPass.Pass;
    RtcPass.FirstThen(first, second, false, 0);
    RtcPass.NoneAfterIsBehind(second, RtcPass.CountLeft(first, 0));
    RtcPass.ScanExact(second, true, RtcPass.CountLeft(first, 0));
  }

  lemma FirstIsStripped()
    ensures var first := [Rtc(), Open(), Interrupt(), A(), Close()];
            && RtcPass.NoneBehind(first, 0) && RtcPass.EndsIn(first, 0)
            && RtcPass.Scanned(first, 0) == Some([Rtc(), Open(), Close()])
  {
    hide RtcPass.PairAt, Rtc, Open, Close, Interrupt, A;
    var first := [Rtc(), Open(), Interrupt(), A(), Close()];
    CountIsOne();
    assert first[..2] + first[4..] == [Rtc(), Open(), Close()];
  }

  /** After a pair the count is still 1, so the next device, here one without an IRQ line,
      is left only when the block after it is: that block loses a pair. */
  lemma RtcStrays()
    ensures Lines([Rtc(), Open(), Interrupt(), A(), Close(), Rtc(), Open(), Close(), B(), Interrupt(), C(), Close()])
    ensures RtcPass.Pass([Rtc(), Open(), Interrupt(), A(), Close(),
                          Rtc(), Open(), Close(), B(), Interrupt(), C(), Close()], false, 0)
         == Some([Rtc(), Open(), Close(), Rtc(), Open(), Close(), B(), Close()])
  {
    hide Contains, Delta, RtcPass.Pass, RtcPass.IsRtc, RtcPass.NoneAfter, RtcPass.DepthAfterRtc, RtcPass.EndsIn,
         RtcPass.NoneBehind, RtcPass.CountLeft, RtcPass.Scanned, CloseAt, FirstWith, Lines, Rtc, Open, Close, Interrupt,
         A, B, C;
    AreLines([Rtc(), Open(), Interrupt(), A(), Close(), Rtc(), Open(), Close(), B(), Interrupt(), C(), Close()]);
    var first, second := [Rtc(), Open(), Interrupt(), A(), Close()], [Rtc(), Open(), Close(), B(), Interrupt(), C(), Close()];
    DeviceShape([]);
    CountIsOne();
    SecondShape();
    SecondIsStripped();
    FirstIsStripped();
    TwoTexts(first, second, [Rtc(), Open(), Close()], [Rtc(), Open(), Close(), B(), Close()]);
    assert first + second == [Rtc(), Open(), Interrupt(), A(), Close(), Rtc(), Open(), Close(), B(), Interrupt(), C(), Close()];
    assert [Rtc(), Open(), Close()] + [Rtc(), Open(), Close(), B(), Close()]
        == [Rtc(), Open(), Close(), Rtc(), Open(), Close(), B(), Close()];
  }

  // ----- patchHPET -----

  lemma HpetStarts()
    ensures Contains(Hpet(), HPET_DEVICE)
  {
    assert Hpet() == HPET_DEVICE + ")\n";
    StartsWith(Hpet(), HPET_DEVICE);
  }

  lemma LetterFacts()
    ensures DeltaElse(Open()) == 1 && !Contains(Open(), RESOURCE_TEMPLATE)
    ensures !Contains(A(), IRQ) && !Contains(B(), IRQ) && DeltaElse(C()) == 0
  {
    hide Contains, DeltaElse;
    ShortLine(Open());
    ShortLine(A());
    ShortLine(B());
    ShortLine(C());
  }

  lemma Between()
    ensures var between := [Close(), Close(), Other(), Open()];
            HpetPass.Inside(between, |between|, 0) && HpetPass.CountElse(between, 0) == -1
  {
    hide Contains, DeltaElse;
    ShortLine(Open());
    ShortLine(Close());
    NoBrace(Other());
    TooShort(Other(), RESOURCE_TEMPLATE);
    var between, three, two := [Close(), Close(), Other(), Open()], [Close(), Other(), Open()], [Other(), Open()];
    assert between[1..] == three && three[1..] == two && two[1..] == [Open()] && [Open()][1..] == [];
    assert HpetPass.Inside([Open()], 1, -2) && HpetPass.CountElse([Open()], -2) == -1;
    assert HpetPass.Inside(two, 2, -2) && HpetPass.CountElse(two, -2) == -1;
    assert HpetPass.Inside(three, 3, -1) && HpetPass.CountElse(three, -1) == -1;
  }

  /** The IRQs go into the template of another device too. */
  lemma HpetStrays()
    ensures Lines([Hpet(), Open(), Template(), Open(), A(), Close(), Close(), Other(), Open(), Template(), Open(), B(), C()])
    ensures HpetPass.Pass([Hpet(), Open(), Template(), Open(), A(), Close(), Close(),
                           Other(), Open(), Template(), Open(), B(), C()], false)
         == Some([Hpet(), Open(), Template(), Open()] + HpetIrqs() + [A(), Close(), Close(),
                  Other(), Open(), Template(), Open()] + HpetIrqs() + [B(), C()])
  {
    hide Contains, DeltaElse, HpetPass.Pass, HpetIrqs, Lines, Hpet, Other, Open, Close, Template, A, B, C;
    AreLines([Hpet(), Open(), Template(), Open(), A(), Close(), Close(), Other(), Open(), Template(), Open(), B(), C()]);
    HpetStarts();
    LetterFacts();
    TemplateFacts();
    var between := [Close(), Close(), Other(), Open()];
    Between();
    hide HpetPass.Inside, HpetPass.CountElse;
    HpetPass.StrayIrqs(Hpet(), Open(), Template(), Open(), A(), between, Template(), Open(), B(), C(), []);
    assert [Hpet(), Open(), Template(), Open(), A()] + between + [Template(), Open(), B(), C()] + []
        == [Hpet(), Open(), Template(), Open(), A(), Close(), Close(), Other(), Open(), Template(), Open(), B(), C()];
    assert [Hpet(), Open(), Template(), Open()] + HpetIrqs() + [A()] + between + [Template(), Open()] + HpetIrqs() + [B(), C()] + []
        == [Hpet(), Open(), Template(), Open()] + HpetIrqs() + [A(), Close(), Close(), Other(), Open(), Template(), Open()]
           + HpetIrqs() + [B(), C()];
  }

  lemma Unmarked()
    ensures !HpetInsert.Marked(Open()) && !HpetInsert.Marked(Close())
  {
    hide Contains;
    ShortLine(Open());
    ShortLine(Close());
  }

  /** The closing line of an RTC device at the end of the file is written again. */
  lemma ClosingLineIsRepeated()
    ensures Lines([Rtc(), Open(), Close()])
    ensures HpetInsert.Patch([Rtc(), Open(), Close()]) == Some([Rtc(), Open(), Close()] + FixedHpet() + [Close()])
  {
    hide Contains, Delta, HpetInsert.Patch, HpetInsert.Insert, FixedHpet, HpetInsert.Marked, Lines, Rtc, Open, Close;
    AreLines([Rtc(), Open(), Close()]);
    var file := [Rtc(), Open(), Close()];
    DeviceShape([]);
    assert Device([]) == file;
    RtcFacts();
    Unmarked();
    HpetInsert.NoHpetMeansInsert(file);
    HpetInsert.InsertAt(file, 0, 1);
    HpetInsert.LaterDevices([]);
    assert file[..3] == file && [Close()] + [] == [Close()];
  }

  lemma DoubledOnce(text: string)
    requires 12 <= |text| < 100 && text[..12] == "Device (HPET"
    requires forall i :: 0 <= i < |text| ==> text[i] !in {'\n', '{', '}'}
    ensures FileRuns.PatchText(text) == Some(text + text)
  {
    hide FileRuns.PatchText;
    assert text[0..] == text && MatchAt(text, HPET_DEVICE, 0);
    NoBrace(text);
    FileRuns.Doubles(text);
  }

  /** A file that is one unended line gets longer with every run. */
  lemma UnendedLineDoubles()
    ensures FileRuns.PatchText("Device (HPET") == Some("Device (HPETDevice (HPET")
    ensures FileRuns.PatchText("Device (HPETDevice (HPET") == Some("Device (HPETDevice (HPETDevice (HPETDevice (HPET")
  {
    hide FileRuns.PatchText;
    DoubledOnce("Device (HPET");
    DoubledOnce("Device (HPETDevice (HPET");
    assert "Device (HPET" + "Device (HPET" == "Device (HPETDevice (HPET";
    assert "Device (HPETDevice (HPET" + "Device (HPETDevice (HPET" == "Device (HPETDevice (HPETDevice (HPETDevice (HPET";
  }

  lemma OneUnendedLine(text: string)
    requires text == "Device (HPET"
    ensures LineFiles.ReadLines(text) == [text] && UnendedFiles.Unended([text]) && UnendedFiles.Ruled([text])
    ensures UnendedFiles.Room(text, UnendedFiles.PassEndCount([text], false)) && HpetInsert.HasHpet([text])
    ensures !HpetEnds.Ends([text], false)
  {
    hide Contains;
    LineFiles.FlattenOne(text);
    assert '\n' !in text && LineFiles.Fits(text);
    assert [text][..0] == [] && LineFiles.Readable([text]);
    LineFiles.ReadsBack([text]);
    assert text <= text && text == HPET_DEVICE;
    StartsWith(text, HPET_DEVICE);
    assert HpetInsert.Marked([text][0]);
    assert [text][1..] == [];
  }

  /** On that file the pass runs out of lines; by that alone a second run does not keep it. */
  lemma UnendedLineRunsOut()
    ensures var text := "Device (HPET";
            && LineFiles.ReadLines(text) == [text] && !HpetEnds.Ends([text], false)
            && FileRuns.PatchText(text).Some?
            && FileRuns.PatchText(FileRuns.PatchText(text).value) != FileRuns.PatchText(text)
  {
    var text := "Device (HPET";
    UnendedLineDoubles();
    OneUnendedLine(text);
    hide FileRuns.PatchText, HpetEnds.Ends, LineFiles.ReadLines, UnendedFiles.Unended, UnendedFiles.Ruled, UnendedFiles.Room,
         UnendedFiles.PassEndCount, HpetInsert.HasHpet;
    UnendedFiles.MarkedIff(text);
  }

  // ----- the config patches -----

  /** A block at the end of the file: the last line of the patch file is written twice. */
  lemma PatchLineIsRepeated()
    ensures Lines([A(), Open(), Close()]) && Lines([B()])
    ensures ConfigPass.Pass([A(), Open(), Close()], "a", Some([B()])) == Some(ConfigPass.Replaced([B(), B()]))
  {
    hide Contains, Delta, ConfigPass.Pass, Lines;
    AreLines([A(), Open(), Close()]);
    AreLines([B()]);
    var file := [A(), Open(), Close()];
    StartsWith(A(), "a");
    ClosesLast([]);
    ShortLine(Open());
    assert file[1..][1..] == [] + [Close()];
    ConfigPass.MatchAfter(file, "a", 0, 1, [B()]);
    assert file[..0] + ([B()] + [B()] + []) == [B(), B()];
  }

  // ----- the byte and line loops -----

  /** A file of 22 characters becomes one of 45, one more than twice as many. */
  lemma OutputIsTooLong()
    ensures var file := "_OSI (\"Windows 2001\")x";
            |file| == 22 && |VersionPass.Emulate(file, "_OSI (\"Windows 2001\")")| == 45
  {
    var file, from := "_OSI (\"Windows 2001\")x", "_OSI (\"Windows 2001\")";
    VersionPass.EmulatedLength(file, 1);
    assert file == from + "x";
    assert file[|from|..] == "x" && "x"[1..] == "";
    assert Replace.Hits("x", from, 1) == 0;
    assert Replace.Hits(file, from, 1) == 1;
  }

  /** A match flush with the end of the file stays. */
  lemma FlushMatchStays()
    ensures var file := "_OSI (\"Windows 2001\")"; VersionPass.Emulate(file, file) == file
  {
    var file := "_OSI (\"Windows 2001\")";
    Replace.ShortIsCopied(file, file, VersionPass.ReplaceTo(file));
  }

  /** Overlapping names: one is renamed, and what is left makes another. */
  lemma NameIsLeft(k: nat)
    ensures Contains(FreshPrefix.Rename("_T_T_", k), FreshPrefix.TEMPORARY)
  {
    var line := "_T_T_";
    assert line[3..] == "T_" && line[4..] == "_";
    assert FreshPrefix.Leftover(line);
    FreshPrefix.RenameLeaves(line, k);
  }

  // ----- the drivers -----

  /** Two drives found on a channel with one unit: 2 is returned, at most 1 is known. */
  lemma ScanCountIsWrong(seen: PciConfig.Config)
    ensures var found: IchSata.Units := [true, true];
            IchSata.Count(IchSata.Confirmed(SataPorts.Root(true, None), SataPorts.SATAPort0, found, seen)) < IchSata.Count(found)
  {
    hide IchSata.Present;
    var found: IchSata.Units := [true, true];
    assert !IchSata.Confirmed(SataPorts.Root(true, None), SataPorts.SATAPort0, found, seen)[1];
  }

  /** What the superclass's check is needed for: were the close of client 8 to reach
      channel 1, which client 7 has open, the root would be let go. */
  lemma StrangerCloses()
    ensures var s := OpenProtocol.System(OpenProtocol.Root({1}, {1}, true, [true]), map[1 := 7]);
            OpenProtocol.Inv(s) && !OpenProtocol.Inv(OpenProtocol.ChannelClose(s, 1, 8))
  {
    OpenProtocol.UncheckedClose(OpenProtocol.System(OpenProtocol.Root({1}, {1}, true, [true]), map[1 := 7]), 1, 8);
  }

  /** A battery is there when the driver starts, but neither package is answered: the
      dictionary still says that there is none. */
  lemma DictionaryIsStale()
    ensures var d := Battery.Started(None, Battery.Answers(Some(0x10), None, None));
            d.props.installed && !d.legacy.batteryInstalled
  {
  }
}
