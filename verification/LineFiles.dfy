/** Files as characters, and the strings that `fgets` with a buffer of 2048 characters
    cuts them into; and that the lines which `patchHPET` writes are read back. */
module LineFiles {
  import opened Wrappers
  import opened AslText
  import opened HpetText
  import HpetPass
  import HpetInsert

  const BUFFER_SIZE := 2048

  /** The length of what one `fgets` returns, with `room` characters left in the buffer. */
  function ChunkLength(text: string, room: nat): (n: nat)
    ensures n <= |text| && n <= room
    ensures n == 0 <==> text == "" || room == 0
  {
    if text == "" || room == 0 then 0
    else if text[0] == '\n' then 1
    else 1 + ChunkLength(text[1..], room - 1)
  }

  function ReadLines(text: string): seq<string> {
    if text == "" then []
    else
      var n := ChunkLength(text, BUFFER_SIZE - 1);
      [text[..n]] + ReadLines(text[n..])
  }

  function Flatten(lines: seq<string>): string {
    if lines == [] then "" else lines[0] + Flatten(lines[1..])
  }

  /** A string after which `fgets` stops whatever follows: a newline, or a full buffer. */
  predicate Stops(line: string) {
    && 0 < |line| < BUFFER_SIZE && '\n' !in line[..|line| - 1]
    && (line[|line| - 1] == '\n' || |line| == BUFFER_SIZE - 1)
  }

  ghost predicate AllStop(lines: seq<string>) {
    forall line :: line in lines ==> Stops(line)
  }

  lemma {:induction false} StopsAnywhere(line: string, tail: string, room: nat)
    requires 0 < |line| <= room && '\n' !in line[..|line| - 1]
    requires line[|line| - 1] == '\n' || |line| == room
    ensures ChunkLength(line + tail, room) == |line|
  {
    if |line| > 1 {
      assert line[0] != '\n' by { assert line[0] == line[..|line| - 1][0]; }
      assert (line + tail)[1..] == line[1..] + tail;
      assert line[1..][..|line| - 2] == line[..|line| - 1][1..];
      StopsAnywhere(line[1..], tail, room - 1);
    }
  }

  lemma {:induction false} FlattenJoin(a: seq<string>, b: seq<string>)
    ensures Flatten(a + b) == Flatten(a) + Flatten(b)
  {
    if a == [] {
      assert a + b == b;
    } else {
      assert (a + b)[1..] == a[1..] + b;
      FlattenJoin(a[1..], b);
    }
  }

  lemma FlattenOne(line: string)
    ensures Flatten([line]) == line
  {
    assert [line][1..] == [] && line + "" == line;
  }

  /** What one `fgets` can return. */
  predicate Fits(line: string) {
    0 < |line| < BUFFER_SIZE && '\n' !in line[..|line| - 1]
  }

  /** All strings but the last one stop, and the last one fits. */
  ghost predicate Readable(lines: seq<string>) {
    lines != [] ==> AllStop(lines[..|lines| - 1]) && Fits(lines[|lines| - 1])
  }

  lemma AllStopIsReadable(lines: seq<string>)
    requires AllStop(lines)
    ensures Readable(lines)
  {
    if lines != [] {
      assert lines[|lines| - 1] in lines;
    }
  }

  lemma {:induction false} WholeText(text: string, room: nat)
    requires text != "" && |text| <= room && '\n' !in text[..|text| - 1]
    ensures ChunkLength(text, room) == |text|
  {
    if |text| > 1 {
      assert text[0] == text[..|text| - 1][0];
      assert text[1..][..|text| - 2] == text[..|text| - 1][1..];
      WholeText(text[1..], room - 1);
    }
  }

  lemma {:induction false} ReadsBack(lines: seq<string>)
    requires Readable(lines)
    ensures ReadLines(Flatten(lines)) == lines
  {
    if |lines| == 1 {
      assert lines[0] + "" == lines[0];
      WholeText(lines[0], BUFFER_SIZE - 1);
    } else if lines != [] {
      var tail := Flatten(lines[1..]);
      assert lines[0] in lines[..|lines| - 1];
      assert lines[1..][..|lines| - 2] == lines[..|lines| - 1][1..];
      StopsAnywhere(lines[0], tail, BUFFER_SIZE - 1);
      ReadsBack(lines[1..]);
      assert (lines[0] + tail)[|lines[0]|..] == tail;
    }
  }

  /** A string is cut off at a newline, or with a full buffer, or at the end of the text. */
  lemma {:induction false} ChunkStops(text: string, room: nat)
    requires text != "" && room > 0
    ensures var c := text[..ChunkLength(text, room)];
            '\n' !in c[..|c| - 1] && (c[|c| - 1] == '\n' || |c| == room || |c| == |text|)
  {
    if text[0] != '\n' && room > 1 && |text| > 1 {
      var c, inner := text[..ChunkLength(text, room)], text[1..][..ChunkLength(text[1..], room - 1)];
      ChunkStops(text[1..], room - 1);
      assert c == [text[0]] + inner;
      assert c[..|c| - 1] == [text[0]] + inner[..|inner| - 1];
    }
  }

  lemma FirstChunk(text: string)
    requires text != ""
    ensures var n := ChunkLength(text, BUFFER_SIZE - 1);
            Fits(text[..n]) && (n < |text| || text[|text| - 1] == '\n' ==> Stops(text[..n]))
  {
    ChunkStops(text, BUFFER_SIZE - 1);
  }

  lemma StopsCons(line: string, lines: seq<string>)
    requires Stops(line)
    ensures AllStop(lines) ==> AllStop([line] + lines)
    ensures Readable(lines) && lines != [] ==> Readable([line] + lines)
  {
    if lines != [] {
      assert ([line] + lines)[..|lines|] == [line] + lines[..|lines| - 1];
    }
  }

  /** Nothing is lost in reading; all strings stop but the last one, which does too when
      the file ends in a newline. */
  lemma {:induction false} ReadLinesSplits(text: string)
    ensures Flatten(ReadLines(text)) == text
    ensures Readable(ReadLines(text))
    ensures text == "" || text[|text| - 1] == '\n' ==> AllStop(ReadLines(text))
    decreases |text|
  {
    if text != "" {
      var n := ChunkLength(text, BUFFER_SIZE - 1);
      ReadLinesSplits(text[n..]);
      assert text[..n] + text[n..] == text;
      assert ReadLines(text)[1..] == ReadLines(text[n..]);
      FirstChunk(text);
      assert text[n..] != "" ==> text[n..][|text| - n - 1] == text[|text| - 1];
      hide Flatten, ChunkLength, Stops, Fits;
      if Stops(text[..n]) {
        StopsCons(text[..n], ReadLines(text[n..]));
      }
    }
  }

  /** A line that is too long is cut after 2047 characters. */
  lemma LongLine(text: string)
    requires |text| >= 2047 && '\n' !in text[..2047]
    ensures ReadLines(text) == [text[..2047]] + ReadLines(text[2047..])
  {
    var line := text[..2047];
    assert text == line + text[2047..] && forall c :: c in line[..2046] ==> c in line;
    StopsAnywhere(line, text[2047..], BUFFER_SIZE - 1);
  }

  /** Strings are read back as they were written exactly when all but the last stop. */
  lemma ReadsBackIff(lines: seq<string>)
    ensures ReadLines(Flatten(lines)) == lines <==> Readable(lines)
  {
    ReadLinesSplits(Flatten(lines));
    if Readable(lines) {
      ReadsBack(lines);
    }
  }

  // ----- the lines that `patchHPET` writes -----

  lemma IndentStops(width: nat, text: string)
    requires forall i :: 0 <= i < |text| ==> text[i] != '\n'
    requires width + |text| < BUFFER_SIZE - 1
    ensures Stops(Indent(width, text))
  {
    var line := Indent(width, text);
    assert line[..|line| - 1] == seq(width, _ => ' ') + text;
  }

  lemma IrqsStop()
    ensures AllStop(HpetIrqs())
  {
    hide Indent, Stops;
    IndentStops(24, "IRQNoFlags ()");
    IndentStops(28, "{0}");
    IndentStops(28, "{8}");
  }

  lemma HeadStops()
    ensures AllStop(FixedHead())
  {
    var line := "\t\tDevice (HPET)\n";
    assert |line| == 16 && line[..15] == "\t\tDevice (HPET)";
    IndentStops(16, "{");
    IndentStops(20, "Name (_HID, EisaId (\"PNP0103\"))");
  }

  lemma TemplateStops()
    ensures AllStop(FixedTemplate())
  {
    IrqsStop();
    IndentStops(20, "Name (ATT3, ResourceTemplate ()");
    IndentStops(20, "{");
    IndentStops(24, "Memory32Fixed (ReadWrite,");
  }

  lemma RangeStops()
    ensures AllStop(FixedRange())
  {
    hide Indent, Stops;
    IndentStops(28, "0xFED00000,         // Address Base");
    IndentStops(28, "0x00000400,         // Address Length");
    IndentStops(28, ")");
    IndentStops(20, "})");
  }

  lemma Template2Stops()
    ensures AllStop(FixedTemplate2())
  {
    hide Indent, Stops;
    IndentStops(20, "Name (ATT4, ResourceTemplate ()");
    IndentStops(20, "{");
    IndentStops(20, "})");
  }

  lemma StatusStops()
    ensures AllStop(FixedStatus())
  {
    hide Indent, Stops;
    IndentStops(20, "Method (_STA, 0, NotSerialized)");
    IndentStops(20, "{");
    IndentStops(24, "Return (0x0F)");
    IndentStops(20, "}");
  }

  lemma ResourcesStop()
    ensures AllStop(FixedResources())
  {
    hide Indent, Stops;
    IndentStops(20, "Method (_CRS, 0, NotSerialized)");
    IndentStops(20, "{");
    IndentStops(24, "Return (ATT3)");
    IndentStops(20, "}");
    IndentStops(16, "}");
  }

  lemma JoinStops(a: seq<string>, b: seq<string>)
    requires AllStop(a) && AllStop(b)
    ensures AllStop(a + b)
  {
  }

  lemma FixedStops()
    ensures AllStop(FixedHpet())
  {
    HeadStops();
    TemplateStops();
    RangeStops();
    Template2Stops();
    StatusStops();
    ResourcesStop();
    JoinStops(FixedRange(), FixedTemplate2());
    JoinStops(FixedRange() + FixedTemplate2(), FixedStatus());
    JoinStops(FixedRange() + FixedTemplate2() + FixedStatus(), FixedResources());
    JoinStops(FixedHead(), FixedTemplate());
    JoinStops(FixedHead() + FixedTemplate(), FixedTail());
  }

  lemma {:induction false} SkipIrqsStops(r: Reader)
    requires AllStop([r.buffer] + r.rest) && HpetPass.SkipIrqs(r).Some?
    ensures var s := HpetPass.SkipIrqs(r).value; AllStop([s.buffer] + s.rest)
    decreases |r.rest|
  {
    if Contains(r.buffer, IRQ) {
      var s := r.Gets().Gets();
      assert forall line :: line in [s.buffer] + s.rest ==> line in [r.buffer] + r.rest;
      SkipIrqsStops(s);
    }
  }

  lemma {:induction false} DeviceLoopStops(rest: seq<string>, buffer: string, depth: int)
    requires AllStop([buffer] + rest) && HpetPass.DeviceLoop(rest, buffer, depth).Some?
    ensures var b := HpetPass.DeviceLoop(rest, buffer, depth).value;
            AllStop(b.written) && Stops(b.buffer) && AllStop(b.rest)
    decreases |rest|
  {
    assert Stops(([buffer] + rest)[0]);
    assert forall line :: line in rest ==> line in [buffer] + rest;
    IrqsStop();
    if rest != [] && depth + DeltaElse(rest[0]) != 0 {
      if Contains(rest[0], RESOURCE_TEMPLATE) {
        var brace := Reader(rest[1..], rest[0]).Gets();
        var next := brace.Gets();
        assert brace.buffer in rest && next.buffer in rest;
        assert forall line :: line in next.rest ==> line in rest;
        SkipIrqsStops(next);
        HpetPass.SkipIrqsShrinks(next);
        var skipped := HpetPass.SkipIrqs(next).value;
        assert skipped.buffer in [skipped.buffer] + skipped.rest;
        DeviceLoopStops(skipped.rest, skipped.buffer, 0);
      } else {
        DeviceLoopStops(rest[1..], rest[0], depth + DeltaElse(rest[0]));
      }
    }
  }

  lemma {:induction false} PassStops(rest: seq<string>, found: bool)
    requires AllStop(rest) && HpetPass.Pass(rest, found).Some?
    ensures AllStop(HpetPass.Pass(rest, found).value)
    decreases |rest|
  {
    if rest == [] {
    } else if HpetPass.IsHpet(rest[0], found) {
      var d := HpetPass.DepthAfterHpet(rest[0]);
      assert [rest[0]] + rest[1..] == rest;
      DeviceLoopStops(rest[1..], rest[0], d);
      HpetPass.DeviceLoopShrinks(rest[1..], rest[0], d);
      PassStops(HpetPass.DeviceLoop(rest[1..], rest[0], d).value.rest, true);
    } else {
      PassStops(rest[1..], found);
    }
  }

  lemma PatchStops(file: seq<string>)
    requires AllStop(file) && HpetInsert.Patch(file).Some?
    ensures AllStop(HpetInsert.Patch(file).value)
  {
    if HpetInsert.HasHpet(file) {
      PassStops(file, false);
    } else {
      var before, after := HpetInsert.InsertShape(file, false);
      FixedStops();
      assert HpetInsert.Patch(file).value != file ==> AllStop(before + FixedHpet() + after);
    }
  }
}
