/** The rest of `patchHPET`: adding an HPET device after the RTC device when the file
    has none, and the whole pass. */
module HpetInsert {
  import opened Wrappers
  import opened AslText
  import opened HpetText
  import HpetPass
  import RtcPass

  predicate Marked(line: string) {
    HpetPass.IsHpet(line, false)
  }

  predicate HasHpet(file: seq<string>) {
    exists i :: 0 <= i < |file| && Marked(file[i])
  }

  /** The insertion pass.  `written` tells whether the device has been written. */
  function Insert(rest: seq<string>, found: bool, written: bool): Option<seq<string>>
    decreases |rest|
  {
    if rest == [] then
      Some([])
    else if RtcPass.IsRtc(rest[0], found) then
      var block :- BlockLoop(rest[1..], rest[0], RtcPass.DepthAfterRtc(rest[0], 0));
      BlockLoopShrinks(rest[1..], rest[0], RtcPass.DepthAfterRtc(rest[0], 0));
      var next := Reader(block.rest, block.buffer).Gets();
      if written then
        var out :- Insert(block.rest, true, true);
        Some([rest[0]] + block.written + [block.buffer] + out)
      else
        var out :- Insert(next.rest, true, true);
        Some([rest[0]] + block.written + FixedHpet() + [next.buffer] + out)
    else
      var out :- Insert(rest[1..], found, written);
      Some([rest[0]] + out)
  }

  /** `patchHPET`: what is in the output file at the end. */
  function Patch(file: seq<string>): Option<seq<string>> {
    if HasHpet(file) then HpetPass.Pass(file, false)
    else
      var copied :- HpetPass.Pass(file, false);
      Insert(file, false, false)
  }

  /** One round of the insertion pass. */
  lemma InsertStep(rest: seq<string>, found: bool, written: bool)
    requires Insert(rest, found, written).Some?
    ensures var out := Insert(rest, found, written).value;
            if rest == [] then out == []
            else if RtcPass.IsRtc(rest[0], found) then
              var loop := BlockLoop(rest[1..], rest[0], RtcPass.DepthAfterRtc(rest[0], 0));
              && loop.Some? && loop.value.depth == 0 && |loop.value.rest| < |rest|
              && var b := loop.value;
                 var next := if written then Reader(b.rest, b.buffer) else Reader(b.rest, b.buffer).Gets();
                 var more := Insert(next.rest, true, true);
                 && more.Some?
                 && out == [rest[0]] + b.written + (if written then [] else FixedHpet()) + [next.buffer] + more.value
            else
              var more := Insert(rest[1..], found, written);
              more.Some? && out == [rest[0]] + more.value
  {
    if rest != [] && RtcPass.IsRtc(rest[0], found) {
      BlockLoopShrinks(rest[1..], rest[0], RtcPass.DepthAfterRtc(rest[0], 0));
      var b := BlockLoop(rest[1..], rest[0], RtcPass.DepthAfterRtc(rest[0], 0)).value;
      assert [rest[0]] + b.written + [] == [rest[0]] + b.written;
    }
  }

  // ----- the written device is left alone by the pass over HPET devices -----

  lemma FixedTemplateStays(rest: seq<string>, buffer: string)
    ensures HpetPass.DeviceLoop(FixedTemplate() + ([FixedTail()[0]] + rest), buffer, 1)
         == Some(Block(FixedTemplate(), FixedTail()[0], rest, 0))
  {
    var template, memory := Indent(20, "Name (ATT3, ResourceTemplate ()"), Indent(24, "Memory32Fixed (ReadWrite,");
    var brace, tail := Indent(20, "{"), [FixedTail()[0]] + rest;
    TemplateMarks();
    TemplateBraceless();
    MemoryMarks();
    RangeMarks();
    HpetPass.OpenedAgain(template, brace, memory, tail);
    assert (FixedTemplate() + tail)[1..] == [brace] + HpetIrqs() + [memory] + tail;
    assert FixedTemplate() == [template, brace] + HpetIrqs() + [memory];
    assert tail[1..] == rest;
    assert FixedTemplate() + [] == FixedTemplate();
  }

  lemma FixedDeviceStays(rest: seq<string>, header: string)
    ensures HpetPass.DeviceLoop(FixedHead()[1..] + FixedTemplate() + ([FixedTail()[0]] + rest), header, 0)
         == Some(Block(FixedHead()[1..] + FixedTemplate(), FixedTail()[0], rest, 0))
  {
    hide Contains, DeltaElse, HpetPass.DeviceLoop, FixedTemplate, Indent;
    var open, hid := FixedHead()[1], FixedHead()[2];
    var tail := FixedTemplate() + ([FixedTail()[0]] + rest);
    OpenMarks();
    HidMarks();
    FixedTemplateStays(rest, hid);
    HpetPass.LineStep(hid, tail, open, 1);
    HpetPass.LineStep(open, [hid] + tail, header, 0);
    assert FixedHead()[1..] + FixedTemplate() + ([FixedTail()[0]] + rest) == [open] + ([hid] + tail);
    assert [open] + ([hid] + FixedTemplate()) == FixedHead()[1..] + FixedTemplate();
  }

  lemma SplitFixed(header: string, after: seq<string>)
    ensures var body := FixedHead()[1..] + FixedTemplate();
            var tail := FixedTail()[1..] + after;
            && [header] + body + [FixedTail()[0]] + tail == [header] + FixedHpet()[1..] + after
            && [header] + (body + ([FixedTail()[0]] + tail)) == [header] + FixedHpet()[1..] + after
  {
    assert FixedTail() == [FixedTail()[0]] + FixedTail()[1..];
    assert FixedHpet()[1..] == FixedHead()[1..] + FixedTemplate() + FixedTail();
  }

  /** A file that has the written device, under any line that marks one, and no other mark
      is a fixed point. */
  lemma DeviceStays(before: seq<string>, header: string, after: seq<string>)
    requires !HasHpet(before) && Contains(header, HPET_DEVICE)
    requires forall m :: 0 <= m < |after| ==> !Contains(after[m], HPET_DEVICE)
    ensures HpetPass.Pass(before + ([header] + FixedHpet()[1..] + after), false)
         == Some(before + ([header] + FixedHpet()[1..] + after))
  {
    var tail := FixedTail()[1..] + after;
    TailHasNoDevice();
    HpetPass.UnmarkedStay(tail, [], true);
    assert tail + [] == tail;
    FixedDeviceStays(tail, header);
    var body := FixedHead()[1..] + FixedTemplate();
    HpetPass.PassAtDevice(header, false, Block(body, FixedTail()[0], tail, 0), body + ([FixedTail()[0]] + tail), tail);
    SplitFixed(header, after);
    HpetPass.UnmarkedStay(before, [header] + FixedHpet()[1..] + after, false);
  }

  lemma FixedStays(before: seq<string>, after: seq<string>)
    requires !HasHpet(before) && !HasHpet(after)
    ensures HpetPass.Pass(before + FixedHpet() + after, false) == Some(before + FixedHpet() + after)
  {
    DeviceMarks();
    DeviceStays(before, FixedHead()[0], after);
    assert FixedHpet() == [FixedHead()[0]] + FixedHpet()[1..];
    assert before + ([FixedHead()[0]] + FixedHpet()[1..] + after) == before + FixedHpet() + after;
  }

  // ----- a second run changes nothing -----

  ghost predicate Within(lines: seq<string>, file: seq<string>) {
    forall line :: line in lines ==> line in file
  }

  /** A device block with the line that follows it. */
  lemma BlockWithin(rest: seq<string>, depth: int)
    requires rest != [] && BlockLoop(rest[1..], rest[0], depth).Some?
    ensures var b := BlockLoop(rest[1..], rest[0], depth).value;
            var next := Reader(b.rest, b.buffer).Gets();
            && |next.rest| <= |b.rest| < |rest|
            && Within([rest[0]] + b.written, rest) && b.buffer in rest && next.buffer in rest
            && Within(b.rest, rest) && Within(next.rest, rest)
  {
    BlockLoopShrinks(rest[1..], rest[0], depth);
    BlockLoopLines(rest[1..], rest[0], depth);
    assert rest == [rest[0]] + rest[1..];
  }

  /** Once the device is written, only lines of the file follow. */
  lemma {:induction false} InsertedOnce(rest: seq<string>, found: bool)
    requires Insert(rest, found, true).Some?
    ensures Within(Insert(rest, found, true).value, rest)
    decreases |rest|
  {
    if rest == [] {
    } else if RtcPass.IsRtc(rest[0], found) {
      BlockWithin(rest, RtcPass.DepthAfterRtc(rest[0], 0));
      InsertedOnce(BlockLoop(rest[1..], rest[0], RtcPass.DepthAfterRtc(rest[0], 0)).value.rest, true);
    } else {
      InsertedOnce(rest[1..], found);
      assert rest == [rest[0]] + rest[1..];
    }
  }

  lemma ShapeAtRtc(rest: seq<string>, found: bool) returns (before: seq<string>, after: seq<string>)
    requires rest != [] && RtcPass.IsRtc(rest[0], found)
    requires Insert(rest, found, false).Some?
    ensures Within(before, rest) && Within(after, rest)
    ensures Insert(rest, found, false).value == before + FixedHpet() + after
  {
    var d := RtcPass.DepthAfterRtc(rest[0], 0);
    BlockWithin(rest, d);
    var b := BlockLoop(rest[1..], rest[0], d).value;
    var next := Reader(b.rest, b.buffer).Gets();
    InsertedOnce(next.rest, true);
    var out := Insert(next.rest, true, true).value;
    before, after := [rest[0]] + b.written, [next.buffer] + out;
    assert before + FixedHpet() + after == before + FixedHpet() + [next.buffer] + out;
  }

  /** The output is the file, or lines of the file around the one written device. */
  lemma {:induction false} InsertShape(rest: seq<string>, found: bool) returns (before: seq<string>, after: seq<string>)
    requires Insert(rest, found, false).Some?
    ensures Within(before, rest) && Within(after, rest)
    ensures Insert(rest, found, false).value in {rest, before + FixedHpet() + after}
    decreases |rest|
  {
    before, after := [], [];
    if rest == [] {
    } else if RtcPass.IsRtc(rest[0], found) {
      before, after := ShapeAtRtc(rest, found);
    } else {
      before, after := InsertShape(rest[1..], found);
      assert rest == [rest[0]] + rest[1..];
      assert [rest[0]] + (before + FixedHpet() + after) == ([rest[0]] + before) + FixedHpet() + after;
      before := [rest[0]] + before;
    }
  }

  /** The pass over HPET devices keeps the first mark of one. */
  lemma {:induction false} PassKeepsMark(rest: seq<string>, i: nat)
    requires i < |rest| && Marked(rest[i]) && HpetPass.Pass(rest, false).Some?
    ensures HasHpet(HpetPass.Pass(rest, false).value)
  {
    var out := HpetPass.Pass(rest, false).value;
    assert out[0] == rest[0];
    if !Marked(rest[0]) {
      PassKeepsMark(rest[1..], i - 1);
      var j :| 0 <= j < |out[1..]| && Marked(out[1..][j]);
      assert Marked(out[j + 1]);
    }
  }

  lemma FixedIsMarked(before: seq<string>, after: seq<string>)
    ensures HasHpet(before + FixedHpet() + after)
  {
    DeviceMarks();
    var out := before + FixedHpet() + after;
    assert out[|before|] == FixedHead()[0];
    assert Marked(out[|before|]);
  }

  lemma WithinUnmarked(lines: seq<string>, file: seq<string>)
    requires Within(lines, file) && !HasHpet(file)
    ensures !HasHpet(lines)
  {
    forall i | 0 <= i < |lines|
      ensures !Marked(lines[i])
    {
      assert lines[i] in lines;
      var j :| 0 <= j < |file| && file[j] == lines[i];
    }
  }

  lemma InsertedIsFixed(file: seq<string>)
    requires !HasHpet(file) && Patch(file).Some?
    ensures Patch(Patch(file).value) == Patch(file)
  {
    var before, after := InsertShape(file, false);
    if Patch(file).value != file {
      WithinUnmarked(before, file);
      WithinUnmarked(after, file);
      FixedIsMarked(before, after);
      FixedStays(before, after);
    }
  }

  /** Running `patchHPET` on its own output returns that output, whatever the file: with
      any number of HPET devices, or with the device inserted, or without either. */
  lemma PatchIsIdempotent(file: seq<string>)
    requires Patch(file).Some?
    ensures Patch(Patch(file).value) == Patch(file)
  {
    if HasHpet(file) {
      var i :| 0 <= i < |file| && Marked(file[i]);
      PassKeepsMark(file, i);
      HpetPass.PassIsIdempotent(file, false);
    } else {
      InsertedIsFixed(file);
    }
  }

  // ----- when the insertion is all that happens -----

  /** The first RTC device is met in line `i` and closes `k` lines after the next. */
  ghost predicate FirstDevice(file: seq<string>, i: nat, k: nat) {
    && i < |file| && RtcPass.IsRtc(file[i], false)
    && (forall m :: 0 <= m < i ==> !RtcPass.IsRtc(file[m], false))
    && i + 1 + k < |file| && CloseAt(file[i + 1..], RtcPass.DepthAfterRtc(file[i], 0)) == Some(k)
  }

  predicate HasDevice(lines: seq<string>) {
    exists m :: 0 <= m < |lines| && Contains(lines[m], RtcPass.RTC_DEVICE)
  }

  /** After the device is written, an RTC device is copied with its closing line written
      twice, and the pass goes on after that line. */
  lemma LaterDevice(rest: seq<string>, k: nat)
    requires rest != [] && Contains(rest[0], RtcPass.RTC_DEVICE) && CloseAt(rest[1..], 0) == Some(k)
    ensures var more := Insert(rest[k + 2..], true, true);
            Insert(rest, true, true)
            == if more.None? then None else Some(rest[..k + 2] + [rest[k + 1]] + more.value)
  {
    hide Contains, Delta, BlockLoop;
    BlockLoopCloses(rest[1..], rest[0], 0, k);
    assert rest[1..][k + 1..] == rest[k + 2..];
    assert [rest[0]] + rest[1..][..k + 1] == rest[..k + 2];
  }

  /** Without an RTC device it copies the rest; with one it makes it longer. */
  lemma {:induction false} LaterDevices(rest: seq<string>)
    ensures !HasDevice(rest) ==> Insert(rest, true, true) == Some(rest)
    ensures Insert(rest, true, true).Some? ==> |Insert(rest, true, true).value| >= |rest| + if HasDevice(rest) then 1 else 0
    decreases |rest|
  {
    if rest == [] {
    } else if Contains(rest[0], RtcPass.RTC_DEVICE) {
      if BlockLoop(rest[1..], rest[0], 0).Some? {
        BlockLoopShrinks(rest[1..], rest[0], 0);
        LaterDevices(BlockLoop(rest[1..], rest[0], 0).value.rest);
      }
    } else {
      LaterDevices(rest[1..]);
      assert HasDevice(rest) ==> HasDevice(rest[1..]) by {
        if m :| 0 <= m < |rest| && Contains(rest[m], RtcPass.RTC_DEVICE) {
          assert rest[1..][m - 1] == rest[m];
        }
      }
      assert rest == [rest[0]] + rest[1..];
    }
  }

  lemma {:induction false} InsertPrefix(file: seq<string>, i: nat, found: bool, written: bool)
    requires i <= |file| && forall m :: 0 <= m < i ==> !RtcPass.IsRtc(file[m], found)
    ensures var out := Insert(file[i..], found, written);
            Insert(file, found, written) == if out.None? then None else Some(file[..i] + out.value)
  {
    if i == 0 {
      assert file[0..] == file;
      assert forall out: seq<string> :: file[..0] + out == out;
    } else {
      assert file[1..][i - 1..] == file[i..];
      InsertPrefix(file[1..], i - 1, found, written);
      assert forall out: seq<string> :: [file[0]] + (file[1..][..i - 1] + out) == file[..i] + out;
    }
  }

  lemma RejoinInsert(file: seq<string>, i: nat, k: nat, c: seq<string>, r: seq<string>)
    requires i + k + 2 <= |file|
    ensures file[..i] + ([file[i]] + file[i..][1..][..k + 1] + FixedHpet() + c + r)
         == file[..i + k + 2] + FixedHpet() + (c + r)
  {
    hide FixedHpet;
    assert file[..i] + [file[i]] + file[i..][1..][..k + 1] == file[..i + k + 2];
  }

  /** What the insertion does with a file whose first RTC device closes. */
  lemma InsertAt(file: seq<string>, i: nat, k: nat)
    requires FirstDevice(file, i, k)
    ensures var end := i + k + 2;
            var next := Reader(file[end..], file[end - 1]).Gets();
            var out := Insert(next.rest, true, true);
            Insert(file, false, false)
            == if out.None? then None else Some(file[..end] + FixedHpet() + ([next.buffer] + out.value))
  {
    var end, here := i + k + 2, file[i..];
    var next := Reader(file[end..], file[end - 1]).Gets();
    var out := Insert(next.rest, true, true);
    assert here[1..] == file[i + 1..];
    BlockLoopCloses(here[1..], here[0], RtcPass.DepthAfterRtc(here[0], 0), k);
    assert here[1..][k + 1..] == file[end..];
    InsertPrefix(file, i, false, false);
    if out.Some? {
      RejoinInsert(file, i, k, [next.buffer], out.value);
    }
  }

  lemma NoHpetMeansInsert(file: seq<string>)
    requires !HasHpet(file)
    ensures Patch(file) == Insert(file, false, false)
  {
    HpetPass.UnmarkedStay(file, [], false);
    assert file + [] == file;
  }

  lemma TailsDiffer(head: seq<string>, line: seq<string>, out: Option<seq<string>>, tail: seq<string>)
    ensures out.Some? && head + (line + out.value) == head + tail <==> out.Some? && line + out.value == tail
  {
    if out.Some? && head + (line + out.value) == head + tail {
      assert line + out.value == (head + (line + out.value))[|head|..];
      assert tail == (head + tail)[|head|..];
    }
  }

  /** The output is the input with the device inserted once, directly after the RTC
      device, and nothing else changed, if and only if a line follows that device and no
      RTC device is met after that line. */
  lemma InsertsOnlyTheDevice(file: seq<string>, i: nat, k: nat)
    requires !HasHpet(file) && FirstDevice(file, i, k)
    ensures var end := i + k + 2;
            Patch(file) == Some(file[..end] + FixedHpet() + file[end..])
            <==> end < |file| && !HasDevice(file[end + 1..])
  {
    var end := i + k + 2;
    NoHpetMeansInsert(file);
    InsertAt(file, i, k);
    var next := Reader(file[end..], file[end - 1]).Gets();
    LaterDevices(next.rest);
    TailsDiffer(file[..end] + FixedHpet(), [next.buffer], Insert(next.rest, true, true), file[end..]);
    if end < |file| {
      assert file[end..] == [file[end]] + file[end + 1..];
    }
  }

  lemma Regroup(head: seq<string>, a: seq<string>, b: seq<string>, c: seq<string>)
    ensures head + (a + b + c) == head + a + b + c
  {
  }

  lemma QuietThen(rest: seq<string>, n: nat)
    requires n <= |rest| && !HasDevice(rest[..n])
    ensures var out := Insert(rest[n..], true, true);
            Insert(rest, true, true) == if out.None? then None else Some(rest[..n] + out.value)
  {
    hide Contains, Insert;
    forall m | 0 <= m < n
      ensures !RtcPass.IsRtc(rest[m], true)
    {
      assert rest[..n][m] == rest[m];
    }
    InsertPrefix(rest, n, true, true);
  }

  lemma DoubledAfter(file: seq<string>, n: nat, m: nat, q: nat)
    requires n <= m < |file| && !HasDevice(file[n..m])
    requires Contains(file[m], RtcPass.RTC_DEVICE) && CloseAt(file[m + 1..], 0) == Some(q)
    requires !HasDevice(file[m + q + 2..])
    ensures var close := m + q + 1;
            Insert(file[n..], true, true) == Some(file[n..close + 1] + [file[close]] + file[close + 1..])
  {
    hide Contains, Insert, Delta, CloseAt, HasDevice;
    var rest, here, close := file[n..], file[m..], m + q + 1;
    assert here[1..] == file[m + 1..] && here[q + 2..] == file[close + 1..];
    LaterDevices(file[close + 1..]);
    LaterDevice(here, q);
    assert rest[m - n..] == here && rest[..m - n] == file[n..m];
    QuietThen(rest, m - n);
    assert here[..q + 2] == file[m..close + 1] && file[n..m] + file[m..close + 1] == file[n..close + 1];
    assert file[n..m] + (file[m..close + 1] + [file[close]] + file[close + 1..])
        == file[n..close + 1] + [file[close]] + file[close + 1..];
  }

  /** With one more RTC device, met in line `m` after the line that follows the first one
      and closing `q` lines after its next: besides the insertion, that device's closing
      line is written twice, and nothing else changes. */
  lemma SecondRtcDevice(file: seq<string>, i: nat, k: nat, m: nat, q: nat)
    requires !HasHpet(file) && FirstDevice(file, i, k)
    requires i + k + 2 < m < |file| && Contains(file[m], RtcPass.RTC_DEVICE)
    requires !HasDevice(file[i + k + 3..m]) && CloseAt(file[m + 1..], 0) == Some(q)
    requires !HasDevice(file[m + q + 2..])
    ensures var end, close := i + k + 2, m + q + 1;
            Patch(file) == Some(file[..end] + FixedHpet() + file[end..close + 1] + [file[close]] + file[close + 1..])
  {
    hide Contains, RtcPass.IsRtc, Insert, Delta, FixedHpet, Patch, CloseAt, HasDevice, HasHpet;
    var end, close := i + k + 2, m + q + 1;
    NoHpetMeansInsert(file);
    InsertAt(file, i, k);
    assert Reader(file[end..], file[end - 1]).Gets() == Reader(file[end + 1..], file[end]);
    DoubledAfter(file, end + 1, m, q);
    var head, out := file[..end] + FixedHpet(), file[end + 1..close + 1] + [file[close]] + file[close + 1..];
    assert [file[end]] + out == file[end..close + 1] + [file[close]] + file[close + 1..];
    Regroup(head, file[end..close + 1], [file[close]], file[close + 1..]);
  }
}
