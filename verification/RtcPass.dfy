/** Specification of `patchRTC`: what one pass writes, and what that amounts to. */
module RtcPass {
  import opened Wrappers
  import opened AslText

  const RTC_DEVICE := "Device (RTC"
  const RTC_DEVICE_2 := "PNP0B00"

  /** `foundRTCDevice`: the hardware id counts only while no device has been found. */
  predicate IsRtc(line: string, found: bool) {
    Contains(line, RTC_DEVICE) || (Contains(line, RTC_DEVICE_2) && !found)
  }

  /** A device met by its hardware id is already inside its opening brace. */
  function DepthAfterRtc(line: string, depth: int): int {
    if Contains(line, RTC_DEVICE) then depth else depth + 1
  }

  /** The device loop once every `fgets` fails. */
  function AtEndOfFile(buffer: string, depth: int): Option<Block> {
    var d := depth + Delta(buffer);
    if d == 0 then Some(Block([], buffer, [], 0))
    else if Contains(buffer, IRQ) then Some(Block([], buffer, [], d))
    else
      var rounds :- Drain(depth, Delta(buffer));
      Some(Block(Repeat(buffer, rounds - 1), buffer, [], 0))
  }

  /** The device loop.  `buffer` is the line last read, `depth` the brace count. */
  function DeviceLoop(rest: seq<string>, buffer: string, depth: int): Option<Block>
    decreases |rest|
  {
    if rest == [] then
      AtEndOfFile(buffer, depth)
    else
      var line, d := rest[0], depth + Delta(rest[0]);
      if d == 0 then
        Some(Block([], line, rest[1..], 0))
      else if Contains(line, IRQ) then
        var skipped := Reader(rest[1..], line).Gets().Gets();
        Some(Block([], skipped.buffer, skipped.rest, d))
      else
        var block :- DeviceLoop(rest[1..], line, d);
        Some(block.Prepend([line]))
  }

  /** One round of the device loop, at end of file or not. */
  lemma DeviceLoopStep(r: Reader, depth: int)
    ensures var n, d := r.Gets(), depth + Delta(r.Gets().buffer);
            var more := DeviceLoop(n.rest, n.buffer, d);
            && DeviceLoop(r.rest, r.buffer, depth)
               == (if d == 0 then Some(Block([], n.buffer, n.rest, 0))
                   else if Contains(n.buffer, IRQ) then
                     Some(Block([], n.Gets().Gets().buffer, n.Gets().Gets().rest, d))
                   else if more.None? then None
                   else Some(more.value.Prepend([n.buffer])))
            && (d != 0 && !Contains(n.buffer, IRQ) && more.Some? ==>
                  |n.rest| < |r.rest| || (n == r && Abs(d) < Abs(depth)))
  {
    var d := depth + Delta(r.Gets().buffer);
    if r.rest == [] && d != 0 && !Contains(r.buffer, IRQ) {
      DrainStep(depth, Delta(r.buffer));
      if Drain(depth, Delta(r.buffer)).Some? {
        var k := Drain(depth, Delta(r.buffer)).value;
        if d + Delta(r.buffer) == 0 {
          assert k == 2;
        }
        RepeatMore(r.buffer, k - 2);
      }
    }
  }

  /** The device loop after `n` rounds; None when it has returned. */
  function Rounds(r: Reader, depth: int, n: nat): Option<(Reader, int)>
    decreases n
  {
    if n == 0 then Some((r, depth))
    else
      var next, d := r.Gets(), depth + Delta(r.Gets().buffer);
      if d == 0 || Contains(next.buffer, IRQ) then None else Rounds(next, d, n - 1)
  }

  lemma {:induction false} Leaves(r: Reader, depth: int) returns (n: nat)
    requires DeviceLoop(r.rest, r.buffer, depth).Some?
    ensures Rounds(r, depth, n).None?
    decreases |r.rest|, Abs(depth)
  {
    DeviceLoopStep(r, depth);
    n := 0;
    var next, d := r.Gets(), depth + Delta(r.Gets().buffer);
    if d != 0 && !Contains(next.buffer, IRQ) {
      n := Leaves(next, d);
    }
    n := n + 1;
  }

  lemma {:induction false} Stays(r: Reader, depth: int, n: nat)
    requires DeviceLoop(r.rest, r.buffer, depth).None?
    ensures Rounds(r, depth, n).Some?
    decreases n
  {
    if n > 0 {
      DeviceLoopStep(r, depth);
      Stays(r.Gets(), depth + Delta(r.Gets().buffer), n - 1);
    }
  }

  /** The loop returns in some number of rounds if and only if `DeviceLoop` has a value. */
  lemma Returns(r: Reader, depth: int)
    ensures DeviceLoop(r.rest, r.buffer, depth).Some? <==> exists n: nat :: Rounds(r, depth, n).None?
  {
    if DeviceLoop(r.rest, r.buffer, depth).Some? {
      var n := Leaves(r, depth);
    } else {
      forall n: nat
        ensures Rounds(r, depth, n).Some?
      {
        Stays(r, depth, n);
      }
    }
  }

  lemma {:induction false} DeviceLoopShrinks(rest: seq<string>, buffer: string, depth: int)
    ensures var b := DeviceLoop(rest, buffer, depth); b.Some? ==> |b.value.rest| <= |rest|
    decreases |rest|
  {
    if rest != [] && !Contains(rest[0], IRQ) {
      DeviceLoopShrinks(rest[1..], rest[0], depth + Delta(rest[0]));
    }
  }

  /** What the pass writes for the unread lines; None when it never returns. */
  function Pass(rest: seq<string>, found: bool, depth: int): Option<seq<string>>
    decreases |rest|
  {
    if rest == [] then
      Some([])
    else if IsRtc(rest[0], found) then
      var block :- DeviceLoop(rest[1..], rest[0], DepthAfterRtc(rest[0], depth));
      DeviceLoopShrinks(rest[1..], rest[0], DepthAfterRtc(rest[0], depth));
      var out :- Pass(block.rest, true, block.depth);
      Some([rest[0]] + block.written + [block.buffer] + out)
    else
      var out :- Pass(rest[1..], found, depth);
      Some([rest[0]] + out)
  }

  /** One round of the pass. */
  lemma PassStep(rest: seq<string>, found: bool, depth: int)
    requires Pass(rest, found, depth).Some?
    ensures var out := Pass(rest, found, depth).value;
            if rest == [] then out == []
            else if IsRtc(rest[0], found) then
              var d := DepthAfterRtc(rest[0], depth);
              var loop := DeviceLoop(rest[1..], rest[0], d);
              && loop.Some?
              && var b := loop.value;
                 var more := Pass(b.rest, true, b.depth);
                 more.Some? && out == [rest[0]] + b.written + [b.buffer] + more.value
            else
              var more := Pass(rest[1..], found, depth);
              more.Some? && out == [rest[0]] + more.value
  {
  }

  // ----- every run: only IRQ pairs go, nothing is reordered or invented -----

  /** `after` is `before` without some pairs of lines that start with an IRQ line.  At
      the very end of a file an IRQ line may go alone, when only one line follows. */
  ghost predicate Thinned(before: seq<string>, after: seq<string>)
    decreases |before|
  {
    || (before == [] && after == [])
    || (before != [] && after != [] && before[0] == after[0] && Thinned(before[1..], after[1..]))
    || (|before| >= 3 && Contains(before[0], IRQ) && Thinned(before[2..], after))
    || (|before| == 2 && Contains(before[0], IRQ) && after == [before[1]])
  }

  ghost function Stale(lines: seq<string>, n: nat): seq<string> {
    if lines == [] then [] else Repeat(lines[|lines| - 1], n)
  }

  /** `Thinned`, followed by copies of the last line: the stale buffer of a device
      loop that ran into the end of the file. */
  ghost predicate ThinnedThenStale(before: seq<string>, after: seq<string>) {
    exists thin: seq<string>, n: nat ::
      Thinned(before, thin) && after == thin + Stale(before, n)
  }

  lemma {:induction false} ThinnedRefl(lines: seq<string>)
    ensures Thinned(lines, lines)
  {
    if lines != [] {
      ThinnedRefl(lines[1..]);
    }
  }

  lemma ThinnedMore(line: string, before: seq<string>, thin: seq<string>)
    requires Thinned(before, thin)
    ensures Thinned([line] + before, [line] + thin)
  {
    hide Contains;
    assert ([line] + before)[1..] == before && ([line] + thin)[1..] == thin;
  }

  lemma StaleMore(line: string, before: seq<string>, n: nat)
    ensures Stale([line] + before, if before == [] then 0 else n) == Stale(before, n)
  {
  }

  lemma KeepLine(line: string, before: seq<string>, after: seq<string>)
    requires ThinnedThenStale(before, after)
    ensures ThinnedThenStale([line] + before, [line] + after)
  {
    hide Contains, Thinned, Stale;
    var thin: seq<string>, n: nat :| Thinned(before, thin) && after == thin + Stale(before, n);
    var all, m := [line] + before, if before == [] then 0 else n;
    ThinnedMore(line, before, thin);
    StaleMore(line, before, n);
    assert [line] + after == ([line] + thin) + Stale(all, m);
  }

  lemma DropPair(before: seq<string>, after: seq<string>)
    requires |before| >= 3 && Contains(before[0], IRQ)
    requires ThinnedThenStale(before[2..], after)
    ensures ThinnedThenStale(before, after)
  {
    var thin: seq<string>, n: nat :| Thinned(before[2..], thin) && after == thin + Stale(before[2..], n);
    assert Thinned(before, thin);
    assert Stale(before, n) == Stale(before[2..], n);
  }

  lemma StaleThins(buffer: string, depth: int, tail: seq<string>)
    requires AtEndOfFile(buffer, depth).Some?
    requires ThinnedThenStale([], tail)
    ensures var b := AtEndOfFile(buffer, depth).value;
            ThinnedThenStale([buffer], [buffer] + (b.written + [b.buffer] + tail))
  {
    var b := AtEndOfFile(buffer, depth).value;
    var thin, n :| Thinned([], thin) && tail == thin + Stale([], n);
    ThinnedRefl([buffer]);
    assert b.written + [b.buffer] + tail == Stale([buffer], |b.written| + 1);
  }

  lemma ShortThins(rest: seq<string>, tail: seq<string>)
    requires 1 <= |rest| <= 2 && Contains(rest[0], IRQ)
    requires ThinnedThenStale([], tail)
    ensures ThinnedThenStale(rest, [rest[|rest| - 1]] + tail)
  {
    hide Contains;
    var thin, n :| Thinned([], thin) && tail == thin + Stale([], n);
    assert tail == [];
    var kept := [rest[|rest| - 1]];
    if |rest| == 1 {
      ThinnedRefl(rest);
      assert rest == kept;
    }
    assert Thinned(rest, kept);
    assert kept + tail == kept + Stale(rest, 0);
  }

  lemma IrqThins(rest: seq<string>, tail: seq<string>)
    requires rest != [] && Contains(rest[0], IRQ)
    requires ThinnedThenStale(Reader(rest[1..], rest[0]).Gets().Gets().rest, tail)
    ensures ThinnedThenStale(rest, [Reader(rest[1..], rest[0]).Gets().Gets().buffer] + tail)
  {
    hide Contains, ThinnedThenStale;
    var skipped := Reader(rest[1..], rest[0]).Gets().Gets();
    if |rest| >= 3 {
      assert rest[1..][1..][1..] == rest[3..];
      KeepLine(rest[2], rest[3..], tail);
      assert rest[2..] == [rest[2]] + rest[3..];
      DropPair(rest, [rest[2]] + tail);
    } else {
      assert skipped == Reader([], rest[|rest| - 1]);
      ShortThins(rest, tail);
    }
  }

  lemma {:induction false} DeviceLoopThins(rest: seq<string>, buffer: string, depth: int, tail: seq<string>)
    requires DeviceLoop(rest, buffer, depth).Some?
    requires ThinnedThenStale(DeviceLoop(rest, buffer, depth).value.rest, tail)
    ensures var b := DeviceLoop(rest, buffer, depth).value;
            ThinnedThenStale([buffer] + rest, [buffer] + (b.written + [b.buffer] + tail))
    decreases |rest|
  {
    if rest == [] {
      StaleThins(buffer, depth, tail);
      assert [buffer] + rest == [buffer];
    } else {
      var b := DeviceLoop(rest, buffer, depth).value;
      LineThins(rest, buffer, depth, tail);
      KeepLine(buffer, rest, b.written + [b.buffer] + tail);
    }
  }

  lemma {:induction false} LineThins(rest: seq<string>, buffer: string, depth: int, tail: seq<string>)
    requires rest != [] && DeviceLoop(rest, buffer, depth).Some?
    requires ThinnedThenStale(DeviceLoop(rest, buffer, depth).value.rest, tail)
    ensures var b := DeviceLoop(rest, buffer, depth).value;
            ThinnedThenStale(rest, b.written + [b.buffer] + tail)
    decreases |rest|, 0
  {
    hide Contains, Delta, ThinnedThenStale, AtEndOfFile;
    var b := DeviceLoop(rest, buffer, depth).value;
    var line, d := rest[0], depth + Delta(rest[0]);
    var now := b.written + [b.buffer] + tail;
    assert rest == [line] + rest[1..];
    if d == 0 {
      KeepLine(line, rest[1..], tail);
      assert now == [line] + tail;
    } else if Contains(line, IRQ) {
      IrqThins(rest, tail);
      assert now == [b.buffer] + tail;
    } else {
      DeviceLoopThins(rest[1..], line, d, tail);
      var inner := DeviceLoop(rest[1..], line, d).value;
      assert now == [line] + (inner.written + [inner.buffer] + tail);
    }
  }

  lemma DeviceThins(rest: seq<string>, depth: int, tail: seq<string>)
    requires rest != [] && DeviceLoop(rest[1..], rest[0], depth).Some?
    requires ThinnedThenStale(DeviceLoop(rest[1..], rest[0], depth).value.rest, tail)
    ensures var b := DeviceLoop(rest[1..], rest[0], depth).value;
            ThinnedThenStale(rest, [rest[0]] + b.written + [b.buffer] + tail)
  {
    hide Contains, Delta, DeviceLoop, ThinnedThenStale;
    var b := DeviceLoop(rest[1..], rest[0], depth).value;
    DeviceLoopThins(rest[1..], rest[0], depth, tail);
    assert rest == [rest[0]] + rest[1..];
    assert [rest[0]] + b.written + [b.buffer] + tail == [rest[0]] + (b.written + [b.buffer] + tail);
  }

  /** Whatever the file and however many RTC devices it has, a pass that returns only
      takes out pairs of lines beginning with an IRQ line; every other line stays, in
      order, and nothing is added but copies of the last line after an overrun. */
  lemma {:induction false} PassThins(rest: seq<string>, found: bool, depth: int)
    requires Pass(rest, found, depth).Some?
    ensures ThinnedThenStale(rest, Pass(rest, found, depth).value)
    decreases |rest|
  {
    if rest == [] {
      assert [] == [] + Stale([], 0);
      assert Thinned(rest, []);
    } else if IsRtc(rest[0], found) {
      var d := DepthAfterRtc(rest[0], depth);
      DeviceLoopShrinks(rest[1..], rest[0], d);
      var b := DeviceLoop(rest[1..], rest[0], d).value;
      PassThins(b.rest, true, b.depth);
      DeviceThins(rest, d, Pass(b.rest, true, b.depth).value);
    } else {
      PassThins(rest[1..], found, depth);
      KeepLine(rest[0], rest[1..], Pass(rest[1..], found, depth).value);
      assert rest == [rest[0]] + rest[1..];
    }
  }

  // ----- one device: exactly what is taken out -----

  lemma {:induction false} LoopWithoutIrq(body: seq<string>, buffer: string, depth: int, k: nat)
    requires k < |body| && CloseAt(body, depth) == Some(k)
    requires forall i :: 0 <= i < k ==> !Contains(body[i], IRQ)
    ensures DeviceLoop(body, buffer, depth) == Some(Block(body[..k], body[k], body[k + 1..], 0))
    decreases |body|
  {
    if k > 0 {
      LoopWithoutIrq(body[1..], body[0], depth + Delta(body[0]), k - 1);
      assert body[..k] == [body[0]] + body[1..][..k - 1];
    }
  }

  lemma CountStep(body: seq<string>, j: nat, depth: int)
    requires j < |body|
    ensures DepthAfter(body, j + 1, depth) == DepthAfter(body[1..], j, depth + Delta(body[0]))
    ensures j == 0 ==> DepthAfter(body, 1, depth) == depth + Delta(body[0])
  {
    hide Delta;
    assert body[..j + 1][1..] == body[1..][..j];
  }

  lemma {:induction false} LoopWithIrq(body: seq<string>, buffer: string, depth: int, j: nat)
    requires j < |body| && (CloseAt(body, depth).Some? ==> j < CloseAt(body, depth).value)
    requires Contains(body[j], IRQ) && forall i :: 0 <= i < j ==> !Contains(body[i], IRQ)
    ensures var skipped := Reader(body[j + 1..], body[j]).Gets().Gets();
            DeviceLoop(body, buffer, depth)
            == Some(Block(body[..j], skipped.buffer, skipped.rest, DepthAfter(body, j + 1, depth)))
    decreases |body|
  {
    hide Contains, Delta, DepthAfter;
    var d := depth + Delta(body[0]);
    CountStep(body, j, depth);
    if j > 0 {
      LoopWithIrq(body[1..], body[0], d, j - 1);
      assert body[..j] == [body[0]] + body[1..][..j - 1];
      assert body[1..][j..] == body[j + 1..];
    }
  }

  /** A device that neither closes nor has an IRQ line is read to the end of the file. */
  lemma {:induction false} LoopRunsOut(body: seq<string>, buffer: string, depth: int)
    requires CloseAt(body, depth).None? && FirstWith(body, IRQ).None?
    ensures var last := AtEndOfFile(([buffer] + body)[|body|], depth + Balance(body));
            DeviceLoop(body, buffer, depth) == if last.None? then None else Some(last.value.Prepend(body))
    decreases |body|
  {
    hide Contains, Delta, AtEndOfFile;
    var last := AtEndOfFile(([buffer] + body)[|body|], depth + Balance(body));
    if body != [] {
      LoopRunsOut(body[1..], body[0], depth + Delta(body[0]));
      assert last.Some? ==> [body[0]] + (body[1..] + last.value.written) == body + last.value.written;
    } else {
      assert last.Some? ==> body + last.value.written == last.value.written;
    }
  }

  /** Lines that are no trigger are copied. */
  lemma {:induction false} QuietLines(before: seq<string>, text: seq<string>, found: bool, depth: int)
    requires forall m :: 0 <= m < |before| ==> !IsRtc(before[m], found)
    ensures var out := Pass(text, found, depth);
            Pass(before + text, found, depth) == if out.None? then None else Some(before + out.value)
    decreases |before|
  {
    hide Contains, IsRtc, DeviceLoop, DepthAfterRtc;
    var out := Pass(text, found, depth);
    if before == [] {
      assert before + text == text && (out.Some? ==> before + out.value == out.value);
    } else {
      assert (before + text)[1..] == before[1..] + text;
      QuietLines(before[1..], text, found, depth);
      assert out.Some? ==> [before[0]] + (before[1..] + out.value) == before + out.value;
    }
  }

  /** No line after the first one is met as an RTC device. */
  ghost predicate NoneAfter(text: seq<string>) {
    forall m :: 1 <= m < |text| ==> !Contains(text[m], RTC_DEVICE)
  }

  /** A device, the lines after it that are copied, and what then follows. */
  lemma PassAcross(text: seq<string>, found: bool, depth: int, between: seq<string>, tail: seq<string>)
    requires text != [] && IsRtc(text[0], found)
    requires var loop := DeviceLoop(text[1..], text[0], DepthAfterRtc(text[0], depth));
             loop.Some? && loop.value.rest == between + tail
    requires forall m :: 0 <= m < |between| ==> !Contains(between[m], RTC_DEVICE)
    ensures var b := DeviceLoop(text[1..], text[0], DepthAfterRtc(text[0], depth)).value;
            var out := Pass(tail, true, b.depth);
            Pass(text, found, depth)
            == if out.None? then None else Some([text[0]] + b.written + [b.buffer] + between + out.value)
  {
    hide Contains, DeviceLoop, DepthAfterRtc;
    var b := DeviceLoop(text[1..], text[0], DepthAfterRtc(text[0], depth)).value;
    var out := Pass(tail, true, b.depth);
    QuietLines(between, tail, true, b.depth);
    DeviceLoopShrinks(text[1..], text[0], DepthAfterRtc(text[0], depth));
    if out.Some? {
      var head := [text[0]] + b.written + [b.buffer];
      assert head + (between + out.value) == head + between + out.value;
    }
  }

  lemma PassAtDevice(text: seq<string>, found: bool, depth: int)
    requires text != [] && IsRtc(text[0], found)
    requires var loop := DeviceLoop(text[1..], text[0], DepthAfterRtc(text[0], depth));
             loop.Some? ==> forall m :: 0 <= m < |loop.value.rest| ==> !Contains(loop.value.rest[m], RTC_DEVICE)
    ensures var loop := DeviceLoop(text[1..], text[0], DepthAfterRtc(text[0], depth));
            Pass(text, found, depth)
            == if loop.None? then None
               else Some([text[0]] + loop.value.written + [loop.value.buffer] + loop.value.rest)
  {
    hide Contains, DeviceLoop, DepthAfterRtc;
    var loop := DeviceLoop(text[1..], text[0], DepthAfterRtc(text[0], depth));
    if loop.Some? {
      var b := loop.value;
      assert b.rest + [] == b.rest;
      PassAcross(text, found, depth, b.rest, []);
      assert [text[0]] + b.written + [b.buffer] + b.rest + [] == [text[0]] + b.written + [b.buffer] + b.rest;
    }
  }

  /** The two lines that go are the first IRQ line of the device and the line after it,
      whatever that is; if they are the last lines of the file the second one stays. */
  function WithoutPair(text: seq<string>, at: nat): seq<string>
    requires at + 1 < |text|
  {
    text[..at] + text[if at + 2 < |text| then at + 2 else at + 1..]
  }

  /** The lines that a scan looks at: those before the one that brings the count to zero,
      if there is one. */
  function Watched(body: seq<string>, depth: int): seq<string> {
    match CloseAt(body, depth)
    case Some(k) => body[..k]
    case None => body
  }

  /** The first IRQ line that a scan of the device at the head of `text` meets, counted
      from the next line. */
  function PairAt(text: seq<string>, depth: int): (r: Option<nat>)
    requires text != []
    ensures r.Some? ==> r.value + 1 < |text|
  {
    FirstWith(Watched(text[1..], DepthAfterRtc(text[0], depth)), IRQ)
  }

  /** What is made of a text that starts with an RTC device, scanned from the count `depth`,
      when no other is met behind the scan.  Without an IRQ line and an end, the last line
      is written again until the count is zero, if it ever is. */
  function Scanned(text: seq<string>, depth: int): Option<seq<string>>
    requires text != []
  {
    match PairAt(text, depth)
    case Some(j) => Some(if j + 2 < |text| then WithoutPair(text, j + 1) else text)
    case None =>
      var d, last := DepthAfterRtc(text[0], depth), text[|text| - 1];
      if CloseAt(text[1..], d).Some? then Some(text)
      else if Contains(last, IRQ) then Some(text + [last])
      else
        var rounds :- Drain(d + Balance(text[1..]), Delta(last));
        Some(text + Repeat(last, rounds))
  }

  /** No line that the scan of the device at the head of `text` leaves behind is met as an
      RTC device.  The line after a pair is written without a look at it. */
  ghost predicate NoneBehind(text: seq<string>, depth: int)
    requires text != []
  {
    match PairAt(text, depth)
    case Some(j) => forall m :: j + 3 < m < |text| ==> !Contains(text[m], RTC_DEVICE)
    case None =>
      var close := CloseAt(text[1..], DepthAfterRtc(text[0], depth));
      close.Some? ==> forall m :: close.value + 1 < m < |text| ==> !Contains(text[m], RTC_DEVICE)
  }

  lemma NoneAfterIsBehind(text: seq<string>, depth: int)
    requires text != [] && NoneAfter(text)
    ensures NoneBehind(text, depth)
  {
    hide Contains, Delta, CloseAt, FirstWith, DepthAfterRtc;
  }

  lemma WatchedLines(body: seq<string>, depth: int)
    ensures |Watched(body, depth)| <= |body| && Watched(body, depth) == body[..|Watched(body, depth)|]
    ensures CloseAt(body, depth).Some? ==> |Watched(body, depth)| == CloseAt(body, depth).value
  {
    hide CloseAt;
  }

  lemma ScanToEnd(text: seq<string>, found: bool, depth: int)
    requires text != [] && IsRtc(text[0], found) && NoneBehind(text, depth)
    requires CloseAt(text[1..], DepthAfterRtc(text[0], depth)).Some? && PairAt(text, depth).None?
    ensures Pass(text, found, depth) == Some(text)
  {
    hide Contains, IsRtc, Pass, DepthAfterRtc, Delta, DeviceLoop, CloseAt, FirstWith;
    var body, d := text[1..], DepthAfterRtc(text[0], depth);
    var k := CloseAt(body, d).value;
    assert forall m :: 0 <= m < k ==> body[..k][m] == body[m];
    LoopWithoutIrq(body, text[0], d, k);
    PassAtDevice(text, found, depth);
    assert [text[0]] + body[..k] + [body[k]] + body[k + 1..] == text;
  }

  lemma RejoinWith(text: seq<string>, j: nat)
    requires j + 1 < |text|
    ensures var body := text[1..];
            var skipped := Reader(body[j + 1..], body[j]).Gets().Gets();
            [text[0]] + body[..j] + [skipped.buffer] + skipped.rest
            == if j + 2 < |text| then WithoutPair(text, j + 1) else text
  {
    var body := text[1..];
    assert [text[0]] + body[..j] == text[..j + 1];
    assert body[j + 1..] == text[j + 2..];
  }

  lemma ScanToPair(text: seq<string>, found: bool, depth: int, j: nat)
    requires text != [] && IsRtc(text[0], found) && NoneBehind(text, depth)
    requires PairAt(text, depth) == Some(j)
    ensures Pass(text, found, depth) == Some(if j + 2 < |text| then WithoutPair(text, j + 1) else text)
  {
    hide Contains, IsRtc, Pass, DepthAfterRtc, Delta, DeviceLoop, CloseAt, FirstWith, WithoutPair, Watched;
    var body, d := text[1..], DepthAfterRtc(text[0], depth);
    WatchedLines(body, d);
    assert forall m :: 0 <= m <= j ==> Watched(body, d)[m] == body[m];
    LoopWithIrq(body, text[0], d, j);
    PassAtDevice(text, found, depth);
    RejoinWith(text, j);
  }

  lemma RepeatEnds(line: string, n: nat)
    ensures Repeat(line, n) + [line] == Repeat(line, n + 1)
  {
  }

  lemma ScanRunsOut(text: seq<string>, found: bool, depth: int)
    requires text != [] && IsRtc(text[0], found) && NoneBehind(text, depth)
    requires CloseAt(text[1..], DepthAfterRtc(text[0], depth)).None? && FirstWith(text[1..], IRQ).None?
    ensures var last := text[|text| - 1];
            var rounds := Drain(DepthAfterRtc(text[0], depth) + Balance(text[1..]), Delta(last));
            Pass(text, found, depth)
            == if Contains(last, IRQ) then Some(text + [last])
               else if rounds.None? then None else Some(text + Repeat(last, rounds.value))
  {
    hide Contains, IsRtc, Pass, DepthAfterRtc, Delta, DeviceLoop, CloseAt, FirstWith, Balance;
    var body, d, last := text[1..], DepthAfterRtc(text[0], depth), text[|text| - 1];
    assert [text[0]] + body == text;
    LoopRunsOut(body, text[0], d);
    PassAtDevice(text, found, depth);
    var end := AtEndOfFile(last, d + Balance(body));
    if end.Some? {
      var b := end.value;
      assert [text[0]] + (body + b.written) + [b.buffer] + [] == text + (b.written + [b.buffer]);
      RepeatEnds(last, |b.written|);
      assert b.written == [] ==> b.written + [b.buffer] == [last];
    }
  }

  lemma ScanExact(text: seq<string>, found: bool, depth: int)
    requires text != [] && IsRtc(text[0], found) && NoneBehind(text, depth)
    ensures Pass(text, found, depth) == Scanned(text, depth)
  {
    hide Contains, IsRtc, Pass, DepthAfterRtc, Delta, DeviceLoop, CloseAt, FirstWith, NoneBehind, WithoutPair;
    match PairAt(text, depth)
    case None =>
      if CloseAt(text[1..], DepthAfterRtc(text[0], depth)).Some? {
        ScanToEnd(text, found, depth);
      } else {
        ScanRunsOut(text, found, depth);
      }
    case Some(j) => ScanToPair(text, found, depth, j);
  }

  /** A file with one RTC device, met in line `i`. */
  ghost predicate OneTrigger(file: seq<string>, i: nat) {
    && i < |file| && IsRtc(file[i], false)
    && (forall m :: 0 <= m < i ==> !IsRtc(file[m], false))
    && (forall m :: i < m < |file| ==> !Contains(file[m], RTC_DEVICE))
  }

  /** ... whose block closes `k` lines further on. */
  ghost predicate OneDevice(file: seq<string>, i: nat, k: nat) {
    OneTrigger(file, i) && CloseAt(file[i + 1..], DepthAfterRtc(file[i], 0)) == Some(k)
  }

  lemma FromTrigger(file: seq<string>, i: nat)
    requires OneTrigger(file, i)
    ensures NoneAfter(file[i..]) && file[i..][1..] == file[i + 1..]
    ensures var out := Pass(file[i..], false, 0);
            Pass(file, false, 0) == if out.None? then None else Some(file[..i] + out.value)
  {
    hide Contains, IsRtc, Pass;
    assert file == file[..i] + file[i..];
    QuietLines(file[..i], file[i..], false, 0);
  }

  lemma WithoutPairAfter(file: seq<string>, i: nat, at: nat)
    requires i + at + 1 < |file|
    ensures file[..i] + WithoutPair(file[i..], at) == WithoutPair(file, i + at)
  {
    assert file[..i] + file[i..][..at] == file[..i + at];
  }

  lemma OneDeviceExact(file: seq<string>, i: nat, k: nat)
    requires OneDevice(file, i, k)
    ensures Pass(file, false, 0)
         == Some(match FirstWith(file[i + 1..][..k], IRQ)
                 case None => file
                 case Some(j) => WithoutPair(file, i + 1 + j))
  {
    hide Contains, IsRtc, Pass, DepthAfterRtc, Delta, CloseAt, FirstWith, WithoutPair;
    FromTrigger(file, i);
    NoneAfterIsBehind(file[i..], 0);
    ScanExact(file[i..], false, 0);
    assert file[..i] + file[i..] == file;
    assert Watched(file[i + 1..], DepthAfterRtc(file[i], 0)) == file[i + 1..][..k];
    match FirstWith(file[i + 1..][..k], IRQ)
    case None =>
    case Some(j) => WithoutPairAfter(file, i, j + 1);
  }

  // ----- the same, with nothing but the text of the file -----

  /** `file` without the first IRQ line among the `k` lines after line `i` and the line
      after it; with no IRQ line there, `file` itself. */
  function WithoutFirstPair(file: seq<string>, i: nat, k: nat): seq<string>
    requires i + 1 + k < |file|
  {
    match FirstWith(file[i + 1..][..k], "IRQNoFlags ()")
    case None => file
    case Some(j) => file[..i + 1 + j] + file[if i + 3 + j < |file| then i + 3 + j else i + 2 + j..]
  }

  lemma PairIsOut(file: seq<string>, i: nat, k: nat)
    requires i + 1 + k < |file|
    ensures WithoutFirstPair(file, i, k)
         == match FirstWith(file[i + 1..][..k], IRQ)
            case None => file
            case Some(j) => WithoutPair(file, i + 1 + j)
  {
    hide Contains, FirstWith;
  }

  /** The device is met by its name: its opening brace is still to come. */
  lemma MetByName(file: seq<string>, i: nat, k: nat)
    requires i < |file| && Contains(file[i], "Device (RTC")
    requires forall m :: 0 <= m < i ==> !Contains(file[m], "Device (RTC") && !Contains(file[m], "PNP0B00")
    requires forall m :: i < m < |file| ==> !Contains(file[m], "Device (RTC")
    requires CloseAt(file[i + 1..], 0) == Some(k)
    ensures i + 1 + k < |file| && Pass(file, false, 0) == Some(WithoutFirstPair(file, i, k))
  {
    hide Contains, Pass, CloseAt, FirstWith, WithoutPair, WithoutFirstPair;
    assert OneDevice(file, i, k);
    hide OneDevice;
    OneDeviceExact(file, i, k);
    PairIsOut(file, i, k);
  }

  /** The device is met by its hardware id: the count starts inside its opening brace. */
  lemma MetById(file: seq<string>, i: nat, k: nat)
    requires i < |file| && Contains(file[i], "PNP0B00") && !Contains(file[i], "Device (RTC")
    requires forall m :: 0 <= m < i ==> !Contains(file[m], "Device (RTC") && !Contains(file[m], "PNP0B00")
    requires forall m :: i < m < |file| ==> !Contains(file[m], "Device (RTC")
    requires CloseAt(file[i + 1..], 1) == Some(k)
    ensures i + 1 + k < |file| && Pass(file, false, 0) == Some(WithoutFirstPair(file, i, k))
  {
    hide Contains, Pass, CloseAt, FirstWith, WithoutPair, WithoutFirstPair;
    assert OneDevice(file, i, k);
    hide OneDevice;
    OneDeviceExact(file, i, k);
    PairIsOut(file, i, k);
  }

  // ----- a second run -----

  /** What the pass leaves as it is: a device without an IRQ line before its end; and a
      device without an end whose first IRQ line is the last line of the file. */
  ghost predicate Quiet(file: seq<string>, i: nat)
    requires i < |file|
  {
    var body := file[i + 1..];
    match CloseAt(body, DepthAfterRtc(file[i], 0))
    case Some(k) => FirstWith(body[..k], IRQ) == None
    case None => body != [] && FirstWith(body, IRQ) == Some(|body| - 1)
  }

  lemma LongerOrShorter(text: seq<string>)
    requires text != []
    ensures Scanned(text, 0) == Some(text)
       <==> match PairAt(text, 0)
            case Some(j) => j + 2 == |text|
            case None => CloseAt(text[1..], DepthAfterRtc(text[0], 0)).Some?
  {
    hide Contains, DepthAfterRtc, Delta, CloseAt, FirstWith;
    var scanned := Scanned(text, 0);
    if scanned.Some? && PairAt(text, 0).None? && CloseAt(text[1..], DepthAfterRtc(text[0], 0)).None? {
      assert |scanned.value| > |text|;
    }
  }

  lemma UnchangedIff(file: seq<string>, i: nat)
    requires OneTrigger(file, i)
    ensures Pass(file, false, 0) == Some(file) <==> Quiet(file, i)
  {
    hide Contains, IsRtc, Pass, DepthAfterRtc, Delta, CloseAt, FirstWith, Drain;
    var text := file[i..];
    FromTrigger(file, i);
    NoneAfterIsBehind(text, 0);
    ScanExact(text, false, 0);
    assert file[..i] + text == file;
    LongerOrShorter(text);
    if Scanned(text, 0).Some? {
      TailsAgree(file[..i], Scanned(text, 0).value, text);
    }
  }

  lemma TriggerIsLeft(file: seq<string>, i: nat, at: nat)
    requires OneTrigger(file, i) && i < at && at + 1 < |file|
    ensures OneTrigger(WithoutPair(file, at), i)
  {
    hide Contains, IsRtc;
    var out, n := WithoutPair(file, at), if at + 2 < |file| then 2 else 1;
    forall m | i < m < |out|
      ensures !Contains(out[m], RTC_DEVICE)
    {
      assert out[m] == file[if m < at then m else m + n];
    }
  }

  /** One run on a file with one RTC device that closes takes out the first IRQ line of the
      device and the line after it.  A second run changes nothing if and only if the file
      without these lines is quiet, wherever the device then ends; and without an IRQ line
      the first run changes nothing.  On just these files `patchRTC` is idempotent. */
  lemma SecondRun(file: seq<string>, i: nat, k: nat)
    requires OneDevice(file, i, k)
    ensures match FirstWith(file[i + 1..][..k], IRQ)
            case None => Pass(file, false, 0) == Some(file)
            case Some(j) =>
              var out := WithoutPair(file, i + 1 + j);
              && i < |out| && Pass(file, false, 0) == Some(out)
              && (Pass(out, false, 0) == Some(out) <==> Quiet(out, i))
  {
    hide Contains, IsRtc, Pass, DepthAfterRtc, Delta, CloseAt, FirstWith, WithoutPair, Quiet;
    OneDeviceExact(file, i, k);
    match FirstWith(file[i + 1..][..k], IRQ) {
      case None =>
      case Some(j) =>
        TriggerIsLeft(file, i, i + 1 + j);
        UnchangedIff(WithoutPair(file, i + 1 + j), i);
    }
  }

  lemma {:induction false} CloseAtWithoutPair(body: seq<string>, depth: int, k: nat, j: nat)
    requires j + 1 < k < |body| && CloseAt(body, depth) == Some(k)
    requires Delta(body[j]) + Delta(body[j + 1]) == 0
    ensures CloseAt(body[..j] + body[j + 2..], depth) == Some(k - 2)
    decreases j
  {
    hide Contains, Delta;
    var rest := body[..j] + body[j + 2..];
    if j == 0 {
      assert rest == body[1..][1..];
    } else {
      assert rest[0] == body[0];
      assert rest[1..] == body[1..][..j - 1] + body[1..][j + 1..];
      CloseAtWithoutPair(body[1..], depth + Delta(body[0]), k - 1, j - 1);
    }
  }

  /** The lines of the device before its end, once the pair is gone. */
  lemma BlockLeft(file: seq<string>, i: nat, k: nat, j: nat)
    requires i + 1 + k < |file| && j + 1 < k
    ensures WithoutPair(file, i + 1 + j)[i + 1..][..k - 2] == file[i + 1..][..j] + file[i + 3 + j..i + 1 + k]
  {
  }

  lemma NoneInEither(a: seq<string>, b: seq<string>)
    requires forall m :: 0 <= m < |a| ==> !Contains(a[m], IRQ)
    ensures FirstWith(a + b, IRQ) == None <==> FirstWith(b, IRQ) == None
  {
    assert forall m :: 0 <= m < |b| ==> (a + b)[|a| + m] == b[m];
  }

  lemma WithoutPairTail(file: seq<string>, i: nat, j: nat)
    requires i + 3 + j < |file|
    ensures var body, out := file[i + 1..], WithoutPair(file, i + 1 + j);
            out[i] == file[i] && out[i + 1..] == body[..j] + body[j + 2..]
  {
  }

  /** When the pair lies inside the block and its braces, if any, balance, the device ends
      where it did, and the condition is one on the file: there is no other IRQ line. */
  lemma BalancedPair(file: seq<string>, i: nat, k: nat, j: nat)
    requires OneDevice(file, i, k) && j + 1 < k
    requires FirstWith(file[i + 1..][..k], IRQ) == Some(j)
    requires Delta(file[i + 1 + j]) + Delta(file[i + 2 + j]) == 0
    ensures var out := WithoutPair(file, i + 1 + j);
            && Pass(file, false, 0) == Some(out)
            && (Pass(out, false, 0) == Some(out) <==> FirstWith(file[i + 3 + j..i + 1 + k], IRQ) == None)
  {
    hide Contains, Pass, DepthAfterRtc, IsRtc, WithoutPair, FirstWith, Delta, CloseAt;
    OneDeviceExact(file, i, k);
    TriggerIsLeft(file, i, i + 1 + j);
    var block, out := file[i + 1..], WithoutPair(file, i + 1 + j);
    CloseAtWithoutPair(block, DepthAfterRtc(file[i], 0), k, j);
    WithoutPairTail(file, i, j);
    forall m | 0 <= m < j
      ensures !Contains(block[..j][m], IRQ)
    {
      assert block[..k][m] == block[..j][m];
    }
    BlockLeft(file, i, k, j);
    NoneInEither(block[..j], file[i + 3 + j..i + 1 + k]);
    UnchangedIff(out, i);
  }

  // ----- any number of devices: the count that each leaves for the next -----

  /** The count that the scan of a device leaves.  The reset after a pair is not reached. */
  function CountLeft(text: seq<string>, depth: int): int
    requires text != []
  {
    match PairAt(text, depth)
    case None => 0
    case Some(j) => DepthAfter(text[1..], j + 1, DepthAfterRtc(text[0], depth))
  }

  /** The scan of the device at the head of `text` ends in `text`. */
  ghost predicate EndsIn(text: seq<string>, depth: int)
    requires text != []
  {
    match PairAt(text, depth)
    case Some(j) => j + 3 < |text|
    case None => CloseAt(text[1..], DepthAfterRtc(text[0], depth)).Some?
  }

  /** Each of the texts starts with an RTC device and goes on to the next one that is met.
      The scan of the last may run out of lines. */
  ghost predicate Devices(texts: seq<seq<string>>, found: bool, depth: int) {
    texts != [] ==>
      && texts[0] != [] && IsRtc(texts[0][0], found)
      && NoneBehind(texts[0], depth)
      && (|texts| > 1 ==> EndsIn(texts[0], depth) && Devices(texts[1..], true, CountLeft(texts[0], depth)))
  }

  function Join(texts: seq<seq<string>>): seq<string> {
    if texts == [] then [] else texts[0] + Join(texts[1..])
  }

  /** What is made of the texts: each is scanned from the count that the one before left. */
  function ScannedAll(texts: seq<seq<string>>, depth: int): Option<seq<string>>
    requires forall i :: 0 <= i < |texts| ==> texts[i] != []
  {
    if texts == [] then Some([])
    else
      var first :- Scanned(texts[0], depth);
      var rest :- ScannedAll(texts[1..], CountLeft(texts[0], depth));
      Some(first + rest)
  }

  lemma {:induction false} AllNonempty(texts: seq<seq<string>>, found: bool, depth: int)
    requires Devices(texts, found, depth)
    ensures forall i :: 0 <= i < |texts| ==> texts[i] != []
  {
    if |texts| > 1 {
      AllNonempty(texts[1..], true, CountLeft(texts[0], depth));
    }
  }

  lemma LoopToEnd(body: seq<string>, more: seq<string>, buffer: string, depth: int, k: nat)
    requires k < |body| && CloseAt(body + more, depth) == Some(k) && FirstWith(body[..k], IRQ).None?
    ensures DeviceLoop(body + more, buffer, depth) == Some(Block(body[..k], body[k], body[k + 1..] + more, 0))
  {
    hide Contains, Delta, DeviceLoop, CloseAt, FirstWith;
    var all := body + more;
    assert forall m :: 0 <= m < k ==> all[m] == body[..k][m];
    LoopWithoutIrq(all, buffer, depth, k);
    assert all[..k] == body[..k] && all[k + 1..] == body[k + 1..] + more;
  }

  lemma SkipPair(body: seq<string>, more: seq<string>, j: nat)
    requires j + 2 < |body|
    ensures Reader((body + more)[j + 1..], (body + more)[j]).Gets().Gets() == Reader(body[j + 3..] + more, body[j + 2])
  {
    var all := body + more;
    assert all[j + 1..] == [body[j + 1], body[j + 2]] + (body[j + 3..] + more);
  }

  lemma {:induction false} CloseAtThen(lines: seq<string>, more: seq<string>, depth: int)
    ensures var close, all := CloseAt(lines, depth), CloseAt(lines + more, depth);
            if close.Some? then all == close else all.Some? ==> all.value >= |lines|
    decreases |lines|
  {
    hide Delta;
    if lines != [] && depth + Delta(lines[0]) != 0 {
      assert (lines + more)[1..] == lines[1..] + more;
      CloseAtThen(lines[1..], more, depth + Delta(lines[0]));
    }
  }

  lemma LoopToPair(body: seq<string>, more: seq<string>, buffer: string, depth: int, j: nat)
    requires j + 2 < |body| && FirstWith(Watched(body, depth), IRQ) == Some(j)
    ensures DeviceLoop(body + more, buffer, depth)
         == Some(Block(body[..j], body[j + 2], body[j + 3..] + more, DepthAfter(body, j + 1, depth)))
  {
    hide Contains, Delta, DeviceLoop, CloseAt, FirstWith, Watched;
    var all := body + more;
    CloseAtThen(body, more, depth);
    WatchedLines(body, depth);
    assert forall m :: 0 <= m <= j ==> all[m] == Watched(body, depth)[m];
    LoopWithIrq(all, buffer, depth, j);
    assert all[..j] == body[..j] && all[..j + 1] == body[..j + 1];
    SkipPair(body, more, j);
  }

  lemma FirstThen(first: seq<string>, rest: seq<string>, found: bool, depth: int)
    requires first != [] && IsRtc(first[0], found) && NoneBehind(first, depth) && EndsIn(first, depth)
    ensures var out := Pass(rest, true, CountLeft(first, depth));
            && Scanned(first, depth).Some?
            && Pass(first + rest, found, depth)
               == if out.None? then None else Some(Scanned(first, depth).value + out.value)
  {
    hide Contains, IsRtc, DepthAfterRtc, Delta, DeviceLoop, CloseAt, FirstWith, Pass, WithoutPair, DepthAfter;
    var body, d, all := first[1..], DepthAfterRtc(first[0], depth), first + rest;
    assert all[1..] == body + rest;
    CloseAtThen(body, rest, d);
    match PairAt(first, depth)
    case None =>
      var k := CloseAt(body, d).value;
      LoopToEnd(body, rest, first[0], d, k);
      PassAcross(all, found, depth, body[k + 1..], rest);
      assert [first[0]] + body[..k] + [body[k]] + body[k + 1..] == first;
    case Some(j) =>
      LoopToPair(body, rest, first[0], d, j);
      PassAcross(all, found, depth, body[j + 3..], rest);
      RejoinWith(first, j);
      assert body[j + 1..][1..][1..] == body[j + 3..];
  }

  lemma {:induction false} DevicesExact(texts: seq<seq<string>>, found: bool, depth: int)
    requires Devices(texts, found, depth) && forall i :: 0 <= i < |texts| ==> texts[i] != []
    ensures Pass(Join(texts), found, depth) == ScannedAll(texts, depth)
    decreases |texts|
  {
    hide Contains, IsRtc, Scanned, CountLeft, EndsIn, NoneBehind;
    if |texts| == 1 {
      ScanExact(texts[0], found, depth);
      assert texts[0] + [] == texts[0];
      var out := Scanned(texts[0], depth);
      assert out.Some? ==> out.value + [] == out.value;
    } else if |texts| > 1 {
      hide Pass;
      DevicesExact(texts[1..], true, CountLeft(texts[0], depth));
      FirstThen(texts[0], Join(texts[1..]), found, depth);
    }
  }

  lemma EachDeviceExact(before: seq<string>, texts: seq<seq<string>>)
    requires forall m :: 0 <= m < |before| ==> !IsRtc(before[m], false)
    requires Devices(texts, false, 0)
    ensures forall i :: 0 <= i < |texts| ==> texts[i] != []
    ensures var out := ScannedAll(texts, 0);
            Pass(before + Join(texts), false, 0) == if out.None? then None else Some(before + out.value)
  {
    hide Contains, IsRtc, Pass, ScannedAll, Devices;
    AllNonempty(texts, false, 0);
    DevicesExact(texts, false, 0);
    QuietLines(before, Join(texts), false, 0);
  }

  lemma FirstInEither(a: seq<string>, b: seq<string>)
    ensures (exists j :: FirstWith(a + b, IRQ) == Some(j) && j >= |a|)
       <==> FirstWith(a, IRQ) == None && FirstWith(b, IRQ) != None
  {
    hide Contains, FirstWith;
    assert forall m :: 0 <= m < |a| ==> (a + b)[m] == a[m];
    assert forall m :: 0 <= m < |b| ==> (a + b)[|a| + m] == b[m];
    if FirstWith(a + b, IRQ).Some? && FirstWith(a + b, IRQ).value >= |a| {
      assert (a + b)[FirstWith(a + b, IRQ).value] == b[FirstWith(a + b, IRQ).value - |a|];
    }
  }

  /** A device with a name of its own, that for itself ends in line `own` of the lines after
      its first, is scanned to that end if and only if no pair was taken out of the device
      before it; and a pair is taken out behind that end if and only if the device has no
      IRQ line and one comes before the count is zero. */
  lemma NextDevice(before: seq<string>, depth: int, text: seq<string>, own: nat)
    requires before != [] && text != [] && Contains(text[0], RTC_DEVICE) && CloseAt(text[1..], 0) == Some(own)
    ensures CloseAt(text[1..], CountLeft(before, depth)) == Some(own) <==> PairAt(before, depth) == None
    ensures var pair, watched := PairAt(text, CountLeft(before, depth)), Watched(text[1..], CountLeft(before, depth));
            pair.Some? && pair.value > own
            <==> own < |watched| && FirstWith(text[1..][..own + 1], IRQ) == None && FirstWith(watched[own + 1..], IRQ) != None
  {
    hide Contains, Delta, FirstWith, CloseAt, Watched, Balance;
    var body, count := text[1..], CountLeft(before, depth);
    WatchedLines(before[1..], DepthAfterRtc(before[0], depth));
    WatchedLines(body, count);
    CloseAtIsFirst(before[1..], DepthAfterRtc(before[0], depth));
    CloseAtIsFirst(body, 0);
    CloseAtIsFirst(body, count);
    var watched := Watched(body, count);
    if own < |watched| {
      FirstInEither(body[..own + 1], watched[own + 1..]);
      assert watched == body[..own + 1] + watched[own + 1..];
    }
  }
}
