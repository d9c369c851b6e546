/** Whether the block loops of `patchHPET` end at a line of the file.  A loop that runs out
    of lines writes the last one twice; one that does not leaves it where it was, so that
    an unended last line is read back. */
module HpetEnds {
  import opened Wrappers
  import opened AslText
  import opened HpetText
  import opened HpetPass
  import opened LineFiles
  import HpetInsert
  import RtcPass

  function LastOf(lines: seq<string>): string
    requires lines != []
  {
    lines[|lines| - 1]
  }

  // ----- the pass over HPET devices -----

  /** The text behind the line at which a device loop ends; None when it runs out. */
  function LoopEnd(body: seq<string>, depth: int): (left: Option<seq<string>>)
    ensures left.Some? ==> |left.value| < |body|
    decreases |body|
  {
    if body == [] then None
    else
      var d := depth + DeltaElse(body[0]);
      if d == 0 then Some(body[1..])
      else if !Contains(body[0], RESOURCE_TEMPLATE) then LoopEnd(body[1..], d)
      else if |body| < 3 then None
      else
        var next :- SkipIrqs(Reader(body[3..], body[2]));
        SkipIrqsShrinks(Reader(body[3..], body[2]));
        LoopEnd(next.rest, 0)
  }

  /** Every device loop of the pass ends at a line of the file. */
  ghost predicate Ends(rest: seq<string>, found: bool)
    decreases |rest|
  {
    rest != [] ==>
      if IsHpet(rest[0], found) then
        var left := LoopEnd(rest[1..], DepthAfterHpet(rest[0]));
        left.Some? && Ends(left.value, true)
      else Ends(rest[1..], found)
  }

  /** The line in hand and the lines ahead. */
  function Ahead(r: Reader): seq<string> {
    [r.buffer] + r.rest
  }

  /** `tail` is what is left of `lines` from some line on. */
  ghost predicate Suffix(tail: seq<string>, lines: seq<string>) {
    0 < |tail| <= |lines| && lines[|lines| - |tail|..] == tail
  }

  lemma SuffixOf(a: seq<string>, b: seq<string>, c: seq<string>)
    requires Suffix(a, b) && Suffix(b, c)
    ensures Suffix(a, c)
  {
    assert c[|c| - |a|..] == c[|c| - |b|..][|b| - |a|..];
  }

  lemma ReadableTail(lines: seq<string>, n: nat)
    requires Readable(lines) && n <= |lines|
    ensures Readable(lines[n..])
    ensures n < |lines| ==> AllStop(lines[..n])
  {
    hide Stops, Fits;
    if n < |lines| {
      var all := lines[..|lines| - 1];
      assert all[n..] == lines[n..][..|lines| - n - 1] && all[..n] == lines[..n];
      forall line | line in all[n..] || line in all[..n]
        ensures line in all
      {
      }
    }
  }

  lemma SuffixReadable(tail: seq<string>, lines: seq<string>)
    requires Suffix(tail, lines)
    ensures LastOf(tail) == LastOf(lines)
    ensures Readable(lines) ==> Readable(tail)
  {
    hide Stops, Fits;
    if Readable(lines) {
      ReadableTail(lines, |lines| - |tail|);
    }
  }

  lemma GetsAhead(r: Reader)
    ensures Suffix(Ahead(r.Gets()), Ahead(r))
  {
    if r.rest != [] {
      assert Ahead(r)[1..] == r.rest == Ahead(r.Gets());
    }
  }

  lemma {:induction false} SkipAhead(r: Reader)
    requires SkipIrqs(r).Some?
    ensures Suffix(Ahead(SkipIrqs(r).value), Ahead(r))
    decreases |r.rest|
  {
    hide Contains;
    if Contains(r.buffer, IRQ) {
      hide Suffix, Ahead;
      var second := r.Gets().Gets();
      GetsAhead(r);
      GetsAhead(r.Gets());
      SkipAhead(second);
      SuffixOf(Ahead(second), Ahead(r.Gets()), Ahead(r));
      SuffixOf(Ahead(SkipIrqs(r).value), Ahead(second), Ahead(r));
    }
  }

  lemma BodyAhead(body: seq<string>, buffer: string)
    requires body != []
    ensures Ahead(Reader(body[1..], body[0])) == body && Suffix(body, [buffer] + body)
  {
  }

  lemma SecondAhead(body: seq<string>)
    requires body != []
    ensures var second := Reader(body[1..], body[0]).Gets().Gets();
            if |body| >= 3 then second == Reader(body[3..], body[2]) else second.rest == []
  {
  }

  /** What a template leaves ahead, when it is left. */
  lemma TemplateAhead(body: seq<string>, buffer: string)
    requires body != [] && Template(body[1..], body[0]).Some?
    ensures var next := Template(body[1..], body[0]).value.next;
            && |next.rest| < |body| && Suffix(Ahead(next), [buffer] + body)
            && (|body| >= 3 ==> SkipIrqs(Reader(body[3..], body[2])) == Some(next))
            && (|body| < 3 ==> next.rest == [])
  {
    hide Contains, SkipIrqs, Suffix, Ahead;
    var r, all := Reader(body[1..], body[0]), [buffer] + body;
    var second := r.Gets().Gets();
    SkipIrqsShrinks(second);
    SkipAhead(second);
    GetsAhead(r);
    GetsAhead(r.Gets());
    SecondAhead(body);
    BodyAhead(body, buffer);
    SuffixOf(Ahead(r.Gets()), body, all);
    SuffixOf(Ahead(second), Ahead(r.Gets()), all);
    SuffixOf(Ahead(SkipIrqs(second).value), Ahead(second), all);
  }

  lemma OpensTemplate(body: seq<string>)
    requires |body| >= 3
    ensures SkipIrqs(Reader(body[3..], body[2])).Some? ==> Template(body[1..], body[0]).Some?
  {
    assert Reader(body[1..], body[0]).Gets().Gets() == Reader(body[3..], body[2]);
  }

  /** A loop that ends has the line at its end in hand, and the text behind it ahead. */
  lemma {:induction false} LoopEndExact(body: seq<string>, buffer: string, depth: int)
    requires LoopEnd(body, depth).Some?
    ensures var loop := DeviceLoop(body, buffer, depth);
            && loop.Some? && loop.value.rest == LoopEnd(body, depth).value
            && Suffix([loop.value.buffer] + loop.value.rest, [buffer] + body)
    decreases |body|
  {
    hide Contains, DeltaElse, DeviceLoop, Template, SkipIrqs;
    DeviceLoopStep(Reader(body, buffer), depth);
    var d, all := depth + DeltaElse(body[0]), [buffer] + body;
    assert body == [body[0]] + body[1..] && Suffix(body, all);
    if d != 0 {
      var b := DeviceLoop(body, buffer, depth);
      if Contains(body[0], RESOURCE_TEMPLATE) {
        OpensTemplate(body);
        TemplateAhead(body, buffer);
        var next := Template(body[1..], body[0]).value.next;
        LoopEndExact(next.rest, next.buffer, 0);
        SuffixOf([b.value.buffer] + b.value.rest, Ahead(next), all);
      } else {
        LoopEndExact(body[1..], body[0], d);
        SuffixOf([b.value.buffer] + b.value.rest, body, all);
      }
    }
  }

  lemma NoLineStops()
    ensures AllStop([])
  {
  }

  lemma WrittenStops(body: seq<string>)
    requires |body| >= 3 && Readable(body) && Template(body[1..], body[0]).Some?
    requires var next := Template(body[1..], body[0]).value.next; next.rest != [] && Readable(Ahead(next))
    ensures AllStop(Template(body[1..], body[0]).value.written)
  {
    hide Contains, SkipIrqs, Stops, Fits, HpetIrqs;
    var opening := Template(body[1..], body[0]).value;
    IrqsStop();
    ReadableTail(body, 2);
    ReadableTail(Ahead(opening.next), 1);
    assert body[..2] == [body[0], body[1]] && Ahead(opening.next)[..1] == [opening.next.buffer];
    JoinStops(body[..2], HpetIrqs());
    JoinStops(body[..2] + HpetIrqs(), [opening.next.buffer]);
  }

  /** All that it writes stops, and the line at its end with the text behind can be read. */
  lemma {:induction false} LoopEndStops(body: seq<string>, buffer: string, depth: int)
    requires Readable([buffer] + body) && LoopEnd(body, depth).Some?
    ensures var loop := DeviceLoop(body, buffer, depth);
            loop.Some? && AllStop(loop.value.written) && Readable([loop.value.buffer] + loop.value.rest)
    decreases |body|
  {
    hide Contains, DeltaElse, DeviceLoop, Template, SkipIrqs, Readable, AllStop;
    DeviceLoopStep(Reader(body, buffer), depth);
    ReadableTail([buffer] + body, 1);
    assert ([buffer] + body)[1..] == body == [body[0]] + body[1..];
    var d := depth + DeltaElse(body[0]);
    if d == 0 {
      NoLineStops();
    } else if Contains(body[0], RESOURCE_TEMPLATE) {
      OpensTemplate(body);
      TemplateAhead(body, buffer);
      var next := Template(body[1..], body[0]).value.next;
      SuffixReadable(Ahead(next), [buffer] + body);
      LoopEndStops(next.rest, next.buffer, 0);
      WrittenStops(body);
      JoinStops(Template(body[1..], body[0]).value.written, DeviceLoop(next.rest, next.buffer, 0).value.written);
    } else {
      LoopEndStops(body[1..], body[0], d);
      ReadableTail(body, 1);
      assert body[..1] == [body[0]];
      JoinStops([body[0]], DeviceLoop(body[1..], body[0], d).value.written);
    }
  }

  lemma WrittenLast(rest: seq<string>, line: string)
    requires Template(rest, line).Some?
    ensures var o := Template(rest, line).value;
            |o.written| > 0 && LastOf(o.written) == o.next.buffer
  {
  }

  lemma StaleTwice(buffer: string, depth: int)
    requires DeviceLoop([], buffer, depth).Some?
    ensures var b := DeviceLoop([], buffer, depth).value;
            b.rest == [] && b.buffer == buffer && LastOf([buffer] + b.written) == buffer
  {
    hide Contains, DeltaElse;
  }

  /** A loop that runs out of lines writes the last one, and leaves it in the buffer. */
  lemma {:induction false} LoopRunsOut(body: seq<string>, buffer: string, depth: int)
    requires LoopEnd(body, depth).None? && DeviceLoop(body, buffer, depth).Some?
    ensures var b := DeviceLoop(body, buffer, depth).value;
            && b.rest == [] && b.buffer == LastOf([buffer] + body)
            && LastOf([buffer] + b.written) == LastOf([buffer] + body)
    decreases |body|
  {
    hide Contains, DeltaElse, DeviceLoop, Template, SkipIrqs;
    if body == [] {
      StaleTwice(buffer, depth);
    } else {
      DeviceLoopStep(Reader(body, buffer), depth);
      var d := depth + DeltaElse(body[0]);
      if Contains(body[0], RESOURCE_TEMPLATE) {
        TemplateAhead(body, buffer);
        var opening := Template(body[1..], body[0]).value;
        SuffixReadable(Ahead(opening.next), [buffer] + body);
        LoopRunsOut(opening.next.rest, opening.next.buffer, 0);
        WrittenLast(body[1..], body[0]);
      } else {
        LoopRunsOut(body[1..], body[0], d);
      }
    }
  }

  lemma HeaderStops(rest: seq<string>)
    requires Readable(rest) && |rest| >= 2
    ensures AllStop([rest[0]])
  {
    ReadableTail(rest, 1);
    assert rest[..1] == [rest[0]];
  }

  lemma JoinReadable(a: seq<string>, b: seq<string>)
    requires AllStop(a) && Readable(b)
    ensures Readable(a + b)
  {
    hide Stops, Fits;
    if b == [] {
      assert a + b == a;
      AllStopIsReadable(a);
    } else {
      assert (a + b)[..|a + b| - 1] == a + b[..|b| - 1];
      JoinStops(a, b[..|b| - 1]);
    }
  }

  /** A line that stands before a text stands before what is written for the text. */
  lemma EndWithRest(line: string, rest: seq<string>, out: seq<string>)
    requires Readable([line] + rest) && Readable(out) && (rest == [] ==> out == [])
    ensures Readable([line] + out)
  {
    if rest == [] {
      assert [line] + out == [line] + rest;
    } else {
      HeaderStops([line] + rest);
      JoinReadable([line], out);
    }
  }

  /** When every loop ends, the pass returns, and what it writes can be read back. */
  lemma {:induction false} EndsReadable(rest: seq<string>, found: bool)
    requires Readable(rest) && Ends(rest, found)
    ensures var out := Pass(rest, found);
            out.Some? && Readable(out.value) && (rest != [] ==> out.value != [] && LastOf(out.value) == LastOf(rest))
    decreases |rest|
  {
    hide Contains, IsHpet, DeviceLoop, DepthAfterHpet, LoopEnd, Readable, AllStop;
    if rest == [] {
    } else if IsHpet(rest[0], found) {
      var d := DepthAfterHpet(rest[0]);
      assert rest == [rest[0]] + rest[1..];
      LoopEndExact(rest[1..], rest[0], d);
      LoopEndStops(rest[1..], rest[0], d);
      var b := DeviceLoop(rest[1..], rest[0], d).value;
      SuffixReadable([b.buffer] + b.rest, rest);
      assert ([b.buffer] + b.rest)[1..] == b.rest;
      ReadableTail([b.buffer] + b.rest, 1);
      DeviceLoopShrinks(rest[1..], rest[0], d);
      EndsReadable(b.rest, true);
      var out := Pass(b.rest, true).value;
      HeaderStops(rest);
      JoinStops([rest[0]], b.written);
      EndWithRest(b.buffer, b.rest, out);
      JoinReadable([rest[0]] + b.written, [b.buffer] + out);
      assert [rest[0]] + b.written + ([b.buffer] + out) == [rest[0]] + b.written + [b.buffer] + out;
    } else {
      ReadableTail(rest, 1);
      EndsReadable(rest[1..], found);
      assert rest == [rest[0]] + rest[1..];
      EndWithRest(rest[0], rest[1..], Pass(rest[1..], found).value);
    }
  }

  lemma NothingAhead(found: bool)
    ensures Pass([], found) == Some([])
  {
  }

  /** When some loop does not end, the last line is written twice. */
  lemma {:induction false} LastTwice(rest: seq<string>, found: bool)
    requires !Ends(rest, found) && Pass(rest, found).Some?
    ensures var out := Pass(rest, found).value;
            |out| >= 2 && out[|out| - 2] == LastOf(out) == LastOf(rest)
    decreases |rest|
  {
    hide Contains, IsHpet, DeviceLoop, DepthAfterHpet, LoopEnd, Pass;
    PassStep(rest, found);
    if IsHpet(rest[0], found) {
      var d := DepthAfterHpet(rest[0]);
      assert rest == [rest[0]] + rest[1..];
      var b := DeviceLoop(rest[1..], rest[0], d).value;
      if LoopEnd(rest[1..], d).Some? {
        LoopEndExact(rest[1..], rest[0], d);
        SuffixReadable([b.buffer] + b.rest, rest);
        LastTwice(b.rest, true);
      } else {
        LoopRunsOut(rest[1..], rest[0], d);
        NothingAhead(true);
      }
    } else {
      LastTwice(rest[1..], found);
    }
  }

  // ----- the insertion -----

  /** Every RTC device that is met closes, and a line follows. */
  ghost predicate InsertEnds(rest: seq<string>, found: bool, written: bool)
    decreases |rest|
  {
    rest != [] ==>
      if RtcPass.IsRtc(rest[0], found) then
        var close := CloseAt(rest[1..], RtcPass.DepthAfterRtc(rest[0], 0));
        && close.Some? && close.value + 2 < |rest|
        && InsertEnds(rest[if written then close.value + 2 else close.value + 3..], true, true)
      else InsertEnds(rest[1..], found, written)
  }

  lemma LineStopsToo(lines: seq<string>, i: nat)
    requires Readable(lines) && i + 1 < |lines|
    ensures AllStop([lines[i]])
  {
    assert lines[i] in lines[..|lines| - 1];
  }

  lemma AfterLater(rest: seq<string>, k: nat, out: seq<string>)
    requires Readable(rest) && k + 2 < |rest| && Readable(out)
    ensures Readable(rest[..k + 2] + [rest[k + 1]] + out)
  {
    hide Readable, AllStop;
    ReadableTail(rest, k + 2);
    LineStopsToo(rest, k + 1);
    JoinStops(rest[..k + 2], [rest[k + 1]]);
    JoinReadable(rest[..k + 2] + [rest[k + 1]], out);
  }

  lemma AfterFirst(rest: seq<string>, k: nat, out: seq<string>)
    requires Readable(rest) && k + 2 < |rest| && Readable(out) && (rest[k + 3..] == [] ==> out == [])
    ensures Readable(rest[..k + 2] + FixedHpet() + [rest[k + 2]] + out)
  {
    hide Readable, AllStop, FixedHpet;
    ReadableTail(rest, k + 2);
    assert rest[k + 2..] == [rest[k + 2]] + rest[k + 3..];
    EndWithRest(rest[k + 2], rest[k + 3..], out);
    FixedStops();
    JoinStops(rest[..k + 2], FixedHpet());
    JoinReadable(rest[..k + 2] + FixedHpet(), [rest[k + 2]] + out);
    assert rest[..k + 2] + FixedHpet() + [rest[k + 2]] + out == rest[..k + 2] + FixedHpet() + ([rest[k + 2]] + out);
  }

  lemma {:induction false} InsertReadable(rest: seq<string>, found: bool, written: bool)
    requires Readable(rest) && InsertEnds(rest, found, written)
    ensures var out := HpetInsert.Insert(rest, found, written);
            out.Some? && Readable(out.value) && (rest == [] ==> out.value == [])
    decreases |rest|
  {
    hide Contains, RtcPass.IsRtc, RtcPass.DepthAfterRtc, BlockLoop, CloseAt, Readable, AllStop, FixedHpet;
    if rest == [] {
    } else if RtcPass.IsRtc(rest[0], found) {
      var d := RtcPass.DepthAfterRtc(rest[0], 0);
      var k := CloseAt(rest[1..], d).value;
      BlockLoopCloses(rest[1..], rest[0], d, k);
      assert rest[1..][k + 1..] == rest[k + 2..] && [rest[0]] + rest[1..][..k + 1] == rest[..k + 2];
      ReadableTail(rest, k + 2);
      if written {
        InsertReadable(rest[k + 2..], true, true);
        AfterLater(rest, k, HpetInsert.Insert(rest[k + 2..], true, true).value);
      } else {
        assert rest[k + 2..][1..] == rest[k + 3..];
        ReadableTail(rest, k + 3);
        InsertReadable(rest[k + 3..], true, true);
        AfterFirst(rest, k, HpetInsert.Insert(rest[k + 3..], true, true).value);
      }
    } else {
      ReadableTail(rest, 1);
      InsertReadable(rest[1..], found, written);
      assert rest == [rest[0]] + rest[1..];
      EndWithRest(rest[0], rest[1..], HpetInsert.Insert(rest[1..], found, written).value);
    }
  }

  // ----- both -----

  /** Every block loop of `patchHPET` ends at a line of the file. */
  ghost predicate PatchEnds(file: seq<string>) {
    if HpetInsert.HasHpet(file) then Ends(file, false) else InsertEnds(file, false, false)
  }

  lemma PatchEndsReadable(file: seq<string>)
    requires Readable(file) && PatchEnds(file)
    ensures var out := HpetInsert.Patch(file); out.Some? && Readable(out.value)
  {
    hide Readable, Ends, InsertEnds;
    if HpetInsert.HasHpet(file) {
      EndsReadable(file, false);
    } else {
      InsertReadable(file, false, false);
      HpetInsert.NoHpetMeansInsert(file);
    }
  }
}
