/** Specification of the pass of `patchHPET` over HPET devices, without `-newHPET`: what it
    writes, when it returns, and that on what it wrote it changes nothing. */
module HpetPass {
  import opened Wrappers
  import opened AslText
  import opened HpetText

  predicate IsHpet(line: string, found: bool) {
    Contains(line, HPET_DEVICE) || (Contains(line, HPET_DEVICE_2) && !found)
  }

  function DepthAfterHpet(line: string): int {
    if Contains(line, HPET_DEVICE) then 0 else 1
  }

  /** Skip the IRQ pairs at the head of a resource template; None when the file ends
      on an IRQ line, which is then skipped for ever. */
  function SkipIrqs(r: Reader): Option<Reader>
    decreases |r.rest|
  {
    if !Contains(r.buffer, IRQ) then Some(r)
    else if r.rest == [] then None
    else SkipIrqs(r.Gets().Gets())
  }

  datatype Opening = Opening(written: seq<string>, next: Reader)

  /** A resource template is met in `line`: it and the next line are written, then the
      IRQs, then the first line that is not part of an IRQ pair already there. */
  function Template(rest: seq<string>, line: string): Option<Opening> {
    var brace := Reader(rest, line).Gets();
    var next :- SkipIrqs(brace.Gets());
    Some(Opening([line, brace.buffer] + HpetIrqs() + [next.buffer], next))
  }

  lemma {:induction false} SkipIrqsShrinks(r: Reader)
    ensures var s := SkipIrqs(r);
            s.Some? ==> |s.value.rest| <= |r.rest| && !Contains(s.value.buffer, IRQ)
    decreases |r.rest|
  {
    if Contains(r.buffer, IRQ) && r.rest != [] {
      SkipIrqsShrinks(r.Gets().Gets());
    }
  }

  /** The device loop once every `fgets` fails.  A stale template line is opened once
      more; then the count starts at zero and the loop ends at once or never. */
  function AtEndOfFile(buffer: string, depth: int): Option<Block> {
    if depth + DeltaElse(buffer) == 0 then Some(Block([], buffer, [], 0))
    else if Contains(buffer, RESOURCE_TEMPLATE) then
      var opening :- Template([], buffer);
      if DeltaElse(buffer) == 0 then Some(Block(opening.written, buffer, [], 0)) else None
    else
      var rounds :- Drain(depth, DeltaElse(buffer));
      Some(Block(Repeat(buffer, rounds - 1), buffer, [], 0))
  }

  /** The device loop.  It always leaves the count at zero. */
  function DeviceLoop(rest: seq<string>, buffer: string, depth: int): Option<Block>
    decreases |rest|
  {
    if rest == [] then
      AtEndOfFile(buffer, depth)
    else
      var line, d := rest[0], depth + DeltaElse(rest[0]);
      if d == 0 then
        Some(Block([], line, rest[1..], 0))
      else if Contains(line, RESOURCE_TEMPLATE) then
        var opening :- Template(rest[1..], line);
        SkipIrqsShrinks(Reader(rest[1..], line).Gets().Gets());
        var block :- DeviceLoop(opening.next.rest, opening.next.buffer, 0);
        Some(block.Prepend(opening.written))
      else
        var block :- DeviceLoop(rest[1..], line, d);
        Some(block.Prepend([line]))
  }

  lemma {:induction false} DeviceLoopShrinks(rest: seq<string>, buffer: string, depth: int)
    ensures var b := DeviceLoop(rest, buffer, depth);
            b.Some? ==> |b.value.rest| <= |rest| && b.value.depth == 0
    decreases |rest|
  {
    if rest != [] && depth + DeltaElse(rest[0]) != 0 {
      if Contains(rest[0], RESOURCE_TEMPLATE) {
        var opening := Template(rest[1..], rest[0]);
        SkipIrqsShrinks(Reader(rest[1..], rest[0]).Gets().Gets());
        if opening.Some? {
          DeviceLoopShrinks(opening.value.next.rest, opening.value.next.buffer, 0);
        }
      } else {
        DeviceLoopShrinks(rest[1..], rest[0], depth + DeltaElse(rest[0]));
      }
    }
  }

  /** The pass over HPET devices; None when it never returns. */
  function Pass(rest: seq<string>, found: bool): Option<seq<string>>
    decreases |rest|
  {
    if rest == [] then
      Some([])
    else if IsHpet(rest[0], found) then
      var block :- DeviceLoop(rest[1..], rest[0], DepthAfterHpet(rest[0]));
      DeviceLoopShrinks(rest[1..], rest[0], DepthAfterHpet(rest[0]));
      var out :- Pass(block.rest, true);
      Some([rest[0]] + block.written + [block.buffer] + out)
    else
      var out :- Pass(rest[1..], found);
      Some([rest[0]] + out)
  }

  lemma StaleStep(buffer: string, depth: int)
    ensures var d := depth + DeltaElse(buffer);
            var opening := Template([], buffer);
            if d == 0 then true
            else if Contains(buffer, RESOURCE_TEMPLATE) then
              AtEndOfFile(buffer, depth)
              == if opening.None? || AtEndOfFile(buffer, 0).None? then None
                 else Some(AtEndOfFile(buffer, 0).value.Prepend(opening.value.written))
            else
              && (AtEndOfFile(buffer, depth)
                  == if AtEndOfFile(buffer, d).None? then None
                     else Some(AtEndOfFile(buffer, d).value.Prepend([buffer])))
              && (AtEndOfFile(buffer, d).Some? ==> Abs(d) < Abs(depth))
  {
    var d, delta := depth + DeltaElse(buffer), DeltaElse(buffer);
    if d != 0 && Contains(buffer, RESOURCE_TEMPLATE) {
      var opening := Template([], buffer);
      if opening.Some? {
        assert opening.value.written + [] == opening.value.written;
      }
    } else if d != 0 {
      DrainStep(depth, delta);
      if Drain(depth, delta).Some? {
        RepeatMore(buffer, Drain(depth, delta).value - 2);
      }
    }
  }

  /** One round of the device loop, at end of file or not. */
  lemma DeviceLoopStep(r: Reader, depth: int)
    ensures var n, d := r.Gets(), depth + DeltaElse(r.Gets().buffer);
            var loop := DeviceLoop(r.rest, r.buffer, depth);
            if d == 0 then
              loop == Some(Block([], n.buffer, n.rest, 0))
            else if Contains(n.buffer, RESOURCE_TEMPLATE) then
              var opening := Template(n.rest, n.buffer);
              if opening.None? then loop == None
              else
                var next := opening.value.next;
                var more := DeviceLoop(next.rest, next.buffer, 0);
                && loop == (if more.None? then None else Some(more.value.Prepend(opening.value.written)))
                && (more.Some? ==> |next.rest| < |r.rest| || (next.rest == r.rest == [] && Abs(depth) > 0))
            else
              var more := DeviceLoop(n.rest, n.buffer, d);
              && loop == (if more.None? then None else Some(more.value.Prepend([n.buffer])))
              && (more.Some? ==> |n.rest| < |r.rest| || (n == r && Abs(d) < Abs(depth)))
  {
    var n := r.Gets();
    SkipIrqsShrinks(n.Gets().Gets());
    if r.rest == [] {
      StaleStep(r.buffer, depth);
    }
  }

  /** The skipping of IRQ pairs after `n` rounds; None when it is over. */
  function SkipRounds(r: Reader, n: nat): Option<Reader>
    decreases n
  {
    if !Contains(r.buffer, IRQ) then None
    else if n == 0 then Some(r)
    else SkipRounds(r.Gets().Gets(), n - 1)
  }

  lemma {:induction false} SkipEnds(r: Reader) returns (n: nat)
    requires SkipIrqs(r).Some?
    ensures SkipRounds(r, n).None?
    decreases |r.rest|
  {
    n := 0;
    if Contains(r.buffer, IRQ) {
      n := SkipEnds(r.Gets().Gets());
      n := n + 1;
    }
  }

  lemma {:induction false} SkipGoesOn(r: Reader, n: nat)
    requires SkipIrqs(r).None?
    ensures SkipRounds(r, n).Some?
    decreases n
  {
    if n > 0 {
      SkipGoesOn(r.Gets().Gets(), n - 1);
    }
  }

  /** The device loop after `n` rounds: it has returned, or it is at a place, or it is in
      a template whose IRQ pairs are being skipped for ever. */
  datatype Position = Returned | At(r: Reader, depth: int) | Skipping(r: Reader)

  function Rounds(r: Reader, depth: int, n: nat): Position
    decreases n
  {
    if n == 0 then At(r, depth)
    else
      var next, d := r.Gets(), depth + DeltaElse(r.Gets().buffer);
      if d == 0 then Returned
      else if Contains(next.buffer, RESOURCE_TEMPLATE) then
        var opening := Template(next.rest, next.buffer);
        if opening.None? then Skipping(next.Gets().Gets())
        else Rounds(opening.value.next, 0, n - 1)
      else Rounds(next, d, n - 1)
  }

  lemma {:induction false} Leaves(r: Reader, depth: int) returns (n: nat)
    requires DeviceLoop(r.rest, r.buffer, depth).Some?
    ensures Rounds(r, depth, n).Returned?
    decreases |r.rest|, Abs(depth)
  {
    DeviceLoopStep(r, depth);
    n := 0;
    var next, d := r.Gets(), depth + DeltaElse(r.Gets().buffer);
    if d != 0 {
      if Contains(next.buffer, RESOURCE_TEMPLATE) {
        n := Leaves(Template(next.rest, next.buffer).value.next, 0);
      } else {
        n := Leaves(next, d);
      }
    }
    n := n + 1;
  }

  lemma {:induction false} Stays(r: Reader, depth: int, n: nat)
    requires DeviceLoop(r.rest, r.buffer, depth).None?
    ensures !Rounds(r, depth, n).Returned?
    ensures Rounds(r, depth, n).Skipping? ==> SkipIrqs(Rounds(r, depth, n).r).None?
    decreases n
  {
    if n > 0 {
      DeviceLoopStep(r, depth);
      var next, d := r.Gets(), depth + DeltaElse(r.Gets().buffer);
      if Contains(next.buffer, RESOURCE_TEMPLATE) {
        var opening := Template(next.rest, next.buffer);
        if opening.Some? {
          Stays(opening.value.next, 0, n - 1);
        }
      } else {
        Stays(next, d, n - 1);
      }
    }
  }

  /** The loop returns in some number of rounds if and only if `DeviceLoop` has a value;
      and a template is left if and only if `SkipIrqs` has one. */
  lemma Returns(r: Reader, depth: int)
    ensures DeviceLoop(r.rest, r.buffer, depth).Some? <==> exists n: nat :: Rounds(r, depth, n).Returned?
    ensures SkipIrqs(r).Some? <==> exists n: nat :: SkipRounds(r, n).None?
  {
    if DeviceLoop(r.rest, r.buffer, depth).Some? {
      var n := Leaves(r, depth);
    } else {
      forall n: nat
        ensures !Rounds(r, depth, n).Returned?
      {
        Stays(r, depth, n);
      }
    }
    if SkipIrqs(r).Some? {
      var n := SkipEnds(r);
    } else {
      forall n: nat
        ensures SkipRounds(r, n).Some?
      {
        SkipGoesOn(r, n);
      }
    }
  }

  lemma PassStep(rest: seq<string>, found: bool)
    requires Pass(rest, found).Some?
    ensures var out := Pass(rest, found).value;
            if rest == [] then out == []
            else if IsHpet(rest[0], found) then
              var loop := DeviceLoop(rest[1..], rest[0], DepthAfterHpet(rest[0]));
              && loop.Some? && loop.value.depth == 0 && |loop.value.rest| < |rest|
              && var b := loop.value;
                 var more := Pass(b.rest, true);
                 more.Some? && out == [rest[0]] + b.written + [b.buffer] + more.value
            else
              var more := Pass(rest[1..], found);
              more.Some? && out == [rest[0]] + more.value
  {
    if rest != [] {
      DeviceLoopShrinks(rest[1..], rest[0], DepthAfterHpet(rest[0]));
    }
  }

  lemma LineStep(line: string, rest: seq<string>, buffer: string, depth: int)
    requires depth + DeltaElse(line) != 0 && !Contains(line, RESOURCE_TEMPLATE)
    ensures var b := DeviceLoop(rest, line, depth + DeltaElse(line));
            DeviceLoop([line] + rest, buffer, depth)
            == if b.None? then None else Some(b.value.Prepend([line]))
  {
    assert ([line] + rest)[1..] == rest;
  }

  // ----- a second pass finds its own output as it is -----

  lemma OpenedAgain(line: string, brace: string, after: string, tail: seq<string>)
    requires !Contains(after, IRQ)
    ensures Template([brace] + HpetIrqs() + [after] + tail, line)
         == Some(Opening([line, brace] + HpetIrqs() + [after], Reader(tail, after)))
  {
    IrqsContainIrq();
    var rest := [brace] + HpetIrqs() + [after] + tail;
    assert rest == [brace, Irq(), HpetIrqs()[1], Irq(), HpetIrqs()[3], after] + tail;
    assert rest[2..][2..] == [HpetIrqs()[3], after] + tail;
    var third := Reader(rest[4..], Irq());
    assert third.Gets().Gets() == Reader(tail, after);
    assert SkipIrqs(third) == Some(Reader(tail, after));
    var first := Reader(rest[2..], Irq());
    assert first.Gets().Gets() == third;
    assert SkipIrqs(first) == Some(Reader(tail, after));
    assert Reader(rest, line).Gets().Gets() == first;
  }

  lemma TemplateReplays(rest: seq<string>, line: string, depth: int, buffer: string, tail: seq<string>)
    requires depth + DeltaElse(line) != 0 && Contains(line, RESOURCE_TEMPLATE)
    requires Template(rest, line).Some?
    ensures var opening := Template(rest, line).value;
            var after := DeviceLoop(tail, opening.next.buffer, 0);
            DeviceLoop(opening.written + tail, buffer, depth)
            == if after.None? then None else Some(after.value.Prepend(opening.written))
  {
    var opening := Template(rest, line).value;
    var all := opening.written + tail;
    SkipIrqsShrinks(Reader(rest, line).Gets().Gets());
    OpenedAgain(line, opening.written[1], opening.next.buffer, tail);
    assert all[1..] == [opening.written[1]] + HpetIrqs() + [opening.next.buffer] + tail;
  }

  lemma {:induction false} CountDown(line: string, n: nat, depth: int, buffer: string, tail: seq<string>)
    requires !Contains(line, RESOURCE_TEMPLATE)
    requires DeltaElse(line) != 0 && depth == -DeltaElse(line) * (n + 1)
    ensures DeviceLoop(Repeat(line, n) + ([line] + tail), buffer, depth) == Some(Block(Repeat(line, n), line, tail, 0))
    decreases n
  {
    var rest := Repeat(line, n) + ([line] + tail);
    if n == 0 {
      assert rest == [line] + tail;
    } else {
      assert rest[1..] == Repeat(line, n - 1) + ([line] + tail);
      CountDown(line, n - 1, depth + DeltaElse(line), line, tail);
      assert [line] + Repeat(line, n - 1) == Repeat(line, n);
    }
  }

  lemma StaleReplays(buffer: string, depth: int, tail: seq<string>)
    requires DeviceLoop([], buffer, depth).Some?
    ensures var b := DeviceLoop([], buffer, depth).value;
            DeviceLoop(b.written + ([b.buffer] + tail), buffer, depth) == Some(Block(b.written, b.buffer, tail, 0))
  {
    var b := AtEndOfFile(buffer, depth).value;
    if depth + DeltaElse(buffer) == 0 {
      assert b.written + ([buffer] + tail) == [buffer] + tail;
    } else if Contains(buffer, RESOURCE_TEMPLATE) {
      TemplateReplays([], buffer, depth, buffer, [buffer] + tail);
      assert ([buffer] + tail)[1..] == tail;
      assert b.written + [] == b.written;
    } else {
      CountDown(buffer, |b.written|, depth, buffer, tail);
    }
  }

  /** The loop, run on what it wrote, writes it again and stops at the same line,
      whatever follows: pairs it inserted are stripped and inserted once more. */
  lemma {:induction false} LoopReplays(rest: seq<string>, buffer: string, depth: int, tail: seq<string>)
    requires DeviceLoop(rest, buffer, depth).Some?
    ensures var b := DeviceLoop(rest, buffer, depth).value;
            DeviceLoop(b.written + ([b.buffer] + tail), buffer, depth) == Some(Block(b.written, b.buffer, tail, 0))
    decreases |rest|
  {
    hide Contains, DeltaElse, DeviceLoop, Template;
    var b := DeviceLoop(rest, buffer, depth).value;
    if rest == [] {
      StaleReplays(buffer, depth, tail);
    } else if depth + DeltaElse(rest[0]) == 0 {
      DeviceLoopStep(Reader(rest, buffer), depth);
      DeviceLoopStep(Reader([b.buffer] + tail, buffer), depth);
      assert [] + ([b.buffer] + tail) == [b.buffer] + tail && ([b.buffer] + tail)[1..] == tail;
    } else if Contains(rest[0], RESOURCE_TEMPLATE) {
      DeviceLoopStep(Reader(rest, buffer), depth);
      var opening := Template(rest[1..], rest[0]).value;
      LoopReplays(opening.next.rest, opening.next.buffer, 0, tail);
      var inner := DeviceLoop(opening.next.rest, opening.next.buffer, 0).value;
      TemplateReplays(rest[1..], rest[0], depth, buffer, inner.written + ([inner.buffer] + tail));
      assert b.written + ([b.buffer] + tail) == opening.written + (inner.written + ([inner.buffer] + tail));
    } else {
      DeviceLoopStep(Reader(rest, buffer), depth);
      var line, d := rest[0], depth + DeltaElse(rest[0]);
      LoopReplays(rest[1..], line, d, tail);
      var inner := DeviceLoop(rest[1..], line, d).value;
      LineStep(line, inner.written + ([inner.buffer] + tail), buffer, depth);
      assert b.written + ([b.buffer] + tail) == [line] + (inner.written + ([inner.buffer] + tail));
    }
  }

  lemma PassAtDevice(line: string, found: bool, b: Block, rest: seq<string>, tail: seq<string>)
    requires IsHpet(line, found)
    requires DeviceLoop(rest, line, DepthAfterHpet(line)) == Some(b)
    requires Pass(b.rest, true) == Some(tail)
    ensures Pass([line] + rest, found) == Some([line] + b.written + [b.buffer] + tail)
  {
    assert ([line] + rest)[1..] == rest;
    DeviceLoopShrinks(rest, line, DepthAfterHpet(line));
  }

  lemma DeviceReplays(rest: seq<string>, found: bool, b: Block, tail: seq<string>)
    requires rest != [] && IsHpet(rest[0], found)
    requires DeviceLoop(rest[1..], rest[0], DepthAfterHpet(rest[0])) == Some(b)
    requires Pass(tail, true) == Some(tail)
    ensures var out := [rest[0]] + b.written + [b.buffer] + tail;
            Pass(out, found) == Some(out)
  {
    LoopReplays(rest[1..], rest[0], DepthAfterHpet(rest[0]), tail);
    PassAtDevice(rest[0], found, Block(b.written, b.buffer, tail, 0), b.written + ([b.buffer] + tail), tail);
    assert [rest[0]] + b.written + [b.buffer] + tail == [rest[0]] + (b.written + ([b.buffer] + tail));
  }

  /** The pass over HPET devices is idempotent, for any number of devices. */
  lemma {:induction false} PassIsIdempotent(rest: seq<string>, found: bool)
    requires Pass(rest, found).Some?
    ensures Pass(Pass(rest, found).value, found) == Pass(rest, found)
    decreases |rest|
  {
    if rest == [] {
    } else if IsHpet(rest[0], found) {
      var d := DepthAfterHpet(rest[0]);
      var b := DeviceLoop(rest[1..], rest[0], d).value;
      DeviceLoopShrinks(rest[1..], rest[0], d);
      PassIsIdempotent(b.rest, true);
      DeviceReplays(rest, found, b, Pass(b.rest, true).value);
    } else {
      PassIsIdempotent(rest[1..], found);
      var tail := Pass(rest[1..], found).value;
      assert ([rest[0]] + tail)[1..] == tail;
    }
  }

  /** Lines that are no trigger are copied by the pass over HPET devices. */
  lemma {:induction false} UnmarkedStay(lines: seq<string>, tail: seq<string>, found: bool)
    requires forall i :: 0 <= i < |lines| ==> !IsHpet(lines[i], found)
    requires Pass(tail, found) == Some(tail)
    ensures Pass(lines + tail, found) == Some(lines + tail)
  {
    if lines == [] {
      assert lines + tail == tail;
    } else {
      assert (lines + tail)[1..] == lines[1..] + tail;
      UnmarkedStay(lines[1..], tail, found);
      assert lines + tail == [lines[0]] + (lines[1..] + tail);
    }
  }

  // ----- one device with a template: exactly what is put in -----

  /** `lines` starts with `p` pairs of an IRQ line and another line. */
  ghost predicate Pairs(lines: seq<string>, p: nat) {
    p > 0 ==> |lines| >= 2 && Contains(lines[0], IRQ) && Pairs(lines[2..], p - 1)
  }

  lemma {:induction false} SkipsPairs(lines: seq<string>, p: nat)
    requires 2 * p < |lines| && !Contains(lines[2 * p], IRQ) && Pairs(lines, p)
    ensures SkipIrqs(Reader(lines[1..], lines[0])) == Some(Reader(lines[2 * p + 1..], lines[2 * p]))
    decreases p
  {
    hide Contains;
    if p > 0 {
      var r := Reader(lines[1..], lines[0]);
      assert lines[1..][1..] == lines[2..] && lines[2..][1..] == lines[3..];
      assert r.Gets().Gets() == Reader(lines[2..][1..], lines[2..][0]);
      SkipsPairs(lines[2..], p - 1);
      assert lines[2..][2 * (p - 1) + 1..] == lines[2 * p + 1..];
    }
  }

  /** The count, starting at `depth`, is not zero after any of the first `n` lines, and
      none of them is a resource template. */
  ghost predicate Inside(body: seq<string>, n: nat, depth: int)
    requires n <= |body|
  {
    n > 0 ==>
      && depth + DeltaElse(body[0]) != 0 && !Contains(body[0], RESOURCE_TEMPLATE)
      && Inside(body[1..], n - 1, depth + DeltaElse(body[0]))
  }

  function CountElse(body: seq<string>, depth: int): int {
    if body == [] then depth else CountElse(body[1..], depth + DeltaElse(body[0]))
  }

  /** In `body`, the text after a device's trigger line, the first resource template is in
      line `r` with the count not zero before it; it holds `p` IRQ pairs and then another
      line. */
  ghost predicate TemplateAt(body: seq<string>, depth: int, r: nat, p: nat) {
    && r < |body| && Inside(body, r, depth)
    && CountElse(body[..r + 1], depth) != 0 && Contains(body[r], RESOURCE_TEMPLATE)
    && r + 2 + 2 * p < |body| && !Contains(body[r + 2 + 2 * p], IRQ) && Pairs(body[r + 2..], p)
  }

  lemma CountOne(line: string, body: seq<string>, depth: int)
    requires body == [line]
    ensures CountElse(body, depth) == depth + DeltaElse(line)
  {
    assert body[1..] == [];
  }

  lemma LaterTemplate(body: seq<string>, depth: int, r: nat, p: nat)
    requires r > 0 && TemplateAt(body, depth, r, p)
    ensures TemplateAt(body[1..], depth + DeltaElse(body[0]), r - 1, p)
    ensures depth + DeltaElse(body[0]) != 0 && !Contains(body[0], RESOURCE_TEMPLATE)
  {
    hide Contains, DeltaElse, Pairs;
    assert body[..r + 1][1..] == body[1..][..r];
    assert body[1..][r + 1..] == body[r + 2..];
  }

  lemma ShiftBlock(body: seq<string>, r: nat, n: nat)
    requires 0 < r < n < |body|
    ensures [body[0]] + (body[1..][..r] + HpetIrqs() + [body[n]]) == body[..r + 1] + HpetIrqs() + [body[n]]
    ensures body[1..][n..] == body[n + 1..]
  {
    hide HpetIrqs;
    assert [body[0]] + body[1..][..r] == body[..r + 1];
  }

  lemma AtTemplate(body: seq<string>, buffer: string, depth: int, p: nat)
    requires 2 + 2 * p < |body| && Pairs(body[2..], p) && !Contains(body[2 + 2 * p], IRQ)
    requires depth + DeltaElse(body[0]) != 0 && Contains(body[0], RESOURCE_TEMPLATE)
    ensures var n := 2 + 2 * p;
            var after := DeviceLoop(body[n + 1..], body[n], 0);
            DeviceLoop(body, buffer, depth)
            == if after.None? then None else Some(after.value.Prepend(body[..2] + HpetIrqs() + [body[n]]))
  {
    hide Contains, DeltaElse, DeviceLoop, HpetIrqs, SkipIrqs, Pairs;
    var n := 2 + 2 * p;
    assert body[1..][1..] == body[2..] && body[2..][1..] == body[3..];
    SkipsPairs(body[2..], p);
    assert body[2..][2 * p + 1..] == body[n + 1..];
    assert Reader(body[1..], body[0]).Gets().Gets() == Reader(body[2..][1..], body[2..][0]);
    assert Template(body[1..], body[0])
        == Some(Opening([body[0], body[1]] + HpetIrqs() + [body[n]], Reader(body[n + 1..], body[n])));
    DeviceLoopStep(Reader(body, buffer), depth);
    assert body[..2] == [body[0], body[1]];
  }

  lemma {:induction false} ReachesTemplate(body: seq<string>, buffer: string, depth: int, r: nat, p: nat)
    requires TemplateAt(body, depth, r, p)
    ensures var n := r + 2 + 2 * p;
            var after := DeviceLoop(body[n + 1..], body[n], 0);
            DeviceLoop(body, buffer, depth)
            == if after.None? then None else Some(after.value.Prepend(body[..r + 2] + HpetIrqs() + [body[n]]))
    decreases r
  {
    hide Contains, DeltaElse, DeviceLoop, HpetIrqs, Pairs;
    if r > 0 {
      LaterTemplate(body, depth, r, p);
      ReachesTemplate(body[1..], body[0], depth + DeltaElse(body[0]), r - 1, p);
      LineStep(body[0], body[1..], buffer, depth);
      assert [body[0]] + body[1..] == body;
      var n := r + 2 + 2 * p;
      ShiftBlock(body, r + 1, n);
      var after := DeviceLoop(body[n + 1..], body[n], 0);
      if after.Some? {
        var w := body[1..][..r + 1] + HpetIrqs() + [body[n]];
        assert [body[0]] + (w + after.value.written) == ([body[0]] + w) + after.value.written;
      }
    } else {
      assert CountElse(body[..1], depth) == depth + DeltaElse(body[0]) by { CountOne(body[0], body[..1], depth); }
      AtTemplate(body, buffer, depth, p);
    }
  }

  ghost predicate HasIrqs(body: seq<string>) {
    |body| >= 7 && body[2..6] == HpetIrqs() && !Contains(body[6], IRQ)
  }

  /** The device loop, with `body` ahead, leaves the text as it is: the count, starting at
      `depth`, is zero after some line, and each template before that line has just the
      IRQs that are required and then another line.  A template starts the count again. */
  ghost predicate Keeps(body: seq<string>, depth: int)
    decreases |body|
  {
    body != [] &&
    var d := depth + DeltaElse(body[0]);
    || d == 0
    || (if Contains(body[0], RESOURCE_TEMPLATE) then HasIrqs(body) && Keeps(body[7..], 0)
        else Keeps(body[1..], d))
  }

  /** What a device loop and the copying after it make of the text. */
  function Text(b: Block): seq<string> {
    b.written + [b.buffer] + b.rest
  }

  lemma NothingIsKept(buffer: string, depth: int)
    ensures var loop := DeviceLoop([], buffer, depth);
            loop.Some? ==> Text(loop.value) != []
  {
    var loop := DeviceLoop([], buffer, depth);
    if loop.Some? {
      assert |Text(loop.value)| > 0;
    }
  }

  lemma SameTail(w: seq<string>, b: Block, tail: seq<string>)
    ensures Text(b.Prepend(w)) == w + Text(b)
    ensures Text(b.Prepend(w)) == w + tail <==> Text(b) == tail
  {
    assert (w + b.written) + [b.buffer] + b.rest == w + (b.written + [b.buffer] + b.rest);
    assert (w + Text(b))[|w|..] == Text(b) && (w + tail)[|w|..] == tail;
  }

  lemma IrqsStay(body: seq<string>)
    requires HasIrqs(body)
    ensures Template(body[1..], body[0]) == Some(Opening(body[..7], Reader(body[7..], body[6])))
  {
    hide Contains, HpetIrqs, SkipIrqs, Template;
    assert [body[1]] + HpetIrqs() + [body[6]] + body[7..] == body[1..];
    OpenedAgain(body[0], body[1], body[6], body[7..]);
    assert [body[0], body[1]] + HpetIrqs() + [body[6]] == body[..7];
  }

  lemma IrqsAreWritten(rest: seq<string>, line: string, more: seq<string>)
    requires Template(rest, line).Some?
    ensures HasIrqs(Template(rest, line).value.written + more)
  {
    hide Contains, SkipIrqs;
    SkipIrqsShrinks(Reader(rest, line).Gets().Gets());
    var w := Template(rest, line).value.written;
    assert (w + more)[2..6] == w[2..6] == HpetIrqs();
  }

  lemma TemplateKeeps(body: seq<string>, buffer: string, depth: int)
    requires body != [] && depth + DeltaElse(body[0]) != 0 && Contains(body[0], RESOURCE_TEMPLATE)
    ensures var loop := DeviceLoop(body, buffer, depth);
            loop.Some? && Text(loop.value) == body
            <==> HasIrqs(body)
                 && var after := DeviceLoop(body[7..], body[6], 0);
                    after.Some? && Text(after.value) == body[7..]
  {
    hide Contains, DeltaElse, DeviceLoop, SkipIrqs, HpetIrqs;
    var loop := DeviceLoop(body, buffer, depth);
    DeviceLoopStep(Reader(body, buffer), depth);
    if HasIrqs(body) {
      IrqsStay(body);
      var after := DeviceLoop(body[7..], body[6], 0);
      if after.Some? {
        SameTail(body[..7], after.value, body[7..]);
        assert body == body[..7] + body[7..];
      }
    } else if loop.Some? && Text(loop.value) == body {
      var opening := Template(body[1..], body[0]).value;
      var inner := DeviceLoop(opening.next.rest, opening.next.buffer, 0).value;
      SameTail(opening.written, inner, []);
      IrqsAreWritten(body[1..], body[0], Text(inner));
    }
  }

  lemma {:induction false} LoopKeeps(body: seq<string>, buffer: string, depth: int)
    ensures var loop := DeviceLoop(body, buffer, depth);
            loop.Some? && Text(loop.value) == body <==> Keeps(body, depth)
    decreases |body|
  {
    hide Contains, DeltaElse, AtEndOfFile, Template, HpetIrqs;
    if body != [] && depth + DeltaElse(body[0]) != 0 {
      hide DeviceLoop;
      var line, rest := body[0], body[1..];
      assert [line] + rest == body;
      if Contains(line, RESOURCE_TEMPLATE) {
        if HasIrqs(body) {
          LoopKeeps(body[7..], body[6], 0);
        }
        TemplateKeeps(body, buffer, depth);
      } else {
        LoopKeeps(rest, line, depth + DeltaElse(line));
        LineStep(line, rest, buffer, depth);
        var loop := DeviceLoop(rest, line, depth + DeltaElse(line));
        if loop.Some? {
          SameTail([line], loop.value, rest);
        }
      }
    } else if body == [] {
      NothingIsKept(buffer, depth);
    }
  }

  /** The loop goes on behind a template that has the required IRQs. */
  lemma PrefixBehind(body: seq<string>, opening: Opening, inner: seq<string>)
    requires HasIrqs(body) && Template(body[1..], body[0]) == Some(opening)
    requires opening.written + inner <= body
    ensures opening.next == Reader(body[7..], body[6]) && inner <= body[7..]
  {
    hide Contains, HpetIrqs, Template;
    IrqsStay(body);
    assert (opening.written + inner)[7..] == inner;
  }

  /** As soon as what the loop itself writes is a part of the text, all of the text is kept. */
  lemma {:induction false} KeepsPrefix(body: seq<string>, buffer: string, depth: int)
    requires var loop := DeviceLoop(body, buffer, depth);
             loop.Some? && loop.value.written + [loop.value.buffer] <= body
    ensures Keeps(body, depth)
    decreases |body|
  {
    hide Contains, DeltaElse, AtEndOfFile, Template, HpetIrqs, DeviceLoop;
    DeviceLoopStep(Reader(body, buffer), depth);
    var d := depth + DeltaElse(body[0]);
    var b := DeviceLoop(body, buffer, depth).value;
    if d != 0 {
      if Contains(body[0], RESOURCE_TEMPLATE) {
        var opening := Template(body[1..], body[0]).value;
        var inner := DeviceLoop(opening.next.rest, opening.next.buffer, 0).value;
        assert b.written + [b.buffer] == opening.written + (inner.written + [inner.buffer]);
        var more := body[|b.written| + 1..];
        assert body == opening.written + (inner.written + [inner.buffer] + more);
        IrqsAreWritten(body[1..], body[0], inner.written + [inner.buffer] + more);
        PrefixBehind(body, opening, inner.written + [inner.buffer]);
        KeepsPrefix(body[7..], body[6], 0);
      } else {
        var inner := DeviceLoop(body[1..], body[0], d).value;
        assert b.written + [b.buffer] == [body[0]] + (inner.written + [inner.buffer]);
        assert inner.written + [inner.buffer] == (b.written + [b.buffer])[1..];
        KeepsPrefix(body[1..], body[0], d);
      }
    }
  }

  /** Whatever the device loop leaves unread was unread before. */
  lemma {:induction false} SkipLeavesRest(r: Reader)
    requires SkipIrqs(r).Some?
    ensures forall line :: line in SkipIrqs(r).value.rest ==> line in r.rest
    decreases |r.rest|
  {
    if Contains(r.buffer, IRQ) {
      SkipLeavesRest(r.Gets().Gets());
    }
  }

  lemma {:induction false} LoopLeavesRest(rest: seq<string>, buffer: string, depth: int)
    requires DeviceLoop(rest, buffer, depth).Some?
    ensures forall line :: line in DeviceLoop(rest, buffer, depth).value.rest ==> line in rest
    decreases |rest|
  {
    hide Contains, DeltaElse, HpetIrqs, SkipIrqs;
    if rest != [] && depth + DeltaElse(rest[0]) != 0 {
      if Contains(rest[0], RESOURCE_TEMPLATE) {
        var next := Reader(rest[1..], rest[0]).Gets().Gets();
        SkipLeavesRest(next);
        SkipIrqsShrinks(next);
        var opening := Template(rest[1..], rest[0]).value;
        LoopLeavesRest(opening.next.rest, opening.next.buffer, 0);
      } else {
        LoopLeavesRest(rest[1..], rest[0], depth + DeltaElse(rest[0]));
      }
    }
  }

  /** A file with one HPET device, met in line `i`. */
  ghost predicate OneMark(file: seq<string>, i: nat) {
    && i < |file| && IsHpet(file[i], false)
    && (forall m :: 0 <= m < i ==> !IsHpet(file[m], false))
    && forall m :: i < m < |file| ==> !Contains(file[m], HPET_DEVICE)
  }

  lemma {:induction false} NeverReturns(file: seq<string>, i: nat)
    requires i < |file| && IsHpet(file[i], false) && forall m :: 0 <= m < i ==> !IsHpet(file[m], false)
    requires DeviceLoop(file[i + 1..], file[i], DepthAfterHpet(file[i])).None?
    ensures Pass(file, false).None?
    decreases i
  {
    hide Contains, IsHpet, DeltaElse, DeviceLoop, DepthAfterHpet;
    if i > 0 {
      assert file[1..][i..] == file[i + 1..];
      NeverReturns(file[1..], i - 1);
    }
  }

  lemma {:induction false} CopiedPrefix(file: seq<string>, i: nat, out: seq<string>)
    requires i < |file| && Pass([file[i]] + file[i + 1..], false) == Some(out)
    requires forall m :: 0 <= m < i ==> !IsHpet(file[m], false)
    ensures Pass(file, false) == Some(file[..i] + out)
    decreases i
  {
    hide Contains, IsHpet, DeltaElse, DeviceLoop, DepthAfterHpet;
    if i == 0 {
      assert [file[0]] + file[1..] == file && file[..0] + out == out;
    } else {
      assert file[1..][i..] == file[i + 1..];
      CopiedPrefix(file[1..], i - 1, out);
      assert file[..i] + out == [file[0]] + (file[1..][..i - 1] + out);
    }
  }

  lemma OneDevice(file: seq<string>, i: nat, b: Block)
    requires i < |file| && IsHpet(file[i], false)
    requires forall m :: 0 <= m < i ==> !IsHpet(file[m], false)
    requires forall m :: 0 <= m < |b.rest| ==> !Contains(b.rest[m], HPET_DEVICE)
    requires DeviceLoop(file[i + 1..], file[i], DepthAfterHpet(file[i])) == Some(b)
    ensures Pass(file, false) == Some(file[..i] + ([file[i]] + b.written + [b.buffer] + b.rest))
  {
    UnmarkedStay(b.rest, [], true);
    assert b.rest + [] == b.rest;
    PassAtDevice(file[i], false, b, file[i + 1..], b.rest);
    CopiedPrefix(file, i, [file[i]] + b.written + [b.buffer] + b.rest);
  }

  /** What the pass makes of a file with one HPET device. */
  lemma OneMarkExact(file: seq<string>, i: nat)
    requires OneMark(file, i)
    ensures var loop := DeviceLoop(file[i + 1..], file[i], DepthAfterHpet(file[i]));
            Pass(file, false) == if loop.None? then None else Some(file[..i + 1] + Text(loop.value))
  {
    hide Contains, IsHpet, DeltaElse, DeviceLoop, DepthAfterHpet, Pass;
    var body := file[i + 1..];
    var loop := DeviceLoop(body, file[i], DepthAfterHpet(file[i]));
    if loop.Some? {
      var b := loop.value;
      LoopLeavesRest(body, file[i], DepthAfterHpet(file[i]));
      forall m | 0 <= m < |b.rest|
        ensures !Contains(b.rest[m], HPET_DEVICE)
      {
        assert b.rest[m] in body;
        var q :| 0 <= q < |body| && body[q] == b.rest[m];
        assert body[q] == file[i + 1 + q];
      }
      OneDevice(file, i, b);
      assert file[..i] + ([file[i]] + b.written + [b.buffer] + b.rest) == file[..i + 1] + Text(b);
    } else {
      NeverReturns(file, i);
    }
  }

  /** A file with one HPET device is a fixed point exactly when the loop keeps its text. */
  lemma UnchangedIff(file: seq<string>, i: nat)
    requires OneMark(file, i)
    ensures Pass(file, false) == Some(file) <==> Keeps(file[i + 1..], DepthAfterHpet(file[i]))
  {
    hide Contains, IsHpet, DeltaElse, DeviceLoop, DepthAfterHpet, Pass, Keeps;
    OneMarkExact(file, i);
    LoopKeeps(file[i + 1..], file[i], DepthAfterHpet(file[i]));
    assert file == file[..i + 1] + file[i + 1..];
    var loop := DeviceLoop(file[i + 1..], file[i], DepthAfterHpet(file[i]));
    if loop.Some? {
      TailsAgree(file[..i + 1], Text(loop.value), file[i + 1..]);
    }
  }

  lemma RejoinIrqs(file: seq<string>, i: nat, r: nat, n: nat)
    requires i < |file| && r + 2 <= n < |file[i + 1..]|
    ensures var body := file[i + 1..];
            file[..i + 1] + (body[..r + 2] + HpetIrqs() + [body[n]] + body[n + 1..])
            == file[..i + 1 + r + 2] + HpetIrqs() + file[i + 1 + n..]
  {
    hide HpetIrqs;
    var body := file[i + 1..];
    assert file[..i + 1] + body[..r + 2] == file[..i + 1 + r + 2];
    assert [body[n]] + body[n + 1..] == file[i + 1 + n..];
  }

  /** In a file with one HPET device (line `i`) the IRQ pairs of its first template are
      replaced by the two that are required, and nothing else changes, if and only if the
      loop keeps what follows the first line that is left of that template.  The count is
      zero again there: otherwise later templates, whatever device they belong to, are
      given IRQs, or the loop runs into the end of the file. */
  lemma ReplacesIrqs(file: seq<string>, i: nat, r: nat, p: nat)
    requires OneMark(file, i) && TemplateAt(file[i + 1..], DepthAfterHpet(file[i]), r, p)
    ensures var at := i + 1 + r + 2;
            Pass(file, false) == Some(file[..at] + HpetIrqs() + file[at + 2 * p..])
            <==> Keeps(file[at + 2 * p + 1..], 0)
  {
    hide Contains, IsHpet, DeltaElse, DeviceLoop, DepthAfterHpet, HpetIrqs, Pairs, Inside, CountElse, Pass, Keeps;
    var body, n := file[i + 1..], r + 2 + 2 * p;
    ReachesTemplate(body, file[i], DepthAfterHpet(file[i]), r, p);
    OneMarkExact(file, i);
    LoopKeeps(body[n + 1..], body[n], 0);
    assert body[n + 1..] == file[i + 1 + n + 1..];
    var after := DeviceLoop(body[n + 1..], body[n], 0);
    if after.Some? {
      var w := body[..r + 2] + HpetIrqs() + [body[n]];
      SameTail(w, after.value, body[n + 1..]);
      TailsAgree(file[..i + 1], w + Text(after.value), w + body[n + 1..]);
      RejoinIrqs(file, i, r, n);
    }
  }

  // ----- where the IRQs can go astray -----

  lemma TemplateStep(line: string, brace: string, after: string, rest: seq<string>, buffer: string, depth: int)
    requires depth + DeltaElse(line) != 0 && Contains(line, RESOURCE_TEMPLATE) && !Contains(after, IRQ)
    ensures var b := DeviceLoop(rest, after, 0);
            DeviceLoop([line, brace, after] + rest, buffer, depth)
            == if b.None? then None else Some(b.value.Prepend([line, brace] + HpetIrqs() + [after]))
  {
    var all := [line, brace, after] + rest;
    assert all[1..] == [brace, after] + rest && all[1..][1..][1..] == rest;
    assert Template(all[1..], line) == Some(Opening([line, brace] + HpetIrqs() + [after], Reader(rest, after)));
  }

  /** Lines over which the count stays away from zero, and among which is no template, are
      copied. */
  lemma {:induction false} InsideIsCopied(between: seq<string>, tail: seq<string>, buffer: string, depth: int)
    requires Inside(between, |between|, depth) && tail != []
    ensures var b := DeviceLoop(tail, buffer, CountElse(between, depth));
            DeviceLoop(between + tail, buffer, depth)
            == if b.None? then None else Some(b.value.Prepend(between))
    decreases |between|
  {
    hide Contains, DeltaElse, Template;
    var b := DeviceLoop(tail, buffer, CountElse(between, depth));
    if between == [] {
      assert between + tail == tail && (b.Some? ==> between + b.value.written == b.value.written);
    } else {
      hide DeviceLoop;
      var line, d := between[0], depth + DeltaElse(between[0]);
      assert between + tail == [line] + (between[1..] + tail);
      InsideIsCopied(between[1..], tail, line, d);
      LineStep(line, between[1..] + tail, buffer, depth);
      assert b.Some? ==> [line] + (between[1..] + b.value.written) == between + b.value.written;
    }
  }

  /** A template whose second line after the IRQs has no brace: the loop ends there. */
  lemma LastTemplate(template: string, brace: string, after: string, last: string, more: seq<string>, buffer: string, depth: int)
    requires depth + DeltaElse(template) != 0 && Contains(template, RESOURCE_TEMPLATE) && !Contains(after, IRQ)
    requires DeltaElse(last) == 0
    ensures DeviceLoop([template, brace, after] + ([last] + more), buffer, depth)
         == Some(Block([template, brace] + HpetIrqs() + [after], last, more, 0))
  {
    hide Contains, DeltaElse, HpetIrqs, Template;
    assert ([last] + more)[1..] == more;
    assert DeviceLoop([last] + more, after, 0) == Some(Block([], last, more, 0));
    hide DeviceLoop;
    TemplateStep(template, brace, after, [last] + more, buffer, depth);
    var w := [template, brace] + HpetIrqs() + [after];
    assert w + [] == w;
  }

  lemma CopiedToEnd(lines: seq<string>)
    requires forall m :: 0 <= m < |lines| ==> !Contains(lines[m], HPET_DEVICE)
    ensures Pass(lines, true) == Some(lines)
  {
    hide Contains;
    UnmarkedStay(lines, [], true);
    assert lines + [] == lines;
  }

  lemma DepthOfDevice(line: string)
    requires Contains(line, HPET_DEVICE)
    ensures DepthAfterHpet(line) == 0
  {
  }

  lemma JoinText(device: string, open: string, first: seq<string>, between: seq<string>,
                 second: seq<string>, last: string, more: seq<string>)
    ensures [device] + ([open] + (first + (between + (second + ([last] + more)))))
         == [device, open] + first + between + (second + [last]) + more
  {
  }

  lemma JoinStray(device: string, open: string, first: seq<string>, irqs: seq<string>, after: string,
                  between: seq<string>, second: seq<string>, after2: string, last: string, more: seq<string>)
    ensures [device] + ([open] + ((first + irqs + [after]) + (between + (second + irqs + [after2])))) + [last] + more
         == ([device, open] + first) + irqs + [after] + between + second + irqs + [after2, last] + more
  {
    var a, b := [open] + (first + irqs + [after]), second + irqs + [after2];
    assert [open] + ((first + irqs + [after]) + (between + b)) == a + between + b;
    assert [device] + a == ([device, open] + first) + irqs + [after];
    assert b + [last] == second + irqs + [after2, last];
  }

  /** After a template the count starts again from zero, inside the device.  If it then
      stays away from zero (the lines `between`, which may go on past the end of the
      device), the next template, whatever it belongs to, is given the IRQs as well. */
  lemma StrayIrqs(device: string, open: string, template: string, brace: string, after: string, between: seq<string>,
                  template2: string, brace2: string, after2: string, last: string, more: seq<string>)
    requires Contains(device, HPET_DEVICE)
    requires DeltaElse(open) == 1 && !Contains(open, RESOURCE_TEMPLATE)
    requires Contains(template, RESOURCE_TEMPLATE) && DeltaElse(template) == 0 && !Contains(after, IRQ)
    requires Inside(between, |between|, 0) && CountElse(between, 0) + DeltaElse(template2) != 0
    requires Contains(template2, RESOURCE_TEMPLATE) && !Contains(after2, IRQ) && DeltaElse(last) == 0
    requires forall m :: 0 <= m < |more| ==> !Contains(more[m], HPET_DEVICE)
    ensures Pass([device, open, template, brace, after] + between + [template2, brace2, after2, last] + more, false)
         == Some([device, open, template, brace] + HpetIrqs() + [after] + between
                 + [template2, brace2] + HpetIrqs() + [after2, last] + more)
  {
    hide Contains, DeltaElse, DeviceLoop, HpetIrqs, Inside, CountElse, Pass, DepthAfterHpet;
    var tail := [template2, brace2, after2] + ([last] + more);
    LastTemplate(template2, brace2, after2, last, more, after, CountElse(between, 0));
    InsideIsCopied(between, tail, after, 0);
    TemplateStep(template, brace, after, between + tail, open, 1);
    LineStep(open, [template, brace, after] + (between + tail), device, 0);
    var first, second := [template, brace] + HpetIrqs() + [after], [template2, brace2] + HpetIrqs() + [after2];
    var written := [open] + (first + (between + second));
    var body := [open] + ([template, brace, after] + (between + tail));
    CopiedToEnd(more);
    DepthOfDevice(device);
    PassAtDevice(device, false, Block(written, last, more, 0), body, more);
    assert [device, open] + [template, brace, after] == [device, open, template, brace, after];
    assert [template2, brace2, after2] + [last] == [template2, brace2, after2, last];
    assert [device, open] + [template, brace] == [device, open, template, brace];
    JoinText(device, open, [template, brace, after], between, [template2, brace2, after2], last, more);
    JoinStray(device, open, [template, brace], HpetIrqs(), after, between, [template2, brace2], after2, last, more);
  }
}
