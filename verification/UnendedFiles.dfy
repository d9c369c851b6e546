/** Files whose last line has no newline.  When a block loop of `patchHPET` runs out of
    lines it writes the last line again, right behind itself, and a second run reads the
    two as one line.  This module says what that does. */
module UnendedFiles {
  import opened Wrappers
  import opened AslText
  import opened HpetText
  import opened HpetPass
  import opened LineFiles
  import opened HpetEnds
  import HpetInsert
  import FileRuns

  /** The last line neither ends in a newline nor fills the buffer. */
  ghost predicate Unended(lines: seq<string>) {
    lines != [] && Readable(lines) && !Stops(LastOf(lines))
  }

  predicate EndsLine(s: string) {
    s != "" && s[|s| - 1] == '\n'
  }

  /** The line before the last one is not one that the buffer cuts off. */
  predicate Ruled(lines: seq<string>) {
    |lines| >= 2 ==> EndsLine(lines[|lines| - 2])
  }

  lemma UnendedLine(lines: seq<string>)
    requires Unended(lines)
    ensures var u := LastOf(lines); 0 < |u| < BUFFER_SIZE - 1 && '\n' !in u
  {
    var u := LastOf(lines);
    assert u == u[..|u| - 1] + [u[|u| - 1]];
  }

  lemma UnendedSuffix(tail: seq<string>, lines: seq<string>)
    requires Suffix(tail, lines) && Unended(lines) && Ruled(lines)
    ensures Unended(tail) && Ruled(tail)
  {
    hide Stops, Fits, Readable;
    SuffixReadable(tail, lines);
    assert |tail| >= 2 ==> tail[|tail| - 2] == lines[|lines| - 2];
  }

  // ----- a line joined to itself -----

  function Copies(u: string, m: nat): string {
    if m == 0 then "" else u + Copies(u, m - 1)
  }

  lemma {:induction false} CopiesFlatten(u: string, m: nat)
    ensures Flatten(Repeat(u, m)) == Copies(u, m)
    decreases m
  {
    if m > 0 {
      assert Repeat(u, m)[1..] == Repeat(u, m - 1);
      CopiesFlatten(u, m - 1);
    }
  }

  lemma {:induction false} CopiesShape(u: string, m: nat)
    ensures |Copies(u, m)| == m * |u|
    ensures forall c :: c in Copies(u, m) <==> m > 0 && c in u
    ensures m > 0 ==> u <= Copies(u, m)
    decreases m
  {
    if m > 0 {
      CopiesShape(u, m - 1);
    }
  }

  lemma PrefixContains(s: string, t: string, needle: string)
    requires s <= t && Contains(s, needle)
    ensures Contains(t, needle)
  {
    var i :| 0 <= i <= |s| && MatchAt(s, needle, i);
    assert t[i..][..|needle|] == s[i..][..|needle|];
    assert MatchAt(t, needle, i);
  }

  /** There is room in the buffer for the last line, joined to itself as often as a count
      of `count` can have it written, and for an IRQ line. */
  predicate Room(u: string, count: int) {
    (Abs(count) + 3) * |u| + |Irq()| < BUFFER_SIZE - 1
  }

  lemma MoreCopies(n: nat, a: nat, b: nat)
    requires a <= b
    ensures a * n <= b * n
  {
  }

  lemma RoomFor(u: string, count: int, m: nat)
    requires Room(u, count) && m <= Abs(count) + 3
    ensures m * |u| + |Irq()| < BUFFER_SIZE - 1
  {
    MoreCopies(|u|, m, Abs(count) + 3);
  }

  // ----- reading back what a pass wrote -----

  /** `lines` are what is read when `out` has been written. */
  ghost predicate Rereads(lines: seq<string>, out: seq<string>) {
    Unended(lines) && Ruled(lines) && Flatten(lines) == Flatten(out)
  }

  lemma RereadsBehind(s: seq<string>, lines: seq<string>, out: seq<string>)
    requires AllStop(s) && Rereads(lines, out)
    requires s != [] && |lines| == 1 ==> EndsLine(LastOf(s))
    ensures Rereads(s + lines, s + out)
  {
    hide AllStop, Readable, Stops;
    JoinReadable(s, lines);
    FlattenJoin(s, lines);
    FlattenJoin(s, out);
    assert LastOf(s + lines) == LastOf(lines);
  }

  lemma CopiesReread(u: string, count: int, m: nat)
    requires Unended([u]) && Room(u, count) && 1 <= m <= Abs(count) + 3
    ensures Rereads([Copies(u, m)], Repeat(u, m))
  {
    UnendedLine([u]);
    RoomFor(u, count, m);
    CopiesShape(u, m);
    CopiesFlatten(u, m);
    FlattenOne(Copies(u, m));
    MoreCopies(|u|, 1, m);
    assert '\n' !in Copies(u, m)[..|Copies(u, m)| - 1];
  }

  lemma TailStops(lines: seq<string>, n: nat)
    requires AllStop(lines) && n <= |lines|
    ensures AllStop(lines[n..])
  {
  }

  lemma IrqsEnd()
    ensures AllStop(HpetIrqs()) && EndsLine(HpetIrqs()[3])
  {
    IrqsStop();
  }

  /** A line that is joined to an inserted one stops as that one does. */
  lemma JoinedLine(s: string, width: nat, text: string)
    requires '\n' !in s && '\n' !in text && |s| + width + |text| < BUFFER_SIZE - 1
    ensures Stops(s + Indent(width, text))
  {
    var line := s + Indent(width, text);
    assert line[..|line| - 1] == s + seq(width, _ => ' ') + text;
  }

  lemma JoinedStops(u: string, count: int, n: nat)
    requires Unended([u]) && Room(u, count) && 1 <= n <= 3
    ensures AllStop([Copies(u, n) + Irq()])
  {
    UnendedLine([u]);
    RoomFor(u, count, n);
    CopiesShape(u, n);
    JoinedLine(Copies(u, n), 24, "IRQNoFlags ()");
  }

  lemma FlattenJoined(w: string, lines: seq<string>)
    requires lines != []
    ensures Flatten([w + lines[0]] + lines[1..]) == w + Flatten(lines)
  {
    assert ([w + lines[0]] + lines[1..])[1..] == lines[1..];
  }

  /** The first of the inserted lines goes to the copies before it. */
  lemma IrqsReread(u: string, count: int, n: nat)
    requires Unended([u]) && Room(u, count) && 1 <= n <= 3
    ensures Rereads([Copies(u, n) + Irq()] + HpetIrqs()[1..] + [Copies(u, 2)], Repeat(u, n) + HpetIrqs() + Repeat(u, 2))
  {
    var first, more, last := Copies(u, n) + Irq(), HpetIrqs()[1..], [Copies(u, 2)];
    CopiesReread(u, count, 2);
    JoinedStops(u, count, n);
    IrqsEnd();
    TailStops(HpetIrqs(), 1);
    JoinStops([first], more);
    RereadsBehind([first] + more, last, Repeat(u, 2));
    FlattenJoin([first] + more, Repeat(u, 2));
    FlattenJoin(Repeat(u, n) + HpetIrqs(), Repeat(u, 2));
    FlattenJoin(Repeat(u, n), HpetIrqs());
    CopiesFlatten(u, n);
    FlattenJoined(Copies(u, n), HpetIrqs());
  }

  // ----- a device loop that runs out of lines -----

  /** The count with which a device loop runs out of lines. */
  function EndCount(body: seq<string>, depth: int): int
    decreases |body|
  {
    if body == [] then depth
    else
      var d := depth + DeltaElse(body[0]);
      if !Contains(body[0], RESOURCE_TEMPLATE) then EndCount(body[1..], d)
      else
        var opening := Template(body[1..], body[0]);
        SkipIrqsShrinks(Reader(body[1..], body[0]).Gets().Gets());
        if opening.None? then 0 else EndCount(opening.value.next.rest, 0)
  }

  /** What is read of what such a loop wrote: its line in hand and the lines behind it. */
  ghost predicate NotKept(head: string, tail: seq<string>, body: seq<string>, buffer: string, depth: int) {
    && DeviceLoop(body, buffer, depth).Some?
    && Rereads([head] + tail, [buffer] + Text(DeviceLoop(body, buffer, depth).value))
    && !Keeps(tail, depth)
    && if body != [] then head == buffer && tail != []
       else buffer <= head && forall d :: d >= 0 ==> !Keeps(tail, d)
  }

  lemma RepeatTwice(u: string, n: nat)
    ensures [u] + Repeat(u, n) + [u] == Repeat(u, n + 2)
    ensures [u] + [] + [u] == Repeat(u, 2)
  {
  }

  /** A line that is counted and written until the count is zero. */
  lemma StaleCopies(u: string, depth: int) returns (m: nat)
    requires DeviceLoop([], u, depth).Some?
    requires !Contains(u, RESOURCE_TEMPLATE) || depth + DeltaElse(u) == 0
    ensures [u] + Text(DeviceLoop([], u, depth).value) == Repeat(u, m) && 2 <= m <= Abs(depth) + 2
  {
    hide Contains, DeltaElse;
    var b := DeviceLoop([], u, depth).value;
    m := |b.written| + 2;
    assert [u] + Text(b) == [u] + b.written + [u];
    if depth + DeltaElse(u) != 0 {
      RepeatTwice(u, |b.written|);
    } else {
      RepeatTwice(u, 0);
    }
  }

  /** After a template with which the file ends. */
  lemma StaleEnds(u: string)
    requires DeviceLoop([], u, 0).Some?
    ensures DeltaElse(u) == 0 && DeviceLoop([], u, 0) == Some(Block([], u, [], 0))
  {
    hide Contains, DeltaElse;
  }

  lemma CountOfCopies(u: string, n: nat)
    requires n > 0
    ensures DeltaElse(Copies(u, n)) == DeltaElse(u) && DeltaElse(Copies(u, n) + Irq()) == DeltaElse(u)
  {
    hide Contains, DeltaElse;
    CopiesShape(u, n);
    CountOfCharacters(u);
    CountOfCharacters(Copies(u, n));
    CountOfCharacters(Copies(u, n) + Irq());
    assert '{' !in Irq() && '}' !in Irq();
  }

  /** Too short for a template that is kept. */
  lemma ShortTemplate(tail: seq<string>, depth: int)
    requires 1 <= |tail| < 7 && Contains(tail[0], RESOURCE_TEMPLATE) && depth + DeltaElse(tail[0]) != 0
    ensures !Keeps(tail, depth)
  {
  }

  lemma JoinLists(head: string, irqs: seq<string>, last: string)
    requires |irqs| > 0
    ensures [head] + (irqs[1..] + [last]) == [head] + irqs[1..] + [last]
  {
  }

  lemma RepeatedList(u: string, irqs: seq<string>)
    ensures [u] + (([u, u] + irqs + [u]) + [u] + []) == Repeat(u, 3) + irqs + Repeat(u, 2)
    ensures ([u, u] + irqs + [u]) + [u] == Repeat(u, 2) + irqs + Repeat(u, 2)
    ensures ([u] + irqs + [u]) + [u] == Repeat(u, 1) + irqs + Repeat(u, 2)
  {
    assert Repeat(u, 2) == [u, u] && Repeat(u, 3) == [u, u, u] && Repeat(u, 1) == [u];
  }

  lemma IrqCounts()
    ensures DeltaElse(HpetIrqs()[1]) == 1 && DeltaElse(HpetIrqs()[2]) == 0 && DeltaElse(HpetIrqs()[3]) == 1
  {
    hide Contains, DeltaElse;
    CountOfCharacters(HpetIrqs()[1]);
    CountOfCharacters(HpetIrqs()[2]);
    CountOfCharacters(HpetIrqs()[3]);
    assert HpetIrqs()[1][28] == '{' && HpetIrqs()[3][28] == '{';
    assert '{' !in HpetIrqs()[2] && '}' !in HpetIrqs()[2];
  }

  /** A text is not kept if its first line does not end the loop and the rest is not. */
  lemma LineNotKept(tail: seq<string>, depth: int)
    requires 1 <= |tail| < 7 && depth + DeltaElse(tail[0]) != 0
    requires !Keeps(tail[1..], depth + DeltaElse(tail[0]))
    ensures !Keeps(tail, depth)
  {
    hide Contains, DeltaElse;
  }

  lemma IrqsAreNotKept(u: string, d: int)
    requires d >= 0 && DeltaElse(u) == 0
    ensures !Keeps(HpetIrqs()[1..] + [Copies(u, 2)], d)
  {
    hide Contains, DeltaElse, HpetIrqs;
    var a, b, c, last := HpetIrqs()[1], HpetIrqs()[2], HpetIrqs()[3], Copies(u, 2);
    IrqCounts();
    CountOfCopies(u, 2);
    LineNotKept([last], d + 2);
    LineNotKept([c, last], d + 1);
    LineNotKept([b, c, last], d + 1);
    LineNotKept([a, b, c, last], d);
    assert HpetIrqs()[1..] + [last] == [a, b, c, last];
  }

  /** The header of a device is a template, and the last line. */
  lemma TemplateHeader(u: string, depth: int) returns (head: string, tail: seq<string>)
    requires Unended([u]) && Room(u, depth) && DeviceLoop([], u, depth).Some?
    requires Contains(u, RESOURCE_TEMPLATE) && depth >= 0 && depth + DeltaElse(u) != 0
    ensures NotKept(head, tail, [], u, depth)
  {
    hide Contains, DeltaElse, HpetIrqs, Stops, Fits, Readable, Irq;
    var w := [u, u] + HpetIrqs() + [u];
    assert DeviceLoop([], u, depth) == Some(Block(w, u, [], 0)) && DeltaElse(u) == 0;
    hide DeviceLoop;
    IrqsReread(u, depth, 3);
    head, tail := Copies(u, 3) + Irq(), HpetIrqs()[1..] + [Copies(u, 2)];
    JoinLists(head, HpetIrqs(), Copies(u, 2));
    RepeatedList(u, HpetIrqs());
    CopiesShape(u, 3);
    forall d | d >= 0
      ensures !Keeps(tail, d)
    {
      IrqsAreNotKept(u, d);
    }
  }

  /** The text is one line: the loop writes nothing but copies of it. */
  lemma OneLineOverruns(buffer: string, depth: int) returns (head: string, tail: seq<string>)
    requires Unended([buffer]) && Room(buffer, depth) && DeviceLoop([], buffer, depth).Some?
    requires Contains(buffer, RESOURCE_TEMPLATE) ==> depth >= 0
    ensures NotKept(head, tail, [], buffer, depth)
  {
    if !Contains(buffer, RESOURCE_TEMPLATE) || depth + DeltaElse(buffer) == 0 {
      hide Contains, DeltaElse, DeviceLoop, Stops, Fits, Readable;
      var m := StaleCopies(buffer, depth);
      CopiesReread(buffer, depth, m);
      CopiesShape(buffer, m);
      head, tail := Copies(buffer, m), [];
      assert [head] + tail == [head];
    } else {
      head, tail := TemplateHeader(buffer, depth);
    }
  }

  lemma CutShortNotKept(body: seq<string>, depth: int, n: nat, more: seq<string>)
    requires 1 <= |body| <= 2 && n > 0 && |more| == 4
    requires Contains(body[0], RESOURCE_TEMPLATE) && depth + DeltaElse(body[0]) != 0
    ensures !Keeps(body[..|body| - 1] + [Copies(LastOf(body), n) + Irq()] + more, depth)
  {
    hide Contains, DeltaElse, Irq, Keeps;
    var u := LastOf(body);
    CountOfCopies(u, n);
    CopiesShape(u, n);
    if |body| == 1 {
      PrefixContains(u, Copies(u, n) + Irq(), RESOURCE_TEMPLATE);
    }
    ShortTemplate(body[..|body| - 1] + [Copies(u, n) + Irq()] + more, depth);
  }

  /** What a loop writes of such a template. */
  lemma CutShort(body: seq<string>, buffer: string, depth: int)
    requires 1 <= |body| <= 2 && DeviceLoop(body, buffer, depth).Some?
    requires Contains(body[0], RESOURCE_TEMPLATE) && depth + DeltaElse(body[0]) != 0
    ensures var u, n := LastOf(body), if |body| == 1 then 2 else 1;
            Text(DeviceLoop(body, buffer, depth).value)
            == body[..|body| - 1] + (Repeat(u, n) + HpetIrqs() + Repeat(u, 2))
  {
    hide Contains, DeltaElse, DeviceLoop, HpetIrqs;
    var u := LastOf(body);
    DeviceLoopStep(Reader(body, buffer), depth);
    var opening := Template(body[1..], body[0]).value;
    assert opening.next == Reader([], u);
    StaleEnds(u);
    RepeatedList(u, HpetIrqs());
    if |body| == 1 {
      assert Text(DeviceLoop(body, buffer, depth).value) == ([u, u] + HpetIrqs() + [u]) + [u];
    } else {
      assert Text(DeviceLoop(body, buffer, depth).value) == [body[0]] + (([u] + HpetIrqs() + [u]) + [u]);
    }
  }

  /** A template is cut short by the end of the file. */
  lemma TemplateOverruns(body: seq<string>, buffer: string, depth: int) returns (tail: seq<string>)
    requires 1 <= |body| <= 2 && Unended([buffer] + body) && Ruled([buffer] + body)
    requires Room(LastOf(body), 0) && DeviceLoop(body, buffer, depth).Some?
    requires Contains(body[0], RESOURCE_TEMPLATE) && depth + DeltaElse(body[0]) != 0
    ensures NotKept(buffer, tail, body, buffer, depth)
  {
    hide DeltaElse, DeviceLoop, HpetIrqs, Stops, Fits, Readable, Irq, Keeps;
    var u, n, s := LastOf(body), if |body| == 1 then 2 else 1, [buffer] + body[..|body| - 1];
    CutShort(body, buffer, depth);
    assert s + [u] == [buffer] + body;
    UnendedSuffix([u], s + [u]);
    IrqsReread(u, 0, n);
    ReadableTail([buffer] + body, |body|);
    assert ([buffer] + body)[..|body|] == s;
    var lines := [Copies(u, n) + Irq()] + HpetIrqs()[1..] + [Copies(u, 2)];
    var out := Repeat(u, n) + HpetIrqs() + Repeat(u, 2);
    RereadsBehind(s, lines, out);
    tail := body[..|body| - 1] + lines;
    assert s + lines == [buffer] + tail && s + out == [buffer] + (body[..|body| - 1] + out);
    CutShortNotKept(body, depth, n, HpetIrqs()[1..] + [Copies(u, 2)]);
    assert tail == body[..|body| - 1] + [Copies(u, n) + Irq()] + (HpetIrqs()[1..] + [Copies(u, 2)]);
  }

  lemma CutShortRoom(body: seq<string>, depth: int)
    requires 1 <= |body| < 3 && Contains(body[0], RESOURCE_TEMPLATE)
    ensures EndCount(body, depth) == 0
  {
    hide Contains, DeltaElse;
    SkipIrqsShrinks(Reader(body[1..], body[0]).Gets().Gets());
  }

  lemma EndCountOfLine(u: string, depth: int)
    requires !Contains(u, RESOURCE_TEMPLATE)
    ensures EndCount([u], depth) == depth + DeltaElse(u)
  {
    assert [u][1..] == [];
  }

  lemma LastNotKept(w: string, depth: int)
    requires depth + DeltaElse(w) != 0
    ensures !Keeps([w], depth)
  {
    assert [w][1..] == [];
  }

  lemma BehindLine(h: string, t: seq<string>, depth: int)
    requires depth + DeltaElse(h) != 0 && !Contains(h, RESOURCE_TEMPLATE) && !Keeps(t, depth + DeltaElse(h))
    ensures !Keeps([h] + t, depth)
  {
    assert ([h] + t)[1..] == t;
  }

  /** A line before what is not kept. */
  lemma LineOverruns(body: seq<string>, buffer: string, depth: int, h: string, t: seq<string>) returns (tail: seq<string>)
    requires body != [] && Unended([buffer] + body) && Ruled([buffer] + body)
    requires DeviceLoop(body, buffer, depth).Some?
    requires depth + DeltaElse(body[0]) != 0 && !Contains(body[0], RESOURCE_TEMPLATE)
    requires NotKept(h, t, body[1..], body[0], depth + DeltaElse(body[0]))
    requires Room(LastOf(body), EndCount(body, depth))
    ensures NotKept(buffer, tail, body, buffer, depth)
  {
    hide Contains, DeltaElse, DeviceLoop, Stops, Fits, Readable, Keeps;
    var d := depth + DeltaElse(body[0]);
    DeviceLoopStep(Reader(body, buffer), depth);
    var inner := DeviceLoop(body[1..], body[0], d).value;
    ReadableTail([buffer] + body, 1);
    assert ([buffer] + body)[..1] == [buffer];
    if |body| == 1 {
      var u := body[0];
      assert body == [u] && body[1..] == [] && Suffix([u], [buffer] + body);
      UnendedSuffix([u], [buffer] + body);
      EndCountOfLine(u, depth);
      var m := StaleCopies(u, d);
      CopiesReread(u, d, m);
      RereadsBehind([buffer], [Copies(u, m)], Repeat(u, m));
      tail := [Copies(u, m)];
      CountOfCopies(u, m);
      LastNotKept(Copies(u, m), depth);
    } else {
      RereadsBehind([buffer], [h] + t, [body[0]] + Text(inner));
      tail := [h] + t;
      BehindLine(h, t, depth);
    }
    assert [body[0]] + Text(inner) == Text(inner.Prepend([body[0]]));
  }

  lemma BehindTemplate(line: string, brace: string, h: string, t: seq<string>, depth: int)
    requires depth + DeltaElse(line) != 0 && Contains(line, RESOURCE_TEMPLATE) && !Keeps(t, 0)
    ensures !Keeps([line, brace] + HpetIrqs() + [h] + t, depth)
  {
    hide Contains, DeltaElse;
    assert ([line, brace] + HpetIrqs() + [h] + t)[7..] == t;
  }

  /** A template before what is not kept. */
  lemma OpeningOverruns(body: seq<string>, buffer: string, depth: int, h: string, t: seq<string>) returns (tail: seq<string>)
    requires |body| >= 3 && Unended([buffer] + body)
    requires DeviceLoop(body, buffer, depth).Some?
    requires depth + DeltaElse(body[0]) != 0 && Contains(body[0], RESOURCE_TEMPLATE)
    requires var next := Template(body[1..], body[0]).value.next; NotKept(h, t, next.rest, next.buffer, 0)
    ensures NotKept(buffer, tail, body, buffer, depth)
  {
    hide Contains, DeltaElse, DeviceLoop, Stops, Fits, Readable, Keeps, SkipIrqs, HpetIrqs;
    DeviceLoopStep(Reader(body, buffer), depth);
    var next := Template(body[1..], body[0]).value.next;
    var inner := DeviceLoop(next.rest, next.buffer, 0).value;
    var s := [buffer, body[0], body[1]] + HpetIrqs();
    ReadableTail([buffer] + body, 3);
    assert ([buffer] + body)[..3] == [buffer, body[0], body[1]];
    IrqsEnd();
    JoinStops([buffer, body[0], body[1]], HpetIrqs());
    RereadsBehind(s, [h] + t, [next.buffer] + Text(inner));
    tail := [body[0], body[1]] + HpetIrqs() + [h] + t;
    assert s + ([h] + t) == [buffer] + tail;
    var w := [body[0], body[1]] + HpetIrqs() + [next.buffer];
    assert Text(inner.Prepend(w)) == w + Text(inner);
    assert s + ([next.buffer] + Text(inner)) == [buffer] + (w + Text(inner));
    BehindTemplate(body[0], body[1], h, t, depth);
  }

  /** What is read of the output of a loop that runs out of lines is not kept by it. */
  lemma {:induction false} LoopOverruns(body: seq<string>, buffer: string, depth: int) returns (head: string, tail: seq<string>)
    requires Unended([buffer] + body) && Ruled([buffer] + body)
    requires Room(LastOf([buffer] + body), EndCount(body, depth))
    requires LoopEnd(body, depth).None? && DeviceLoop(body, buffer, depth).Some?
    requires body == [] && Contains(buffer, RESOURCE_TEMPLATE) ==> depth >= 0
    ensures NotKept(head, tail, body, buffer, depth)
    decreases |body|
  {
    hide Contains, DeltaElse, DeviceLoop, SkipIrqs, Unended, Ruled, Room, NotKept, Template;
    head, tail := buffer, [];
    if body == [] {
      assert [buffer] + body == [buffer];
      head, tail := OneLineOverruns(buffer, depth);
    } else {
      var d := depth + DeltaElse(body[0]);
      assert d != 0;
      DeviceLoopStep(Reader(body, buffer), depth);
      if !Contains(body[0], RESOURCE_TEMPLATE) {
        assert [body[0]] + body[1..] == body && Suffix(body, [buffer] + body);
        UnendedSuffix(body, [buffer] + body);
        var h, t := LoopOverruns(body[1..], body[0], d);
        tail := LineOverruns(body, buffer, depth, h, t);
      } else {
        TemplateAhead(body, buffer);
        var next := Template(body[1..], body[0]).value.next;
        UnendedSuffix(Ahead(next), [buffer] + body);
        SuffixReadable(Ahead(next), [buffer] + body);
        if |body| < 3 {
          CutShortRoom(body, depth);
          tail := TemplateOverruns(body, buffer, depth);
        } else {
          var h, t := LoopOverruns(next.rest, next.buffer, 0);
          tail := OpeningOverruns(body, buffer, depth, h, t);
        }
      }
    }
  }

  // ----- the pass over HPET devices -----

  /** The count with which the pass runs out of lines in a device. */
  function PassEndCount(rest: seq<string>, found: bool): int
    decreases |rest|
  {
    if rest == [] then 0
    else if IsHpet(rest[0], found) then
      var d := DepthAfterHpet(rest[0]);
      match LoopEnd(rest[1..], d)
      case Some(left) => PassEndCount(left, true)
      case None => EndCount(rest[1..], d)
    else PassEndCount(rest[1..], found)
  }

  lemma RestIsLeft(rest: seq<string>, found: bool)
    requires rest != [] && !IsHpet(rest[0], found) && !Ends(rest, found)
    ensures rest[1..] != [] && !Ends(rest[1..], found)
  {
    hide Contains, IsHpet;
  }

  lemma MarkedFirst(line: string, lines: seq<string>, found: bool)
    requires IsHpet(line, found) && lines != [] && lines[0] == line
    ensures HpetInsert.HasHpet(lines)
  {
    hide Contains;
    assert HpetInsert.Marked(lines[0]);
  }

  lemma StillMarked(before: seq<string>, more: seq<string>, found: bool)
    requires !found ==> HpetInsert.HasHpet(more)
    ensures !found ==> HpetInsert.HasHpet(before + more)
  {
    hide HpetInsert.Marked;
    if !found {
      var i :| 0 <= i < |more| && HpetInsert.Marked(more[i]);
      assert (before + more)[|before| + i] == more[i];
    }
  }

  /** A line that is no mark before what is not a fixed point. */
  lemma CopiedBefore(rest: seq<string>, more: seq<string>, out: seq<string>, found: bool)
    requires |rest| >= 2 && Unended(rest) && Ruled(rest) && !IsHpet(rest[0], found)
    requires Rereads(more, out) && Pass(more, found) != Some(more) && (|rest[1..]| >= 2 ==> |more| >= 2)
    ensures Rereads([rest[0]] + more, [rest[0]] + out)
    ensures Pass([rest[0]] + more, found) != Some([rest[0]] + more)
  {
    hide Contains, IsHpet, DeviceLoop, Stops, Fits, Readable;
    ReadableTail(rest, 1);
    assert rest[..1] == [rest[0]];
    RereadsBehind([rest[0]], more, out);
    assert ([rest[0]] + more)[1..] == more;
    if Pass(more, found).Some? {
      TailsAgree([rest[0]], Pass(more, found).value, more);
    }
  }

  lemma BufferEnds(b: Block)
    requires Ruled([b.buffer] + b.rest)
    ensures |b.rest| == 1 ==> EndsLine(b.buffer)
  {
  }

  /** What a device loop that ends leaves of an unended file. */
  lemma LeftUnended(rest: seq<string>, b: Block)
    requires rest != [] && Unended(rest) && Ruled(rest) && b.rest != []
    requires Suffix([b.buffer] + b.rest, rest)
    ensures Unended(b.rest) && Ruled(b.rest) && LastOf(b.rest) == LastOf(rest)
    ensures |b.rest| == 1 ==> EndsLine(b.buffer)
  {
    hide Stops, Fits, Readable, Unended, Ruled;
    var all := [b.buffer] + b.rest;
    UnendedSuffix(all, rest);
    SuffixReadable(all, rest);
    assert all[1..] == b.rest && Suffix(b.rest, all);
    UnendedSuffix(b.rest, all);
    SuffixReadable(b.rest, all);
    BufferEnds(b);
  }

  lemma DeviceNotKept(line: string, found: bool, b: Block, more: seq<string>)
    requires IsHpet(line, found) && Pass(more, true) != Some(more)
    requires DeviceLoop(b.written + ([b.buffer] + more), line, DepthAfterHpet(line)) == Some(Block(b.written, b.buffer, more, 0))
    ensures Pass([line] + b.written + [b.buffer] + more, found) != Some([line] + b.written + [b.buffer] + more)
  {
    hide Contains, IsHpet, DeviceLoop, DepthAfterHpet, Pass;
    var s := [line] + b.written + [b.buffer];
    var all := s + more;
    assert all == [line] + (b.written + ([b.buffer] + more)) && all[1..] == b.written + ([b.buffer] + more);
    if Pass(all, found) == Some(all) {
      PassStep(all, found);
      TailsAgree(s, Pass(more, true).value, more);
    }
  }

  /** A device whose loop ends before what is not a fixed point. */
  lemma DeviceBefore(rest: seq<string>, found: bool, b: Block, more: seq<string>, out: seq<string>)
    requires rest != [] && IsHpet(rest[0], found) && Unended(rest) && Ruled(rest)
    requires LoopEnd(rest[1..], DepthAfterHpet(rest[0])).Some?
    requires DeviceLoop(rest[1..], rest[0], DepthAfterHpet(rest[0])) == Some(b) && b.rest != []
    requires Suffix([b.buffer] + b.rest, rest)
    requires Rereads(more, out) && Pass(more, true) != Some(more) && (|b.rest| >= 2 ==> |more| >= 2)
    ensures var s := [rest[0]] + b.written + [b.buffer];
            && Rereads(s + more, s + out)
            && Pass(s + more, found) != Some(s + more)
  {
    hide Contains, IsHpet, DeviceLoop, Stops, Fits, Readable, DepthAfterHpet, LoopEnd, Pass, Ruled, Rereads;
    var s := [rest[0]] + b.written + [b.buffer];
    assert rest == [rest[0]] + rest[1..];
    LoopEndStops(rest[1..], rest[0], DepthAfterHpet(rest[0]));
    ReadableTail([b.buffer] + b.rest, 1);
    assert ([b.buffer] + b.rest)[..1] == [b.buffer];
    HeaderStops(rest);
    JoinStops([rest[0]], b.written);
    JoinStops([rest[0]] + b.written, [b.buffer]);
    LeftUnended(rest, b);
    assert LastOf(s) == b.buffer;
    RereadsBehind(s, more, out);
    LoopReplays(rest[1..], rest[0], DepthAfterHpet(rest[0]), more);
    DeviceNotKept(rest[0], found, b, more);
  }

  lemma MarkIsJoined(line: string, head: string, found: bool)
    requires line <= head && IsHpet(line, found)
    ensures IsHpet(head, found)
  {
    hide Contains;
    if Contains(line, HPET_DEVICE) {
      PrefixContains(line, head, HPET_DEVICE);
    } else {
      PrefixContains(line, head, HPET_DEVICE_2);
    }
  }

  lemma HeaderNotKept(head: string, tail: seq<string>, found: bool)
    requires IsHpet(head, found) && !Keeps(tail, DepthAfterHpet(head))
    ensures Pass([head] + tail, found) != Some([head] + tail)
  {
    hide Contains, IsHpet, DeviceLoop, DepthAfterHpet, Pass, Keeps;
    var all := [head] + tail;
    assert all[1..] == tail;
    if Pass(all, found) == Some(all) {
      PassStep(all, found);
      var b := DeviceLoop(tail, head, DepthAfterHpet(head)).value;
      var more := Pass(b.rest, true).value;
      assert tail == (b.written + [b.buffer]) + more;
      KeepsPrefix(tail, head, DepthAfterHpet(head));
    }
  }

  /** The device in which the pass runs out of lines. */
  lemma LastDeviceOverruns(rest: seq<string>, found: bool) returns (lines: seq<string>)
    requires rest != [] && Unended(rest) && Ruled(rest) && Room(LastOf(rest), PassEndCount(rest, found))
    requires IsHpet(rest[0], found) && LoopEnd(rest[1..], DepthAfterHpet(rest[0])).None? && Pass(rest, found).Some?
    ensures Rereads(lines, Pass(rest, found).value) && Pass(lines, found) != Some(lines)
    ensures lines != [] && (|rest| >= 2 ==> |lines| >= 2)
    ensures HpetInsert.HasHpet(lines)
  {
    hide Contains, IsHpet, DeviceLoop, LoopEnd, Pass, Unended, Ruled, Room, Rereads, EndCount, Keeps;
    PassStep(rest, found);
    assert rest == [rest[0]] + rest[1..];
    var d := DepthAfterHpet(rest[0]);
    LoopRunsOut(rest[1..], rest[0], d);
    NothingAhead(true);
    var b := DeviceLoop(rest[1..], rest[0], d).value;
    assert [rest[0]] + b.written + [b.buffer] + [] == [rest[0]] + Text(b);
    var head, tail := LoopOverruns(rest[1..], rest[0], d);
    lines := [head] + tail;
    if rest[1..] == [] {
      MarkIsJoined(rest[0], head, found);
    }
    assert DepthAfterHpet(head) >= 0;
    HeaderNotKept(head, tail, found);
    MarkedFirst(head, lines, found);
  }

  /** What is read of the output of such a pass is not a fixed point. */
  lemma {:induction false} PassOverruns(rest: seq<string>, found: bool) returns (lines: seq<string>)
    requires Unended(rest) && Ruled(rest) && Room(LastOf(rest), PassEndCount(rest, found))
    requires !Ends(rest, found) && Pass(rest, found).Some?
    ensures Rereads(lines, Pass(rest, found).value) && Pass(lines, found) != Some(lines)
    ensures lines != [] && (|rest| >= 2 ==> |lines| >= 2)
    ensures !found ==> HpetInsert.HasHpet(lines)
    decreases |rest|
  {
    hide Contains, IsHpet, DeviceLoop, DepthAfterHpet, LoopEnd, Pass, Unended, Ruled, Room, Rereads, EndCount,
         HpetInsert.Marked;
    PassStep(rest, found);
    assert rest == [rest[0]] + rest[1..];
    if !IsHpet(rest[0], found) {
      RestIsLeft(rest, found);
      assert rest[1..] != [];
      assert Suffix(rest[1..], rest);
      UnendedSuffix(rest[1..], rest);
      var more := PassOverruns(rest[1..], found);
      CopiedBefore(rest, more, Pass(rest[1..], found).value, found);
      lines := [rest[0]] + more;
      StillMarked([rest[0]], more, found);
    } else if LoopEnd(rest[1..], DepthAfterHpet(rest[0])).Some? {
      LoopEndExact(rest[1..], rest[0], DepthAfterHpet(rest[0]));
      var b := DeviceLoop(rest[1..], rest[0], DepthAfterHpet(rest[0])).value;
      LeftUnended(rest, b);
      var more := PassOverruns(b.rest, true);
      DeviceBefore(rest, found, b, more, Pass(b.rest, true).value);
      lines := [rest[0]] + b.written + [b.buffer] + more;
      MarkedFirst(rest[0], lines, found);
    } else {
      lines := LastDeviceOverruns(rest, found);
    }
  }

  lemma SameEnd(x: string, y: string, u: string)
    requires u != "" && x + u == y + u + u
    ensures x != "" && x[|x| - 1] == u[|u| - 1]
  {
    assert x == (x + u)[..|x|] == (y + u + u)[..|y + u|] == y + u;
  }

  lemma LastCharacter(lines: seq<string>)
    requires lines != [] && EndsLine(LastOf(lines))
    ensures EndsLine(Flatten(lines))
  {
    var n := |lines| - 1;
    assert lines == lines[..n] + [lines[n]];
    FlattenJoin(lines[..n], [lines[n]]);
    FlattenOne(lines[n]);
  }

  /** Two copies of an unended line do not follow a newline. */
  lemma EndsTwice(lines: seq<string>, out: seq<string>)
    requires Unended(lines) && Ruled(lines)
    requires |out| >= 2 && out[|out| - 2] == LastOf(out) == LastOf(lines)
    ensures Flatten(lines) != Flatten(out)
  {
    hide Readable, Stops;
    var u, n, m := LastOf(lines), |lines| - 1, |out| - 2;
    UnendedLine(lines);
    assert lines == lines[..n] + [u] && out == out[..m] + [u] + [u];
    FlattenJoin(lines[..n], [u]);
    FlattenJoin(out[..m] + [u], [u]);
    FlattenJoin(out[..m], [u]);
    FlattenOne(u);
    if n > 0 {
      LastCharacter(lines[..n]);
    }
    if Flatten(lines) == Flatten(out) {
      SameEnd(Flatten(lines[..n]), Flatten(out[..m]), u);
    }
  }

  /** A file that is read as such lines is rewritten as something else. */
  lemma NotFixed(lines: seq<string>, text: string)
    requires Unended(lines) && Ruled(lines) && Flatten(lines) == text && HpetInsert.HasHpet(lines)
    requires Pass(lines, false) != Some(lines)
    ensures FileRuns.PatchText(text) != Some(text)
  {
    hide Pass, Ends, Readable, Stops, HpetInsert.HasHpet;
    ReadsBack(lines);
    if FileRuns.PatchText(text) == Some(text) {
      var out := Pass(lines, false).value;
      if Ends(lines, false) {
        EndsReadable(lines, false);
        ReadsBack(out);
      } else {
        LastTwice(lines, false);
        EndsTwice(lines, out);
      }
    }
  }

  /** For a file that has a mark of an HPET device, and whose last line is not ended: a
      second run changes nothing if and only if every device loop ends at a line of the
      file.  (The joined lines have to fit the buffer, and no line to be cut by it.) */
  lemma MarkedIff(text: string)
    requires var lines := ReadLines(text);
             Unended(lines) && Ruled(lines) && Room(LastOf(lines), PassEndCount(lines, false))
    requires HpetInsert.HasHpet(ReadLines(text)) && FileRuns.PatchText(text).Some?
    ensures FileRuns.PatchText(FileRuns.PatchText(text).value) == FileRuns.PatchText(text)
       <==> Ends(ReadLines(text), false)
  {
    hide Ends, Unended, Ruled, Room, Pass, PassEndCount, HpetInsert.HasHpet, ReadLines;
    if Ends(ReadLines(text), false) {
      FileRuns.PatchTextIsIdempotent(text);
    } else {
      var lines := PassOverruns(ReadLines(text), false);
      NotFixed(lines, FileRuns.PatchText(text).value);
    }
  }
}
