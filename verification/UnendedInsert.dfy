/** Files whose last line has no newline, when no HPET device is marked and one may be
    inserted: a second run changes nothing all the same. */
module UnendedInsert {
  import opened Wrappers
  import opened AslText
  import opened HpetText
  import opened LineFiles
  import opened HpetEnds
  import opened UnendedFiles
  import HpetPass
  import HpetInsert
  import RtcPass
  import FileRuns

  /** The count with which the insertion runs out of lines in an RTC device. */
  function InsertEndCount(rest: seq<string>, found: bool, written: bool): int
    decreases |rest|
  {
    if rest == [] then 0
    else if RtcPass.IsRtc(rest[0], found) then
      var d := RtcPass.DepthAfterRtc(rest[0], 0);
      match CloseAt(rest[1..], d)
      case None => d + Balance(rest[1..])
      case Some(k) =>
        InsertEndCount(if written then rest[k + 2..] else if k + 2 < |rest| then rest[k + 3..] else [], true, true)
    else InsertEndCount(rest[1..], found, written)
  }

  /** Lines that stop, and then copies of one line, as many as a count can have written. */
  ghost predicate Tailed(lines: seq<string>, s: seq<string>, u: string, n: nat, count: int) {
    lines == s + Repeat(u, n) && AllStop(s) && n <= Abs(count) + 3
  }

  lemma TailedBehind(line: string, lines: seq<string>, s: seq<string>, u: string, n: nat, count: int)
    requires Tailed(lines, s, u, n, count) && Stops(line)
    ensures Tailed([line] + lines, [line] + s, u, n, count)
  {
    hide Stops;
  }

  /** A block that does not close, or whose closing line is the last line. */
  lemma BlockTail(rest: seq<string>, depth: int) returns (s: seq<string>, n: nat)
    requires rest != [] && Readable(rest) && BlockLoop(rest[1..], rest[0], depth).Some?
    requires CloseAt(rest[1..], depth).None?
    ensures var b := BlockLoop(rest[1..], rest[0], depth).value;
            && b.rest == [] && b.buffer == LastOf(rest)
            && [rest[0]] + b.written == s + Repeat(LastOf(rest), n)
            && AllStop(s) && 1 <= n <= Abs(depth + Balance(rest[1..])) + 2
  {
    hide Stops, Fits, Delta, Contains, BlockLoop, CloseAt, Balance;
    var u, body := LastOf(rest), rest[1..];
    BlockLoopOverruns(body, rest[0], depth);
    assert rest == [rest[0]] + body && ([rest[0]] + body)[|body|] == u;
    var rounds := Drain(depth + Balance(body), Delta(u)).value;
    s, n := rest[..|rest| - 1], rounds + 1;
    RepeatMore(u, rounds);
    assert rest == s + [u];
    assert [rest[0]] + (body + Repeat(u, rounds)) == s + ([u] + Repeat(u, rounds));
  }

  lemma RepeatLast(u: string, n: nat)
    ensures Repeat(u, n) + [u] == Repeat(u, n + 1)
  {
  }

  lemma TailAfterLine(rest: seq<string>, found: bool, u: string, s1: seq<string>, n1: nat) returns (s: seq<string>, n: nat)
    requires rest != [] && Readable(rest) && LastOf(rest) == u && !RtcPass.IsRtc(rest[0], found)
    requires HpetInsert.Insert(rest, found, true).Some?
    requires Tailed(HpetInsert.Insert(rest[1..], found, true).value, s1, u, n1, InsertEndCount(rest[1..], found, true))
    ensures Tailed(HpetInsert.Insert(rest, found, true).value, s, u, n, InsertEndCount(rest, found, true))
  {
    hide Contains, RtcPass.IsRtc, Stops, Fits;
    if |rest| == 1 {
      s, n := [], 1;
      assert rest[1..] == [] && Repeat(u, 1) == [u];
    } else {
      ReadableTail(rest, 1);
      assert rest[..1] == [rest[0]] && rest[0] in rest[..1];
      TailedBehind(rest[0], HpetInsert.Insert(rest[1..], found, true).value, s1, u, n1, InsertEndCount(rest[1..], found, true));
      s, n := [rest[0]] + s1, n1;
    }
  }

  /** A device that closes: its closing line is written again. */
  lemma TailAfterBlock(rest: seq<string>, k: nat, u: string, out: seq<string>, s1: seq<string>, n1: nat, count: int)
    returns (s: seq<string>, n: nat)
    requires Readable(rest) && k + 1 < |rest| && LastOf(rest) == u
    requires Tailed(out, s1, u, n1, count) && (k + 2 == |rest| ==> out == [])
    ensures Tailed(rest[..k + 2] + [rest[k + 1]] + out, s, u, n, count)
  {
    hide Stops, Fits;
    if k + 2 == |rest| {
      s, n := rest[..k + 1], 2;
      ReadableTail(rest, k + 1);
      assert Repeat(u, 2) == [u, u];
    } else {
      ReadableTail(rest, k + 2);
      s, n := rest[..k + 2] + [rest[k + 1]] + s1, n1;
      assert rest[k + 1] in rest[..k + 2];
    }
  }

  /** The insertion over a device that closes. */
  lemma InsertAtClose(rest: seq<string>, found: bool, written: bool, k: nat)
    requires rest != [] && RtcPass.IsRtc(rest[0], found) && HpetInsert.Insert(rest, found, written).Some?
    requires CloseAt(rest[1..], RtcPass.DepthAfterRtc(rest[0], 0)) == Some(k)
    ensures var next := if written then Reader(rest[k + 2..], rest[k + 1]) else Reader(rest[k + 2..], rest[k + 1]).Gets();
            var more := HpetInsert.Insert(next.rest, true, true);
            && more.Some?
            && HpetInsert.Insert(rest, found, written).value
               == rest[..k + 2] + (if written then [] else FixedHpet()) + [next.buffer] + more.value
  {
    hide Contains, RtcPass.IsRtc, RtcPass.DepthAfterRtc, BlockLoop, CloseAt, FixedHpet, HpetInsert.Insert;
    HpetInsert.InsertStep(rest, found, written);
    BlockLoopCloses(rest[1..], rest[0], RtcPass.DepthAfterRtc(rest[0], 0), k);
    assert rest[1..][k + 1..] == rest[k + 2..] && [rest[0]] + rest[1..][..k + 1] == rest[..k + 2];
  }

  /** What the insertion writes once the device is written. */
  lemma {:induction false} InsertTail(rest: seq<string>, found: bool, u: string) returns (s: seq<string>, n: nat)
    requires Readable(rest) && (rest != [] ==> LastOf(rest) == u)
    requires HpetInsert.Insert(rest, found, true).Some?
    ensures Tailed(HpetInsert.Insert(rest, found, true).value, s, u, n, InsertEndCount(rest, found, true))
    decreases |rest|
  {
    hide Contains, Delta, RtcPass.IsRtc, RtcPass.DepthAfterRtc, BlockLoop, CloseAt, Balance, Stops, Readable, AllStop;
    HpetInsert.InsertStep(rest, found, true);
    s, n := [], 0;
    if rest == [] {
      NoLineStops();
      assert [] + Repeat(u, 0) == [];
    } else if !RtcPass.IsRtc(rest[0], found) {
      ReadableTail(rest, 1);
      s, n := InsertTail(rest[1..], found, u);
      s, n := TailAfterLine(rest, found, u, s, n);
    } else {
      var d := RtcPass.DepthAfterRtc(rest[0], 0);
      match CloseAt(rest[1..], d) {
        case None =>
          s, n := BlockTail(rest, d);
          var b := BlockLoop(rest[1..], rest[0], d).value;
          RepeatLast(u, n);
          assert [rest[0]] + b.written + [] + [u] + [] == s + (Repeat(u, n) + [u]);
          n := n + 1;
        case Some(k) =>
          InsertAtClose(rest, found, true, k);
          ReadableTail(rest, k + 2);
          var out := HpetInsert.Insert(rest[k + 2..], true, true).value;
          s, n := InsertTail(rest[k + 2..], true, u);
          s, n := TailAfterBlock(rest, k, u, out, s, n, InsertEndCount(rest, found, true));
          assert rest[..k + 2] + [] + [rest[k + 1]] + out == rest[..k + 2] + [rest[k + 1]] + out;
      }
    }
  }

  // ----- the whole insertion -----

  /** What the insertion writes: the file; or stopping lines of it and copies of its last
      line, the device, and stopping lines and copies again. */
  datatype Shape = Unchanged | Around(s1: seq<string>, n1: nat, s2: seq<string>, n2: nat)

  ghost predicate Shaped(out: seq<string>, shape: Shape, rest: seq<string>, u: string, count: int) {
    match shape
    case Unchanged => out == rest
    case Around(s1, n1, s2, n2) =>
      && out == s1 + Repeat(u, n1) + FixedHpet() + (s2 + Repeat(u, n2))
      && AllStop(s1) && AllStop(s2) && n1 <= Abs(count) + 3 && n2 <= Abs(count) + 3
      && (forall line :: line in s1 ==> line in rest) && (forall line :: line in s2 ==> line in rest)
  }

  lemma OneLineStays(rest: seq<string>, found: bool)
    requires |rest| == 1 && !RtcPass.IsRtc(rest[0], found)
    ensures HpetInsert.Insert(rest, found, false) == Some(rest)
    ensures Shaped(rest, Unchanged, rest, LastOf(rest), InsertEndCount(rest, found, false))
  {
    hide RtcPass.IsRtc;
    assert rest[1..] == [] && [rest[0]] + [] == rest;
  }

  lemma Rejoin(line: seq<string>, a: seq<string>, b: seq<string>, c: seq<string>, d: seq<string>)
    ensures line + (a + b + c + d) == line + a + b + c + d
  {
  }

  lemma ShapeAfterLine(rest: seq<string>, found: bool, inner: Shape) returns (shape: Shape)
    requires |rest| >= 2 && Readable(rest) && !RtcPass.IsRtc(rest[0], found)
    requires HpetInsert.Insert(rest, found, false).Some?
    requires Shaped(HpetInsert.Insert(rest[1..], found, false).value, inner, rest[1..], LastOf(rest),
                    InsertEndCount(rest[1..], found, false))
    ensures Shaped(HpetInsert.Insert(rest, found, false).value, shape, rest, LastOf(rest),
                   InsertEndCount(rest, found, false))
  {
    hide Contains, RtcPass.IsRtc, Stops, Fits, FixedHpet, Readable;
    HeaderStops(rest);
    assert rest == [rest[0]] + rest[1..];
    shape := inner;
    match inner
    case Unchanged =>
    case Around(s1, n1, s2, n2) =>
      shape := Around([rest[0]] + s1, n1, s2, n2);
      var u := LastOf(rest);
      JoinStops([rest[0]], s1);
      Rejoin([rest[0]], s1, Repeat(u, n1), FixedHpet(), s2 + Repeat(u, n2));
  }

  /** The first RTC device does not close. */
  lemma ShapeAtEnd(rest: seq<string>, found: bool) returns (shape: Shape)
    requires rest != [] && Readable(rest) && RtcPass.IsRtc(rest[0], found)
    requires HpetInsert.Insert(rest, found, false).Some?
    requires CloseAt(rest[1..], RtcPass.DepthAfterRtc(rest[0], 0)).None?
    ensures Shaped(HpetInsert.Insert(rest, found, false).value, shape, rest, LastOf(rest),
                   InsertEndCount(rest, found, false))
  {
    hide Contains, Delta, RtcPass.IsRtc, RtcPass.DepthAfterRtc, BlockLoop, CloseAt, Balance, Stops, Fits, Readable, FixedHpet;
    var d, u := RtcPass.DepthAfterRtc(rest[0], 0), LastOf(rest);
    HpetInsert.InsertStep(rest, found, false);
    var b := BlockLoop(rest[1..], rest[0], d).value;
    var s, n := BlockTail(rest, d);
    assert Repeat(u, 1) == [u] && [] + [u] == [u];
    shape := Around(s, n, [], 1);
    BlockLoopLines(rest[1..], rest[0], d);
    assert rest == [rest[0]] + rest[1..];
    forall line | line in s
      ensures line in rest
    {
      assert line in s + Repeat(u, n);
    }
    assert HpetInsert.Insert(rest, found, false).value == s + Repeat(u, n) + FixedHpet() + [u] + [];
  }

  lemma ShapeAtLastLine(rest: seq<string>, count: int) returns (shape: Shape)
    requires rest != [] && Readable(rest)
    ensures Shaped(rest + FixedHpet() + [LastOf(rest)] + [], shape, rest, LastOf(rest), count)
  {
    hide Stops, Fits, FixedHpet;
    var u, n := LastOf(rest), |rest| - 1;
    ReadableTail(rest, n);
    assert Repeat(u, 1) == [u];
    shape := Around(rest[..n], 1, [], 1);
    assert rest == rest[..n] + [u] && [] + [u] == [u];
    assert rest + FixedHpet() + [u] + [] == rest[..n] + Repeat(u, 1) + FixedHpet() + ([] + Repeat(u, 1));
  }

  lemma ShapeBehind(rest: seq<string>, k: nat, out: seq<string>, s: seq<string>, n: nat, count: int) returns (shape: Shape)
    requires Readable(rest) && k + 2 < |rest| && Tailed(out, s, LastOf(rest), n, count)
    requires HpetInsert.Insert(rest[k + 3..], true, true) == Some(out)
    ensures Shaped(rest[..k + 2] + FixedHpet() + [rest[k + 2]] + out, shape, rest, LastOf(rest), count)
  {
    hide Stops, Fits, FixedHpet, HpetInsert.Insert, Contains;
    var u, here := LastOf(rest), rest[k + 2];
    ReadableTail(rest, k + 2);
    HpetInsert.InsertedOnce(rest[k + 3..], true);
    forall line | line in s
      ensures line in rest
    {
      assert line in out && line in rest[k + 3..];
    }
    assert Repeat(u, 0) == [] && Repeat(u, 1) == [u];
    assert rest[..k + 2] == rest[..k + 2] + Repeat(u, 0);
    if k + 3 == |rest| {
      HpetInsert.LaterDevices([]);
      shape := Around(rest[..k + 2], 0, [], 1);
      assert [] + [u] == [u];
      assert rest[..k + 2] + FixedHpet() + [u] + [] == rest[..k + 2] + Repeat(u, 0) + FixedHpet() + ([] + Repeat(u, 1));
    } else {
      ReadableTail(rest, k + 3);
      assert here in rest[..k + 3];
      shape := Around(rest[..k + 2], 0, [here] + s, n);
      assert rest[..k + 2] + FixedHpet() + [here] + (s + Repeat(u, n))
          == rest[..k + 2] + Repeat(u, 0) + FixedHpet() + (([here] + s) + Repeat(u, n));
    }
  }

  /** The first RTC device closes. */
  lemma ShapeAtDevice(rest: seq<string>, found: bool, k: nat) returns (shape: Shape)
    requires rest != [] && Readable(rest) && RtcPass.IsRtc(rest[0], found)
    requires HpetInsert.Insert(rest, found, false).Some?
    requires CloseAt(rest[1..], RtcPass.DepthAfterRtc(rest[0], 0)) == Some(k)
    ensures Shaped(HpetInsert.Insert(rest, found, false).value, shape, rest, LastOf(rest),
                   InsertEndCount(rest, found, false))
  {
    hide Contains, Delta, RtcPass.IsRtc, RtcPass.DepthAfterRtc, BlockLoop, CloseAt, Balance, Stops, Fits, Readable, FixedHpet,
         HpetInsert.Insert;
    var u := LastOf(rest);
    InsertAtClose(rest, found, false, k);
    assert rest[..|rest|] == rest;
    if k + 2 == |rest| {
      HpetInsert.LaterDevices([]);
      shape := ShapeAtLastLine(rest, InsertEndCount(rest, found, false));
    } else {
      ReadableTail(rest, k + 2);
      ReadableTail(rest, k + 3);
      assert rest[k + 2..][1..] == rest[k + 3..];
      var out := HpetInsert.Insert(rest[k + 3..], true, true).value;
      var s, n := InsertTail(rest[k + 3..], true, u);
      shape := ShapeBehind(rest, k, out, s, n, InsertEndCount(rest, found, false));
    }
  }

  lemma {:induction false} InsertShaped(rest: seq<string>, found: bool) returns (shape: Shape)
    requires rest != [] && Readable(rest) && HpetInsert.Insert(rest, found, false).Some?
    ensures Shaped(HpetInsert.Insert(rest, found, false).value, shape, rest, LastOf(rest),
                   InsertEndCount(rest, found, false))
    decreases |rest|
  {
    hide Contains, Delta, RtcPass.IsRtc, RtcPass.DepthAfterRtc, BlockLoop, CloseAt, Balance, Stops, Readable, AllStop,
         FixedHpet, Shaped;
    if !RtcPass.IsRtc(rest[0], found) {
      if |rest| == 1 {
        shape := Unchanged;
        OneLineStays(rest, found);
      } else {
        ReadableTail(rest, 1);
        shape := InsertShaped(rest[1..], found);
        shape := ShapeAfterLine(rest, found, shape);
      }
    } else if CloseAt(rest[1..], RtcPass.DepthAfterRtc(rest[0], 0)).None? {
      shape := ShapeAtEnd(rest, found);
    } else {
      shape := ShapeAtDevice(rest, found, CloseAt(rest[1..], RtcPass.DepthAfterRtc(rest[0], 0)).value);
    }
  }

  function LastCopies(u: string, n: nat): seq<string> {
    if n == 0 then [] else [Copies(u, n)]
  }

  /** What is read of such an output. */
  function Reread(shape: Shape, u: string): seq<string>
    requires shape.Around?
  {
    shape.s1 + ([Copies(u, shape.n1) + FixedHpet()[0]] + FixedHpet()[1..] + (shape.s2 + LastCopies(u, shape.n2)))
  }

  lemma LastCopiesRead(u: string, count: int, n: nat)
    requires Unended([u]) && Room(u, count) && n <= Abs(count) + 3
    ensures Readable(LastCopies(u, n)) && Flatten(LastCopies(u, n)) == Flatten(Repeat(u, n))
  {
    if n > 0 {
      CopiesReread(u, count, n);
    } else {
      assert Repeat(u, 0) == [];
    }
  }

  lemma HeaderText(s: string)
    requires '\n' !in s && |s| + 38 < BUFFER_SIZE - 1
    ensures Stops(s + FixedHpet()[0]) && Contains(s + FixedHpet()[0], HPET_DEVICE)
  {
    var header := s + FixedHpet()[0];
    assert FixedHpet()[0] == "\t\tDevice (HPET)\n";
    assert header[..|header| - 1] == s + "\t\tDevice (HPET)";
    assert header[|s| + 2..] == "Device (HPET)\n";
    assert MatchAt(header, HPET_DEVICE, |s| + 2);
  }

  lemma HeaderJoined(u: string, count: int, n: nat)
    requires Unended([u]) && Room(u, count) && n <= Abs(count) + 3
    ensures var header := Copies(u, n) + FixedHpet()[0];
            AllStop([header]) && Contains(header, HPET_DEVICE)
  {
    hide Contains, Stops, FixedHpet, Unended, Room, Copies;
    UnendedLine([u]);
    RoomFor(u, count, n);
    CopiesShape(u, n);
    HeaderText(Copies(u, n));
  }

  lemma FixedTailStops()
    ensures AllStop(FixedHpet()[1..])
  {
    hide FixedHpet, Stops;
    FixedStops();
    TailStops(FixedHpet(), 1);
  }

  lemma RegroupText(a: string, b: string, c: string, d: string)
    ensures a + ((b + c) + d) == a + b + c + d
  {
  }

  lemma SameText(shape: Shape, u: string)
    requires shape.Around? && Flatten(LastCopies(u, shape.n2)) == Flatten(Repeat(u, shape.n2))
    ensures var out := shape.s1 + Repeat(u, shape.n1) + FixedHpet() + (shape.s2 + Repeat(u, shape.n2));
            Flatten(Reread(shape, u)) == Flatten(out)
  {
    hide FixedHpet, Flatten, Copies, Repeat, LastCopies;
    var s1, n1, s2, n2 := shape.s1, shape.n1, shape.s2, shape.n2;
    var header, last := [Copies(u, n1) + FixedHpet()[0]] + FixedHpet()[1..], LastCopies(u, n2);
    FlattenJoin(s1, header + (s2 + last));
    FlattenJoin(header, s2 + last);
    FlattenJoined(Copies(u, n1), FixedHpet());
    FlattenJoin(s2, last);
    FlattenJoin(s2, Repeat(u, n2));
    FlattenJoin(s1 + Repeat(u, n1) + FixedHpet(), s2 + Repeat(u, n2));
    FlattenJoin(s1 + Repeat(u, n1), FixedHpet());
    FlattenJoin(s1, Repeat(u, n1));
    CopiesFlatten(u, n1);
    RegroupText(Flatten(s1), Copies(u, n1), Flatten(FixedHpet()), Flatten(s2 + last));
  }

  lemma ShapeReread(shape: Shape, u: string, count: int, rest: seq<string>, out: seq<string>)
    requires Unended([u]) && Room(u, count) && shape.Around? && Shaped(out, shape, rest, u, count)
    ensures ReadLines(Flatten(out)) == Reread(shape, u)
  {
    hide Stops, Fits, Unended, Room, FixedHpet, Readable, AllStop, Contains;
    var s1, n1, s2, n2 := shape.s1, shape.n1, shape.s2, shape.n2;
    var header, last := Copies(u, n1) + FixedHpet()[0], LastCopies(u, n2);
    HeaderJoined(u, count, n1);
    LastCopiesRead(u, count, n2);
    FixedTailStops();
    JoinReadable(s2, last);
    JoinStops([header], FixedHpet()[1..]);
    JoinReadable([header] + FixedHpet()[1..], s2 + last);
    JoinReadable(s1, [header] + FixedHpet()[1..] + (s2 + last));
    ReadsBack(Reread(shape, u));
    SameText(shape, u);
  }

  lemma LastUnended(lines: seq<string>)
    requires Unended(lines)
    ensures Unended([LastOf(lines)])
  {
    hide Stops, Fits, Readable;
    var n := |lines| - 1;
    assert lines[n..] == [LastOf(lines)];
    ReadableTail(lines, n);
  }

  lemma FixedText(out: seq<string>, lines: seq<string>)
    requires ReadLines(Flatten(out)) == lines && HpetInsert.Patch(lines) == Some(lines)
    ensures FileRuns.PatchText(Flatten(out)) == Some(Flatten(out))
  {
    ReadLinesSplits(Flatten(out));
  }

  lemma RereadStays(shape: Shape, u: string, count: int, rest: seq<string>, out: seq<string>)
    requires Unended([u]) && Room(u, count) && shape.Around? && Shaped(out, shape, rest, u, count)
    requires !HpetInsert.HasHpet(rest)
    requires forall m: nat :: m <= Abs(count) + 3 ==> !Contains(Copies(u, m), HPET_DEVICE)
    ensures HpetInsert.Patch(Reread(shape, u)) == Some(Reread(shape, u))
  {
    hide Stops, Fits, Unended, Room, Contains, FixedHpet, Readable, HpetPass.Pass, AllStop;
    var header, after := Copies(u, shape.n1) + FixedHpet()[0], shape.s2 + LastCopies(u, shape.n2);
    HeaderJoined(u, count, shape.n1);
    HpetInsert.WithinUnmarked(shape.s1, rest);
    HpetInsert.WithinUnmarked(shape.s2, rest);
    forall m | 0 <= m < |after|
      ensures !Contains(after[m], HPET_DEVICE)
    {
      if m < |shape.s2| {
        assert !HpetInsert.Marked(shape.s2[m]);
      }
    }
    HpetInsert.DeviceStays(shape.s1, header, after);
    assert Reread(shape, u)[|shape.s1|] == header && HpetInsert.Marked(header);
  }

  /** A file without a mark of an HPET device is a fixed point after one run, wherever its
      last line goes: copies of it join the first line of the inserted device, which marks
      it all the same, or each other.  (The joined lines have to fit the buffer, and must
      not make a mark of their own.) */
  lemma UnmarkedIsIdempotent(text: string)
    requires var lines := ReadLines(text);
             && Unended(lines) && Room(LastOf(lines), InsertEndCount(lines, false, false))
             && forall m: nat :: m <= Abs(InsertEndCount(lines, false, false)) + 3 ==>
                  !Contains(Copies(LastOf(lines), m), HPET_DEVICE)
    requires !HpetInsert.HasHpet(ReadLines(text)) && FileRuns.PatchText(text).Some?
    ensures FileRuns.PatchText(FileRuns.PatchText(text).value) == FileRuns.PatchText(text)
  {
    hide Stops, Fits, Room, Contains, FixedHpet, HpetInsert.Insert, HpetInsert.HasHpet, Readable, HpetPass.Pass, AllStop;
    var lines, count := ReadLines(text), InsertEndCount(ReadLines(text), false, false);
    var u := LastOf(lines);
    HpetInsert.NoHpetMeansInsert(lines);
    var out := HpetInsert.Insert(lines, false, false).value;
    var shape := InsertShaped(lines, false);
    if shape.Unchanged? {
      ReadLinesSplits(text);
    } else {
      LastUnended(lines);
      ShapeReread(shape, u, count, lines, out);
      RereadStays(shape, u, count, lines, out);
      assert out == HpetInsert.Patch(lines).value;
      FixedText(out, Reread(shape, u));
    }
  }
}
