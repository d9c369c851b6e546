/** C strings, lines and the per-line brace count of the DSDT patcher.

    A C string is a `string` without NUL.  A file is the sequence of strings that
    `fgets` returns for it (see module LineFiles for the bytes behind that). */
module AslText {
  import opened Wrappers

  /** The line that starts a description of interrupts. */
  const IRQ := "IRQNoFlags ()"

  /** `strncmp(&s[i], needle, strlen(needle)) == 0`. */
  predicate MatchAt(s: string, needle: string, i: int) {
    0 <= i <= |s| && needle <= s[i..]
  }

  predicate Contains(s: string, needle: string) {
    exists i :: 0 <= i <= |s| && MatchAt(s, needle, i)
  }

  method CmpStr(haystack: string, needle: string) returns (found: bool)
    ensures found <==> Contains(haystack, needle)
  {
    var i := 0;
    while i <= |haystack|
      invariant 0 <= i <= |haystack| + 1
      invariant forall j :: 0 <= j < i ==> !MatchAt(haystack, needle, j)
    {
      if needle <= haystack[i..] {
        assert MatchAt(haystack, needle, i);
        return true;
      }
      i := i + 1;
    }
    return false;
  }

  lemma MissingCharacter(s: string, needle: string, c: char)
    requires c in needle && c !in s
    ensures !Contains(s, needle)
  {
    var j :| 0 <= j < |needle| && needle[j] == c;
    forall i | 0 <= i < |s| - j
      ensures !MatchAt(s, needle, i)
    {
      assert s[i..][j] == s[i + j];
    }
  }

  // ----- pattern with wildcards -----

  predicate WildAt(s: string, term: string, i: int) {
    && 0 <= i <= |s| - |term|
    && forall j :: 0 <= j < |term| ==> s[i + j] == term[j] || term[j] == '?'
  }

  /** The search bound of the source is strict, so a match flush with the end of the
      string is not looked for. */
  method CmpStrWild(s: string, term: string) returns (found: bool)
    ensures found <==> exists i :: 0 <= i < |s| - |term| && WildAt(s, term, i)
  {
    var i := 0;
    while i + |term| < |s|
      invariant 0 <= i
      invariant forall k :: 0 <= k < i ==> !WildAt(s, term, k)
    {
      var j := 0;
      while j < |term|
        invariant 0 <= j <= |term|
        invariant forall k :: 0 <= k < j ==> s[i + k] == term[k] || term[k] == '?'
      {
        if s[i + j] != term[j] && term[j] != '?' {
          break;
        }
        j := j + 1;
      }
      if j == |term| {
        assert WildAt(s, term, i);
        return true;
      }
      i := i + 1;
    }
    return false;
  }

  /** On a line whose only newline is its last character nothing is missed, for a
      pattern that is newline-free and does not end in a wildcard. */
  lemma StrictBoundIsHarmless(body: string, term: string)
    requires term != [] && '\n' !in term && term[|term| - 1] != '?'
    ensures var s := body + "\n";
            (exists i :: 0 <= i < |s| - |term| && WildAt(s, term, i)) <==> (exists i :: WildAt(s, term, i))
  {
    var s := body + "\n";
    var last := |term| - 1;
    assert term[last] in term;
    assert |s| >= |term| ==> s[|s| - |term| + last] == '\n';
  }

  // ----- brace counting -----

  /** The count of `patchRTC`, of the config patches and of the insertion path: two
      independent tests, so a line with both braces counts zero. */
  function Delta(line: string): (d: int)
    ensures -1 <= d <= 1
  {
    (if Contains(line, "{") then 1 else 0) - (if Contains(line, "}") then 1 else 0)
  }

  /** The count of the HPET loop: `else if`, so a line with both braces counts one up. */
  function DeltaElse(line: string): (d: int)
    ensures -1 <= d <= 1
  {
    if Contains(line, "{") then 1 else if Contains(line, "}") then -1 else 0
  }

  lemma ContainsCharacter(s: string, c: char)
    ensures Contains(s, [c]) <==> c in s
  {
    if c in s {
      var i :| 0 <= i < |s| && s[i] == c;
      assert MatchAt(s, [c], i);
    } else {
      MissingCharacter(s, [c], c);
    }
  }

  /** What the counts see of a line: which braces it has, not how many. */
  lemma CountOfCharacters(s: string)
    ensures Delta(s) == (if '{' in s then 1 else 0) - (if '}' in s then 1 else 0)
    ensures DeltaElse(s) == if '{' in s then 1 else if '}' in s then -1 else 0
  {
    hide Contains;
    ContainsCharacter(s, '{');
    ContainsCharacter(s, '}');
  }

  /** Net brace count of a run of lines. */
  function Balance(lines: seq<string>): int {
    if lines == [] then 0 else Delta(lines[0]) + Balance(lines[1..])
  }

  lemma {:induction false} BalanceConcat(a: seq<string>, b: seq<string>)
    ensures Balance(a + b) == Balance(a) + Balance(b)
  {
    if a == [] {
      assert a + b == b;
    } else {
      assert (a + b)[1..] == a[1..] + b;
      BalanceConcat(a[1..], b);
    }
  }

  /** The first line at which a count that starts at `depth` is zero. */
  function CloseAt(lines: seq<string>, depth: int): (r: Option<nat>)
    ensures r.Some? ==> r.value < |lines|
  {
    if lines == [] then None
    else if depth + Delta(lines[0]) == 0 then Some(0)
    else
      var k :- CloseAt(lines[1..], depth + Delta(lines[0]));
      Some(k + 1)
  }

  /** The count that starts at `depth`, after `n` lines. */
  function DepthAfter(lines: seq<string>, n: int, depth: int): int
    requires 0 <= n <= |lines|
  {
    depth + Balance(lines[..n])
  }

  lemma {:induction false} CloseAtIsFirst(lines: seq<string>, depth: int)
    ensures match CloseAt(lines, depth)
            case Some(k) =>
              && k < |lines| && DepthAfter(lines, k + 1, depth) == 0
              && forall n :: 1 <= n <= k ==> DepthAfter(lines, n, depth) != 0
            case None =>
              forall n :: 1 <= n <= |lines| ==> DepthAfter(lines, n, depth) != 0
  {
    if lines != [] {
      var d := depth + Delta(lines[0]);
      CloseAtIsFirst(lines[1..], d);
      forall n | 1 <= n <= |lines|
        ensures DepthAfter(lines, n, depth) == DepthAfter(lines[1..], n - 1, d)
      {
        assert lines[..n][1..] == lines[1..][..n - 1];
      }
    }
  }

  /** The first line that contains `needle`. */
  function FirstWith(lines: seq<string>, needle: string): (r: Option<nat>)
    ensures match r
            case Some(j) =>
              && j < |lines| && Contains(lines[j], needle)
              && forall i :: 0 <= i < j ==> !Contains(lines[i], needle)
            case None => forall i :: 0 <= i < |lines| ==> !Contains(lines[i], needle)
  {
    if lines == [] then None
    else if Contains(lines[0], needle) then Some(0)
    else
      var j :- FirstWith(lines[1..], needle);
      Some(j + 1)
  }

  // ----- reading -----

  /** The unread lines of a file and the line buffer.  A failed `fgets` leaves the
      buffer as it was. */
  datatype Reader = Reader(rest: seq<string>, buffer: string) {
    function Gets(): Reader {
      if rest == [] then this else Reader(rest[1..], rest[0])
    }
  }

  /** What a block loop did: the lines it wrote, the buffer and the unread lines it
      left, and the brace count it left. */
  datatype Block = Block(written: seq<string>, buffer: string, rest: seq<string>, depth: int) {
    function Prepend(lines: seq<string>): Block {
      Block(lines + written, buffer, rest, depth)
    }
  }

  function Repeat(line: string, n: nat): seq<string> {
    seq(n, _ => line)
  }

  /** A block loop that has reached end of file counts the stale buffer again and
      again.  `Drain` is the number of rounds until the count is zero, if ever. */
  function Drain(depth: int, delta: int): Option<nat>
    requires -1 <= delta <= 1
  {
    if depth + delta == 0 then Some(1)
    else if delta == -1 && depth > 0 then Some(depth)
    else if delta == 1 && depth < 0 then Some(-depth)
    else None
  }

  function Abs(x: int): nat {
    if x < 0 then -x else x
  }

  /** A round that does not bring the count to zero brings it nearer, or none ever will. */
  lemma DrainStep(depth: int, delta: int)
    requires -1 <= delta <= 1 && depth + delta != 0
    ensures var more := Drain(depth + delta, delta);
            Drain(depth, delta) == if more.None? then None else Some(more.value + 1)
    ensures Drain(depth, delta).Some? ==> Abs(depth + delta) < Abs(depth)
  {
  }

  lemma RepeatMore(line: string, n: nat)
    ensures [line] + Repeat(line, n) == Repeat(line, n + 1)
  {
  }

  lemma DrainIsExact(depth: int, delta: int)
    requires -1 <= delta <= 1
    ensures match Drain(depth, delta)
            case Some(k) => k >= 1 && depth + k * delta == 0 && forall j {:trigger j * delta} :: 1 <= j < k ==> depth + j * delta != 0
            case None => forall j {:trigger j * delta} :: 1 <= j ==> depth + j * delta != 0
  {
  }

  /** The loop that copies a block to its end (the insertion path) or, without the
      writing, drops it (the config patches).  It starts with `buffer` in hand. */
  function BlockLoop(rest: seq<string>, buffer: string, depth: int): Option<Block> {
    if rest == [] then
      var rounds :- Drain(depth, Delta(buffer));
      Some(Block(Repeat(buffer, rounds), buffer, [], 0))
    else if depth + Delta(rest[0]) == 0 then
      Some(Block([rest[0]], rest[0], rest[1..], 0))
    else
      var block :- BlockLoop(rest[1..], rest[0], depth + Delta(rest[0]));
      Some(block.Prepend([rest[0]]))
  }

  lemma {:induction false} BlockLoopShrinks(rest: seq<string>, buffer: string, depth: int)
    requires BlockLoop(rest, buffer, depth).Some?
    ensures var b := BlockLoop(rest, buffer, depth).value;
            && |b.rest| <= |rest| && b.rest == rest[|rest| - |b.rest|..] && b.depth == 0
            && |b.written| >= |rest| - |b.rest|
  {
    if rest != [] && depth + Delta(rest[0]) != 0 {
      BlockLoopShrinks(rest[1..], rest[0], depth + Delta(rest[0]));
    }
  }

  /** A block that closes in the file is written as it was read. */
  lemma {:induction false} BlockLoopCloses(rest: seq<string>, buffer: string, depth: int, k: nat)
    requires k < |rest| && CloseAt(rest, depth) == Some(k)
    ensures BlockLoop(rest, buffer, depth) == Some(Block(rest[..k + 1], rest[k], rest[k + 1..], 0))
  {
    if k == 0 {
      assert rest[..1] == [rest[0]];
    } else {
      BlockLoopCloses(rest[1..], rest[0], depth + Delta(rest[0]), k - 1);
      assert rest[..k + 1] == [rest[0]] + rest[1..][..k];
    }
  }

  /** A block that does not is written up to the end of the file, and then the last line
      again until the count is zero. */
  lemma {:induction false} BlockLoopOverruns(rest: seq<string>, buffer: string, depth: int)
    requires CloseAt(rest, depth).None?
    ensures var last := ([buffer] + rest)[|rest|];
            var rounds := Drain(depth + Balance(rest), Delta(last));
            BlockLoop(rest, buffer, depth)
            == if rounds.None? then None else Some(Block(rest + Repeat(last, rounds.value), last, [], 0))
  {
    if rest == [] {
      assert forall n: nat {:trigger Repeat(buffer, n)} :: rest + Repeat(buffer, n) == Repeat(buffer, n);
    } else {
      BlockLoopOverruns(rest[1..], rest[0], depth + Delta(rest[0]));
      var last := ([buffer] + rest)[|rest|];
      assert [rest[0]] + rest[1..] == rest;
      assert forall n: nat {:trigger Repeat(last, n)} :: [rest[0]] + (rest[1..] + Repeat(last, n)) == rest + Repeat(last, n);
    }
  }

  /** Whatever a block loop writes or leaves, it has read. */
  lemma {:induction false} BlockLoopLines(rest: seq<string>, buffer: string, depth: int)
    requires BlockLoop(rest, buffer, depth).Some?
    ensures var b := BlockLoop(rest, buffer, depth).value;
            && (forall line :: line in b.written ==> line == buffer || line in rest)
            && (forall line :: line in b.rest ==> line in rest)
            && (b.buffer == buffer || b.buffer in rest)
  {
    if rest != [] && depth + Delta(rest[0]) != 0 {
      BlockLoopLines(rest[1..], rest[0], depth + Delta(rest[0]));
    }
  }

  /** One round of the block loop, at end of file or not. */
  lemma BlockLoopStep(r: Reader, depth: int)
    ensures var n, d := r.Gets(), depth + Delta(r.Gets().buffer);
            var more := BlockLoop(n.rest, n.buffer, d);
            && BlockLoop(r.rest, r.buffer, depth)
               == (if d == 0 then Some(Block([n.buffer], n.buffer, n.rest, 0))
                   else if more.None? then None
                   else Some(more.value.Prepend([n.buffer])))
            && (d != 0 && more.Some? ==> |n.rest| < |r.rest| || (n == r && Abs(d) < Abs(depth)))
  {
    var d := depth + Delta(r.Gets().buffer);
    if r.rest == [] {
      if d == 0 {
        assert Repeat(r.buffer, 1) == [r.buffer];
      } else {
        DrainStep(depth, Delta(r.buffer));
        if Drain(d, Delta(r.buffer)).Some? {
          RepeatMore(r.buffer, Drain(d, Delta(r.buffer)).value);
        }
      }
    }
  }

  // ----- when a block loop returns -----

  /** The loop after `n` rounds; None when it has returned. */
  function BlockRounds(r: Reader, depth: int, n: nat): Option<(Reader, int)>
    decreases n
  {
    if n == 0 then Some((r, depth))
    else
      var d := depth + Delta(r.Gets().buffer);
      if d == 0 then None else BlockRounds(r.Gets(), d, n - 1)
  }

  lemma {:induction false} BlockLeaves(r: Reader, depth: int) returns (n: nat)
    requires BlockLoop(r.rest, r.buffer, depth).Some?
    ensures BlockRounds(r, depth, n).None?
    decreases |r.rest|, Abs(depth)
  {
    BlockLoopStep(r, depth);
    n := 0;
    var d := depth + Delta(r.Gets().buffer);
    if d != 0 {
      n := BlockLeaves(r.Gets(), d);
    }
    n := n + 1;
  }

  lemma {:induction false} BlockStays(r: Reader, depth: int, n: nat)
    requires BlockLoop(r.rest, r.buffer, depth).None?
    ensures BlockRounds(r, depth, n).Some?
    decreases n
  {
    if n > 0 {
      BlockLoopStep(r, depth);
      BlockStays(r.Gets(), depth + Delta(r.Gets().buffer), n - 1);
    }
  }

  /** The loop, reread stale lines included, returns in some number of rounds if and only
      if `BlockLoop` has a value. */
  lemma BlockReturns(r: Reader, depth: int)
    ensures BlockLoop(r.rest, r.buffer, depth).Some? <==> exists n: nat :: BlockRounds(r, depth, n).None?
  {
    if BlockLoop(r.rest, r.buffer, depth).Some? {
      var n := BlockLeaves(r, depth);
    } else {
      forall n: nat
        ensures BlockRounds(r, depth, n).Some?
      {
        BlockStays(r, depth, n);
      }
    }
  }
}
