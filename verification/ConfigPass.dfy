/** Specification of one entry of the config file: the first block whose header line
    contains the search text is replaced by the contents of a patch file. */
module ConfigPass {
  import opened Wrappers
  import opened AslText

  datatype Outcome =
    | Replaced(out: seq<string>)   // copied over the file that is being patched
    | Unmatched(out: seq<string>)  // an error is reported and the file is kept
    | NoPatchFile                  // the patch file cannot be opened: the program ends

  /** The line in the buffer once the patch file has been copied through it. */
  function BufferAfter(patch: seq<string>, buffer: string): string {
    if patch == [] then buffer else patch[|patch| - 1]
  }

  /** The outcome, after `lines` have been written. */
  function After(lines: seq<string>, outcome: Outcome): Outcome {
    match outcome
    case Replaced(out) => Replaced(lines + out)
    case Unmatched(out) => Unmatched(lines + out)
    case NoPatchFile => NoPatchFile
  }

  /** The pass over the unread lines while nothing has been replaced; None when the
      block never ends. */
  function Pass(rest: seq<string>, search: string, patch: Option<seq<string>>): Option<Outcome> {
    if rest == [] then
      Some(Unmatched([]))
    else if Contains(rest[0], search) then
      var block :- BlockLoop(rest[1..], rest[0], 0);
      if patch.None? then Some(NoPatchFile)
      else
        var next := Reader(block.rest, BufferAfter(patch.value, block.buffer)).Gets();
        Some(Replaced(patch.value + [next.buffer] + next.rest))
    else
      var outcome :- Pass(rest[1..], search, patch);
      Some(After([rest[0]], outcome))
  }

  /** What the loop still writes, before (`patching`) or after the replacement. */
  function Remaining(rest: seq<string>, search: string, patch: Option<seq<string>>, patching: bool): Option<Outcome> {
    if patching then Pass(rest, search, patch) else Some(Replaced(rest))
  }

  lemma AfterNothing(outcome: Outcome)
    ensures After([], outcome) == outcome
  {
    if !outcome.NoPatchFile? {
      assert [] + outcome.out == outcome.out;
    }
  }

  lemma AfterMore(a: seq<string>, b: seq<string>, outcome: Outcome)
    ensures After(a + b, outcome) == After(a, After(b, outcome))
  {
    if !outcome.NoPatchFile? {
      assert a + b + outcome.out == a + (b + outcome.out);
    }
  }

  lemma AfterReplaced(lines: seq<string>, out: seq<string>)
    ensures After(lines, Replaced(out)) == Replaced(lines + out)
  {
  }

  lemma ReplacedAfter(was: seq<string>, patch: seq<string>, next: seq<string>, rest: seq<string>)
    ensures After(was + patch + next, Replaced(rest)) == After(was, Replaced(patch + next + rest))
  {
    assert was + patch + next + rest == was + (patch + next + rest);
  }

  /** One round of the pass. */
  lemma PassStep(rest: seq<string>, search: string, patch: Option<seq<string>>)
    requires Pass(rest, search, patch).Some?
    ensures var outcome := Pass(rest, search, patch).value;
            if rest == [] then outcome == Unmatched([])
            else if Contains(rest[0], search) then
              var loop := BlockLoop(rest[1..], rest[0], 0);
              && loop.Some? && loop.value.depth == 0
              && (patch.None? ==> outcome == NoPatchFile)
              && (patch.Some? ==>
                    var next := Reader(loop.value.rest, BufferAfter(patch.value, loop.value.buffer)).Gets();
                    outcome == Replaced(patch.value + [next.buffer] + next.rest))
            else
              var more := Pass(rest[1..], search, patch);
              more.Some? && outcome == After([rest[0]], more.value)
  {
    if rest != [] && Contains(rest[0], search) {
      BlockLoopShrinks(rest[1..], rest[0], 0);
    }
  }

  lemma BlockShrinks(rest: seq<string>, header: string)
    ensures var loop := BlockLoop(rest, header, 0);
            loop.Some? ==> |loop.value.rest| <= |rest|
  {
    if BlockLoop(rest, header, 0).Some? {
      BlockLoopShrinks(rest, header, 0);
    }
  }

  lemma {:induction false} UnmatchedIsTheFile(file: seq<string>, search: string, patch: Option<seq<string>>)
    requires forall m :: 0 <= m < |file| ==> !Contains(file[m], search)
    ensures Pass(file, search, patch) == Some(Unmatched(file))
  {
    if file != [] {
      UnmatchedIsTheFile(file[1..], search, patch);
      assert [file[0]] + file[1..] == file;
    }
  }

  /** The header of the block is the first match, in line `i`; the block ends `k` lines
      after the next line, the first line after which the count is zero. */
  ghost predicate FirstMatch(file: seq<string>, search: string, i: nat, k: nat) {
    && i + 1 + k < |file| && Contains(file[i], search)
    && (forall m :: 0 <= m < i ==> !Contains(file[m], search))
    && CloseAt(file[i + 1..], 0) == Some(k)
  }

  lemma {:induction false} MatchAfter(file: seq<string>, search: string, i: nat, k: nat, patch: seq<string>)
    requires FirstMatch(file, search, i, k)
    ensures var next := Reader(file[i + k + 2..], BufferAfter(patch, file[i + k + 1])).Gets();
            Pass(file, search, Some(patch))
            == Some(Replaced(file[..i] + (patch + [next.buffer] + next.rest)))
    decreases i
  {
    hide Contains, BlockLoop, BufferAfter, CloseAt;
    var next := Reader(file[i + k + 2..], BufferAfter(patch, file[i + k + 1])).Gets();
    var out := patch + [next.buffer] + next.rest;
    if i == 0 {
      BlockLoopCloses(file[1..], file[0], 0, k);
      assert file[1..][k + 1..] == file[k + 2..];
      assert file[..0] + out == out;
    } else {
      assert file[1..][i..] == file[i + 1..];
      assert file[1..][i + k + 1..] == file[i + k + 2..];
      MatchAfter(file[1..], search, i - 1, k, patch);
      assert [file[0]] + (file[1..][..i - 1] + out) == file[..i] + out;
    }
  }

  /** Header and block go, the patch comes in their place, and all else, later matches
      included, is as it was: exactly when a line follows the block. */
  lemma ReplacesTheBlock(file: seq<string>, search: string, i: nat, k: nat, patch: seq<string>)
    requires FirstMatch(file, search, i, k)
    ensures var end := i + k + 2;
            Pass(file, search, Some(patch)) == Some(Replaced(file[..i] + patch + file[end..]))
            <==> end < |file|
  {
    var end := i + k + 2;
    var next := Reader(file[end..], BufferAfter(patch, file[end - 1])).Gets();
    MatchAfter(file, search, i, k, patch);
    assert file[..i] + (patch + [next.buffer] + next.rest) == file[..i] + patch + ([next.buffer] + next.rest);
    if end < |file| {
      assert [next.buffer] + next.rest == file[end..];
    }
  }

  lemma DepthAfterThree(a: seq<string>, b: seq<string>, c: seq<string>, j: nat)
    requires j <= |c|
    ensures DepthAfter(a + b + c, |a| + |b| + j, 0) == Balance(a) + Balance(b) + Balance(c[..j])
  {
    assert (a + b + c)[..|a| + |b| + j] == (a + b) + c[..j];
    BalanceConcat(a + b, c[..j]);
    BalanceConcat(a, b);
  }

  /** When the block ends the file, the last line of the patch file, or the closing line of
      the block if that file is empty, is written once more. */
  lemma BlockEndsTheFile(file: seq<string>, search: string, i: nat, k: nat, patch: seq<string>)
    requires FirstMatch(file, search, i, k) && i + k + 2 == |file|
    ensures Pass(file, search, Some(patch))
         == Some(Replaced(file[..i] + patch + [if patch == [] then file[|file| - 1] else patch[|patch| - 1]]))
  {
    hide Contains, Pass, FirstMatch;
    MatchAfter(file, search, i, k, patch);
    var last := if patch == [] then file[|file| - 1] else patch[|patch| - 1];
    assert file[i + k + 2..] == [];
    assert file[..i] + (patch + [last] + []) == file[..i] + patch + [last];
  }

  /** The brace depth at every line after the replaced block is what it was, if and only
      if the patch counts for as much as the header line did. */
  lemma DepthIsKept(before: seq<string>, header: string, block: seq<string>, after: seq<string>,
                    patch: seq<string>, j: nat)
    requires CloseAt(block, 0) == Some(|block| - 1) && j <= |after|
    ensures DepthAfter(before + patch + after, |before| + |patch| + j, 0)
         == DepthAfter(before + ([header] + block) + after, |before| + 1 + |block| + j, 0)
       <==> Balance(patch) == Delta(header)
  {
    hide Contains, Delta, CloseAt;
    CloseAtIsFirst(block, 0);
    assert block[..|block|] == block;
    assert ([header] + block)[1..] == block;
    DepthAfterThree(before, patch, after, j);
    DepthAfterThree(before, [header] + block, after, j);
  }
}
