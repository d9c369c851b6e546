/** Specification of the line fixes of `patchVarious`, for a file in which no CPU alias
    follows a processor line. */
module VariousPass {
  import opened Wrappers
  import opened AslText
  import Replace
  import opened FreshPrefix

  const STAR_NAME := ", \"*"
  const PROCESSOR := "Processor ("
  const ALIAS := "Alias ("
  const LOCAL0 := "Store (Local0, Local0)"
  const LOCAL0_FIX := "Store (\"Local0\", Local0)"
  const MUTE := "Acquire (MUTE, 0x????)"
  const MUTE_FIX := "Acquire (MUTE, 0xFFFF)\n"

  function WithoutFirst(line: string, c: char): string {
    if line == "" then "" else if line[0] == c then line[1..] else [line[0]] + WithoutFirst(line[1..], c)
  }

  /** The strict search of `CmpStrWild`. */
  predicate MatchesMute(line: string) {
    exists i :: 0 <= i < |line| - |MUTE| && WildAt(line, MUTE, i)
  }

  /** What is written for a line that is neither a star name nor a processor. */
  function Fix(line: string, k: nat): string {
    if Contains(line, LOCAL0) then LOCAL0_FIX
    else if Contains(line, TEMPORARY) then Rename(line, k)
    else if MatchesMute(line) && !Contains(line, MUTE_FIX) then MUTE_FIX
    else line
  }

  /** The pass; None when an alias line follows a processor line.  The line after a
      processor line is not looked at for star names or processors; a processor line at
      the end of the file is written twice. */
  function Pass(rest: seq<string>, k: nat): Option<seq<string>>
    decreases |rest|
  {
    if rest == [] then
      Some([])
    else if Contains(rest[0], STAR_NAME) then
      var out :- Pass(rest[1..], k);
      Some([WithoutFirst(rest[0], '*')] + out)
    else if Contains(rest[0], PROCESSOR) then
      var next := Reader(rest[1..], rest[0]).Gets();
      if |rest| > 1 && Contains(rest[1], ALIAS) then None
      else
        var out :- Pass(next.rest, k);
        Some([rest[0], Fix(next.buffer, k)] + out)
    else
      var out :- Pass(rest[1..], k);
      Some([Fix(rest[0], k)] + out)
  }

  /** No line that follows a processor line, as the pass meets it, has an alias. */
  predicate AliasFree(rest: seq<string>)
    decreases |rest|
  {
    rest != [] ==>
      if !Contains(rest[0], STAR_NAME) && Contains(rest[0], PROCESSOR) then
        |rest| > 1 ==> !Contains(rest[1], ALIAS) && AliasFree(rest[2..])
      else AliasFree(rest[1..])
  }

  lemma {:induction false} AliasFreeMeansDone(rest: seq<string>, k: nat)
    ensures AliasFree(rest) <==> Pass(rest, k).Some?
    decreases |rest|
  {
    if rest != [] {
      AliasFreeMeansDone(rest[1..], k);
      if |rest| > 1 {
        assert rest[1..][1..] == rest[2..];
        AliasFreeMeansDone(rest[2..], k);
      }
    }
  }

  /** One round of the pass. */
  lemma PassStep(rest: seq<string>, k: nat)
    requires Pass(rest, k).Some?
    ensures var out := Pass(rest, k).value;
            if rest == [] then out == []
            else if Contains(rest[0], STAR_NAME) then
              Pass(rest[1..], k).Some? && out == [WithoutFirst(rest[0], '*')] + Pass(rest[1..], k).value
            else if Contains(rest[0], PROCESSOR) then
              var next := Reader(rest[1..], rest[0]).Gets();
              Pass(next.rest, k).Some? && out == [rest[0]] + [Fix(next.buffer, k)] + Pass(next.rest, k).value
            else
              Pass(rest[1..], k).Some? && out == [Fix(rest[0], k)] + Pass(rest[1..], k).value
  {
  }

  /** No fix but the renaming applies to the line. */
  predicate OnlyTemporaries(line: string) {
    && !Contains(line, STAR_NAME) && !Contains(line, LOCAL0)
    && (Contains(line, TEMPORARY) || !MatchesMute(line) || Contains(line, MUTE_FIX))
  }

  function Undo(line: string, k: nat): string {
    Replace.Subst(line, Prefix(k), TEMPORARY, 0)
  }

  lemma {:induction false} NothingToDo(line: string, k: nat)
    requires !Contains(line, Prefix(k))
    ensures Undo(line, k) == line
  {
    if line != "" {
      assert line[0..] == line;
      assert !MatchAt(line, Prefix(k), 0);
      forall i | 0 <= i <= |line| - 1
        ensures !MatchAt(line[1..], Prefix(k), i)
      {
        assert line[1..][i..] == line[i + 1..];
        assert !MatchAt(line, Prefix(k), i + 1);
      }
      NothingToDo(line[1..], k);
    }
  }

  lemma UnusedIsKept(line: string, k: nat)
    requires !Contains(line, Prefix(k))
    ensures Undo(line, k) == line && Undo(Rename(line, k), k) == line
  {
    RenameRoundTrip(line, k);
    NothingToDo(line, k);
  }

  lemma FixCanBeUndone(line: string, k: nat)
    requires !Contains(line, Prefix(k)) && OnlyTemporaries(line)
    ensures Undo(line, k) == line && Undo(Fix(line, k), k) == line
  {
    UnusedIsKept(line, k);
  }

  predicate Undone(out: seq<string>, lines: seq<string>, k: nat) {
    |out| == |lines| && forall i :: 0 <= i < |lines| ==> Undo(out[i], k) == lines[i]
  }

  /** Lines that do not contain the prefix and need no fix but the renaming. */
  predicate Renamable(lines: seq<string>, k: nat) {
    forall i :: 0 <= i < |lines| ==> OnlyTemporaries(lines[i]) && !Contains(lines[i], Prefix(k))
  }

  lemma UndoneJoin(a: seq<string>, b: seq<string>, x: seq<string>, y: seq<string>, k: nat)
    requires Undone(a, x, k) && Undone(b, y, k)
    ensures Undone(a + b, x + y, k)
  {
  }

  /** The last line is met as a processor line: the next read fails and it is written
      twice. */
  predicate EndsInProcessor(rest: seq<string>)
    decreases |rest|
  {
    rest != [] &&
    if Contains(rest[0], PROCESSOR) then |rest| == 1 || EndsInProcessor(rest[2..])
    else EndsInProcessor(rest[1..])
  }

  /** The lines, the last of them twice if it is met as a processor line. */
  function LastTwice(rest: seq<string>): seq<string> {
    rest + if EndsInProcessor(rest) then [rest[|rest| - 1]] else []
  }

  lemma EndsSomewhere(rest: seq<string>)
    requires EndsInProcessor(rest)
    ensures rest != []
  {
  }

  lemma LastTwiceSplits(rest: seq<string>, n: nat)
    requires n <= |rest| && (EndsInProcessor(rest) <==> EndsInProcessor(rest[n..]))
    ensures LastTwice(rest) == rest[..n] + LastTwice(rest[n..])
  {
    hide Contains, EndsInProcessor;
    assert rest == rest[..n] + rest[n..];
    if EndsInProcessor(rest) {
      assert rest[n..] != [] by { EndsSomewhere(rest[n..]); }
    }
  }

  lemma LastTwiceAtEnd(rest: seq<string>)
    requires |rest| == 1 && Contains(rest[0], PROCESSOR)
    ensures LastTwice(rest) == [rest[0], rest[0]]
  {
  }

  lemma NothingUndone(k: nat)
    ensures Undone([], LastTwice([]), k)
  {
  }

  lemma JustUndone(out: seq<string>, lines: seq<string>, k: nat)
    requires 1 <= |out| == |lines| <= 2
    requires Undo(out[0], k) == lines[0] && (|out| == 2 ==> Undo(out[1], k) == lines[1])
    ensures Undone(out, lines, k)
  {
  }

  /** With an unused prefix the whole pass can be undone, line by line, on a file that
      needs no other fix; but for a processor line at its very end, which is there twice. */
  lemma {:induction false} PassCanBeUndone(rest: seq<string>, k: nat)
    requires Renamable(rest, k) && Pass(rest, k).Some?
    ensures Undone(Pass(rest, k).value, LastTwice(rest), k)
    decreases |rest|
  {
    hide Contains, Prefix, Undo, Fix, Undone, LastTwice;
    if rest == [] {
      NothingUndone(k);
    } else if Contains(rest[0], PROCESSOR) && |rest| == 1 {
      FixCanBeUndone(rest[0], k);
      LastTwiceAtEnd(rest);
      JustUndone([rest[0], Fix(rest[0], k)], LastTwice(rest), k);
      assert [rest[0], Fix(rest[0], k)] + [] == [rest[0], Fix(rest[0], k)];
    } else if Contains(rest[0], PROCESSOR) {
      assert rest[1..][1..] == rest[2..];
      PassCanBeUndone(rest[2..], k);
      FixCanBeUndone(rest[0], k);
      FixCanBeUndone(rest[1], k);
      LastTwiceSplits(rest, 2);
      JustUndone([rest[0], Fix(rest[1], k)], rest[..2], k);
      UndoneJoin([rest[0], Fix(rest[1], k)], Pass(rest[2..], k).value, rest[..2], LastTwice(rest[2..]), k);
    } else {
      FixCanBeUndone(rest[0], k);
      PassCanBeUndone(rest[1..], k);
      LastTwiceSplits(rest, 1);
      JustUndone([Fix(rest[0], k)], rest[..1], k);
      UndoneJoin([Fix(rest[0], k)], Pass(rest[1..], k).value, rest[..1], LastTwice(rest[1..]), k);
    }
  }

  // ----- what becomes of each line, letter for letter -----

  /** Line `i` comes right after a line that the pass meets as a processor line. */
  predicate AfterProcessor(file: seq<string>, i: nat)
    requires i < |file|
  {
    && i > 0 && !AfterProcessor(file, i - 1)
    && !Contains(file[i - 1], ", \"*") && Contains(file[i - 1], "Processor (")
  }

  /** `out` is `line` without its first star. */
  predicate StarLess(line: string, out: string) {
    exists p :: 0 <= p < |line| && line[p] == '*' && '*' !in line[..p] && out == line[..p] + line[p + 1..]
  }

  /** The pattern of the mute fix, not flush with the end of the line. */
  predicate Mutes(line: string) {
    exists p :: 0 <= p < |line| - 22 && WildAt(line, "Acquire (MUTE, 0x????)", p)
  }

  /** What stands in the output for a line that is looked at for the last three fixes. */
  predicate Fixed(line: string, out: string, k: nat) {
    && (Contains(line, "Store (Local0, Local0)") ==> out == "Store (\"Local0\", Local0)")
    && (!Contains(line, "Store (Local0, Local0)") ==>
          && (Contains(line, "_T_") ==> out == Rename(line, k))
          && (!Contains(line, "_T_") ==>
                out == if Mutes(line) && !Contains(line, "Acquire (MUTE, 0xFFFF)\n") then "Acquire (MUTE, 0xFFFF)\n"
                       else line))
  }

  lemma FixIsFixed(line: string, k: nat)
    ensures Fixed(line, Fix(line, k), k)
  {
    hide Contains, Rename;
    assert |MUTE| == 22;
  }

  lemma StarBehind(line: string, p: nat)
    requires p + 1 < |line| && line[0] != '*' && '*' !in line[1..][..p]
    ensures '*' !in line[..p + 1]
    ensures [line[0]] + (line[1..][..p] + line[1..][p + 1..]) == line[..p + 1] + line[p + 2..]
  {
    assert line[..p + 1] == [line[0]] + line[1..][..p];
    assert line[1..][p + 1..] == line[p + 2..];
  }

  lemma {:induction false} FirstStar(line: string) returns (p: nat)
    requires '*' in line
    ensures p < |line| && line[p] == '*' && '*' !in line[..p]
    ensures WithoutFirst(line, '*') == line[..p] + line[p + 1..]
  {
    p := 0;
    if line[0] == '*' {
      assert line[..0] + line[1..] == line[1..];
    } else {
      p := FirstStar(line[1..]);
      StarBehind(line, p);
      p := p + 1;
    }
  }

  lemma StarInName(line: string)
    requires Contains(line, ", \"*")
    ensures '*' in line
  {
    if '*' !in line {
      MissingCharacter(line, ", \"*", '*');
    }
  }

  lemma StarGoes(line: string)
    requires '*' in line
    ensures StarLess(line, WithoutFirst(line, '*'))
  {
    hide WithoutFirst;
    var p := FirstStar(line);
  }

  lemma {:induction false} AfterProcessorTail(file: seq<string>, n: nat, i: nat)
    requires 1 <= n <= i < |file|
    requires n == 1 ==> Contains(file[0], ", \"*") || !Contains(file[0], "Processor (")
    requires n == 2 ==> !Contains(file[0], ", \"*") && Contains(file[0], "Processor (")
    requires n <= 2
    ensures AfterProcessor(file[n..], i - n) == AfterProcessor(file, i)
    decreases i
  {
    hide Contains;
    if i > n {
      AfterProcessorTail(file, n, i - 1);
    } else if n == 2 {
      assert AfterProcessor(file, 1);
    }
  }

  /** Line `i` of a file, and what stands in its place in the output: a device name loses
      its first star, a processor line is copied, and any other line, and the one after a
      processor line whatever it holds, is `Fixed`. */
  lemma {:induction false} EachLine(file: seq<string>, k: nat, i: nat)
    requires i < |file| && Pass(file, k).Some?
    ensures var out := Pass(file, k).value;
            && i < |out|
            && if AfterProcessor(file, i) then Fixed(file[i], out[i], k)
               else if Contains(file[i], ", \"*") then StarLess(file[i], out[i])
               else if Contains(file[i], "Processor (") then out[i] == file[i]
               else Fixed(file[i], out[i], k)
    decreases |file|
  {
    hide Contains, Fix, WithoutFirst, Fixed, StarLess, Prefix;
    if Contains(file[0], STAR_NAME) {
      if i == 0 {
        StarInName(file[0]);
        StarGoes(file[0]);
      } else {
        AfterProcessorTail(file, 1, i);
        EachLine(file[1..], k, i - 1);
      }
    } else if Contains(file[0], PROCESSOR) {
      if i == 1 {
        FixIsFixed(file[1], k);
        assert AfterProcessor(file, 1);
      } else if i > 1 {
        AfterProcessorTail(file, 2, i);
        assert file[1..][1..] == file[2..];
        EachLine(file[2..], k, i - 2);
      }
    } else if i == 0 {
      FixIsFixed(file[0], k);
    } else {
      AfterProcessorTail(file, 1, i);
      EachLine(file[1..], k, i - 1);
    }
  }
}
