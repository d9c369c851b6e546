/** Leftmost non-overlapping replacement, and when it can be undone. */
module Replace {
  import opened Wrappers

  /** A match of `from` at the start of `s`, with more than `margin` - 1 characters after
      it: margin 0 is every match, margin 1 every match but one flush with the end. */
  predicate Hit(s: string, from: string, margin: nat) {
    from <= s && |s| >= |from| + margin
  }

  function Subst(s: string, from: string, to: string, margin: nat): string
    requires from != ""
  {
    if s == "" then ""
    else if Hit(s, from, margin) then to + Subst(s[|from|..], from, to, margin)
    else [s[0]] + Subst(s[1..], from, to, margin)
  }

  /** One round of the replacement, at position `i` of `s`. */
  lemma SubstStep(s: string, i: nat, from: string, to: string, margin: nat)
    requires from != "" && i <= |s|
    ensures var here := Subst(s[i..], from, to, margin);
            if i == |s| then here == ""
            else if Hit(s[i..], from, margin) then
              i + |from| <= |s| && here == to + Subst(s[i + |from|..], from, to, margin)
            else here == [s[i]] + Subst(s[i + 1..], from, to, margin)
  {
    if i < |s| {
      assert s[i..][1..] == s[i + 1..];
      if Hit(s[i..], from, margin) {
        assert s[i..][|from|..] == s[i + |from|..];
      }
    }
  }

  /** The number of matches replaced. */
  function Hits(s: string, from: string, margin: nat): nat
    requires from != ""
  {
    if s == "" then 0
    else if Hit(s, from, margin) then 1 + Hits(s[|from|..], from, margin)
    else Hits(s[1..], from, margin)
  }

  lemma OneMore(m: nat, d: int)
    ensures (m + 1) * d == m * d + d
  {
  }

  /** The length of the result, and how many matches can fit. */
  lemma {:induction false} SubstLength(s: string, from: string, to: string, margin: nat)
    requires from != ""
    ensures |Subst(s, from, to, margin)| == |s| + Hits(s, from, margin) * (|to| - |from|)
    ensures Hits(s, from, margin) * |from| <= |s|
    decreases |s|
  {
    if s == "" {
    } else if Hit(s, from, margin) {
      var m := Hits(s[|from|..], from, margin);
      SubstLength(s[|from|..], from, to, margin);
      OneMore(m, |to| - |from|);
      OneMore(m, |from|);
    } else {
      SubstLength(s[1..], from, to, margin);
    }
  }

  /** No match starts at any of the first `n` positions. */
  ghost predicate NoHits(s: string, n: nat, from: string, margin: nat) {
    forall j :: 0 <= j < n && j <= |s| ==> !Hit(s[j..], from, margin)
  }

  lemma NoHitsCons(s: string, n: nat, from: string, margin: nat)
    requires s != "" && n > 0 && !Hit(s, from, margin) && NoHits(s[1..], n - 1, from, margin)
    ensures NoHits(s, n, from, margin)
  {
    forall j | 0 <= j < n && j <= |s|
      ensures !Hit(s[j..], from, margin)
    {
      if j > 0 {
        assert s[j..] == s[1..][j - 1..];
      } else {
        assert s[0..] == s;
      }
    }
  }

  lemma PrefixTail(w: string, c: char, rest: string)
    requires w != "" && w <= [c] + rest
    ensures w[0] == c && w[1..] <= rest
  {
    var out := [c] + rest;
    assert w[1..] == out[1..|w|];
    assert out[1..|w|] == rest[..|w| - 1];
  }

  lemma FirstIsCopied(s: string, from: string, to: string, margin: nat, w: string)
    requires from != "" && to != "" && w != "" && to[0] !in w
    requires w <= Subst(s, from, to, margin)
    ensures s != "" && !Hit(s, from, margin)
    ensures Subst(s, from, to, margin) == [s[0]] + Subst(s[1..], from, to, margin)
  {
    assert Subst(s, from, to, margin)[0] == w[0];
  }

  lemma PutBack(w: string, s: string, more: string)
    requires w != "" && s != "" && w[0] == s[0] && w[1..] <= s[1..]
    ensures w <= s && [s[0]] + (w[1..] + more) == w + more
  {
    assert w == [s[0]] + w[1..];
    assert s == [s[0]] + s[1..];
  }

  /** Text of the result that has no character in common with the start of `to` was
      copied from the input, and no match starts in it. */
  lemma {:induction false} CopiedText(s: string, from: string, to: string, margin: nat, w: string)
    requires from != "" && to != "" && to[0] !in w
    requires w <= Subst(s, from, to, margin)
    ensures w <= s && NoHits(s, |w|, from, margin)
    ensures Subst(s, from, to, margin) == w + Subst(s[|w|..], from, to, margin)
    decreases |w|
  {
    var out := Subst(s, from, to, margin);
    if w == "" {
      assert s[0..] == s && w + out == out;
    } else {
      hide Subst, Hit, NoHits;
      FirstIsCopied(s, from, to, margin, w);
      var rest := Subst(s[1..], from, to, margin);
      PrefixTail(w, s[0], rest);
      CopiedText(s[1..], from, to, margin, w[1..]);
      assert s[1..][|w| - 1..] == s[|w|..];
      PutBack(w, s, Subst(s[|w|..], from, to, margin));
      NoHitsCons(s, |w|, from, margin);
    }
  }

  /** Every copy of `to` that stands in `s` already has a match of `from` starting in it,
      so that none of them reaches the result as it stands. */
  ghost predicate Undoable(s: string, from: string, to: string, margin: nat) {
    forall i {:trigger s[i..]} :: 0 <= i <= |s| && to <= s[i..] ==> !NoHits(s[i..], |to|, from, margin)
  }

  lemma UndoableTail(s: string, n: nat, from: string, to: string, margin: nat)
    requires n <= |s| && Undoable(s, from, to, margin)
    ensures Undoable(s[n..], from, to, margin)
  {
    forall i | 0 <= i <= |s[n..]| && to <= s[n..][i..]
      ensures !NoHits(s[n..][i..], |to|, from, margin)
    {
      assert s[n..][i..] == s[n + i..];
    }
  }

  lemma NotCopied(s: string, from: string, to: string, margin: nat)
    requires from != "" && to != "" && to[0] !in to[1..]
    requires Undoable(s, from, to, margin)
    requires s != "" && !Hit(s, from, margin)
    ensures !(to <= Subst(s, from, to, margin))
  {
    var rest := Subst(s[1..], from, to, margin);
    var out := [s[0]] + rest;
    assert s[0..] == s;
    if to <= out {
      assert to[1..] <= rest by { assert to[1..] == out[1..|to|]; assert out[1..|to|] == rest[..|to| - 1]; }
      CopiedText(s[1..], from, to, margin, to[1..]);
      assert to == [s[0]] + to[1..];
      NoHitsCons(s, |to|, from, margin);
    }
  }

  /** Replacing back gives the original text, when the first character of `to` occurs
      in it only once and `s` is `Undoable`; and the copies of `to` in the result are as
      many as the matches that were replaced. */
  lemma {:induction false} RoundTrip(s: string, from: string, to: string, margin: nat)
    requires from != "" && to != "" && to[0] !in to[1..]
    requires Undoable(s, from, to, margin)
    ensures Subst(Subst(s, from, to, margin), to, from, 0) == s
    ensures Hits(Subst(s, from, to, margin), to, 0) == Hits(s, from, margin)
    decreases |s|
  {
    var out := Subst(s, from, to, margin);
    if s == "" {
    } else if Hit(s, from, margin) {
      UndoableTail(s, |from|, from, to, margin);
      RoundTrip(s[|from|..], from, to, margin);
      assert to <= out && out[|to|..] == Subst(s[|from|..], from, to, margin);
      assert from + s[|from|..] == s;
    } else {
      UndoableTail(s, 1, from, to, margin);
      RoundTrip(s[1..], from, to, margin);
      var rest := Subst(s[1..], from, to, margin);
      assert out[1..] == rest;
      NotCopied(s, from, to, margin);
      assert [s[0]] + s[1..] == s;
    }
  }

  // ----- what margin 1 leaves out -----

  predicate EndsWith(s: string, from: string) {
    |s| >= |from| && s[|s| - |from|..] == from
  }

  lemma {:induction false} ShortIsCopied(s: string, from: string, to: string)
    requires from != "" && |s| <= |from|
    ensures Subst(s, from, to, 1) == s
  {
    if s != "" {
      ShortIsCopied(s[1..], from, to);
      assert [s[0]] + s[1..] == s;
    }
  }

  lemma SameEnd(s: string, from: string)
    requires from != "" && from[0] !in from[1..] && Hit(s, from, 1)
    ensures EndsWith(s, from) <==> EndsWith(s[|from|..], from)
  {
    var n, p := |from|, |s| - |from|;
    if p < n {
      assert s[p] == from[p] == from[1..][p - 1];
      assert s[p..][0] == s[p];
    } else {
      assert s[n..][p - n..] == s[p..];
    }
  }

  /** For a text that cannot overlap itself, a match is passed over exactly when it is
      flush with the end. */
  lemma {:induction false} OnlyFlushIsMissed(s: string, from: string, to: string)
    requires from != "" && from[0] !in from[1..] && |to| != |from|
    ensures Subst(s, from, to, 1) == Subst(s, from, to, 0) <==> !EndsWith(s, from)
    decreases |s|
  {
    if s == "" {
    } else if Hit(s, from, 1) {
      var rest := s[|from|..];
      OnlyFlushIsMissed(rest, from, to);
      SameEnd(s, from);
      TailsAgree(to, Subst(rest, from, to, 1), Subst(rest, from, to, 0));
    } else if s == from {
      ShortIsCopied(s, from, to);
      assert s[|from|..] == "" && s[0..] == s;
    } else {
      var rest := s[1..];
      OnlyFlushIsMissed(rest, from, to);
      TailsAgree([s[0]], Subst(rest, from, to, 1), Subst(rest, from, to, 0));
      assert |rest| >= |from| ==> rest[|rest| - |from|..] == s[|s| - |from|..];
      assert |s| == |from| ==> s[0..] == s;
    }
  }
}
