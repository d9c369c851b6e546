/** The search for the first unused name prefix T0_, T1_, ... and the renaming of `_T_`
    to it. */
module FreshPrefix {
  import opened AslText
  import opened Replace

  const TEMPORARY := "_T_"

  function DigitChar(d: nat): char
    requires d < 10
  {
    '0' + d as char
  }

  predicate IsDigit(c: char) {
    '0' <= c <= '9'
  }

  /** `sprintf("%d")` of a number that is not negative. */
  function Digits(k: nat): string {
    if k < 10 then [DigitChar(k)] else Digits(k / 10) + [DigitChar(k % 10)]
  }

  function Prefix(k: nat): string {
    "T" + Digits(k) + "_"
  }

  ghost predicate AllDigits(s: string) {
    forall i :: 0 <= i < |s| ==> IsDigit(s[i])
  }

  function Value(s: string): nat
    requires AllDigits(s)
  {
    if s == "" then 0 else Value(s[..|s| - 1]) * 10 + (s[|s| - 1] as int - '0' as int)
  }

  lemma {:induction false} DigitsValue(k: nat)
    ensures |Digits(k)| >= 1 && AllDigits(Digits(k)) && Value(Digits(k)) == k
  {
    if k >= 10 {
      DigitsValue(k / 10);
      assert Digits(k)[..|Digits(k)| - 1] == Digits(k / 10);
    } else {
      assert Digits(k)[..0] == "";
    }
  }

  function Power10(n: nat): nat {
    if n == 0 then 1 else 10 * Power10(n - 1)
  }

  lemma {:induction false} DigitsLength(k: nat, n: nat)
    requires n >= 1 && k < Power10(n)
    ensures |Digits(k)| <= n
  {
    if k >= 10 {
      assert Power10(1) == 10 * Power10(0);
      DigitsLength(k / 10, n - 1);
    }
  }

  lemma PrefixShape(k: nat)
    ensures |Prefix(k)| >= 3 && Prefix(k)[0] == 'T' && Prefix(k)[|Prefix(k)| - 1] == '_'
    ensures forall i :: 0 < i < |Prefix(k)| - 1 ==> IsDigit(Prefix(k)[i])
    ensures 'T' !in Prefix(k)[1..]
  {
    DigitsValue(k);
    assert forall i :: 0 < i < |Prefix(k)| - 1 ==> Prefix(k)[i] == Digits(k)[i - 1];
  }

  lemma {:induction false} NoLeadingZero(k: nat)
    ensures |Digits(k)| > 0 && (|Digits(k)| > 1 ==> Digits(k)[0] != '0')
    ensures k > 0 ==> Digits(k)[0] != '0'
  {
    if k >= 10 {
      NoLeadingZero(k / 10);
      assert Digits(k)[0] == Digits(k / 10)[0];
    }
  }

  /** A prefix is a number in decimal between `T` and `_`, without leading zeros. */
  lemma PrefixText(k: nat)
    ensures var p := Prefix(k);
            && |p| >= 3 && p == "T" + p[1..|p| - 1] + "_"
            && AllDigits(p[1..|p| - 1]) && Value(p[1..|p| - 1]) == k
            && (|p| > 3 ==> p[1] != '0')
  {
    DigitsValue(k);
    NoLeadingZero(k);
    assert Prefix(k)[1..|Prefix(k)| - 1] == Digits(k);
  }

  // ----- all prefixes that occur in a text, and room for them -----

  /** The length of the run of digits at the start of `s`. */
  function DigitRun(s: string): (n: nat)
    ensures n <= |s| && (n < |s| ==> !IsDigit(s[n]))
    ensures forall i :: 0 <= i < n ==> IsDigit(s[i])
  {
    if s == "" || !IsDigit(s[0]) then 0 else DigitRun(s[1..]) + 1
  }

  /** The numbers of all prefixes of the form T<digits>_ in `s`, from left to right.  Two
      of them never overlap: T is only their first character. */
  function Tokens(s: string): seq<nat>
    decreases |s|
  {
    if s == "" then []
    else if s[0] == 'T' then
      var n := DigitRun(s[1..]);
      if n > 0 && n + 1 < |s| && s[n + 1] == '_' then [Value(s[1..][..n])] + Tokens(s[n + 2..])
      else Tokens(s[1..])
    else Tokens(s[1..])
  }

  lemma {:induction false} TokensFit(s: string)
    ensures 3 * |Tokens(s)| <= |s|
    decreases |s|
  {
    if s != "" {
      TokensFit(s[1..]);
      if s[0] == 'T' && DigitRun(s[1..]) + 2 <= |s| {
        TokensFit(s[DigitRun(s[1..]) + 2..]);
      }
    }
  }

  lemma DigitRunIsDigits(s: string, k: nat)
    requires Digits(k) + "_" <= s
    ensures DigitRun(s) == |Digits(k)| && s[..DigitRun(s)] == Digits(k) && s[|Digits(k)|] == '_'
  {
    DigitsValue(k);
    var d := Digits(k);
    assert s[|d|] == (d + "_")[|d|];
    assert forall i :: 0 <= i < |d| ==> s[i] == (d + "_")[i];
  }

  lemma TokensStep(s: string)
    requires s != "" && s[0] == 'T'
    ensures var n := DigitRun(s[1..]);
            n > 0 && n + 1 < |s| && s[n + 1] == '_' ==> Value(s[1..][..n]) in Tokens(s)
  {
  }

  lemma TokenHere(s: string, k: nat)
    requires Prefix(k) <= s
    ensures k in Tokens(s)
  {
    hide Tokens, Digits;
    var p := Prefix(k);
    assert p == "T" + (Digits(k) + "_");
    assert p[1..] == Digits(k) + "_" && s[1..][..|p| - 1] == p[1..];
    DigitRunIsDigits(s[1..], k);
    DigitsValue(k);
    TokensStep(s);
  }

  lemma TokenEndsBefore(s: string, n: nat, i: nat)
    requires 0 < i < |s| && s[i] == 'T'
    requires n + 1 < |s| && s[n + 1] == '_' && forall j :: 0 <= j < n ==> IsDigit(s[1..][j])
    ensures i >= n + 2
  {
    assert forall j :: 0 <= j < n ==> s[1..][j] == s[j + 1];
    assert forall m :: 1 <= m <= n ==> s[m] == s[1..][m - 1];
  }

  lemma {:induction false} TokensAreAll(s: string, k: nat, i: nat)
    requires MatchAt(s, Prefix(k), i)
    ensures k in Tokens(s)
    decreases |s|
  {
    hide Prefix, Digits, Value;
    PrefixShape(k);
    if i == 0 {
      assert s[0..] == s;
      TokenHere(s, k);
    } else {
      assert s[i] == s[i..][0] == 'T';
      var n := DigitRun(s[1..]);
      if s[0] == 'T' && n > 0 && n + 1 < |s| && s[n + 1] == '_' {
        TokenEndsBefore(s, n, i);
        assert s[n + 2..][i - n - 2..] == s[i..];
        TokensAreAll(s[n + 2..], k, i - n - 2);
      } else {
        assert s[1..][i - 1..] == s[i..];
        TokensAreAll(s[1..], k, i - 1);
      }
    }
  }

  /** Some line contains the prefix with number `k`. */
  predicate Used(file: seq<string>, k: nat) {
    exists i :: 0 <= i < |file| && Contains(file[i], Prefix(k))
  }

  function TotalLength(file: seq<string>): nat {
    if file == [] then 0 else |file[0]| + TotalLength(file[1..])
  }

  function FileTokens(file: seq<string>): seq<nat> {
    if file == [] then [] else Tokens(file[0]) + FileTokens(file[1..])
  }

  lemma {:induction false} FileTokensFit(file: seq<string>)
    ensures 3 * |FileTokens(file)| <= TotalLength(file)
  {
    if file != [] {
      TokensFit(file[0]);
      FileTokensFit(file[1..]);
    }
  }

  lemma {:induction false} FileTokensAreAll(file: seq<string>, k: nat, i: nat)
    requires i < |file| && Contains(file[i], Prefix(k))
    ensures k in FileTokens(file)
  {
    if i == 0 {
      var at :| 0 <= at <= |file[0]| && MatchAt(file[0], Prefix(k), at);
      TokensAreAll(file[0], k, at);
    } else {
      FileTokensAreAll(file[1..], k, i - 1);
    }
  }

  lemma {:induction false} Pigeonhole(ts: seq<nat>, n: nat)
    requires forall k :: 0 <= k < n ==> k in ts
    ensures n <= |ts|
    decreases n
  {
    if n > 0 {
      assert n - 1 in ts;
      var i :| 0 <= i < |ts| && ts[i] == n - 1;
      var others := ts[..i] + ts[i + 1..];
      forall k | 0 <= k < n - 1
        ensures k in others
      {
        assert k in ts;
        var j :| 0 <= j < |ts| && ts[j] == k;
        assert others[if j < i then j else j - 1] == k;
      }
      Pigeonhole(others, n - 1);
    }
  }

  /** A file has room for only so many prefixes, so the search ends: three characters
      for each number it has passed. */
  lemma SearchIsBounded(file: seq<string>, n: nat)
    requires forall k :: 0 <= k < n ==> Used(file, k)
    ensures 3 * n <= TotalLength(file)
  {
    forall k | 0 <= k < n
      ensures k in FileTokens(file)
    {
      assert Used(file, k);
      var i :| 0 <= i < |file| && Contains(file[i], Prefix(k));
      FileTokensAreAll(file, k, i);
    }
    Pigeonhole(FileTokens(file), n);
    FileTokensFit(file);
  }

  // ----- the renaming -----

  function Rename(line: string, k: nat): string {
    Subst(line, TEMPORARY, Prefix(k), 0)
  }

  lemma AtMostNineEach(m: nat, d: int)
    requires d <= 9
    ensures m * d <= m * 9
  {
  }

  lemma TenDigits()
    ensures Power10(10) == 10_000_000_000
  {
    assert Power10(2) == 100;
    assert Power10(4) == 10_000;
    assert Power10(6) == 1_000_000;
    assert Power10(8) == 100_000_000;
  }

  /** A renamed line is at most four times as long, for any prefix number that an `int`
      can hold. */
  lemma RenameFits(line: string, k: nat)
    requires k < 0x8000_0000
    ensures |Rename(line, k)| == |line| + Hits(line, TEMPORARY, 0) * (|Prefix(k)| - 3)
    ensures |Rename(line, k)| <= 4 * |line|
  {
    var m, d := Hits(line, TEMPORARY, 0), |Prefix(k)| - 3;
    SubstLength(line, TEMPORARY, Prefix(k), 0);
    TenDigits();
    DigitsLength(k, 10);
    PrefixShape(k);
    assert d <= 9;
    AtMostNineEach(m, d);
  }

  /** With an unused prefix the renaming can be undone, and the prefix occurs in the
      renamed line exactly where it was put: no two names are merged. */
  lemma RenameRoundTrip(line: string, k: nat)
    requires !Contains(line, Prefix(k))
    ensures Subst(Rename(line, k), Prefix(k), TEMPORARY, 0) == line
    ensures Hits(Rename(line, k), Prefix(k), 0) == Hits(line, TEMPORARY, 0)
  {
    PrefixShape(k);
    forall i | 0 <= i <= |line|
      ensures !(Prefix(k) <= line[i..])
    {
      assert !MatchAt(line, Prefix(k), i);
    }
    RoundTrip(line, TEMPORARY, Prefix(k), 0);
  }

  lemma RenameIsInjective(file: seq<string>, k: nat, i: nat, j: nat)
    requires !Used(file, k) && i < |file| && j < |file|
    ensures Rename(file[i], k) == Rename(file[j], k) <==> file[i] == file[j]
  {
    RenameRoundTrip(file[i], k);
    RenameRoundTrip(file[j], k);
  }

  /** `_T_` in the renamed line: where a match was followed by `T_` and that `_` did not
      start a match itself. */
  predicate Leftover(line: string) {
    line != "" &&
    if TEMPORARY <= line then
      ("T_" <= line[3..] && !(TEMPORARY <= line[4..])) || Leftover(line[3..])
    else Leftover(line[1..])
  }

  lemma TemporaryAtStart(s: string)
    ensures TEMPORARY <= s <==> s != "" && s[0] == '_' && "T_" <= s[1..]
    ensures "T_" <= s <==> |s| >= 2 && s[0] == 'T' && s[1] == '_'
  {
    assert TEMPORARY <= s <==> |s| >= 3 && s[0] == '_' && s[1] == 'T' && s[2] == '_';
    assert s != "" ==> ("T_" <= s[1..] <==> |s| >= 3 && s[1] == 'T' && s[2] == '_');
  }

  lemma UnderscoreIsCopied(line: string, k: nat)
    ensures Rename(line, k) != "" && Rename(line, k)[0] == '_'
       <==> line != "" && line[0] == '_' && !(TEMPORARY <= line)
  {
    PrefixShape(k);
  }

  lemma CopiedStart(line: string, k: nat)
    ensures "T_" <= Rename(line, k) <==> "T_" <= line && !(TEMPORARY <= line[1..])
  {
    PrefixShape(k);
    TemporaryAtStart(line);
    TemporaryAtStart(Rename(line, k));
    if line != "" && !Hit(line, TEMPORARY, 0) {
      UnderscoreIsCopied(line[1..], k);
    }
  }

  lemma PrefixThen(k: nat, rest: string)
    ensures Contains(Prefix(k) + rest, TEMPORARY) <==> "T_" <= rest || Contains(rest, TEMPORARY)
  {
    PrefixShape(k);
    var p := Prefix(k);
    var out, n := p + rest, |p|;
    forall i | 0 <= i <= |rest|
      ensures MatchAt(rest, TEMPORARY, i) <==> MatchAt(out, TEMPORARY, n + i)
    {
      assert out[n + i..] == rest[i..];
    }
    assert out[n - 1..] == "_" + rest;
    TemporaryAtStart(out[n - 1..]);
    assert ("_" + rest)[1..] == rest;
    assert "T_" <= rest <==> MatchAt(out, TEMPORARY, n - 1);
    forall i | 0 <= i < n - 1
      ensures !MatchAt(out, TEMPORARY, i)
    {
      assert out[i..][0] == p[i];
    }
    if i :| 0 <= i <= |out| && MatchAt(out, TEMPORARY, i) && i >= n {
      assert MatchAt(rest, TEMPORARY, i - n);
    }
  }

  lemma CharThen(c: char, rest: string)
    ensures Contains([c] + rest, TEMPORARY) <==> (c == '_' && "T_" <= rest) || Contains(rest, TEMPORARY)
  {
    var out := [c] + rest;
    forall i | 0 <= i <= |rest|
      ensures MatchAt(rest, TEMPORARY, i) <==> MatchAt(out, TEMPORARY, i + 1)
    {
      assert out[i + 1..] == rest[i..];
    }
    assert out[0..] == out;
    TemporaryAtStart(out);
    assert out[1..] == rest;
    assert c == '_' && "T_" <= rest <==> MatchAt(out, TEMPORARY, 0);
    if i :| 0 <= i <= |out| && MatchAt(out, TEMPORARY, i) && i > 0 {
      assert MatchAt(rest, TEMPORARY, i - 1);
    }
  }

  /** The renaming does not rename everything: `_T_T_` keeps a `_T_`.  A renamed line is
      free of `_T_` exactly when nothing is left over. */
  lemma {:induction false} RenameLeaves(line: string, k: nat)
    ensures Contains(Rename(line, k), TEMPORARY) <==> Leftover(line)
    decreases |line|
  {
    if line == "" {
      MissingCharacter("", TEMPORARY, 'T');
    } else if Hit(line, TEMPORARY, 0) {
      RenameLeaves(line[3..], k);
      CopiedStart(line[3..], k);
      PrefixThen(k, Rename(line[3..], k));
      assert "T_" <= line[3..] ==> line[4..] == line[3..][1..];
    } else {
      RenameLeaves(line[1..], k);
      CopiedStart(line[1..], k);
      CharThen(line[0], Rename(line[1..], k));
      TemporaryAtStart(line);
    }
  }
}
