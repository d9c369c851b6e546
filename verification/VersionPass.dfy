/** Specification of the replacement loop of `patchVersion`. */
module VersionPass {
  import opened Wrappers
  import opened Replace

  const DARWIN := "LOr (_OSI (\"Darwin\"), "

  /** The text looked for, by the operating system chosen; none for Darwin. */
  function ReplaceFrom(v: int): Option<string> {
    if v == 1 then Some("_OSI (\"Windows 2001\")")
    else if v == 2 then Some("_OSI (\"Windows 2006\")")
    else None
  }

  function ReplaceTo(from: string): string {
    DARWIN + from + ")"
  }

  function Emulate(file: string, from: string): string
    requires from != ""
  {
    Subst(file, from, ReplaceTo(from), 1)
  }

  lemma FromLacksL(v: int)
    requires ReplaceFrom(v).Some?
    ensures 'L' !in ReplaceFrom(v).value
  {
  }

  lemma FromLacksUnderscore(v: int)
    requires ReplaceFrom(v).Some?
    ensures '_' !in ReplaceFrom(v).value[1..]
  {
  }

  lemma FromShape(v: int)
    requires ReplaceFrom(v).Some?
    ensures var from := ReplaceFrom(v).value;
            |from| == 21 && from[0] == '_' && from[0] !in from[1..] && 'L' !in from
  {
    FromLacksL(v);
    FromLacksUnderscore(v);
  }

  lemma DarwinShape()
    ensures |DARWIN| == 22 && DARWIN[0] == 'L' && 'L' !in DARWIN[1..]
  {
  }

  lemma ToShape(from: string)
    requires 'L' !in from
    ensures var to := ReplaceTo(from);
            |to| == |from| + 23 && to[0] == 'L' && 'L' !in to[1..]
  {
    DarwinShape();
    assert ReplaceTo(from)[1..] == DARWIN[1..] + from + ")";
  }

  /** Every long form in a file holds a short form that is not flush with the end. */
  lemma LongFormsAreReplaced(file: string, from: string)
    requires from != ""
    ensures Undoable(file, from, ReplaceTo(from), 1)
  {
    var to, n := ReplaceTo(from), |DARWIN|;
    forall i | 0 <= i <= |file| && to <= file[i..]
      ensures !NoHits(file[i..], |to|, from, 1)
    {
      var here := file[i..];
      assert here[n..][..|from|] == to[n..][..|from|] == from;
      assert Hit(here[n..], from, 1);
    }
  }

  /** Putting the short form back recovers the file, although the long form contains the
      short one, and although the file may have had long forms to begin with. */
  lemma EmulateRoundTrip(file: string, v: int)
    requires ReplaceFrom(v).Some?
    ensures var from := ReplaceFrom(v).value;
            Subst(Emulate(file, from), ReplaceTo(from), from, 0) == file
  {
    var from := ReplaceFrom(v).value;
    FromShape(v);
    ToShape(from);
    LongFormsAreReplaced(file, from);
    RoundTrip(file, from, ReplaceTo(from), 1);
  }

  /** The output is 23 characters longer for each match, so twice the file's length is
      room enough exactly while the matches are not too dense. */
  lemma EmulatedLength(file: string, v: int)
    requires ReplaceFrom(v).Some?
    ensures var from := ReplaceFrom(v).value;
            var n := Hits(file, from, 1);
            && |Emulate(file, from)| == |file| + 23 * n
            && (|Emulate(file, from)| <= 2 * |file| <==> 23 * n <= |file|)
  {
    var from := ReplaceFrom(v).value;
    FromShape(v);
    ToShape(from);
    SubstLength(file, from, ReplaceTo(from), 1);
  }

  /** All matches are replaced, if and only if the file does not end with one. */
  lemma EmulatesAllButTheLast(file: string, v: int)
    requires ReplaceFrom(v).Some?
    ensures var from := ReplaceFrom(v).value;
            Emulate(file, from) == Subst(file, from, ReplaceTo(from), 0) <==> !EndsWith(file, from)
  {
    var from := ReplaceFrom(v).value;
    FromShape(v);
    ToShape(from);
    OnlyFlushIsMissed(file, from, ReplaceTo(from));
  }

  /** The two replacements, letter for letter; any other system is left to Darwin. */
  lemma EmulatedText(file: string, v: int)
    ensures ReplaceFrom(v).Some? <==> v == 1 || v == 2
    ensures v == 1 ==>
              Emulate(file, ReplaceFrom(v).value)
              == Subst(file, "_OSI (\"Windows 2001\")", "LOr (_OSI (\"Darwin\"), _OSI (\"Windows 2001\"))", 1)
    ensures v == 2 ==>
              Emulate(file, ReplaceFrom(v).value)
              == Subst(file, "_OSI (\"Windows 2006\")", "LOr (_OSI (\"Darwin\"), _OSI (\"Windows 2006\"))", 1)
  {
    assert ReplaceTo("_OSI (\"Windows 2001\")") == "LOr (_OSI (\"Darwin\"), _OSI (\"Windows 2001\"))";
    assert ReplaceTo("_OSI (\"Windows 2006\")") == "LOr (_OSI (\"Darwin\"), _OSI (\"Windows 2006\"))";
  }
}
