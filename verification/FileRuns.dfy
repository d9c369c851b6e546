/** Runs of `patchHPET` on whole files, character by character, and on the files that it
    wrote. */
module FileRuns {
  import opened Wrappers
  import opened AslText
  import opened LineFiles
  import HpetText
  import HpetPass
  import HpetInsert
  import HpetEnds

  function PatchText(text: string): Option<string> {
    var out :- HpetInsert.Patch(ReadLines(text));
    Some(Flatten(out))
  }

  /** Running `patchHPET` on the file that it wrote writes the same file: for every input
      whose last line ends in a newline, or fills the buffer, and for the others as long as
      every block loop ends at a line of the file. */
  lemma PatchTextIsIdempotent(text: string)
    requires PatchText(text).Some?
    requires AllStop(ReadLines(text)) || HpetEnds.PatchEnds(ReadLines(text))
    ensures PatchText(PatchText(text).value) == PatchText(text)
  {
    hide HpetInsert.Patch, HpetEnds.PatchEnds, Stops, Fits;
    var file := ReadLines(text);
    ReadLinesSplits(text);
    if HpetEnds.PatchEnds(file) {
      HpetEnds.PatchEndsReadable(file);
    } else {
      PatchStops(file);
      AllStopIsReadable(HpetInsert.Patch(file).value);
    }
    ReadsBack(HpetInsert.Patch(file).value);
    HpetInsert.PatchIsIdempotent(file);
  }

  /** A file that is one unended line with the mark of an HPET device, and no brace, is
      doubled by every run until it fills the buffer. */
  lemma Doubles(text: string)
    requires 0 < |text| < BUFFER_SIZE && '\n' !in text
    requires Contains(text, HpetText.HPET_DEVICE) && DeltaElse(text) == 0
    ensures PatchText(text) == Some(text + text)
  {
    hide Contains, DeltaElse;
    WholeText(text, BUFFER_SIZE - 1);
    assert text[|text|..] == "" && text[..|text|] == text;
    var file := [text];
    assert ReadLines(text) == file;
    assert HpetPass.DeviceLoop([], text, 0) == Some(Block([], text, [], 0));
    assert file[1..] == [];
    HpetPass.PassAtDevice(text, false, Block([], text, [], 0), [], []);
    assert [text] + [] == file && [text] + [] + [text] + [] == [text, text];
    assert HpetInsert.Marked(file[0]);
    FlattenOne(text);
    assert [text, text][1..] == [text];
  }
}
