/** The positional mutation engine: the new file contents that `remove`,
    `done` and `urgent` compute from the current ones, in closed form, and
    what re-reading those contents gives. */
module Engine {
  import opened Text
  import opened Lines
  import opened Codec

  /** The errors the operations report. `InvalidId` is the "Invalid ID
      entered" error of kind InvalidInput. `MalformedLine` stands for the
      panic on a line without a space, whose second piece is indexed without
      a check; it ends the process before anything is written. */
  datatype Error = InvalidId | MalformedLine

  datatype Result<T> = Ok(value: T) | Err(error: Error)

  /** The contents `remove(id)` produces: every line but line `id`, in order.
      Re-reading them gives exactly the other lines. */
  function RemovedContents(data: string, id: nat): (r: string)
    requires id < |ReadLines(data)|
    ensures ReadLines(r) == ReadLines(data)[..id] + ReadLines(data)[id + 1..]
    ensures |ReadLines(r)| == |ReadLines(data)| - 1
  {
    var lines := ReadLines(data);
    var kept := lines[..id] + lines[id + 1..];
    WellFormedRemove(lines, id);
    ReadLinesOfConcat(kept);
    Concat(kept)
  }

  /** The contents `done(id)` produces: line `id` rewritten by `FlipDone`,
      every other line copied. When that line holds a space, re-reading gives
      the same lines with only line `id` replaced. */
  function DoneContents(data: string, id: nat): (r: string)
    requires id < |ReadLines(data)|
    ensures ' ' in ReadLines(data)[id] ==>
      ReadLines(r) == ReadLines(data)[id := FlipDone(ReadLines(data)[id])]
  {
    var lines := ReadLines(data);
    var line := FlipDone(lines[id]);
    var edited := lines[id := line];
    if ' ' in lines[id] then
      FlipDoneKeepsLine(lines[id]);
      WellFormedReplace(lines, id, line);
      ReadLinesOfConcat(edited);
      Concat(edited)
    else
      Concat(edited)
  }

  /** The contents `urgent(id)` produces: line `id` rewritten by
      `FlipUrgent`, every other line copied. When that line has two tokens
      before its text, re-reading gives the same lines with only line `id`
      replaced. */
  function UrgentContents(data: string, id: nat): (r: string)
    requires id < |ReadLines(data)| && ' ' in ReadLines(data)[id]
    ensures |Split(ReadLines(data)[id], ' ')| >= 3 ==>
      ReadLines(r) == ReadLines(data)[id := FlipUrgent(ReadLines(data)[id])]
  {
    var lines := ReadLines(data);
    var line := FlipUrgent(lines[id]);
    var edited := lines[id := line];
    if |Split(lines[id], ' ')| >= 3 then
      FlipUrgentKeepsLine(lines[id]);
      WellFormedReplace(lines, id, line);
      ReadLinesOfConcat(edited);
      Concat(edited)
    else
      Concat(edited)
  }

  /** Dropping one line keeps the chunks well formed. */
  lemma WellFormedRemove(lines: seq<string>, id: nat)
    requires WellFormed(lines) && id < |lines|
    ensures WellFormed(lines[..id] + lines[id + 1..])
  {
    var kept := lines[..id] + lines[id + 1..];
    forall j | 0 <= j < |kept|
      ensures IsLine(kept[j]) && (j + 1 < |kept| ==> Terminated(kept[j]))
    {
      if j < id { assert kept[j] == lines[j]; } else { assert kept[j] == lines[j + 1]; }
    }
  }

  /** Replacing one line by a line that is terminated wherever a line must be
      keeps the chunks well formed. */
  lemma WellFormedReplace(lines: seq<string>, id: nat, x: string)
    requires WellFormed(lines) && id < |lines|
    requires IsLine(x) && (id + 1 < |lines| ==> Terminated(x))
    ensures WellFormed(lines[id := x])
  {
  }

  /** `done` on a line with a space yields a line, terminated exactly when the
      old one was. */
  lemma FlipDoneKeepsLine(line: string)
    requires IsLine(line) && ' ' in line
    ensures IsLine(FlipDone(line))
    ensures Terminated(FlipDone(line)) <==> Terminated(line)
  {
    var t0, rest := FirstToken(line);
    FlipDoneFields(t0, rest);
    LineShape(t0, rest);
    assert '\n' !in ToggledDone(t0);
    LineShape(ToggledDone(t0), rest);
  }

  /** `urgent` on a line with two tokens before its text yields a line,
      terminated exactly when the old one was. */
  lemma FlipUrgentKeepsLine(line: string)
    requires IsLine(line) && |Split(line, ' ')| >= 3
    ensures ' ' in line
    ensures IsLine(FlipUrgent(line))
    ensures Terminated(FlipUrgent(line)) <==> Terminated(line)
  {
    SplitSeveral(line, ' ');
    var t0, rest := FirstToken(line);
    SplitSeveral(rest, ' ');
    var t1, text := FirstToken(rest);
    assert line == (t0 + " " + t1) + " " + text;
    FlipUrgentFields(t0, t1, text);
    var u := ToggledUrgent(t1);
    LineShape(t0 + " " + t1, text);
    assert '\n' !in u;
    assert '\n' !in t0 + " " + u;
    LineShape(t0 + " " + u, text);
  }

  /** Adding to a file that is empty or ends with a newline keeps every line
      and puts the new one last, where it decodes as a pending, normal entry
      with the added text. */
  lemma AddAppendsLine(data: string, text: string)
    requires data == [] || Terminated(data)
    requires '\n' !in text
    ensures ReadLines(data + AddedLine(text)) == ReadLines(data) + [AddedLine(text)]
    ensures Terminated(data + AddedLine(text))
    ensures var n := |ReadLines(data)|;
      ' ' in ReadLines(data + AddedLine(text))[n] &&
      Decode(ReadLines(data + AddedLine(text))[n]) == Record(false, false, text + "\n")
  {
    var x := AddedLine(text);
    assert x[..|x| - 1] == "NOT_DONE NORMAL " + text;
    assert IsLine(x);
    ReadLinesOfConcat([x]);
    assert Concat([x]) == x by { assert [x][1..] == []; }
    ReadLinesAppend(data, x);
    DecodeAddedLine(text);
  }

  /** Writing a line back where it was taken from changes nothing. */
  lemma UpdateBack(lines: seq<string>, id: nat, x: string)
    requires id < |lines|
    ensures lines[id := x][id := lines[id]] == lines
  {
  }

  /** Toggling done twice on a line whose first token `done` writes restores
      the file byte for byte. */
  lemma DoneTwice(data: string, id: nat)
    requires id < |ReadLines(data)| && ' ' in ReadLines(data)[id]
    requires Split(ReadLines(data)[id], ' ')[0] in {"DONE", "NOT_DONE"}
    ensures id < |ReadLines(DoneContents(data, id))|
    ensures DoneContents(DoneContents(data, id), id) == data
  {
    var lines := ReadLines(data);
    var line := lines[id];
    var d1 := DoneContents(data, id);
    var once := lines[id := FlipDone(line)];
    assert ReadLines(d1) == once;
    FlipDoneTwice(line);
    assert once[id := FlipDone(once[id])] == lines by {
      UpdateBack(lines, id, FlipDone(line));
    }
  }

  /** Toggling urgent twice on a line with two tokens before its text, the
      second one a token `urgent` writes, restores the file byte for byte. */
  lemma UrgentTwice(data: string, id: nat)
    requires id < |ReadLines(data)|
    requires |Split(ReadLines(data)[id], ' ')| >= 3
    requires Split(ReadLines(data)[id], ' ')[1] in {"URGENT", "NORMAL"}
    ensures ' ' in ReadLines(data)[id]
    ensures id < |ReadLines(UrgentContents(data, id))|
    ensures ' ' in ReadLines(UrgentContents(data, id))[id]
    ensures UrgentContents(UrgentContents(data, id), id) == data
  {
    var lines := ReadLines(data);
    var line := lines[id];
    FlipUrgentTwice(line);
    var d1 := UrgentContents(data, id);
    var once := lines[id := FlipUrgent(line)];
    assert ReadLines(d1) == once;
    assert once[id := FlipUrgent(once[id])] == lines by {
      UpdateBack(lines, id, FlipUrgent(line));
    }
  }
}
