/** The todo file and the program's commands. The file is opened for reading
    and appending and is never truncated on open; `remove`, `done`, `urgent`
    and `list` read it line by line, and the program's main routine
    truncates it and writes new contents only once those were computed. */
module Store {
  import opened Lines
  import opened Codec
  import opened Engine

  datatype Option<T> = None | Some(value: T)

  /** The subcommands; an absent one lists the entries. A missing argument is
      `None`. */
  datatype Action =
    | Add(entry: Option<string>)
    | Remove(id: Option<nat>)
    | Clear
    | Done(id: Option<nat>)
    | Urgent(id: Option<nat>)

  /** One listed entry: its position in the file and its decoded record. */
  datatype Entry = Entry(id: nat, record: Record)

  /** How a command ended: success, a listing, a missing argument (reported,
      nothing touched) or an error returned from the main routine. */
  datatype Outcome = Updated | Listed(entries: seq<Entry>) | MissingArgument | Failed(error: Error)

  /** Every line holds a space, so `list` can decode all of them. */
  predicate Decodable(lines: seq<string>)
  {
    forall j :: 0 <= j < |lines| ==> ' ' in lines[j]
  }

  /** One more line copied: the copied prefix grows by that line, both before
      line `id` is reached and after it was dropped. */
  lemma Extend(lines: seq<string>, i: nat, id: nat)
    requires i < |lines| && i != id
    ensures i < id ==> lines[..i + 1] == lines[..i] + [lines[i]]
    ensures i > id ==> lines[..id] + lines[id + 1..i + 1] == lines[..id] + lines[id + 1..i] + [lines[i]]
  {
    assert lines[..i + 1] == lines[..i] + [lines[i]];
    if i > id {
      assert lines[id + 1..i + 1] == lines[id + 1..i] + [lines[i]];
    }
  }

  /** One more line copied, before or after the rewritten line `id`. */
  lemma ExtendReplaced(lines: seq<string>, i: nat, id: nat, x: string)
    requires id < i < |lines|
    ensures lines[..id] + [x] + lines[id + 1..i + 1] == lines[..id] + [x] + lines[id + 1..i] + [lines[i]]
  {
    assert lines[id + 1..i + 1] == lines[id + 1..i] + [lines[i]];
  }

  /** The rewritten line `id` follows the lines before it; once every line is
      copied, the result is the lines with line `id` replaced. */
  lemma Replaced(lines: seq<string>, id: nat, x: string)
    requires id < |lines|
    ensures lines[..id] + [x] + lines[id + 1..id + 1] == lines[..id] + [x]
    ensures lines[..id] + [x] + lines[id + 1..|lines|] == lines[id := x]
  {
  }

  class TodoFile {
    /** The bytes of the file. */
    var data: string

    /** Opening the file: an existing file keeps its contents, a new one is empty. */
    constructor (existing: string)
      ensures data == existing
    {
      data := existing;
    }

    /** `set_len(0)`. */
    method Truncate()
      modifies this
      ensures data == []
    {
      data := [];
    }

    /** `write_all` on a file opened in append mode. */
    method WriteAll(s: string)
      modifies this
      ensures data == old(data) + s
    {
      data := data + s;
    }

    /** `add`: appends one line for a new, pending, normal entry after all
        existing contents. */
    method AddEntry(text: string)
      modifies this
      ensures data == old(data) + AddedLine(text)
    {
      WriteAll(AddedLine(text));
    }

    /** `remove`: copies every line but line `id`; fails with `InvalidId` when
        the file has no line `id`. */
    method RemoveEntry(id: nat) returns (r: Result<string>)
      ensures r == if id < |ReadLines(data)| then Ok(RemovedContents(data, id)) else Err(InvalidId)
    {
      var lines := ReadLines(data);
      var l := "";
      var i := 0;
      ghost var copied: seq<string> := [];
      while i < |lines|
        invariant i <= |lines|
        invariant i <= id ==> copied == lines[..i]
        invariant i > id ==> copied == lines[..id] + lines[id + 1..i]
        invariant l == Concat(copied)
      {
        if i != id {
          ConcatSnoc(copied, lines[i]);
          Extend(lines, i, id);
          copied := copied + [lines[i]];
          l := l + lines[i];
        }
        i := i + 1;
      }
      if i <= id {
        return Err(InvalidId);
      }
      assert lines[id + 1..i] == lines[id + 1..];
      return Ok(l);
    }

    /** `done`: copies every line but line `id`, which it rewrites with
        `FlipDone`; fails with `InvalidId` when the file has no line `id`. */
    method DoneEntry(id: nat) returns (r: Result<string>)
      ensures r == if id < |ReadLines(data)| then Ok(DoneContents(data, id)) else Err(InvalidId)
    {
      var lines := ReadLines(data);
      var l := "";
      var i := 0;
      ghost var copied: seq<string> := [];
      while i < |lines|
        invariant i <= |lines|
        invariant i <= id ==> copied == lines[..i]
        invariant i > id ==> copied == lines[..id] + [FlipDone(lines[id])] + lines[id + 1..i]
        invariant l == Concat(copied)
      {
        if i != id {
          ConcatSnoc(copied, lines[i]);
          if i > id {
            ExtendReplaced(lines, i, id, FlipDone(lines[id]));
          } else {
            Extend(lines, i, id);
          }
          copied := copied + [lines[i]];
          l := l + lines[i];
        } else {
          var line := FlipDone(lines[i]);
          ConcatSnoc(copied, line);
          Replaced(lines, id, line);
          copied := copied + [line];
          l := l + line;
        }
        i := i + 1;
      }
      if i <= id {
        return Err(InvalidId);
      }
      Replaced(lines, id, FlipDone(lines[id]));
      return Ok(l);
    }

    /** `urgent`: copies every line but line `id`, which it rewrites with
        `FlipUrgent`; fails with `InvalidId` when the file has no line `id`,
        and stops with `MalformedLine` when that line holds no space. */
    method UrgentEntry(id: nat) returns (r: Result<string>)
      ensures r == if id >= |ReadLines(data)| then Err(InvalidId)
                   else if ' ' !in ReadLines(data)[id] then Err(MalformedLine)
                   else Ok(UrgentContents(data, id))
    {
      var lines := ReadLines(data);
      var l := "";
      var i := 0;
      ghost var copied: seq<string> := [];
      while i < |lines|
        invariant i <= |lines|
        invariant i <= id ==> copied == lines[..i]
        invariant i > id ==> ' ' in lines[id] && copied == lines[..id] + [FlipUrgent(lines[id])] + lines[id + 1..i]
        invariant l == Concat(copied)
      {
        if i != id {
          ConcatSnoc(copied, lines[i]);
          if i > id {
            ExtendReplaced(lines, i, id, FlipUrgent(lines[id]));
          } else {
            Extend(lines, i, id);
          }
          copied := copied + [lines[i]];
          l := l + lines[i];
        } else {
          if ' ' !in lines[i] {
            return Err(MalformedLine);
          }
          var line := FlipUrgent(lines[i]);
          ConcatSnoc(copied, line);
          Replaced(lines, id, line);
          copied := copied + [line];
          l := l + line;
        }
        i := i + 1;
      }
      if i <= id {
        return Err(InvalidId);
      }
      Replaced(lines, id, FlipUrgent(lines[id]));
      return Ok(l);
    }

    /** The decoding part of `list`: every line in file order, numbered from
        0; stops with `MalformedLine` at the first line holding no space. */
    method ListEntries() returns (r: Result<seq<Entry>>)
      ensures r.Ok? <==> Decodable(ReadLines(data))
      ensures r.Err? ==> r.error == MalformedLine
      ensures r.Ok? ==> |r.value| == |ReadLines(data)|
      ensures r.Ok? ==> forall j :: 0 <= j < |r.value| ==>
        ' ' in ReadLines(data)[j] && r.value[j] == Entry(j, Decode(ReadLines(data)[j]))
    {
      var lines := ReadLines(data);
      var entries: seq<Entry> := [];
      var id := 0;
      while id < |lines|
        invariant id <= |lines| && |entries| == id
        invariant forall j :: 0 <= j < id ==> ' ' in lines[j] && entries[j] == Entry(j, Decode(lines[j]))
      {
        if ' ' !in lines[id] {
          return Err(MalformedLine);
        }
        entries := entries + [Entry(id, Decode(lines[id]))];
        id := id + 1;
      }
      return Ok(entries);
    }

    /** The main routine after the file is opened: runs one command. `remove`,
        `done` and `urgent` compute the new contents first and truncate and
        rewrite the file only when that succeeded, so on every failure and
        every missing argument the file is left as it was. */
    method Run(command: Option<Action>) returns (outcome: Outcome)
      modifies this
      ensures outcome.Failed? || outcome.MissingArgument? || outcome.Listed? ==> data == old(data)
      ensures command.None? ==>
        (outcome.Listed? <==> Decodable(ReadLines(data))) &&
        (outcome.Listed? ==>
          |outcome.entries| == |ReadLines(data)| &&
          forall j :: 0 <= j < |outcome.entries| ==>
            ' ' in ReadLines(data)[j] && outcome.entries[j] == Entry(j, Decode(ReadLines(data)[j]))) &&
        (!outcome.Listed? ==> outcome == Failed(MalformedLine))
      ensures command.Some? && command.value.Add? ==>
        if command.value.entry.Some?
        then outcome == Updated && data == old(data) + AddedLine(command.value.entry.value)
        else outcome == MissingArgument
      ensures command == Some(Clear) ==> outcome == Updated && data == []
      ensures command.Some? && command.value.Remove? ==>
        var n := |ReadLines(old(data))|;
        match command.value.id
        case None => outcome == MissingArgument
        case Some(id) =>
          if id < n then outcome == Updated && data == RemovedContents(old(data), id)
          else outcome == Failed(InvalidId)
      ensures command.Some? && command.value.Done? ==>
        var n := |ReadLines(old(data))|;
        match command.value.id
        case None => outcome == MissingArgument
        case Some(id) =>
          if id < n then outcome == Updated && data == DoneContents(old(data), id)
          else outcome == Failed(InvalidId)
      ensures command.Some? && command.value.Urgent? ==>
        var lines := ReadLines(old(data));
        match command.value.id
        case None => outcome == MissingArgument
        case Some(id) =>
          if id >= |lines| then outcome == Failed(InvalidId)
          else if ' ' !in lines[id] then outcome == Failed(MalformedLine)
          else outcome == Updated && data == UrgentContents(old(data), id)
    {
      match command {
        case None =>
          var r := ListEntries();
          if r.Err? {
            return Failed(r.error);
          }
          return Listed(r.value);
        case Some(Add(entry)) =>
          if entry.None? {
            return MissingArgument;
          }
          AddEntry(entry.value);
          return Updated;
        case Some(Remove(id)) =>
          if id.None? {
            return MissingArgument;
          }
          var r := RemoveEntry(id.value);
          if r.Err? {
            return Failed(r.error);
          }
          Truncate();
          WriteAll(r.value);
          return Updated;
        case Some(Clear) =>
          Truncate();
          return Updated;
        case Some(Done(id)) =>
          if id.None? {
            return MissingArgument;
          }
          var r := DoneEntry(id.value);
          if r.Err? {
            return Failed(r.error);
          }
          Truncate();
          WriteAll(r.value);
          return Updated;
        case Some(Urgent(id)) =>
          if id.None? {
            return MissingArgument;
          }
          var r := UrgentEntry(id.value);
          if r.Err? {
            return Failed(r.error);
          }
          Truncate();
          WriteAll(r.value);
          return Updated;
      }
    }
  }
}
