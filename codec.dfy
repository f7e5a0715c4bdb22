/** One line of the todo file: `<done> <urgent> <text>`, where the first
    token is `DONE` or `NOT_DONE` and the second `URGENT` or `NORMAL`. The
    functions here are the per-line parts of `add`, `list`, `done` and
    `urgent`, which all work on the pieces of the line split on ' '. */
module Codec {
  import opened Text

  /** What `list` reads from a line. The text is the pieces after the second
      one joined with " ", so it keeps the line's terminator. */
  datatype Record = Record(done: bool, urgent: bool, text: string)

  /** The line `add` appends for a new entry: one line, ending with the
      terminator `writeln!` adds, which is its only newline when the text
      holds none. */
  function AddedLine(text: string): (r: string)
    ensures |r| > 0 && r[|r| - 1] == '\n'
    ensures '\n' !in text ==> '\n' !in r[..|r| - 1]
  {
    var r := "NOT_DONE NORMAL " + text + "\n";
    assert r[..|r| - 1] == "NOT_DONE NORMAL " + text;
    r
  }

  /** Decoding in `list`. The line must hold a space, since the second piece
      is indexed without a check. An entry is done exactly when its line
      starts with "DONE ". */
  function Decode(line: string): (r: Record)
    requires ' ' in line
    ensures r.done <==> "DONE " <= line
  {
    SplitSeveral(line, ' ');
    FirstTokenIs(line, "DONE");
    var words := Split(line, ' ');
    Record(words[0] == "DONE", words[1] == "URGENT", Join(words[2..], " "))
  }

  /** The rewritten line in `done`: the first piece is replaced and the
      remaining pieces are joined back with " ". The result always starts
      with a token `done` writes, and on a line holding a space it starts
      with "NOT_DONE " exactly when the line started with "DONE ". */
  function FlipDone(line: string): (r: string)
    ensures "DONE " <= r || "NOT_DONE " <= r
    ensures ' ' in line ==> ("NOT_DONE " <= r <==> "DONE " <= line)
  {
    FirstTokenIs(line, "DONE");
    var words := Split(line, ' ');
    var head := ToggledDone(words[0]) + " ";
    var r := head + Join(words[1..], " ");
    assert r[..|head|] == head && r[0] == head[0];
    r
  }

  /** The rewritten line in `urgent`: the first piece is kept, the second is
      replaced and the pieces after it are joined back with " ". The line
      must hold a space, since the second piece is indexed without a check.
      The result keeps the first token and has a second token, which is
      "URGENT" exactly when the old one was not. */
  function FlipUrgent(line: string): (r: string)
    requires ' ' in line
    ensures |Split(line, ' ')| >= 2 && |Split(r, ' ')| >= 2
    ensures Split(r, ' ')[0] == Split(line, ' ')[0]
    ensures Split(r, ' ')[1] == "URGENT" <==> Split(line, ' ')[1] != "URGENT"
  {
    SplitSeveral(line, ' ');
    var words := Split(line, ' ');
    var t := ToggledUrgent(words[1]);
    var text := Join(words[2..], " ");
    FirstPieceNoSpace(line);
    SplitHead(words[0], t + " " + text);
    SplitHead(t, text);
    assert words[0] + " " + t + " " + text == words[0] + " " + (t + " " + text);
    words[0] + " " + t + " " + text
  }

  /** The token `done` writes in place of `token`. */
  function ToggledDone(token: string): string
  {
    if token == "DONE" then "NOT_DONE" else "DONE"
  }

  /** The token `urgent` writes in place of `token`. */
  function ToggledUrgent(token: string): string
  {
    if token == "URGENT" then "NORMAL" else "URGENT"
  }

  /** The pieces of a line whose first token is `t0`. */
  lemma SplitHead(t0: string, rest: string)
    requires ' ' !in t0
    ensures Split(t0 + " " + rest, ' ') == [t0] + Split(rest, ' ')
  {
    assert t0 + " " + rest == t0 + [' '] + rest;
    SplitAppend(t0, ' ', rest);
    SplitNoSep(t0, ' ');
  }

  /** The first piece of a line holding a space is `token` exactly when the
      line starts with `token` and a space. */
  lemma FirstTokenIs(line: string, token: string)
    requires ' ' !in token
    ensures ' ' in line ==> (Split(line, ' ')[0] == token <==> token + " " <= line)
  {
    if token + " " <= line {
      var rest := line[|token| + 1..];
      assert line == token + " " + rest;
      SplitHead(token, rest);
    } else if ' ' in line {
      var t0, rest := FirstToken(line);
    }
  }

  /** The first piece of a split holds no separator. */
  lemma FirstPieceNoSpace(line: string)
    ensures ' ' !in Split(line, ' ')[0]
  {
    if ' ' in line {
      var t0, rest := FirstToken(line);
    } else {
      SplitNoSep(line, ' ');
    }
  }

  /** Every line holding a space is its first token, a space and the rest. */
  lemma FirstToken(line: string) returns (t0: string, rest: string)
    requires ' ' in line
    ensures ' ' !in t0 && line == t0 + " " + rest
    ensures Split(line, ' ') == [t0] + Split(rest, ' ')
  {
    SplitAtFirst(line, ' ');
    var k := IndexOf(line, ' ');
    t0, rest := line[..k], line[k + 1..];
  }

  /** Decoding a line with two tokens before its text. */
  lemma DecodeFields(t0: string, t1: string, rest: string)
    requires ' ' !in t0 && ' ' !in t1
    ensures ' ' in t0 + " " + t1 + " " + rest
    ensures Decode(t0 + " " + t1 + " " + rest) == Record(t0 == "DONE", t1 == "URGENT", rest)
  {
    var line := t0 + " " + t1 + " " + rest;
    assert line == t0 + " " + (t1 + " " + rest);
    assert line[|t0|] == ' ';
    SplitHead(t0, t1 + " " + rest);
    SplitHead(t1, rest);
    var words := Split(line, ' ');
    assert words == [t0, t1] + Split(rest, ' ');
    assert words[2..] == Split(rest, ' ');
    JoinSplit(rest, ' ');
  }

  /** Decoding a line with exactly one space: the text is empty and the line
      terminator is part of the second token. */
  lemma DecodeTwoTokens(t0: string, t1: string)
    requires ' ' !in t0 && ' ' !in t1
    ensures ' ' in t0 + " " + t1
    ensures Decode(t0 + " " + t1) == Record(t0 == "DONE", t1 == "URGENT", "")
  {
    var line := t0 + " " + t1;
    assert line[|t0|] == ' ';
    SplitHead(t0, t1);
    SplitNoSep(t1, ' ');
    assert Split(line, ' ') == [t0, t1];
  }

  /** A line written by `add` decodes as a pending, normal entry whose text is
      the added text followed by the line terminator. */
  lemma DecodeAddedLine(text: string)
    ensures ' ' in AddedLine(text)
    ensures Decode(AddedLine(text)) == Record(false, false, text + "\n")
  {
    assert AddedLine(text) == "NOT_DONE" + " " + "NORMAL" + " " + (text + "\n");
    DecodeFields("NOT_DONE", "NORMAL", text + "\n");
  }

  /** `done` replaces the first token and keeps everything after the first
      space, the terminator included. */
  lemma FlipDoneFields(t0: string, rest: string)
    requires ' ' !in t0
    ensures FlipDone(t0 + " " + rest) == ToggledDone(t0) + " " + rest
  {
    SplitHead(t0, rest);
    assert Split(t0 + " " + rest, ' ')[1..] == Split(rest, ' ');
    JoinSplit(rest, ' ');
  }

  /** `done` on a line without a space: the whole line is taken as the first
      token, so the result is a token and a space, without the terminator. */
  lemma FlipDoneNoSpace(line: string)
    requires ' ' !in line
    ensures FlipDone(line) == ToggledDone(line) + " "
    ensures '\n' !in FlipDone(line)
  {
    SplitNoSep(line, ' ');
  }

  /** `urgent` keeps the first token, replaces the second and keeps everything
      after the second space. */
  lemma FlipUrgentFields(t0: string, t1: string, rest: string)
    requires ' ' !in t0 && ' ' !in t1
    ensures ' ' in t0 + " " + t1 + " " + rest
    ensures FlipUrgent(t0 + " " + t1 + " " + rest) == t0 + " " + ToggledUrgent(t1) + " " + rest
  {
    var line := t0 + " " + t1 + " " + rest;
    assert line == t0 + " " + (t1 + " " + rest);
    assert line[|t0|] == ' ';
    var words := Split(line, ' ');
    assert words == [t0, t1] + Split(rest, ' ') && words[2..] == Split(rest, ' ') by {
      SplitHead(t0, t1 + " " + rest);
      SplitHead(t1, rest);
    }
    JoinSplit(rest, ' ');
  }

  /** `urgent` on a line with exactly one space: the second token, terminator
      included, is replaced and nothing follows the new trailing space. */
  lemma FlipUrgentTwoTokens(t0: string, t1: string)
    requires ' ' !in t0 && ' ' !in t1
    ensures ' ' in t0 + " " + t1
    ensures FlipUrgent(t0 + " " + t1) == t0 + " " + ToggledUrgent(t1) + " "
  {
    var line := t0 + " " + t1;
    assert line[|t0|] == ' ';
    SplitHead(t0, t1);
    SplitNoSep(t1, ' ');
    assert Split(line, ' ') == [t0, t1];
  }

  /** Toggling done flips the decoded `done` flag and nothing else. */
  lemma FlipDoneDecode(line: string)
    requires ' ' in line
    ensures ' ' in FlipDone(line)
    ensures Decode(FlipDone(line)) == Decode(line).(done := !Decode(line).done)
  {
    var t0, rest := FirstToken(line);
    FlipDoneFields(t0, rest);
    var t := ToggledDone(t0);
    assert ' ' !in t;
    SplitHead(t, rest);
    var flipped := t + " " + rest;
    assert flipped[|t|] == ' ';
    SplitSeveral(line, ' ');
    SplitSeveral(flipped, ' ');
    assert Split(flipped, ' ')[1..] == Split(line, ' ')[1..];
  }

  /** Toggling urgent flips the decoded `urgent` flag and nothing else. */
  lemma FlipUrgentDecode(line: string)
    requires ' ' in line
    ensures ' ' in FlipUrgent(line)
    ensures Decode(FlipUrgent(line)) == Decode(line).(urgent := !Decode(line).urgent)
  {
    var t0, rest := FirstToken(line);
    if ' ' in rest {
      var t1, text := FirstToken(rest);
      assert line == t0 + " " + t1 + " " + text;
      FlipUrgentFieldsDecode(t0, t1, text);
      DecodeFields(t0, t1, text);
    } else {
      FlipUrgentTwoTokensDecode(t0, rest);
      DecodeTwoTokens(t0, rest);
    }
  }

  lemma FlipUrgentFieldsDecode(t0: string, t1: string, text: string)
    requires ' ' !in t0 && ' ' !in t1
    ensures ' ' in t0 + " " + t1 + " " + text
    ensures ' ' in FlipUrgent(t0 + " " + t1 + " " + text)
    ensures Decode(FlipUrgent(t0 + " " + t1 + " " + text))
         == Record(t0 == "DONE", t1 != "URGENT", text)
  {
    FlipUrgentFields(t0, t1, text);
    assert ' ' !in ToggledUrgent(t1);
    DecodeFields(t0, ToggledUrgent(t1), text);
  }

  lemma FlipUrgentTwoTokensDecode(t0: string, t1: string)
    requires ' ' !in t0 && ' ' !in t1
    ensures ' ' in t0 + " " + t1
    ensures ' ' in FlipUrgent(t0 + " " + t1)
    ensures Decode(FlipUrgent(t0 + " " + t1)) == Record(t0 == "DONE", t1 != "URGENT", "")
  {
    FlipUrgentTwoTokens(t0, t1);
    var u := ToggledUrgent(t1);
    assert ' ' !in u;
    assert t0 + " " + u + " " == t0 + " " + u + " " + "";
    DecodeFields(t0, u, "");
  }

  /** On a line whose first token is one `done` writes, toggling done twice
      gives back the line byte for byte. */
  lemma FlipDoneTwice(line: string)
    requires ' ' in line
    requires Split(line, ' ')[0] in {"DONE", "NOT_DONE"}
    ensures FlipDone(FlipDone(line)) == line
  {
    var t0, rest := FirstToken(line);
    FlipDoneFields(t0, rest);
    assert ' ' !in ToggledDone(t0);
    FlipDoneFields(ToggledDone(t0), rest);
  }

  /** On a line with two tokens before its text, the second being one
      `urgent` writes, toggling urgent twice gives back the line byte for byte. */
  lemma FlipUrgentTwice(line: string)
    requires |Split(line, ' ')| >= 3
    requires Split(line, ' ')[1] in {"URGENT", "NORMAL"}
    ensures ' ' in line && ' ' in FlipUrgent(line)
    ensures FlipUrgent(FlipUrgent(line)) == line
  {
    SplitSeveral(line, ' ');
    var t0, rest := FirstToken(line);
    SplitSeveral(rest, ' ');
    var t1, text := FirstToken(rest);
    assert line == t0 + " " + t1 + " " + text;
    assert Split(line, ' ')[1] == t1;
    FlipUrgentFields(t0, t1, text);
    assert ' ' !in ToggledUrgent(t1);
    FlipUrgentFields(t0, ToggledUrgent(t1), text);
  }
}
