/** The file as `BufReader::read_line` sees it: a sequence of chunks, each
    running up to and including a line terminator, the last one possibly
    without it. */
module Lines {
  import opened Text

  /** A chunk read_line can return: not empty, and a newline at most at its end. */
  predicate IsLine(x: string)
  {
    x != [] && '\n' !in x[..|x| - 1]
  }

  /** A chunk that ends with the line terminator. */
  predicate Terminated(x: string)
  {
    x != [] && x[|x| - 1] == '\n'
  }

  /** Chunks that read_line would return one after the other: every chunk is a
      line and every chunk but the last is terminated. */
  predicate WellFormed(lines: seq<string>)
  {
    forall j :: 0 <= j < |lines| ==> IsLine(lines[j]) && (j + 1 < |lines| ==> Terminated(lines[j]))
  }

  /** The chunks written one after the other. */
  function Concat(lines: seq<string>): string
  {
    if lines == [] then "" else lines[0] + Concat(lines[1..])
  }

  /** How much one read_line call consumes from a non-empty rest of the file:
      everything up to and including the first newline, or all that is left. */
  function LineLength(s: string): (k: nat)
    requires s != []
    ensures 0 < k <= |s|
    ensures IsLine(s[..k])
    ensures k < |s| ==> s[k - 1] == '\n'
  {
    if s[0] == '\n' || |s| == 1 then 1
    else
      var k := 1 + LineLength(s[1..]);
      assert s[..k][..k - 1] == [s[0]] + s[1..][..k - 1][..k - 2];
      k
  }

  /** The chunks that successive read_line calls return until one returns 0. */
  function ReadLines(s: string): (lines: seq<string>)
    ensures WellFormed(lines)
    ensures Concat(lines) == s
    decreases |s|
  {
    if s == [] then []
    else
      var k := LineLength(s);
      var rest := ReadLines(s[k..]);
      assert s == s[..k] + s[k..];
      assert ([s[..k]] + rest)[1..] == rest;
      assert forall j :: 1 <= j < |rest| + 1 ==> ([s[..k]] + rest)[j] == rest[j - 1];
      [s[..k]] + rest
  }

  /** Writing one chunk then more: the chunks concatenate. */
  lemma {:induction false} ConcatAppend(a: seq<string>, b: seq<string>)
    ensures Concat(a + b) == Concat(a) + Concat(b)
  {
    if a != [] {
      assert (a + b)[0] == a[0];
      assert (a + b)[1..] == a[1..] + b;
      ConcatAppend(a[1..], b);
    } else {
      assert a + b == b;
    }
  }

  /** Writing one more chunk at the end. */
  lemma ConcatSnoc(a: seq<string>, x: string)
    ensures Concat(a + [x]) == Concat(a) + x
  {
    ConcatAppend(a, [x]);
    assert [x][1..] == [];
  }

  /** Where newlines may stand in a line made of a head, a space and a tail,
      and whether it is terminated. */
  lemma LineShape(head: string, tail: string)
    ensures IsLine(head + " " + tail) <==> '\n' !in head && (tail == [] || '\n' !in tail[..|tail| - 1])
    ensures Terminated(head + " " + tail) <==> Terminated(tail)
  {
    var x := head + " " + tail;
    if tail == [] {
      assert x[..|x| - 1] == head;
    } else {
      assert x[..|x| - 1] == head + " " + tail[..|tail| - 1];
      assert x[|x| - 1] == tail[|tail| - 1];
    }
  }

  /** read_line consumes exactly a whole line when the line is terminated or
      is all that is left. */
  lemma {:induction false} LineLengthOfLine(x: string, rest: string)
    requires IsLine(x)
    requires Terminated(x) || rest == []
    ensures LineLength(x + rest) == |x|
  {
    var s := x + rest;
    assert s[0] == x[0];
    if |x| > 1 {
      assert x[0] == x[..|x| - 1][0];
      assert s[1..] == x[1..] + rest;
      assert x[1..][..|x| - 2] == x[..|x| - 1][1..];
      LineLengthOfLine(x[1..], rest);
    }
  }

  /** Re-reading what was written gives back the same chunks when they were
      well formed. */
  lemma {:induction false} ReadLinesOfConcat(lines: seq<string>)
    requires WellFormed(lines)
    ensures ReadLines(Concat(lines)) == lines
  {
    if lines != [] {
      var x, more := lines[0], lines[1..];
      assert WellFormed(more) by {
        forall j | 0 <= j < |more| ensures IsLine(more[j]) && (j + 1 < |more| ==> Terminated(more[j])) {
          assert more[j] == lines[j + 1];
        }
      }
      ReadLinesOfConcat(more);
      assert more == [] ==> Concat(more) == [];
      LineLengthOfLine(x, Concat(more));
      var s := Concat(lines);
      assert s == x + Concat(more);
      assert s[..|x|] == x && s[|x|..] == Concat(more);
    }
  }

  /** One read_line call, then the calls that follow it. */
  lemma ReadLinesCons(s: string)
    requires s != []
    ensures ReadLines(s) == [s[..LineLength(s)]] + ReadLines(s[LineLength(s)..])
  {
  }

  /** Appending to a file that is empty or ends with a newline: the old lines
      stay as they were and the appended text's lines follow them. */
  lemma {:induction false} ReadLinesAppend(a: string, b: string)
    requires a == [] || Terminated(a)
    ensures ReadLines(a + b) == ReadLines(a) + ReadLines(b)
    decreases |a|
  {
    if a == [] {
      assert a + b == b;
    } else {
      var k := LineLength(a);
      var x, rest := a[..k], a[k..];
      assert rest == [] || Terminated(rest) by {
        if rest != [] { assert rest[|rest| - 1] == a[|a| - 1]; }
      }
      var s := a + b;
      assert s[..k] == x && s[k..] == rest + b && LineLength(s) == k by {
        assert Terminated(x) by {
          if k == |a| { assert x == a; }
        }
        assert s == x + (rest + b);
        LineLengthOfLine(x, rest + b);
      }
      calc {
        ReadLines(s);
      == { ReadLinesCons(s); }
        [x] + ReadLines(rest + b);
      == { ReadLinesAppend(rest, b); }
        [x] + (ReadLines(rest) + ReadLines(b));
      == { ConsAppend(x, ReadLines(rest), ReadLines(b)); }
        ([x] + ReadLines(rest)) + ReadLines(b);
      == { ReadLinesCons(a); }
        ReadLines(a) + ReadLines(b);
      }
    }
  }
}
