/** Splitting a string on a one-character separator and joining pieces back,
    with the semantics of Rust's `str::split` and `[&str]::join`. */
module Text {

  /** The pieces of `s` between occurrences of `sep`, in order. As with
      `str::split`, `k` separators give `k + 1` pieces, empty ones included,
      and the empty string gives one empty piece. */
  function Split(s: string, sep: char): (parts: seq<string>)
    ensures |parts| >= 1
    decreases |s|
  {
    if s == [] then [""]
    else if s[0] == sep then [""] + Split(s[1..], sep)
    else
      var rest := Split(s[1..], sep);
      [[s[0]] + rest[0]] + rest[1..]
  }

  /** A string splits into two or more pieces exactly when it holds the separator. */
  lemma {:induction false} SplitSeveral(s: string, sep: char)
    ensures sep in s <==> |Split(s, sep)| >= 2
  {
    if s != [] {
      assert s == [s[0]] + s[1..];
      SplitSeveral(s[1..], sep);
    }
  }

  /** The pieces, with `sep` between each two neighbours; empty for no pieces. */
  function Join(parts: seq<string>, sep: string): string
  {
    if |parts| == 0 then ""
    else if |parts| == 1 then parts[0]
    else parts[0] + sep + Join(parts[1..], sep)
  }

  /** The position of the first `c` in `s`. */
  function IndexOf(s: string, c: char): (k: nat)
    requires c in s
    ensures k < |s| && s[k] == c
    ensures c !in s[..k]
  {
    if s[0] == c then 0
    else
      assert c in s[1..] by { assert s == [s[0]] + s[1..]; }
      var k := 1 + IndexOf(s[1..], c);
      assert s[..k] == [s[0]] + s[1..][..k - 1];
      k
  }

  /** Joining the pieces of a split with the separator gives back the string. */
  lemma {:induction false} JoinSplit(s: string, sep: char)
    ensures Join(Split(s, sep), [sep]) == s
  {
    if s == [] {
    } else if s[0] == sep {
      JoinSplit(s[1..], sep);
      var rest := Split(s[1..], sep);
      assert Split(s, sep) == [""] + rest;
      assert ([""] + rest)[1..] == rest;
      assert s == [sep] + s[1..];
    } else {
      JoinSplit(s[1..], sep);
      var rest := Split(s[1..], sep);
      var parts := [[s[0]] + rest[0]] + rest[1..];
      assert Split(s, sep) == parts;
      assert s == [s[0]] + s[1..];
      if |rest| > 1 {
        assert parts[1..] == rest[1..];
      }
    }
  }

  /** Splitting a string that starts with the separator: an empty piece,
      then the pieces of the rest. */
  lemma SplitConsSep(t: string, sep: char)
    ensures Split([sep] + t, sep) == [""] + Split(t, sep)
  {
    assert ([sep] + t)[1..] == t;
  }

  /** Splitting a string that starts with another character: that character
      extends the first piece of the rest. */
  lemma SplitConsOther(c: char, t: string, sep: char)
    requires c != sep
    ensures Split([c] + t, sep) == [[c] + Split(t, sep)[0]] + Split(t, sep)[1..]
  {
    assert ([c] + t)[1..] == t;
  }

  /** A separator splits the string into the pieces of what stands before it
      followed by the pieces of what stands after it. */
  lemma {:induction false} SplitAppend(x: string, sep: char, y: string)
    ensures Split(x + [sep] + y, sep) == Split(x, sep) + Split(y, sep)
  {
    var q := Split(y, sep);
    if x == [] {
      calc {
        Split(x + [sep] + y, sep);
      == { assert x + [sep] + y == [sep] + y; }
        Split([sep] + y, sep);
      == { SplitConsSep(y, sep); }
        [""] + q;
      }
    } else {
      var c, t := x[0], x[1..] + [sep] + y;
      var p := Split(x[1..], sep);
      assert x + [sep] + y == [c] + t;
      assert x == [c] + x[1..];
      if c == sep {
        calc {
          Split([c] + t, sep);
        == { SplitConsSep(t, sep); }
          [""] + Split(t, sep);
        == { SplitAppend(x[1..], sep, y); }
          [""] + (p + q);
        == { ConsAppend("", p, q); }
          ([""] + p) + q;
        == { SplitConsSep(x[1..], sep); }
          Split(x, sep) + q;
        }
      } else {
        calc {
          Split([c] + t, sep);
        == { SplitConsOther(c, t, sep); }
          [[c] + Split(t, sep)[0]] + Split(t, sep)[1..];
        == { SplitAppend(x[1..], sep, y); }
          [[c] + (p + q)[0]] + (p + q)[1..];
        == { HeadTailAppend(p, q); }
          [[c] + p[0]] + (p[1..] + q);
        == { ConsAppend([c] + p[0], p[1..], q); }
          ([[c] + p[0]] + p[1..]) + q;
        == { SplitConsOther(c, x[1..], sep); }
          Split(x, sep) + q;
        }
      }
    }
  }

  lemma ConsAppend(x: string, p: seq<string>, q: seq<string>)
    ensures [x] + (p + q) == ([x] + p) + q
  {
  }

  lemma HeadTailAppend(p: seq<string>, q: seq<string>)
    requires p != []
    ensures (p + q)[0] == p[0] && (p + q)[1..] == p[1..] + q
  {
  }

  /** A string without the separator is a single piece. */
  lemma {:induction false} SplitNoSep(s: string, sep: char)
    requires sep !in s
    ensures Split(s, sep) == [s]
  {
    if s != [] {
      assert sep !in s[1..] by { assert s == [s[0]] + s[1..]; }
      SplitNoSep(s[1..], sep);
      assert s == [s[0]] + s[1..];
    }
  }

  /** Splitting at the first separator: the first piece is everything before
      it, the remaining pieces are those of everything after it. */
  lemma SplitAtFirst(s: string, sep: char)
    requires sep in s
    ensures var k := IndexOf(s, sep);
      s == s[..k] + [sep] + s[k + 1..] &&
      Split(s, sep) == [s[..k]] + Split(s[k + 1..], sep)
  {
    var k := IndexOf(s, sep);
    assert s == s[..k] + [sep] + s[k + 1..];
    SplitAppend(s[..k], sep, s[k + 1..]);
    SplitNoSep(s[..k], sep);
  }
}
