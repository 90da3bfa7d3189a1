/** Python string operations used by the combiner, on `seq<char>`:
    `s.split(sep)` for a one-character separator, `sep.join(parts)`,
    `s.split(sep).pop()` and `s.replace(a, b)` for single characters. */
module Text {

  /** `s.split(sep)`: the pieces between separators, in order; a string without
      the separator is one piece, and a trailing separator leaves an empty piece. */
  function Split(s: string, sep: char): (parts: seq<string>)
    ensures |parts| >= 1
    ensures forall k :: 0 <= k < |parts| ==> sep !in parts[k]
  {
    if s == [] then
      [""]
    else
      var init := Split(s[..|s| - 1], sep);
      var c := s[|s| - 1];
      if c == sep then init + [""]
      else init[..|init| - 1] + [init[|init| - 1] + [c]]
  }

  /** `sep.join(parts)`. */
  function Join(parts: seq<string>, sep: char): string
    requires |parts| >= 1
  {
    if |parts| == 1 then parts[0]
    else Join(parts[..|parts| - 1], sep) + [sep] + parts[|parts| - 1]
  }

  /** Splitting loses nothing: joining the pieces back gives the original string. */
  lemma {:induction false} JoinSplit(s: string, sep: char)
    ensures Join(Split(s, sep), sep) == s
  {
    if s != [] {
      var s' := s[..|s| - 1];
      var c := s[|s| - 1];
      var init := Split(s', sep);
      JoinSplit(s', sep);
      assert s == s' + [c];
      if c == sep {
        JoinSnoc(init, "", sep);
      } else {
        JoinExtendLast(init, c, sep);
      }
    }
  }

  /** Joining one more piece adds the separator and that piece. */
  lemma JoinSnoc(parts: seq<string>, p: string, sep: char)
    requires |parts| >= 1
    ensures Join(parts + [p], sep) == Join(parts, sep) + [sep] + p
  {
    assert (parts + [p])[..|parts|] == parts;
  }

  /** Extending the last piece by a character extends the joined string by it. */
  lemma JoinExtendLast(parts: seq<string>, c: char, sep: char)
    requires |parts| >= 1
    ensures Join(parts[..|parts| - 1] + [parts[|parts| - 1] + [c]], sep) == Join(parts, sep) + [c]
  {
    var front, last := parts[..|parts| - 1], parts[|parts| - 1];
    if front != [] {
      JoinSnoc(front, last + [c], sep);
      JoinSnoc(front, last, sep);
      assert parts == front + [last];
    }
  }

  /** A string without the separator splits into itself alone. */
  lemma {:induction false} SplitNoSeparator(s: string, sep: char)
    requires sep !in s
    ensures Split(s, sep) == [s]
  {
    if s != [] {
      var s' := s[..|s| - 1];
      assert sep !in s' by {
        forall k | 0 <= k < |s'| ensures s'[k] != sep { assert s'[k] == s[k]; }
      }
      SplitNoSeparator(s', sep);
      assert s == s' + [s[|s| - 1]];
    }
  }

  /** Appending a separator and a separator-free piece adds exactly that piece. */
  lemma {:induction false} SplitAppendPiece(x: string, sep: char, y: string)
    requires sep !in y
    ensures Split(x + [sep] + y, sep) == Split(x, sep) + [y]
    decreases |y|
  {
    if y == [] {
      assert (x + [sep] + y)[..|x + [sep] + y| - 1] == x;
    } else {
      var y' := y[..|y| - 1];
      var c := y[|y| - 1];
      assert sep !in y' by {
        forall k | 0 <= k < |y'| ensures y'[k] != sep { assert y'[k] == y[k]; }
      }
      assert c != sep by { assert c == y[|y| - 1]; }
      SplitAppendPiece(x, sep, y');
      var s := x + [sep] + y;
      assert s[..|s| - 1] == x + [sep] + y';
      assert s[|s| - 1] == c;
      var init := Split(x, sep) + [y'];
      assert init[..|init| - 1] == Split(x, sep);
      assert y' + [c] == y;
    }
  }

  /** Two separator-free pieces around one separator split back into the two. */
  lemma SplitTwo(a: string, sep: char, b: string)
    requires sep !in a && sep !in b
    ensures Split(a + [sep] + b, sep) == [a, b]
  {
    SplitNoSeparator(a, sep);
    SplitAppendPiece(a, sep, b);
  }

  /** Joining separator-free pieces and splitting again gives the pieces back. */
  lemma {:induction false} SplitJoin(parts: seq<string>, sep: char)
    requires |parts| >= 1
    requires forall k :: 0 <= k < |parts| ==> sep !in parts[k]
    ensures Split(Join(parts, sep), sep) == parts
  {
    if |parts| == 1 {
      SplitNoSeparator(parts[0], sep);
    } else {
      var init := parts[..|parts| - 1];
      SplitJoin(init, sep);
      SplitAppendPiece(Join(init, sep), sep, parts[|parts| - 1]);
      assert init + [parts[|parts| - 1]] == parts;
    }
  }

  /** `s.split(sep).pop()`: the last piece. It is the longest suffix of `s` free
      of the separator: either all of `s`, or what follows the last separator. */
  function LastSegment(s: string, sep: char): (r: string)
    ensures |r| <= |s| && r == s[|s| - |r|..]
    ensures sep !in r
    ensures |r| < |s| ==> s[|s| - |r| - 1] == sep
  {
    LastSegmentIsFinalSuffix(s, sep);
    var parts := Split(s, sep);
    parts[|parts| - 1]
  }

  lemma {:induction false} LastSegmentIsFinalSuffix(s: string, sep: char)
    ensures var parts := Split(s, sep); var r := parts[|parts| - 1];
      |r| <= |s| && r == s[|s| - |r|..] && (|r| < |s| ==> s[|s| - |r| - 1] == sep)
  {
    if s != [] {
      var s' := s[..|s| - 1];
      var c := s[|s| - 1];
      LastSegmentIsFinalSuffix(s', sep);
      var init := Split(s', sep);
      var t := init[|init| - 1];
      if c != sep {
        var parts := init[..|init| - 1] + [t + [c]];
        assert Split(s, sep) == parts;
        assert parts[|parts| - 1] == t + [c];
        assert s == s' + [c];
        assert s[|s| - |t + [c]|..] == s'[|s'| - |t|..] + [c];
      }
    }
  }

  /** The three properties of `LastSegment` single it out: any string that has
      them is the last segment. */
  lemma LastSegmentUnique(s: string, sep: char, t: string)
    requires |t| <= |s| && t == s[|s| - |t|..]
    requires sep !in t
    requires |t| < |s| ==> s[|s| - |t| - 1] == sep
    ensures LastSegment(s, sep) == t
  {
    var r := LastSegment(s, sep);
    assert |r| == |t|;
  }

  /** `s.replace(a, b)` for one-character `a` and `b`. */
  function ReplaceChar(s: string, a: char, b: char): string {
    seq(|s|, i requires 0 <= i < |s| => if s[i] == a then b else s[i])
  }

  lemma ReplaceCharAppend(s: string, t: string, a: char, b: char)
    ensures ReplaceChar(s + t, a, b) == ReplaceChar(s, a, b) + ReplaceChar(t, a, b)
  {
  }

  lemma ReplaceCharAbsent(s: string, a: char, b: char)
    requires a !in s
    ensures ReplaceChar(s, a, b) == s
  {
  }

  /** `s` with every occurrence of `c` deleted. */
  function Remove(s: string, c: char): string {
    if s == [] then []
    else Remove(s[..|s| - 1], c) + (if s[|s| - 1] == c then [] else [s[|s| - 1]])
  }

  lemma {:induction false} RemoveAppend(s: string, t: string, c: char)
    ensures Remove(s + t, c) == Remove(s, c) + Remove(t, c)
    decreases |t|
  {
    if t != [] {
      var t' := t[..|t| - 1];
      RemoveAppend(s, t', c);
      assert (s + t)[..|s + t| - 1] == s + t';
      assert (s + t)[|s + t| - 1] == t[|t| - 1];
    } else {
      assert s + t == s;
    }
  }

  lemma {:induction false} RemoveAbsent(s: string, c: char)
    requires c !in s
    ensures Remove(s, c) == s
  {
    if s != [] {
      var s' := s[..|s| - 1];
      assert c !in s' by {
        forall k | 0 <= k < |s'| ensures s'[k] != c { assert s'[k] == s[k]; }
      }
      RemoveAbsent(s', c);
      assert s == s' + [s[|s| - 1]];
    }
  }
}
