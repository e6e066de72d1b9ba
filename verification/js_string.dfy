/**
 The few JavaScript string operations the page script relies on, on strings as
 sequences of characters: `split` with a one-character separator, `startsWith`,
 and the array accessors `[0]`, `[1]` and `pop()` applied to a split result.
 The lemmas characterise the pieces `split` returns by positions in the input,
 so that callers can reason about "the text before the first separator" or
 "the text after the last separator" without unfolding `Split`.
 */
module JsString {

  /** `s.startsWith(prefix)`. */
  predicate StartsWith(s: string, prefix: string) {
    prefix <= s
  }

  /** A string that starts with a character contains it. */
  lemma StartsWithHas(s: string, c: char)
    ensures StartsWith(s, [c]) ==> c in s
  {
    if StartsWith(s, [c]) {
      assert s[0] == c;
    }
  }

  /** `s.split(sep)` for a one-character separator: the maximal runs of
      non-separator characters, including the empty runs before a leading,
      after a trailing and between adjacent separators. It is never empty. */
  function Split(s: string, sep: char): (parts: seq<string>)
    ensures |parts| >= 1
    ensures forall i :: 0 <= i < |parts| ==> sep !in parts[i]
    ensures sep !in s <==> |parts| == 1
    ensures sep !in s ==> parts == [s]
    decreases |s|
  {
    if |s| == 0 then [""]
    else
      var rest := Split(s[1..], sep);
      if s[0] == sep then [""] + rest
      else
        assert sep !in s ==> [s[0]] + s[1..] == s;
        [[s[0]] + rest[0]] + rest[1..]
  }

  /** `parts.join(sep)`: the inverse of `Split`. */
  function Join(parts: seq<string>, sep: char): (s: string)
    requires |parts| >= 1
  {
    if |parts| == 1 then parts[0] else parts[0] + [sep] + Join(parts[1..], sep)
  }

  /** `parts.pop()` read as a value: the last element. */
  function Last(parts: seq<string>): (last: string)
    requires |parts| >= 1
  {
    parts[|parts| - 1]
  }

  /** Joining the pieces of a split with the same separator gives back the input. */
  lemma {:induction false} JoinSplit(s: string, sep: char)
    ensures Join(Split(s, sep), sep) == s
    decreases |s|
  {
    if |s| > 0 {
      var rest := Split(s[1..], sep);
      JoinSplit(s[1..], sep);
      if s[0] == sep {
        assert ([""] + rest)[1..] == rest;
      } else {
        var parts := [[s[0]] + rest[0]] + rest[1..];
        if |rest| == 1 {
          assert parts == [[s[0]] + rest[0]];
        } else {
          assert parts[1..] == rest[1..];
          assert Join(rest, sep) == rest[0] + [sep] + Join(rest[1..], sep);
        }
      }
    }
  }

  /** Splitting a separator-free piece followed by the separator peels off that piece. */
  lemma {:induction false} SplitPieceThenSeparator(p: string, sep: char, t: string)
    requires sep !in p
    ensures Split(p + [sep] + t, sep) == [p] + Split(t, sep)
    decreases |p|
  {
    var s := p + [sep] + t;
    if |p| == 0 {
      assert s[1..] == t;
    } else {
      assert s[1..] == p[1..] + [sep] + t;
      SplitPieceThenSeparator(p[1..], sep, t);
      assert [p[0]] + p[1..] == p;
    }
  }

  /** Splitting a join of separator-free pieces gives back the pieces. */
  lemma {:induction false} SplitJoin(parts: seq<string>, sep: char)
    requires |parts| >= 1
    requires forall i :: 0 <= i < |parts| ==> sep !in parts[i]
    ensures Split(Join(parts, sep), sep) == parts
    decreases |parts|
  {
    if |parts| > 1 {
      SplitJoin(parts[1..], sep);
      SplitPieceThenSeparator(parts[0], sep, Join(parts[1..], sep));
      assert [parts[0]] + parts[1..] == parts;
    }
  }

  /** `s.split(sep)[0]` is the longest prefix of `s` without a separator:
      it is followed by a separator or by the end of `s`. */
  lemma {:induction false} FirstPiece(s: string, sep: char)
    ensures Split(s, sep)[0] <= s
    ensures |Split(s, sep)[0]| < |s| ==> s[|Split(s, sep)[0]|] == sep
    decreases |s|
  {
    if |s| > 0 && s[0] != sep {
      FirstPiece(s[1..], sep);
    }
  }

  /** When `s` holds a separator, `s.split(sep)[1]` is the text between the first
      separator and the next one (or the end of `s`). */
  lemma SecondPiece(s: string, sep: char)
    requires sep in s
    ensures |Split(s, sep)| >= 2
    ensures var p0, p1 := Split(s, sep)[0], Split(s, sep)[1];
            var k := |p0| + 1 + |p1|;
            k <= |s| && s[..k] == p0 + [sep] + p1 && (k < |s| ==> s[k] == sep)
  {
    var parts := Split(s, sep);
    JoinSplit(s, sep);
    var tail := Join(parts[1..], sep);
    assert s == parts[0] + [sep] + tail;
    FirstPiece(tail, sep);
    SplitJoin(parts[1..], sep);
    assert Split(tail, sep)[0] == parts[1];
    var k := |parts[0]| + 1 + |parts[1]|;
    assert s[..k] == parts[0] + [sep] + tail[..|parts[1]|];
  }

  /** Joining peels off the last piece: the join of all pieces is the join of
      all but the last, a separator, and the last piece. */
  lemma {:induction false} JoinLast(parts: seq<string>, sep: char)
    requires |parts| >= 2
    ensures Join(parts, sep) == Join(parts[..|parts| - 1], sep) + [sep] + Last(parts)
    decreases |parts|
  {
    if |parts| > 2 {
      var tail := parts[1..];
      JoinLast(tail, sep);
      var init := parts[..|parts| - 1];
      assert init[1..] == tail[..|tail| - 1];
      assert Last(tail) == Last(parts);
    } else {
      assert parts[1..] == [Last(parts)];
      assert parts[..1] == [parts[0]];
    }
  }

  /** `s.split(sep).pop()` is the longest suffix of `s` without a separator:
      it is preceded by a separator or by the start of `s`. */
  lemma LastPiece(s: string, sep: char)
    ensures |Last(Split(s, sep))| <= |s|
    ensures s[|s| - |Last(Split(s, sep))|..] == Last(Split(s, sep))
    ensures |Last(Split(s, sep))| < |s| ==> s[|s| - |Last(Split(s, sep))| - 1] == sep
  {
    var parts := Split(s, sep);
    var l := Last(parts);
    JoinSplit(s, sep);
    if |parts| == 1 {
      assert l == s;
    } else {
      JoinLast(parts, sep);
      var front := Join(parts[..|parts| - 1], sep) + [sep];
      assert s == front + l;
      assert s[|front|..] == l;
      assert s[|front| - 1] == sep;
    }
  }
}
