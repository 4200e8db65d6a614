/** Python's `str.split(sep)` and `sep.join(parts)` for a separator of one
    character, as the label extractor uses them. Python returns every segment
    between two separators, empty ones included, so the result is never empty
    and joining it back with the separator gives the original string. */
module PyStr {

  /** `sep.join(parts)`: the parts with one separator between neighbours. */
  function Join(parts: seq<string>, sep: char): string
  {
    if |parts| == 0 then ""
    else if |parts| == 1 then parts[0]
    else parts[0] + [sep] + Join(parts[1..], sep)
  }

  /** The last element of a non-empty sequence, Python's `xs[-1]`. */
  function Last<T>(xs: seq<T>): (x: T)
    requires |xs| >= 1
    ensures x in xs
  {
    xs[|xs| - 1]
  }

  /** True when no part contains the separator. */
  predicate SepFree(parts: seq<string>, sep: char)
  {
    forall i :: 0 <= i < |parts| ==> sep !in parts[i]
  }

  /** The segments of `[c] + r`, given the segments `parts` of `r`: a
      separator opens a new empty segment in front, any other character joins
      the first segment. */
  function Prepend(c: char, parts: seq<string>, sep: char): (r: seq<string>)
    requires |parts| >= 1
    ensures |r| >= 1
  {
    if c == sep then [""] + parts
    else [[c] + parts[0]] + parts[1..]
  }

  /** `s.split(sep)`: the segments of `s` between occurrences of `sep`, read
      from the front. Python never returns an empty list, so `[0]` and `[-1]`
      are always defined on the result. */
  function Split(s: string, sep: char): (parts: seq<string>)
    ensures |parts| >= 1
    decreases |s|
  {
    if |s| == 0 then [""]
    else Prepend(s[0], Split(s[1..], sep), sep)
  }

  /** There is one more segment than there are separators. */
  lemma {:induction false} SplitCount(s: string, sep: char)
    ensures |Split(s, sep)| == multiset(s)[sep] + 1
    decreases |s|
  {
    if |s| > 0 {
      SplitCount(s[1..], sep);
      assert s == [s[0]] + s[1..];
      assert multiset(s) == multiset([s[0]]) + multiset(s[1..]);
    }
  }

  /** No segment holds the separator. */
  lemma {:induction false} SplitSepFree(s: string, sep: char)
    ensures SepFree(Split(s, sep), sep)
    decreases |s|
  {
    if |s| > 0 {
      SplitSepFree(s[1..], sep);
      var rest, parts := Split(s[1..], sep), Split(s, sep);
      if s[0] != sep {
        assert parts[0] == [s[0]] + rest[0];
        assert sep !in parts[0];
        assert forall i :: 1 <= i < |parts| ==> parts[i] == rest[i];
      } else {
        assert forall i :: 1 <= i < |parts| ==> parts[i] == rest[i - 1];
      }
    }
  }

  /** Joining the segments with the separator gives the string back:
      `sep.join(s.split(sep)) == s`. */
  lemma {:induction false} JoinSplit(s: string, sep: char)
    ensures Join(Split(s, sep), sep) == s
    decreases |s|
  {
    if |s| > 0 {
      JoinSplit(s[1..], sep);
      var rest, parts := Split(s[1..], sep), Split(s, sep);
      assert s == [s[0]] + s[1..];
      if s[0] == sep {
        assert parts[1..] == rest;
      } else {
        assert parts[1..] == rest[1..];
        if |rest| > 1 {
          assert Join(rest, sep) == rest[0] + [sep] + Join(rest[1..], sep);
          assert Join(parts, sep) == ([s[0]] + rest[0]) + [sep] + Join(rest[1..], sep);
        }
      }
    }
  }

  /** `s.split(sep)` has a single segment exactly when `s` has no separator. */
  lemma SplitSingle(s: string, sep: char)
    ensures |Split(s, sep)| == 1 <==> sep !in s
  {
    SplitCount(s, sep);
    assert sep in s <==> multiset(s)[sep] > 0;
  }

  /** A string without the separator splits into itself alone. */
  lemma SplitNoSep(s: string, sep: char)
    requires sep !in s
    ensures Split(s, sep) == [s]
  {
    SplitSingle(s, sep);
    JoinSplit(s, sep);
  }

  /** Prepending a character acts on the first segments only. */
  lemma PrependAppend(c: char, parts: seq<string>, tail: seq<string>, sep: char)
    requires |parts| >= 1
    ensures Prepend(c, parts + tail, sep) == Prepend(c, parts, sep) + tail
  {
    if c != sep {
      assert (parts + tail)[1..] == parts[1..] + tail;
    }
  }

  /** Splitting distributes over a separator: the segments of `t + sep + u`
      are those of `t` followed by those of `u`. */
  lemma {:induction false} SplitAtSep(t: string, u: string, sep: char)
    ensures Split(t + [sep] + u, sep) == Split(t, sep) + Split(u, sep)
    decreases |t|
  {
    var s := t + [sep] + u;
    if |t| == 0 {
      assert s[1..] == u by { assert s == [sep] + u; }
    } else {
      assert s[0] == t[0] && s[1..] == t[1..] + [sep] + u;
      SplitAtSep(t[1..], u, sep);
      PrependAppend(t[0], Split(t[1..], sep), Split(u, sep), sep);
    }
  }

  /** Splitting undoes joining: sep-free parts, joined and split again, come
      back unchanged. */
  lemma {:induction false} SplitJoin(parts: seq<string>, sep: char)
    requires |parts| >= 1
    requires SepFree(parts, sep)
    ensures Split(Join(parts, sep), sep) == parts
  {
    if |parts| == 1 {
      SplitNoSep(parts[0], sep);
    } else {
      SplitJoin(parts[1..], sep);
      SplitAtSep(parts[0], Join(parts[1..], sep), sep);
      SplitNoSep(parts[0], sep);
      assert parts == [parts[0]] + parts[1..];
    }
  }

  /** `Split` is the only way to cut `s` into sep-free segments that join
      back to `s`. */
  lemma SplitUnique(s: string, sep: char, parts: seq<string>)
    requires |parts| >= 1
    requires SepFree(parts, sep)
    requires Join(parts, sep) == s
    ensures parts == Split(s, sep)
  {
    SplitJoin(parts, sep);
  }

  /** The first part is a prefix of the joined string, followed there by the
      separator when there is more than one part. */
  lemma JoinHead(parts: seq<string>, sep: char)
    requires |parts| >= 1
    ensures parts[0] <= Join(parts, sep)
    ensures |parts| > 1 ==> |parts[0]| < |Join(parts, sep)| && Join(parts, sep)[|parts[0]|] == sep
  {
    if |parts| > 1 {
      var j := Join(parts, sep);
      assert j == parts[0] + [sep] + Join(parts[1..], sep);
      assert j[|parts[0]|] == sep;
    }
  }

  /** The last part is a suffix of the joined string, preceded there by the
      separator when there is more than one part. */
  lemma {:induction false} JoinTail(parts: seq<string>, sep: char)
    requires |parts| >= 1
    ensures var j, l := Join(parts, sep), Last(parts);
      |l| <= |j| && j[|j| - |l|..] == l
    ensures var j, l := Join(parts, sep), Last(parts);
      |parts| > 1 ==> |l| < |j| && j[|j| - |l| - 1] == sep
  {
    if |parts| > 1 {
      var tail := parts[1..];
      JoinTail(tail, sep);
      var j, jt, l := Join(parts, sep), Join(tail, sep), Last(parts);
      assert Last(tail) == l;
      assert j == parts[0] + [sep] + jt;
      assert j[|j| - |jt|..] == jt;
      if |tail| > 1 {
        assert j[|j| - |l| - 1] == jt[|jt| - |l| - 1];
      } else {
        assert jt == l;
      }
    }
  }

  /** `s.split(sep)[0]` is the text before the first separator: a sep-free
      prefix of `s`, the whole of `s` when `s` has no separator, and otherwise
      followed in `s` by the separator. */
  lemma FirstSegment(s: string, sep: char)
    ensures var f := Split(s, sep)[0];
      f <= s && sep !in f
    ensures var f := Split(s, sep)[0];
      sep !in s ==> f == s
    ensures var f := Split(s, sep)[0];
      sep in s ==> |f| < |s| && s[|f|] == sep
  {
    var parts := Split(s, sep);
    SplitSingle(s, sep);
    SplitSepFree(s, sep);
    JoinSplit(s, sep);
    JoinHead(parts, sep);
  }

  /** `s.split(sep)[-1]` is the text after the last separator: a sep-free
      suffix of `s`, the whole of `s` when `s` has no separator, and otherwise
      preceded in `s` by the separator. */
  lemma LastSegment(s: string, sep: char)
    ensures var l := Last(Split(s, sep));
      |l| <= |s| && s[|s| - |l|..] == l && sep !in l
    ensures var l := Last(Split(s, sep));
      sep !in s ==> l == s
    ensures var l := Last(Split(s, sep));
      sep in s ==> |l| < |s| && s[|s| - |l| - 1] == sep
  {
    var parts := Split(s, sep);
    var l := Last(parts);
    assert sep !in l by {
      SplitSepFree(s, sep);
      assert l == parts[|parts| - 1];
    }
    SplitSingle(s, sep);
    JoinSplit(s, sep);
    JoinTail(parts, sep);
  }

  /** Conversely, a sep-free prefix of `s` that is all of `s` or is followed
      by the separator is `s.split(sep)[0]`. */
  lemma FirstSegmentUnique(s: string, sep: char, f: string)
    requires f <= s && sep !in f
    requires f == s || (|f| < |s| && s[|f|] == sep)
    ensures f == Split(s, sep)[0]
  {
    FirstSegment(s, sep);
  }

  /** Conversely, a sep-free suffix of `s` that is all of `s` or is preceded
      by the separator is `s.split(sep)[-1]`. */
  lemma LastSegmentUnique(s: string, sep: char, l: string)
    requires |l| <= |s| && s[|s| - |l|..] == l && sep !in l
    requires l == s || (|l| < |s| && s[|s| - |l| - 1] == sep)
    ensures l == Last(Split(s, sep))
  {
    LastSegment(s, sep);
  }
}
