/** Substring search as Python's `in` and `str.find` do it, and Python's
    `str.split(sep)` together with its inverse `sep.join(parts)`. */
module Strings {

  datatype Option<T> = None | Some(value: T)

  /** `pat` occurs in `s` starting at index `i`. */
  predicate OccursAt(s: string, pat: string, i: int)
  {
    0 <= i && i + |pat| <= |s| && s[i..i + |pat|] == pat
  }

  /** Python's `pat in s`. */
  predicate Contains(s: string, pat: string)
  {
    exists i :: 0 <= i <= |s| && OccursAt(s, pat, i)
  }

  /** The first character of `pat` appears nowhere else in it, so two
      occurrences of `pat` can never overlap. Every separator and tag of the
      chatbot has this shape. */
  predicate UniqueHead(pat: string)
  {
    |pat| > 0 && forall k :: 0 < k < |pat| ==> pat[k] != pat[0]
  }

  lemma OccursAtTail(s: string, pat: string, j: int)
    requires |s| >= 1 && j >= 0
    ensures OccursAt(s[1..], pat, j) <==> OccursAt(s, pat, j + 1)
  {
    if 0 <= j && j + |pat| <= |s| - 1 {
      assert s[1..][j..j + |pat|] == s[j + 1..j + 1 + |pat|];
    }
  }

  /** Python's `s.find(pat)`: the leftmost occurrence, `None` standing for -1. */
  function IndexOf(s: string, pat: string): (r: Option<nat>)
    ensures r.Some? ==> OccursAt(s, pat, r.value)
    ensures r.Some? ==> forall j :: 0 <= j < r.value ==> !OccursAt(s, pat, j)
    decreases |s|
  {
    if |s| < |pat| then
      None
    else if s[..|pat|] == pat then
      assert OccursAt(s, pat, 0);
      Some(0)
    else
      match IndexOf(s[1..], pat)
      case None => None
      case Some(i) =>
        OccursAtTail(s, pat, i);
        assert forall j :: 0 <= j < i + 1 ==> !OccursAt(s, pat, j) by {
          forall j | 0 < j < i + 1
            ensures !OccursAt(s, pat, j)
          {
            OccursAtTail(s, pat, j - 1);
          }
        }
        Some(i + 1)
  }

  /** `find` reports -1 exactly when `pat` is not in `s`. */
  lemma {:induction false} IndexOfNone(s: string, pat: string)
    ensures IndexOf(s, pat).None? <==> !Contains(s, pat)
    decreases |s|
  {
    if |s| >= |pat| && s[..|pat|] != pat {
      IndexOfNone(s[1..], pat);
      forall j | 0 <= j <= |s| && OccursAt(s, pat, j)
        ensures 0 < j && OccursAt(s[1..], pat, j - 1)
      {
        if j > 0 {
          OccursAtTail(s, pat, j - 1);
        }
      }
      if Contains(s[1..], pat) {
        var j :| 0 <= j <= |s| - 1 && OccursAt(s[1..], pat, j);
        OccursAtTail(s, pat, j);
      }
    } else if |s| >= |pat| {
      assert OccursAt(s, pat, 0);
    }
  }

  /** Nothing in `s` before index `i` starts an occurrence of `pat`, so the
      prefix `s[..i]` does not contain `pat` at all. */
  lemma PrefixBeforeFirst(s: string, pat: string, i: nat)
    requires |pat| > 0 && i <= |s|
    requires forall j :: 0 <= j < i ==> !OccursAt(s, pat, j)
    ensures !Contains(s[..i], pat)
  {
    forall j | 0 <= j <= i
      ensures !OccursAt(s[..i], pat, j)
    {
      if j + |pat| <= i {
        assert s[..i][j..j + |pat|] == s[j..j + |pat|];
        assert !OccursAt(s, pat, j);
      }
    }
  }

  /** An occurrence of a unique-head `pat` cannot start inside text free of
      it and run into a following copy of `pat`. */
  lemma NoStraddle(x: string, pat: string, rest: string, j: int)
    requires UniqueHead(pat)
    requires !Contains(x, pat)
    requires 0 <= j < |x|
    ensures !OccursAt(x + pat + rest, pat, j)
  {
    var s := x + pat + rest;
    if j + |pat| <= |x| {
      assert s[j..j + |pat|] == x[j..j + |pat|];
      assert !OccursAt(x, pat, j);
    } else if j + |pat| <= |s| {
      var k := |x| - j;
      assert s[j..j + |pat|][k] == s[|x|] == pat[0];
      assert pat[k] != pat[0];
    }
  }

  /** A separator with a unique head, placed right after text free of it,
      is the first occurrence. */
  lemma FirstOccurrenceAfter(x: string, pat: string, rest: string)
    requires UniqueHead(pat)
    requires !Contains(x, pat)
    ensures IndexOf(x + pat + rest, pat) == Some(|x|)
  {
    var s := x + pat + rest;
    assert s[|x|..|x| + |pat|] == pat;
    assert OccursAt(s, pat, |x|);
    IndexOfNone(s, pat);
    forall j | 0 <= j < |x|
      ensures !OccursAt(s, pat, j)
    {
      NoStraddle(x, pat, rest, j);
    }
  }

  /** Text free of `pat` followed by a character `pat` lacks: no occurrence
      of `pat` starts at or before that character. */
  lemma NoOccurrenceOverChar(x: string, c: char, rest: string, pat: string, j: int)
    requires c !in pat
    requires !Contains(x, pat)
    requires 0 <= j <= |x|
    ensures !OccursAt(x + [c] + rest, pat, j)
  {
    var s := x + [c] + rest;
    if j + |pat| <= |x| {
      assert s[j..j + |pat|] == x[j..j + |pat|];
      assert !OccursAt(x, pat, j);
    } else if j + |pat| <= |s| {
      var k := |x| - j;
      assert s[j..j + |pat|][k] == s[|x|] == c;
      assert pat[k] != c;
    }
  }

  /** Python's `s.split(sep)` for a non-empty separator. */
  function Split(s: string, sep: string): (parts: seq<string>)
    requires |sep| > 0
    ensures |parts| >= 1
    decreases |s|
  {
    match IndexOf(s, sep)
    case None => [s]
    case Some(i) => [s[..i]] + Split(s[i + |sep|..], sep)
  }

  /** There is more than one part exactly when the separator occurs, and no
      part contains it. */
  lemma {:induction false} SplitFacts(s: string, sep: string)
    requires |sep| > 0
    ensures |Split(s, sep)| == 1 <==> !Contains(s, sep)
    ensures forall k :: 0 <= k < |Split(s, sep)| ==> !Contains(Split(s, sep)[k], sep)
    decreases |s|
  {
    match IndexOf(s, sep)
    case None =>
      IndexOfNone(s, sep);
    case Some(i) =>
      var rest := s[i + |sep|..];
      SplitAt(s, sep, i);
      SplitFacts(rest, sep);
      PrefixBeforeFirst(s, sep, i);
      var parts := Split(s, sep);
      forall k | 0 <= k < |parts|
        ensures !Contains(parts[k], sep)
      {
        if k > 0 {
          assert parts[k] == Split(rest, sep)[k - 1];
        }
      }
  }

  /** Python's `sep.join(parts)` for a non-empty list of parts. */
  function Join(parts: seq<string>, sep: string): string
    requires |parts| >= 1
  {
    if |parts| == 1 then parts[0] else parts[0] + sep + Join(parts[1..], sep)
  }

  /** Splitting loses nothing: joining the parts back gives the input. */
  lemma {:induction false} JoinSplit(s: string, sep: string)
    requires |sep| > 0
    ensures Join(Split(s, sep), sep) == s
    decreases |s|
  {
    var r := IndexOf(s, sep);
    if r.Some? {
      var i := r.value;
      var rest := s[i + |sep|..];
      SplitAt(s, sep, i);
      JoinSplit(rest, sep);
      JoinCons(s[..i], Split(rest, sep), sep);
      ReassembleAt(s, sep, i);
    }
  }

  /** Unfolds one step of `Split` at the first occurrence `i`. */
  lemma SplitAt(s: string, sep: string, i: nat)
    requires |sep| > 0 && IndexOf(s, sep) == Some(i)
    ensures Split(s, sep) == [s[..i]] + Split(s[i + |sep|..], sep)
  {
  }

  lemma ReassembleAt(s: string, sep: string, i: nat)
    requires OccursAt(s, sep, i)
    ensures s == s[..i] + sep + s[i + |sep|..]
  {
  }

  lemma JoinCons(head: string, tail: seq<string>, sep: string)
    requires |tail| >= 1
    ensures Join([head] + tail, sep) == head + sep + Join(tail, sep)
  {
    assert ([head] + tail)[1..] == tail;
  }

  /** Conversely, parts free of a unique-head separator come back unchanged
      from splitting their join. */
  lemma {:induction false} SplitJoin(parts: seq<string>, sep: string)
    requires UniqueHead(sep)
    requires |parts| >= 1
    requires forall k :: 0 <= k < |parts| ==> !Contains(parts[k], sep)
    ensures Split(Join(parts, sep), sep) == parts
    decreases |parts|
  {
    if |parts| > 1 {
      var tail := parts[1..];
      forall k | 0 <= k < |tail|
        ensures !Contains(tail[k], sep)
      {
        assert tail[k] == parts[k + 1];
      }
      SplitJoin(tail, sep);
      SplitAfterFreeHead(parts[0], Join(tail, sep), sep);
      assert [parts[0]] + tail == parts;
    }
  }

  /** One step of `SplitJoin`: a head free of the separator splits off. */
  lemma SplitAfterFreeHead(head: string, rest: string, sep: string)
    requires UniqueHead(sep)
    requires !Contains(head, sep)
    ensures Split(head + sep + rest, sep) == [head] + Split(rest, sep)
  {
    var s := head + sep + rest;
    FirstOccurrenceAfter(head, sep, rest);
    SplitAt(s, sep, |head|);
    ConcatSlices(head, sep, rest);
  }

  lemma ConcatSlices(a: string, sep: string, b: string)
    ensures (a + sep + b)[..|a|] == a
    ensures (a + sep + b)[|a| + |sep|..] == b
  {
  }

  /** The first part of a split keeps any prefix in which no occurrence of
      the separator starts. */
  lemma SplitHeadKeepsPrefix(s: string, sep: string, p: string)
    requires |sep| > 0
    requires |p| <= |s| && s[..|p|] == p
    requires forall j :: 0 <= j < |p| ==> !OccursAt(s, sep, j)
    ensures |Split(s, sep)[0]| >= |p| && Split(s, sep)[0][..|p|] == p
  {
    match IndexOf(s, sep)
    case None =>
    case Some(i) =>
      assert Split(s, sep)[0] == s[..i];
  }

  /** A character belongs to a string exactly when the one-character string
      occurs in it. */
  lemma CharContains(s: string, c: char)
    ensures c in s <==> Contains(s, [c])
  {
    if c in s {
      var i :| 0 <= i < |s| && s[i] == c;
      assert s[i..i + 1] == [c];
      assert OccursAt(s, [c], i);
    }
    if Contains(s, [c]) {
      var i :| 0 <= i <= |s| && OccursAt(s, [c], i);
      assert i + 1 <= |s| && s[i..i + 1] == [c];
      assert s[i] == c;
    }
  }

  lemma SliceOfSlice(s: string, i: nat, j: nat, k: nat, n: nat)
    requires i <= j <= |s| && k + n <= j - i
    ensures s[i..j][k..k + n] == s[i + k..i + k + n]
  {
    var a, b := s[i..j][k..k + n], s[i + k..i + k + n];
    assert forall t :: 0 <= t < |a| ==> a[t] == b[t];
  }

  /** Text lacking the first character of `pat` does not contain `pat`. */
  lemma HeadAbsent(s: string, pat: string)
    requires |pat| > 0 && pat[0] !in s
    ensures !Contains(s, pat)
  {
    forall i | 0 <= i <= |s|
      ensures !OccursAt(s, pat, i)
    {
      if i + |pat| <= |s| {
        assert s[i..i + |pat|][0] == s[i];
      }
    }
  }

  /** Whatever is not contained in `s` is not contained in any slice of it. */
  lemma SliceKeepsAbsence(s: string, i: nat, j: nat, pat: string)
    requires i <= j <= |s|
    requires !Contains(s, pat)
    ensures !Contains(s[i..j], pat)
  {
    forall k | 0 <= k <= j - i
      ensures !OccursAt(s[i..j], pat, k)
    {
      if k + |pat| <= j - i {
        SliceOfSlice(s, i, j, k, |pat|);
        assert !OccursAt(s, pat, i + k);
      }
    }
  }

  /** The first part of a split is a prefix of the input, so it lacks
      whatever the input lacks. */
  lemma FirstPartKeepsAbsence(s: string, sep: string, pat: string)
    requires |sep| > 0
    requires !Contains(s, pat)
    ensures !Contains(Split(s, sep)[0], pat)
  {
    var p := Split(s, sep);
    JoinSplit(s, sep);
    if |p| > 1 {
      assert Join(p, sep) == p[0] + sep + Join(p[1..], sep);
    }
    assert s[..|p[0]|] == p[0];
    SliceKeepsAbsence(s, 0, |p[0]|, pat);
  }
}
