/** The functions of Go's `strings` package that the query parser relies on,
    for the case it uses them in: a non-empty separator and the cut set " ". */
module GoStrings {

  /** `strings.HasPrefix(s, prefix)` */
  predicate HasPrefix(s: string, prefix: string)
  {
    |prefix| <= |s| && s[..|prefix|] == prefix
  }

  /** `sep` occurs in `s` starting at position `i`. */
  predicate OccursAt(s: string, sep: string, i: int)
  {
    0 <= i && i + |sep| <= |s| && s[i..i + |sep|] == sep
  }

  /** The first occurrence of `sep` in `s` at or after `from`, or -1. */
  function IndexFrom(s: string, sep: string, from: nat): (r: int)
    ensures r == -1 || (from <= r && OccursAt(s, sep, r))
    ensures forall i :: from <= i && (r == -1 || i < r) ==> !OccursAt(s, sep, i)
    decreases |s| - from
  {
    if from + |sep| > |s| then -1
    else if s[from..from + |sep|] == sep then from
    else IndexFrom(s, sep, from + 1)
  }

  /** `strings.Index(s, sep)` */
  function Index(s: string, sep: string): int
  {
    IndexFrom(s, sep, 0)
  }

  /** `strings.Contains(s, sep)` */
  predicate Contains(s: string, sep: string)
  {
    Index(s, sep) >= 0
  }

  lemma ContainsIff(s: string, sep: string)
    ensures Contains(s, sep) <==> exists i :: OccursAt(s, sep, i)
  {
  }

  /** An occurrence inside a prefix or a suffix of `s` is one in `s`. */
  lemma OccursInPrefix(s: string, sep: string, n: nat, i: int)
    requires n <= |s| && OccursAt(s[..n], sep, i)
    ensures OccursAt(s, sep, i)
  {
    assert s[..n][i..i + |sep|] == s[i..i + |sep|];
  }

  lemma OccursInSuffix(s: string, sep: string, n: nat, i: int)
    requires n <= |s| && OccursAt(s[n..], sep, i)
    ensures OccursAt(s, sep, n + i)
  {
    assert s[n..][i..i + |sep|] == s[n + i..n + i + |sep|];
  }

  /** `strings.Join(parts, sep)`, the inverse of `Split`. */
  function Join(parts: seq<string>, sep: string): string
    requires |parts| >= 1
  {
    if |parts| == 1 then parts[0] else parts[0] + sep + Join(parts[1..], sep)
  }

  /** `strings.Split(s, sep)` for a non-empty `sep`: the pieces between
      successive non-overlapping occurrences, scanning left to right. */
  function Split(s: string, sep: string): (parts: seq<string>)
    requires |sep| > 0
    ensures |parts| >= 1
    decreases |s|
  {
    var i := Index(s, sep);
    if i < 0 then [s] else [s[..i]] + Split(s[i + |sep|..], sep)
  }

  /** Joining the pieces gives back the text. */
  lemma {:induction false} SplitJoin(s: string, sep: string)
    requires |sep| > 0
    ensures Join(Split(s, sep), sep) == s
    decreases |s|
  {
    var i := Index(s, sep);
    if i >= 0 {
      var head, tail := s[..i], s[i + |sep|..];
      var rest := Split(tail, sep);
      assert Split(s, sep) == [head] + rest;
      SplitJoin(tail, sep);
      JoinCons(head, rest, sep);
      assert s == head + sep + tail;
    }
  }

  /** No piece holds the separator. */
  lemma {:induction false} SplitPiecesFree(s: string, sep: string)
    requires |sep| > 0
    ensures forall k :: 0 <= k < |Split(s, sep)| ==> !Contains(Split(s, sep)[k], sep)
    decreases |s|
  {
    var i := Index(s, sep);
    if i >= 0 {
      var tail := s[i + |sep|..];
      SplitPiecesFree(tail, sep);
      HeadBeforeFirst(s, sep, i);
      var parts, rest := Split(s, sep), Split(tail, sep);
      assert forall k :: 1 <= k < |parts| ==> parts[k] == rest[k - 1];
    }
  }

  /** There is more than one piece exactly when the separator occurs. */
  lemma SplitCount(s: string, sep: string)
    requires |sep| > 0
    ensures |Split(s, sep)| == 1 <==> !Contains(s, sep)
  {
    if Index(s, sep) >= 0 {
      assert |Split(s, sep)| >= 2;
    }
  }

  lemma JoinCons(head: string, rest: seq<string>, sep: string)
    requires |rest| >= 1
    ensures Join([head] + rest, sep) == head + sep + Join(rest, sep)
  {
    assert ([head] + rest)[1..] == rest;
  }

  /** The text before the first occurrence holds no occurrence. */
  lemma HeadBeforeFirst(s: string, sep: string, i: int)
    requires |sep| > 0 && 0 <= i == Index(s, sep)
    ensures !Contains(s[..i], sep)
  {
    var j := Index(s[..i], sep);
    if j >= 0 {
      OccursInPrefix(s, sep, i, j);
    }
  }

  /** Every character of `t` is a space. */
  predicate AllSpaces(t: string)
  {
    forall k :: 0 <= k < |t| ==> t[k] == ' '
  }

  /** `strings.TrimLeft(s, " ")`: drops the leading spaces. */
  function TrimLeft(s: string): (r: string)
    ensures |r| <= |s| && r == s[|s| - |r|..]
    ensures AllSpaces(s[..|s| - |r|])
    ensures r == [] || r[0] != ' '
    decreases |s|
  {
    if |s| > 0 && s[0] == ' ' then
      var r := TrimLeft(s[1..]);
      assert s[1..][..|s| - 1 - |r|] == s[1..|s| - |r|];
      r
    else s
  }

  /** `strings.TrimRight(s, " ")`: drops the trailing spaces. */
  function TrimRight(s: string): (r: string)
    ensures |r| <= |s| && r == s[..|r|]
    ensures AllSpaces(s[|r|..])
    ensures r == [] || r[|r| - 1] != ' '
    decreases |s|
  {
    if |s| > 0 && s[|s| - 1] == ' ' then
      var r := TrimRight(s[..|s| - 1]);
      assert s[..|s| - 1][|r|..] == s[|r|..|s| - 1];
      assert s[|r|..] == s[|r|..|s| - 1] + [' '];
      r
    else s
  }

  /** `strings.Trim(s, " ")` */
  function Trim(s: string): string
  {
    TrimRight(TrimLeft(s))
  }

  /** `strings.TrimPrefix(s, prefix)` */
  function TrimPrefix(s: string, prefix: string): string
  {
    if HasPrefix(s, prefix) then s[|prefix|..] else s
  }

  /** The left trim of spaces followed by a word not starting with a space. */
  lemma {:induction false} TrimLeftPadded(lead: string, w: string)
    requires AllSpaces(lead)
    requires w == [] || w[0] != ' '
    ensures TrimLeft(lead + w) == w
    decreases |lead|
  {
    if lead != [] {
      assert (lead + w)[1..] == lead[1..] + w;
      TrimLeftPadded(lead[1..], w);
    }
  }

  /** The right trim of a word not ending with a space followed by spaces. */
  lemma {:induction false} TrimRightPadded(w: string, trail: string)
    requires AllSpaces(trail)
    requires w == [] || w[|w| - 1] != ' '
    ensures TrimRight(w + trail) == w
    decreases |trail|
  {
    if trail != [] {
      assert (w + trail)[..|w + trail| - 1] == w + trail[..|trail| - 1];
      TrimRightPadded(w, trail[..|trail| - 1]);
    }
  }

  /** Trimming undoes any padding with spaces around a word that neither
      begins nor ends with a space. */
  lemma TrimPadded(lead: string, t: string, trail: string)
    requires AllSpaces(lead) && AllSpaces(trail)
    requires t == [] || (t[0] != ' ' && t[|t| - 1] != ' ')
    ensures Trim(lead + t + trail) == t
  {
    if t == [] {
      assert lead + t + trail == (lead + trail) + [];
      TrimLeftPadded(lead + trail, []);
    } else {
      assert lead + t + trail == lead + (t + trail);
      TrimLeftPadded(lead, t + trail);
      TrimRightPadded(t, trail);
    }
  }

  /** A text free of the separator stays free of it behind a prefix that
      never holds the separator's first character. */
  lemma NoOccurrenceBehindForeignPrefix(p: string, a: string, sep: string)
    requires |sep| > 0
    requires forall k :: 0 <= k < |p| ==> p[k] != sep[0]
    requires !Contains(a, sep)
    ensures !Contains(p + a, sep)
  {
    var s := p + a;
    forall i | 0 <= i < |p|
      ensures !OccursAt(s, sep, i)
    {
      if i + |sep| <= |s| {
        assert s[i..i + |sep|][0] == p[i];
      }
    }
    forall i | |p| <= i
      ensures !OccursAt(s, sep, i)
    {
      if i + |sep| <= |s| {
        assert s[i..i + |sep|] == a[i - |p|..i - |p| + |sep|];
        assert !OccursAt(a, sep, i - |p|);
      }
    }
  }

  /** In `p + sep + b`, with `p` free of `sep` and `sep` not overlapping
      itself at its first character, the first occurrence is the one
      after `p`. */
  lemma IndexAtJoin(p: string, sep: string, b: string)
    requires |sep| > 0 && !Contains(p, sep)
    requires forall k :: 1 <= k < |sep| ==> sep[k] != sep[0]
    ensures Index(p + sep + b, sep) == |p|
  {
    var s := p + sep + b;
    forall i | 0 <= i < |p|
      ensures !OccursAt(s, sep, i)
    {
      if i + |sep| <= |p| {
        assert s[i..i + |sep|] == p[i..i + |sep|];
        assert !OccursAt(p, sep, i);
      } else if i + |sep| <= |s| {
        assert s[i..i + |sep|][|p| - i] == sep[0];
      }
    }
    assert s[|p|..|p| + |sep|] == sep;
    assert OccursAt(s, sep, |p|);
  }

  /** Splitting `p + sep + b` with neither side holding `sep` gives the two
      sides. */
  lemma SplitAtJoin(p: string, sep: string, b: string)
    requires |sep| > 0 && !Contains(p, sep) && !Contains(b, sep)
    requires forall k :: 1 <= k < |sep| ==> sep[k] != sep[0]
    ensures Split(p + sep + b, sep) == [p, b]
  {
    var s := p + sep + b;
    IndexAtJoin(p, sep, b);
    assert s[..|p|] == p;
    assert s[|p| + |sep|..] == b;
  }

  /** Two separate occurrences give at least three pieces. */
  lemma SplitTwoOccurrences(s: string, sep: string, i: int, j: int)
    requires |sep| > 0 && OccursAt(s, sep, i) && OccursAt(s, sep, j) && i + |sep| <= j
    ensures |Split(s, sep)| >= 3
  {
    OccurrenceContains(s, sep, i);
    OccursInSuffixBack(s, sep, Index(s, sep) + |sep|, j);
    SplitTwice(s, sep);
  }

  /** A separator that occurs again after its first occurrence gives at
      least three pieces. */
  lemma SplitTwice(s: string, sep: string)
    requires |sep| > 0 && Index(s, sep) >= 0 && Contains(s[Index(s, sep) + |sep|..], sep)
    ensures |Split(s, sep)| >= 3
  {
    SplitOnce(s, sep);
    SplitCount(s[Index(s, sep) + |sep|..], sep);
  }

  /** A text holding the separator splits into the text before its first
      occurrence and the pieces of the text after it. */
  lemma SplitOnce(s: string, sep: string)
    requires |sep| > 0 && Index(s, sep) >= 0
    ensures |Split(s, sep)| == 1 + |Split(s[Index(s, sep) + |sep|..], sep)|
  {
  }

  /** An occurrence past position `n` is one in the suffix from `n`. */
  lemma OccursInSuffixBack(s: string, sep: string, n: nat, j: int)
    requires n <= j && OccursAt(s, sep, j)
    ensures OccursAt(s[n..], sep, j - n)
    ensures Contains(s[n..], sep)
  {
    assert s[n..][j - n..j - n + |sep|] == s[j..j + |sep|];
    OccurrenceContains(s[n..], sep, j - n);
  }

  lemma OccurrenceContains(s: string, sep: string, i: int)
    requires OccursAt(s, sep, i)
    ensures 0 <= Index(s, sep) <= i
  {
    var r := IndexFrom(s, sep, 0);
    assert r != -1 by {
      assert 0 <= i && OccursAt(s, sep, i);
    }
  }
}
