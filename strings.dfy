/** The .NET string operations the converter relies on, written out over
    `seq<char>`: white-space trimming (`String.Trim`), substring occurrence,
    splitting on a literal separator (`String.Split(string)`) and the join
    that undoes it. */
module Strings {

  /** `char.IsWhiteSpace`: the Unicode space separators, the line and
      paragraph separators, the control characters U+0009 to U+000D and
      U+0085. */
  predicate IsWhite(c: char)
  {
    || c == ' '
    || ('\t' <= c <= '\r')
    || c == '\U{0085}'
    || c == '\U{00A0}'
    || c == '\U{1680}'
    || ('\U{2000}' <= c <= '\U{200A}')
    || c == '\U{2028}'
    || c == '\U{2029}'
    || c == '\U{202F}'
    || c == '\U{205F}'
    || c == '\U{3000}'
  }

  /** Every character is white space (`String.IsNullOrWhiteSpace` on a
      string that is not null; the empty string qualifies). */
  predicate AllWhite(s: string)
  {
    forall i :: 0 <= i < |s| ==> IsWhite(s[i])
  }

  /** Number of white-space characters at the front of `s`. */
  function LeadingWhite(s: string): (n: nat)
    ensures n <= |s|
    ensures forall i :: 0 <= i < n ==> IsWhite(s[i])
    ensures n < |s| ==> !IsWhite(s[n])
  {
    if s == [] || !IsWhite(s[0]) then 0 else 1 + LeadingWhite(s[1..])
  }

  /** Number of white-space characters at the back of `s`. */
  function TrailingWhite(s: string): (n: nat)
    ensures n <= |s|
    ensures forall i :: |s| - n <= i < |s| ==> IsWhite(s[i])
    ensures n < |s| ==> !IsWhite(s[|s| - 1 - n])
  {
    if s == [] || !IsWhite(s[|s| - 1]) then 0 else 1 + TrailingWhite(s[..|s| - 1])
  }

  /** `String.Trim()`: drop the white space at both ends. The result is the
      slice of `s` that starts at its first non-white character; it is empty
      exactly when `s` is all white space, otherwise starts and ends with a
      non-white character, and only white space follows it in `s`. */
  function Trim(s: string): (r: string)
    ensures r == "" <==> AllWhite(s)
    ensures r != "" ==> !IsWhite(r[0]) && !IsWhite(r[|r| - 1])
    ensures LeadingWhite(s) + |r| <= |s|
    ensures r == s[LeadingWhite(s)..LeadingWhite(s) + |r|]
    ensures AllWhite(s[LeadingWhite(s) + |r|..])
  {
    var start := LeadingWhite(s);
    var rest := s[start..];
    var r := rest[..|rest| - TrailingWhite(rest)];
    assert r != [] ==> r[0] == rest[0];
    assert r == s[start..start + |r|];
    assert s[start + |r|..] == rest[|r|..];
    r
  }

  /** `pat` occurs in `s` starting at index `i`. */
  predicate OccursAt(s: string, pat: string, i: nat)
  {
    i + |pat| <= |s| && s[i..i + |pat|] == pat
  }

  /** `s.Contains(pat)`. */
  predicate Contains(s: string, pat: string)
  {
    exists i: nat | i <= |s| :: OccursAt(s, pat, i)
  }

  /** An occurrence inside a slice is an occurrence in the whole string. */
  lemma ContainsInSlice(s: string, a: nat, b: nat, pat: string)
    requires a <= b <= |s|
    requires Contains(s[a..b], pat)
    ensures Contains(s, pat)
  {
    var i: nat :| i <= b - a && OccursAt(s[a..b], pat, i);
    var t := s[a..b];
    assert t[i..i + |pat|] == pat;
    forall j | 0 <= j < |pat|
      ensures pat[j] == s[a + i + j]
    {
      assert pat[j] == t[i + j];
    }
    assert OccursAt(s, pat, a + i);
  }

  /** Trimming cannot create an occurrence. */
  lemma TrimKeepsAbsence(s: string, pat: string)
    requires !Contains(s, pat)
    ensures !Contains(Trim(s), pat)
  {
    if Contains(Trim(s), pat) {
      ContainsInSlice(s, LeadingWhite(s), LeadingWhite(s) + |Trim(s)|, pat);
    }
  }

  /** `s.Split(sep)`: cut `s` at every occurrence of `sep`, found left to
      right without overlap; the separators are dropped. An empty separator
      leaves the string whole. */
  function Split(s: string, sep: string): (parts: seq<string>)
    ensures |parts| >= 1
    decreases |s|
  {
    if |sep| == 0 || |s| < |sep| then [s]
    else if s[..|sep|] == sep then [""] + Split(s[|sep|..], sep)
    else
      var rest := Split(s[1..], sep);
      [[s[0]] + rest[0]] + rest[1..]
  }

  /** `String.Join(sep, parts)`. */
  function Join(parts: seq<string>, sep: string): string
  {
    if |parts| == 0 then ""
    else if |parts| == 1 then parts[0]
    else parts[0] + sep + Join(parts[1..], sep)
  }

  /** Prepending a character to the first part prepends it to the join. */
  lemma JoinConsHead(c: char, parts: seq<string>, sep: string)
    requires |parts| >= 1
    ensures Join([[c] + parts[0]] + parts[1..], sep) == [c] + Join(parts, sep)
  {
  }

  /** Joining the parts of a split with the same separator gives back the
      original string. */
  lemma {:induction false} JoinSplit(s: string, sep: string)
    ensures Join(Split(s, sep), sep) == s
    decreases |s|
  {
    if |sep| == 0 || |s| < |sep| {
    } else if s[..|sep|] == sep {
      var rest := Split(s[|sep|..], sep);
      JoinSplit(s[|sep|..], sep);
      assert ([""] + rest)[1..] == rest;
      assert s == sep + s[|sep|..];
    } else {
      var rest := Split(s[1..], sep);
      JoinSplit(s[1..], sep);
      JoinConsHead(s[0], rest, sep);
      assert s == [s[0]] + s[1..];
    }
  }

  /** An occurrence in the tail of `s` is an occurrence in `s`, one
      position further on. */
  lemma OccursInTail(s: string, sep: string, i: nat)
    requires |s| >= 1
    ensures OccursAt(s[1..], sep, i) <==> OccursAt(s, sep, i + 1)
  {
  }

  /** A character put in front of a string free of `sep` adds no occurrence
      unless `sep` starts right there. */
  lemma ContainsCons(s: string, sep: string)
    requires |s| >= 1 && !OccursAt(s, sep, 0) && !Contains(s[1..], sep)
    ensures !Contains(s, sep)
  {
    forall i: nat | 1 <= i <= |s|
      ensures !OccursAt(s, sep, i)
    {
      OccursInTail(s, sep, i - 1);
    }
  }

  /** When `s` does not start with `sep`, its first character begins the
      first part of the split. */
  lemma SplitHeadStep(s: string, sep: string)
    requires |sep| > 0 && |s| >= |sep| && s[..|sep|] != sep
    ensures Split(s, sep)[0] == [s[0]] + Split(s[1..], sep)[0]
  {
  }

  /** The first part of a split is the prefix of `s` up to the first
      occurrence of the separator (or all of `s` when there is none): no
      occurrence starts inside it, and one starts right after it unless it
      is all of `s`. This is `s.Split(sep)[0]`. */
  lemma {:induction false} SplitHead(s: string, sep: string)
    requires |sep| > 0
    ensures |Split(s, sep)[0]| <= |s|
    ensures Split(s, sep)[0] == s[..|Split(s, sep)[0]|]
    ensures Split(s, sep)[0] == s || OccursAt(s, sep, |Split(s, sep)[0]|)
    ensures forall i :: 0 <= i < |Split(s, sep)[0]| ==> !OccursAt(s, sep, i)
    ensures !Contains(Split(s, sep)[0], sep)
    decreases |s|
  {
    var p := Split(s, sep)[0];
    if |s| < |sep| {
      assert p == s;
      assert forall i: nat :: !OccursAt(p, sep, i);
    } else if s[..|sep|] == sep {
      assert p == "";
      assert OccursAt(s, sep, 0);
    } else {
      var q := Split(s[1..], sep)[0];
      SplitHeadStep(s, sep);
      SplitHead(s[1..], sep);
      assert p == [s[0]] + q;
      assert p[1..] == q;
      assert p == s[..|p|];
      if q != s[1..] {
        OccursInTail(s, sep, |q|);
      }
      assert !OccursAt(p, sep, 0) by {
        if |sep| <= |p| {
          assert p[..|sep|] == s[..|sep|];
        }
      }
      ContainsCons(p, sep);
      forall i | 1 <= i < |p|
        ensures !OccursAt(s, sep, i)
      {
        OccursInTail(s, sep, i - 1);
      }
    }
  }

  /** `s.Split(sep)[0]` is `s[..n]` for the position `n` of the first
      occurrence of `sep`, or for `n == |s|` when there is none. */
  lemma SplitHeadAt(s: string, sep: string, n: nat)
    requires |sep| > 0 && n <= |s|
    requires forall i :: 0 <= i < n ==> !OccursAt(s, sep, i)
    requires n == |s| || OccursAt(s, sep, n)
    ensures Split(s, sep)[0] == s[..n]
  {
    var p := Split(s, sep)[0];
    SplitHead(s, sep);
    if |p| < n {
      assert false;
    } else if n < |p| {
      assert false;
    }
  }

  /** The first part of a split reaches past any prefix in which the
      separator's first character does not occur. */
  lemma SplitHeadCovers(s: string, sep: string, n: nat)
    requires |sep| > 0 && n < |s|
    requires forall i :: 0 <= i <= n ==> s[i] != sep[0]
    ensures n < |Split(s, sep)[0]|
  {
    var p := Split(s, sep)[0];
    SplitHead(s, sep);
    if |p| <= n {
      assert false;
    }
  }

  /** No part of a split contains the separator. */
  lemma {:induction false} SplitPartsAvoidSep(s: string, sep: string)
    requires |sep| > 0
    ensures forall k :: 0 <= k < |Split(s, sep)| ==> !Contains(Split(s, sep)[k], sep)
    decreases |s|
  {
    var parts := Split(s, sep);
    SplitHead(s, sep);
    if |s| < |sep| {
    } else if s[..|sep|] == sep {
      SplitPartsAvoidSep(s[|sep|..], sep);
      assert forall k :: 1 <= k < |parts| ==> parts[k] == Split(s[|sep|..], sep)[k - 1];
    } else {
      SplitPartsAvoidSep(s[1..], sep);
      assert forall k :: 1 <= k < |parts| ==> parts[k] == Split(s[1..], sep)[k];
    }
  }

  /** A string without the separator splits into itself alone. */
  lemma {:induction false} SplitWithoutSep(s: string, sep: string)
    requires !Contains(s, sep)
    ensures Split(s, sep) == [s]
    decreases |s|
  {
    if |sep| > 0 && |s| >= |sep| {
      assert !OccursAt(s, sep, 0);
      forall i: nat | i <= |s[1..]|
        ensures !OccursAt(s[1..], sep, i)
      {
        OccursInTail(s, sep, i);
      }
      SplitWithoutSep(s[1..], sep);
      assert [s[0]] + s[1..] == s;
    }
  }

  /** No proper non-empty suffix of `sep` is also a prefix of it, so two
      occurrences of `sep` can never overlap. */
  predicate BorderFree(sep: string)
  {
    forall k :: 0 < k < |sep| ==> sep[k..] != sep[..|sep| - k]
  }

  /** With a border-free separator, a piece without the separator followed
      by the separator is split off as one part. */
  lemma {:induction false} SplitAppend(s: string, sep: string, t: string)
    requires |sep| > 0 && BorderFree(sep)
    requires !Contains(s, sep)
    ensures Split(s + sep + t, sep) == [s] + Split(t, sep)
    decreases |s|
  {
    var w := s + sep + t;
    if s == [] {
      assert w == sep + t;
      assert w[..|sep|] == sep;
      assert w[|sep|..] == t;
    } else {
      if |s| >= |sep| {
        assert w[..|sep|] == s[..|sep|];
        assert !OccursAt(s, sep, 0);
      } else {
        var k := |s|;
        assert w[..|sep|][k..] == sep[..|sep| - k];
      }
      forall i: nat | i <= |s[1..]|
        ensures !OccursAt(s[1..], sep, i)
      {
        OccursInTail(s, sep, i);
      }
      SplitAppend(s[1..], sep, t);
      assert w[1..] == s[1..] + sep + t;
      assert [s[0]] + s[1..] == s;
    }
  }

  /** With a border-free separator, splitting the join of parts that do not
      contain it gives back the parts. */
  lemma {:induction false} SplitJoin(parts: seq<string>, sep: string)
    requires |sep| > 0 && BorderFree(sep)
    requires |parts| >= 1
    requires forall k :: 0 <= k < |parts| ==> !Contains(parts[k], sep)
    ensures Split(Join(parts, sep), sep) == parts
    decreases |parts|
  {
    if |parts| == 1 {
      SplitWithoutSep(parts[0], sep);
    } else {
      SplitJoin(parts[1..], sep);
      SplitAppend(parts[0], sep, Join(parts[1..], sep));
      assert [parts[0]] + parts[1..] == parts;
    }
  }
}
