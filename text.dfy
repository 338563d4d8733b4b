/**
 * The .NET string operations the view-models rely on: `string.IsNullOrWhiteSpace`,
 * `String.Trim`, ordinal `StartsWith`/`EndsWith`, and `String.Split` on one separator
 * character, with the entries trimmed as `StringSplitOptions.TrimEntries` does.
 *
 * `Char.IsWhiteSpace` is approximated by the ASCII white-space characters
 * (space, tab, line feed, vertical tab, form feed, carriage return).
 */
module Text {
  import opened Optional

  predicate IsWhiteSpace(c: char) {
    c == ' ' || ('\t' <= c <= '\r')
  }

  /** `string.IsNullOrWhiteSpace`: null, empty, or white space only. */
  predicate IsNullOrWhiteSpace(s: Option<string>) {
    s.None? || forall i :: 0 <= i < |s.value| ==> IsWhiteSpace(s.value[i])
  }

  /** Ordinal `s.StartsWith(prefix)`. */
  predicate StartsWith(s: string, prefix: string) {
    |prefix| <= |s| && s[..|prefix|] == prefix
  }

  /** `s.EndsWith(c)` for a single character. */
  predicate EndsWithChar(s: string, c: char) {
    |s| > 0 && s[|s| - 1] == c
  }

  /** `String.TrimStart()`: drops the longest white-space prefix. */
  function TrimStart(s: string): string {
    if s != [] && IsWhiteSpace(s[0]) then TrimStart(s[1..]) else s
  }

  /** `String.TrimEnd()`: drops the longest white-space suffix. */
  function TrimEnd(s: string): string {
    if s != [] && IsWhiteSpace(s[|s| - 1]) then TrimEnd(s[..|s| - 1]) else s
  }

  /** `String.Trim()`. */
  function Trim(s: string): string {
    TrimEnd(TrimStart(s))
  }

  /** `TrimStart` leaves a suffix that does not start with white space, and drops only white space. */
  lemma {:induction false} TrimStartSpec(s: string)
    ensures var r := TrimStart(s);
            |r| <= |s| && r == s[|s| - |r|..]
            && (r == [] || !IsWhiteSpace(r[0]))
            && forall i :: 0 <= i < |s| - |r| ==> IsWhiteSpace(s[i])
  {
    if s != [] && IsWhiteSpace(s[0]) {
      TrimStartSpec(s[1..]);
      var r := TrimStart(s[1..]);
      assert s[1..][|s| - 1 - |r|..] == s[|s| - |r|..];
      forall i | 0 <= i < |s| - |r|
        ensures IsWhiteSpace(s[i])
      {
        if i > 0 {
          assert s[i] == s[1..][i - 1];
        }
      }
    }
  }

  /** `TrimEnd` leaves a prefix that does not end with white space, and drops only white space. */
  lemma {:induction false} TrimEndSpec(s: string)
    ensures var r := TrimEnd(s);
            |r| <= |s| && r == s[..|r|]
            && (r == [] || !IsWhiteSpace(r[|r| - 1]))
            && forall i :: |r| <= i < |s| ==> IsWhiteSpace(s[i])
  {
    if s != [] && IsWhiteSpace(s[|s| - 1]) {
      var t := s[..|s| - 1];
      TrimEndSpec(t);
      var r := TrimEnd(t);
      assert t[..|r|] == s[..|r|];
      forall i | |r| <= i < |s|
        ensures IsWhiteSpace(s[i])
      {
        if i < |s| - 1 {
          assert s[i] == t[i];
        }
      }
    }
  }

  /**
   * `s` is `r` with the white space `s[..lead]` in front and white space behind.
   */
  predicate PaddedBy(s: string, r: string, lead: int) {
    0 <= lead && lead + |r| <= |s| && r == s[lead..lead + |r|]
    && (forall k :: 0 <= k < lead ==> IsWhiteSpace(s[k]))
    && (forall k :: lead + |r| <= k < |s| ==> IsWhiteSpace(s[k]))
  }

  /**
   * `Trim` leaves the part of `s` between a white-space prefix and a
   * white-space suffix, and neither of its ends is white space.
   */
  lemma TrimSpec(s: string)
    ensures var r := Trim(s);
            (r == [] || (!IsWhiteSpace(r[0]) && !IsWhiteSpace(r[|r| - 1])))
            && exists lead :: PaddedBy(s, r, lead)
  {
    var t := TrimStart(s);
    TrimStartSpec(s);
    TrimEndSpec(t);
    var r := TrimEnd(t);
    var lead := |s| - |t|;
    assert r == s[lead..lead + |r|];
    forall k | lead + |r| <= k < |s|
      ensures IsWhiteSpace(s[k])
    {
      assert s[k] == t[k - lead];
    }
    assert PaddedBy(s, r, lead);
  }

  /** Trimming twice is trimming once. */
  lemma TrimIdempotent(s: string)
    ensures Trim(Trim(s)) == Trim(s)
  {
    TrimSpec(s);
    var r := Trim(s);
    assert TrimStart(r) == r;
    assert TrimEnd(r) == r;
  }

  /** Trimming a string that neither starts nor ends with white space changes nothing. */
  lemma TrimUnpadded(s: string)
    requires |s| > 0 && !IsWhiteSpace(s[0]) && !IsWhiteSpace(s[|s| - 1])
    ensures Trim(s) == s
  {
    assert TrimStart(s) == s;
  }

  /** A string is blank exactly when trimming leaves nothing. */
  lemma {:induction false} BlankIffTrimsToEmpty(s: string)
    ensures IsNullOrWhiteSpace(Some(s)) <==> Trim(s) == []
  {
    if Trim(s) == [] {
      TrimSpec(s);
      var lead :| PaddedBy(s, Trim(s), lead);
      assert forall i :: 0 <= i < |s| ==> IsWhiteSpace(s[i]);
    }
    if IsNullOrWhiteSpace(Some(s)) {
      AllWhiteTrimsToEmpty(s);
    }
  }

  lemma {:induction false} AllWhiteTrimsToEmpty(s: string)
    requires forall i :: 0 <= i < |s| ==> IsWhiteSpace(s[i])
    ensures TrimStart(s) == []
  {
    if s != [] {
      AllWhiteTrimsToEmpty(s[1..]);
    }
  }

  /** Joins `parts` with `sep` between consecutive parts: the inverse of `SplitOn`. */
  function JoinWith(parts: seq<string>, sep: char): string
    requires |parts| >= 1
  {
    if |parts| == 1 then parts[0] else parts[0] + [sep] + JoinWith(parts[1..], sep)
  }

  /**
   * `s.Split(sep)`: the maximal separator-free pieces of `s`, in order; empty
   * pieces are kept, so `""` gives `[""]` and a trailing separator gives a
   * final `""`.
   */
  function SplitOn(s: string, sep: char): (parts: seq<string>)
    ensures |parts| >= 1
    decreases |s|
  {
    if s == [] then [""]
    else
      var rest := SplitOn(s[1..], sep);
      if s[0] == sep then [""] + rest else [[s[0]] + rest[0]] + rest[1..]
  }

  /** There is one more piece than there are separators. */
  lemma {:induction false} SplitOnCount(s: string, sep: char)
    ensures |SplitOn(s, sep)| == multiset(s)[sep] + 1
    decreases |s|
  {
    if s != [] {
      SplitOnCount(s[1..], sep);
      assert s == [s[0]] + s[1..];
      assert multiset(s) == multiset([s[0]]) + multiset(s[1..]);
    }
  }

  /** No piece contains the separator. */
  lemma {:induction false} SplitOnPiecesFree(s: string, sep: char)
    ensures forall i :: 0 <= i < |SplitOn(s, sep)| ==> sep !in SplitOn(s, sep)[i]
    decreases |s|
  {
    if s != [] {
      SplitOnPiecesFree(s[1..], sep);
      var rest := SplitOn(s[1..], sep);
      var parts := SplitOn(s, sep);
      if s[0] != sep {
        assert forall i :: 1 <= i < |parts| ==> parts[i] == rest[i];
      } else {
        assert forall i :: 1 <= i < |parts| ==> parts[i] == rest[i - 1];
      }
    }
  }

  /** Joining the pieces back with the separator gives `s`. */
  lemma {:induction false} SplitOnJoin(s: string, sep: char)
    ensures JoinWith(SplitOn(s, sep), sep) == s
    decreases |s|
  {
    if s != [] {
      SplitOnJoin(s[1..], sep);
      var rest := SplitOn(s[1..], sep);
      if s[0] == sep {
        assert JoinWith([""] + rest, sep) == [sep] + JoinWith(rest, sep);
      } else {
        JoinWithPrepend(s[0], rest, sep);
        assert s == [s[0]] + s[1..];
      }
    }
  }

  /** A character put in front of the first part comes out in front of the join. */
  lemma JoinWithPrepend(c: char, parts: seq<string>, sep: char)
    requires |parts| >= 1
    ensures JoinWith([[c] + parts[0]] + parts[1..], sep) == [c] + JoinWith(parts, sep)
  {
    var q := [[c] + parts[0]] + parts[1..];
    assert q[0] == [c] + parts[0];
    if |parts| > 1 {
      assert q[1..] == parts[1..];
      assert ([c] + parts[0]) + [sep] + JoinWith(parts[1..], sep)
          == [c] + (parts[0] + [sep] + JoinWith(parts[1..], sep));
    }
  }

  /** A piece without separators splits into itself alone. */
  lemma {:induction false} SplitOnPiece(p: string, sep: char)
    requires sep !in p
    ensures SplitOn(p, sep) == [p]
  {
    if p != [] {
      SplitOnPiece(p[1..], sep);
      assert [p[0]] + p[1..] == p;
    }
  }

  /** Splitting `p + [sep] + x` separates `p` from the pieces of `x`. */
  lemma {:induction false} SplitOnAfterPiece(p: string, sep: char, x: string)
    requires sep !in p
    ensures SplitOn(p + [sep] + x, sep) == [p] + SplitOn(x, sep)
  {
    var s := p + [sep] + x;
    if p == [] {
      assert s == [sep] + x;
      assert s[1..] == x;
    } else {
      assert s[0] == p[0] && s[0] != sep;
      assert s[1..] == p[1..] + [sep] + x;
      SplitOnAfterPiece(p[1..], sep, x);
      var rest := SplitOn(s[1..], sep);
      assert rest == [p[1..]] + SplitOn(x, sep);
      assert SplitOn(s, sep) == [[s[0]] + rest[0]] + rest[1..];
      assert [s[0]] + rest[0] == p;
      assert rest[1..] == SplitOn(x, sep);
    }
  }

  /** Splitting the join of separator-free pieces gives the pieces back. */
  lemma {:induction false} SplitJoinRoundTrip(parts: seq<string>, sep: char)
    requires |parts| >= 1
    requires forall i :: 0 <= i < |parts| ==> sep !in parts[i]
    ensures SplitOn(JoinWith(parts, sep), sep) == parts
  {
    if |parts| == 1 {
      SplitOnPiece(parts[0], sep);
    } else {
      SplitJoinRoundTrip(parts[1..], sep);
      SplitOnAfterPiece(parts[0], sep, JoinWith(parts[1..], sep));
      assert [parts[0]] + parts[1..] == parts;
    }
  }

  /**
   * `s.Split(sep, StringSplitOptions.TrimEntries)`: every piece trimmed, empty
   * pieces kept.
   */
  function SplitTrimmed(s: string, sep: char): seq<string> {
    var parts := SplitOn(s, sep);
    seq(|parts|, i requires 0 <= i < |parts| => Trim(parts[i]))
  }

  /** The last piece of a string that ends with the separator is empty. */
  lemma {:induction false} SplitOnTrailingSeparator(s: string, sep: char)
    requires EndsWithChar(s, sep)
    ensures var parts := SplitOn(s, sep); parts[|parts| - 1] == ""
  {
    var parts := SplitOn(s, sep);
    assert s[|s| - 1] in multiset(s);
    SplitOnCount(s, sep);
    SplitOnJoin(s, sep);
    SplitOnPiecesFree(s, sep);
    LastPieceIsSuffix(parts, sep);
    var last := parts[|parts| - 1];
    assert sep !in last;
  }

  /** The last piece ends the join, right after a separator. */
  lemma {:induction false} LastPieceIsSuffix(parts: seq<string>, sep: char)
    requires |parts| >= 2
    ensures var j := JoinWith(parts, sep); var last := parts[|parts| - 1];
            |last| < |j| && j[|j| - |last|..] == last && j[|j| - |last| - 1] == sep
  {
    if |parts| > 2 {
      LastPieceIsSuffix(parts[1..], sep);
    }
  }
}
