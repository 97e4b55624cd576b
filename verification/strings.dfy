/** The JavaScript string operations the list parser relies on: `trim`,
    `split` on one character, `split(/\s+/)` and `split(/\r?\n/)`, each with
    the inverse (`join`) it is checked against. */
module Strings {
  import opened Chars

  predicate AllWhite(s: string) {
    forall i :: 0 <= i < |s| ==> IsWhite(s[i])
  }

  predicate NoWhite(s: string) {
    forall i :: 0 <= i < |s| ==> !IsWhite(s[i])
  }

  /** Neither end of `s` is white space: what `trim` produces. */
  predicate IsTrimmed(s: string) {
    s == [] || (!IsWhite(s[0]) && !IsWhite(s[|s| - 1]))
  }

  /** The length of the maximal white-space prefix. */
  function WhitePrefix(s: string): (n: nat)
    ensures n <= |s|
    ensures forall i :: 0 <= i < n ==> IsWhite(s[i])
    ensures n < |s| ==> !IsWhite(s[n])
    decreases |s|
  {
    if |s| > 0 && IsWhite(s[0]) then 1 + WhitePrefix(s[1..]) else 0
  }

  /** The length of the maximal white-space suffix. */
  function WhiteSuffix(s: string): (n: nat)
    ensures n <= |s|
    ensures forall i :: |s| - n <= i < |s| ==> IsWhite(s[i])
    ensures n < |s| ==> !IsWhite(s[|s| - n - 1])
    decreases |s|
  {
    if |s| > 0 && IsWhite(s[|s| - 1]) then 1 + WhiteSuffix(s[..|s| - 1]) else 0
  }

  /** Drops the leading white space. */
  function TrimStart(s: string): string {
    s[WhitePrefix(s)..]
  }

  /** Drops the trailing white space. */
  function TrimEnd(s: string): string {
    s[..|s| - WhiteSuffix(s)]
  }

  /** `String.prototype.trim`. */
  function Trim(s: string): (r: string)
    ensures IsTrimmed(r)
  {
    TrimEnd(TrimStart(s))
  }

  /** A slice of white characters is an all-white string. */
  lemma WhiteSlice(s: string, lo: nat, hi: nat)
    requires lo <= hi <= |s|
    requires forall i :: lo <= i < hi ==> IsWhite(s[i])
    ensures AllWhite(s[lo..hi])
  {
  }

  /** `s` is its leading white space followed by `TrimStart(s)`. */
  lemma TrimStartSplits(s: string) returns (p: string)
    ensures AllWhite(p) && s == p + TrimStart(s)
  {
    var a := WhitePrefix(s);
    WhiteSlice(s, 0, a);
    p := s[0..a];
  }

  /** `s` is `TrimEnd(s)` followed by its trailing white space. */
  lemma TrimEndSplits(s: string) returns (q: string)
    ensures AllWhite(q) && s == TrimEnd(s) + q
  {
    var b := |s| - WhiteSuffix(s);
    WhiteSlice(s, b, |s|);
    q := s[b..|s|];
  }

  /** `trim` removes only white space, and only at the ends: `s` is `Trim(s)`
      surrounded by two all-white strings. */
  lemma TrimInfix(s: string)
    ensures exists p, q :: AllWhite(p) && AllWhite(q) && s == p + Trim(s) + q
  {
    var p := TrimStartSplits(s);
    var q := TrimEndSplits(TrimStart(s));
    assert s == p + (Trim(s) + q);
    assert s == p + Trim(s) + q;
  }

  /** A string that is already trimmed is left alone by `trim`. */
  lemma TrimOfTrimmed(s: string)
    requires IsTrimmed(s)
    ensures Trim(s) == s
  {
  }

  /** `trim` yields the empty string exactly for all-white input. */
  lemma TrimEmptyIffAllWhite(s: string)
    ensures Trim(s) == [] <==> AllWhite(s)
  {
  }

  /** `Array.prototype.join(d)` for a one-character separator. */
  function Join(xs: seq<string>, d: char): string
    decreases |xs|
  {
    if |xs| == 0 then []
    else if |xs| == 1 then xs[0]
    else xs[0] + [d] + Join(xs[1..], d)
  }

  /** Gluing a string onto the first element of a join. */
  lemma JoinPrepend(p: string, xs: seq<string>, d: char)
    requires |xs| >= 1
    ensures Join([p + xs[0]] + xs[1..], d) == p + Join(xs, d)
  {
  }

  /** `split(d)` for a one-character separator string `d`. */
  function SplitOn(s: string, d: char): (r: seq<string>)
    ensures |r| >= 1
    ensures forall i :: 0 <= i < |r| ==> d !in r[i]
    ensures Join(r, d) == s
    decreases |s|
  {
    if |s| == 0 then [[]]
    else
      var rest := SplitOn(s[1..], d);
      if s[0] == d then
        var r := [[]] + rest;
        assert r[1..] == rest;
        r
      else
        var r := [[s[0]] + rest[0]] + rest[1..];
        JoinPrepend([s[0]], rest, d);
        assert s == [s[0]] + s[1..];
        r
  }

  lemma SplitOnNoSeparator(p: string, d: char)
    requires d !in p
    ensures SplitOn(p, d) == [p]
  {
  }

  lemma {:induction false} SplitOnFirstPiece(p: string, t: string, d: char)
    requires d !in p
    ensures SplitOn(p + [d] + t, d) == [p] + SplitOn(t, d)
    decreases |p|
  {
    var s := p + [d] + t;
    if |p| == 0 {
      assert s[1..] == t;
    } else {
      assert s[1..] == p[1..] + [d] + t;
      SplitOnFirstPiece(p[1..], t, d);
      assert [p[0]] + p[1..] == p;
    }
  }

  /** Splitting on `d` undoes joining with `d` when no piece contains `d`. */
  lemma {:induction false} SplitOnJoin(xs: seq<string>, d: char)
    requires |xs| >= 1
    requires forall i :: 0 <= i < |xs| ==> d !in xs[i]
    ensures SplitOn(Join(xs, d), d) == xs
    decreases |xs|
  {
    if |xs| == 1 {
      SplitOnNoSeparator(xs[0], d);
    } else {
      SplitOnFirstPiece(xs[0], Join(xs[1..], d), d);
      SplitOnJoin(xs[1..], d);
      assert [xs[0]] + xs[1..] == xs;
    }
  }

  /** `split(/\s+/)`: the pieces between maximal runs of white space.  A
      leading (trailing) run yields an empty first (last) piece. */
  function SplitWhite(s: string): (r: seq<string>)
    ensures |r| >= 1
    ensures forall i :: 0 <= i < |r| ==> NoWhite(r[i])
    decreases |s|
  {
    if |s| == 0 then [[]]
    else if IsWhite(s[0]) then
      [[]] + SplitWhite(TrimStart(s))
    else
      var rest := SplitWhite(s[1..]);
      assert NoWhite([s[0]] + rest[0]) by {
        forall i | 0 <= i < |[s[0]] + rest[0]|
          ensures !IsWhite(([s[0]] + rest[0])[i])
        {
          if i > 0 { assert ([s[0]] + rest[0])[i] == rest[0][i - 1]; }
        }
      }
      [[s[0]] + rest[0]] + rest[1..]
  }

  lemma {:induction false} SplitWhiteNoWhite(p: string)
    requires NoWhite(p)
    ensures SplitWhite(p) == [p]
    decreases |p|
  {
    if |p| > 0 {
      SplitWhiteNoWhite(p[1..]);
      assert [p[0]] + p[1..] == p;
    }
  }

  /** A white-space run ends the first piece and is swallowed whole. */
  lemma {:induction false} SplitWhiteFirstPiece(p: string, w: string, t: string)
    requires NoWhite(p)
    requires w != [] && AllWhite(w)
    requires t == [] || !IsWhite(t[0])
    ensures SplitWhite(p + w + t) == [p] + SplitWhite(t)
    decreases |p|
  {
    var s := p + w + t;
    if |p| == 0 {
      assert s == w + t;
      assert forall i :: 0 <= i < |w| ==> s[i] == w[i];
      assert s[|w|..] == t;
      assert WhitePrefix(s) == |w|;
    } else {
      assert s[1..] == p[1..] + w + t;
      SplitWhiteFirstPiece(p[1..], w, t);
      assert [p[0]] + p[1..] == p;
    }
  }

  /** Splitting on white-space runs undoes joining with single spaces when
      every piece is non-empty and free of white space. */
  lemma {:induction false} SplitWhiteJoin(xs: seq<string>)
    requires |xs| >= 1
    requires forall i :: 0 <= i < |xs| ==> xs[i] != [] && NoWhite(xs[i])
    ensures SplitWhite(Join(xs, ' ')) == xs
    decreases |xs|
  {
    if |xs| == 1 {
      SplitWhiteNoWhite(xs[0]);
    } else {
      var t := Join(xs[1..], ' ');
      JoinStartsWith(xs[1..], ' ');
      SplitWhiteFirstPiece(xs[0], [' '], t);
      SplitWhiteJoin(xs[1..]);
      assert [xs[0]] + xs[1..] == xs;
    }
  }

  /** A join starts with the first character of its first piece. */
  lemma JoinStartsWith(xs: seq<string>, d: char)
    requires |xs| >= 1 && xs[0] != []
    ensures Join(xs, d) != [] && Join(xs, d)[0] == xs[0][0]
  {
  }

  /** A join whose outer pieces are non-empty and trimmed is trimmed. */
  lemma JoinTrimmed(xs: seq<string>, d: char)
    requires |xs| >= 1
    requires forall i :: 0 <= i < |xs| ==> xs[i] != [] && IsTrimmed(xs[i])
    ensures IsTrimmed(Join(xs, d))
  {
  }

  /** Removes one trailing carriage return, the optional `\r` of `\r?\n`. */
  function DropCR(p: string): (r: string)
    ensures r == p || (p == r + ['\r'])
    ensures |p| > 0 && p[|p| - 1] == '\r' ==> p == r + ['\r']
  {
    if |p| > 0 && p[|p| - 1] == '\r' then p[..|p| - 1] else p
  }

  /** `split(/\r?\n/)`: split at every line feed; a carriage return right
      before a line feed belongs to the separator. */
  function SplitLines(s: string): (r: seq<string>)
    ensures |r| >= 1
    ensures forall i :: 0 <= i < |r| ==> '\n' !in r[i]
  {
    var ps := SplitOn(s, '\n');
    seq(|ps|, i requires 0 <= i < |ps| =>
      if i < |ps| - 1 then DropCR(ps[i]) else ps[i])
  }

  /** A line ending `\r\n` counts as one separator: `"a\r\nb"` splits into
      `a` and `b`. */
  lemma SplitLinesCRLF(raw: string)
    requires raw == "a\r\nb"
    ensures SplitLines(raw) == ["a", "b"]
  {
    assert raw == Join(["a\r", "b"], '\n');
    SplitOnJoin(["a\r", "b"], '\n');
  }

  /** Splitting into lines undoes joining with `\n` when no piece holds a
      line feed and no piece but the last ends with a carriage return. */
  lemma SplitLinesJoin(xs: seq<string>)
    requires |xs| >= 1
    requires forall i :: 0 <= i < |xs| ==> '\n' !in xs[i]
    requires forall i :: 0 <= i < |xs| - 1 ==> xs[i] == [] || xs[i][|xs[i]| - 1] != '\r'
    ensures SplitLines(Join(xs, '\n')) == xs
  {
    SplitOnJoin(xs, '\n');
  }
}
