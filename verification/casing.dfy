/** The `applyCasing` helper of the `apply-text` handler: upper, lower or
    title case, or the text unchanged. */
module Casing {
  import opened Chars
  import opened Strings

  /** `toUpperCase` on a whole string. */
  function UpperAll(s: string): (r: string)
    ensures |r| == |s|
    ensures forall i :: 0 <= i < |s| ==> r[i] == Upper(s[i])
  {
    seq(|s|, i requires 0 <= i < |s| => Upper(s[i]))
  }

  /** `toLowerCase` on a whole string. */
  function LowerAll(s: string): (r: string)
    ensures |r| == |s|
    ensures forall i :: 0 <= i < |s| ==> r[i] == Lower(s[i])
  {
    seq(|s|, i requires 0 <= i < |s| => Lower(s[i]))
  }

  /** The length of the maximal prefix without white space: how far the
      greedy `\S*` reaches. */
  function NonWhitePrefix(s: string): (n: nat)
    ensures n <= |s|
    ensures forall i :: 0 <= i < n ==> !IsWhite(s[i])
    ensures n < |s| ==> IsWhite(s[n])
    decreases |s|
  {
    if |s| > 0 && !IsWhite(s[0]) then 1 + NonWhitePrefix(s[1..]) else 0
  }

  /** Title case as `code.js` writes it: a global `replace` of every match
      of the pattern `\w\S*` by its first character upper-cased followed by
      the rest lower-cased.  The search looks for a word character; from
      there the match runs greedily up to the next white space, and the
      search resumes right after the match. */
  function TitleCase(s: string): (r: string)
    ensures |r| == |s|
    decreases |s|
  {
    if |s| == 0 then []
    else if IsWord(s[0]) then
      var n := NonWhitePrefix(s);
      [Upper(s[0])] + LowerAll(s[1..n]) + TitleCase(s[n..])
    else [s[0]] + TitleCase(s[1..])
  }

  /** Character `i` lies inside a match of `\w\S*`: some word character at
      or before it starts a stretch without white space that reaches it. */
  ghost predicate InRun(s: string, i: int)
    requires 0 <= i < |s|
  {
    exists j :: 0 <= j <= i && IsWord(s[j]) && NoWhite(s[j..i + 1])
  }

  ghost predicate InRunBefore(s: string, k: int)
    requires 0 <= k <= |s|
  {
    k > 0 && InRun(s, k - 1)
  }

  /** Character `i` is the first character of a match. */
  ghost predicate RunStart(s: string, i: int)
    requires 0 <= i < |s|
  {
    IsWord(s[i]) && !InRunBefore(s, i)
  }

  /** Title case character by character: the first character of each match
      is upper-cased, the rest of the match lower-cased, everything outside
      the matches kept. */
  ghost function TitleSpec(s: string): (r: string)
    ensures |r| == |s|
  {
    seq(|s|, i requires 0 <= i < |s| =>
      if RunStart(s, i) then Upper(s[i])
      else if InRun(s, i) then Lower(s[i])
      else s[i])
  }

  /** Title case as a left-to-right scan that remembers whether the
      previous character lies inside a match. */
  function TitleScan(s: string, inRun: bool): (r: string)
    ensures |r| == |s|
    decreases |s|
  {
    if |s| == 0 then []
    else
      var c := s[0];
      if IsWhite(c) then [c] + TitleScan(s[1..], false)
      else if inRun then [Lower(c)] + TitleScan(s[1..], true)
      else if IsWord(c) then [Upper(c)] + TitleScan(s[1..], true)
      else [c] + TitleScan(s[1..], false)
  }

  /** A match ends at white space or at the end of the text. */
  lemma ScanAfterRun(rest: string)
    requires rest == [] || IsWhite(rest[0])
    ensures TitleScan(rest, true) == TitleScan(rest, false)
  {
  }

  lemma {:induction false} LowerRunScan(run: string, rest: string)
    requires NoWhite(run)
    requires rest == [] || IsWhite(rest[0])
    ensures LowerAll(run) + TitleScan(rest, false) == TitleScan(run + rest, true)
    decreases |run|
  {
    if |run| == 0 {
      assert run + rest == rest;
      ScanAfterRun(rest);
    } else {
      assert (run + rest)[1..] == run[1..] + rest;
      LowerRunScan(run[1..], rest);
      assert LowerAll(run) == [Lower(run[0])] + LowerAll(run[1..]);
    }
  }

  /** The regular-expression formulation and the scan agree. */
  lemma {:induction false} TitleCaseIsScan(s: string)
    ensures TitleCase(s) == TitleScan(s, false)
    decreases |s|
  {
    if |s| > 0 {
      if IsWord(s[0]) {
        var n := NonWhitePrefix(s);
        assert NoWhite(s[1..n]);
        assert s[1..] == s[1..n] + s[n..];
        LowerRunScan(s[1..n], s[n..]);
        TitleCaseIsScan(s[n..]);
      } else {
        TitleCaseIsScan(s[1..]);
      }
    }
  }

  /** A character is inside a match exactly when it is not white space and
      either is a word character or follows a character inside a match. */
  lemma InRunStep(s: string, k: int)
    requires 0 <= k < |s|
    ensures InRun(s, k) <==> !IsWhite(s[k]) && (IsWord(s[k]) || InRunBefore(s, k))
  {
    if InRun(s, k) {
      var j :| 0 <= j <= k && IsWord(s[j]) && NoWhite(s[j..k + 1]);
      assert s[k] == s[j..k + 1][k - j];
      if j < k {
        assert NoWhite(s[j..k]) by {
          forall m | 0 <= m < k - j ensures !IsWhite(s[j..k][m]) {
            assert s[j..k][m] == s[j..k + 1][m];
          }
        }
        assert InRun(s, k - 1);
      }
    }
    if !IsWhite(s[k]) && (IsWord(s[k]) || InRunBefore(s, k)) {
      if IsWord(s[k]) {
        assert NoWhite(s[k..k + 1]);
      } else {
        var j :| 0 <= j <= k - 1 && IsWord(s[j]) && NoWhite(s[j..k]);
        var t := s[j..k + 1];
        assert NoWhite(t) by {
          forall m | 0 <= m < |t| ensures !IsWhite(t[m]) {
            if m < k - j { assert t[m] == s[j..k][m]; }
          }
        }
      }
    }
  }

  lemma {:induction false} ScanSuffix(s: string, k: int)
    requires 0 <= k <= |s|
    ensures TitleScan(s[k..], InRunBefore(s, k)) == TitleSpec(s)[k..]
    decreases |s| - k
  {
    if k < |s| {
      ScanSuffix(s, k + 1);
      InRunStep(s, k);
      assert s[k..][1..] == s[k + 1..];
      assert TitleSpec(s)[k..] == [TitleSpec(s)[k]] + TitleSpec(s)[k + 1..];
    }
  }

  /** Title case changes exactly the characters inside matches of
      `\w\S*`: the first character of a match is upper-cased, the others
      are lower-cased, and every character outside a match (white space,
      and non-word characters before a match) is kept. */
  lemma TitleCaseMeaning(s: string)
    ensures TitleCase(s) == TitleSpec(s)
  {
    TitleCaseIsScan(s);
    ScanSuffix(s, 0);
    assert s[0..] == s;
  }

  lemma {:induction false} TitleScanIdempotent(s: string, inRun: bool)
    ensures TitleScan(TitleScan(s, inRun), inRun) == TitleScan(s, inRun)
    decreases |s|
  {
    if |s| > 0 {
      var c := s[0];
      CaseKeepsClasses(c);
      CaseAbsorbs(c);
      var next := !IsWhite(c) && (inRun || IsWord(c));
      var r := TitleScan(s, inRun);
      assert r[1..] == TitleScan(s[1..], next);
      TitleScanIdempotent(s[1..], next);
    }
  }

  /** Title-casing twice is the same as title-casing once. */
  lemma TitleCaseIdempotent(s: string)
    ensures TitleCase(TitleCase(s)) == TitleCase(s)
  {
    TitleCaseIsScan(s);
    TitleCaseIsScan(TitleCase(s));
    TitleScanIdempotent(s, false);
  }

  /** `applyCasing(text, casingMode)`. */
  function ApplyCasing(text: string, mode: string): (r: string)
    ensures |r| == |text|
    ensures text == [] ==> r == []
    ensures mode == "upper" ==> forall i :: 0 <= i < |text| ==> r[i] == Upper(text[i])
    ensures mode == "lower" ==> forall i :: 0 <= i < |text| ==> r[i] == Lower(text[i])
    ensures mode == "title" ==> r == TitleSpec(text)
    ensures mode != "upper" && mode != "lower" && mode != "title" ==> r == text
  {
    if text == [] then []
    else if mode == "upper" then UpperAll(text)
    else if mode == "lower" then LowerAll(text)
    else if mode == "title" then
      TitleCaseMeaning(text);
      TitleCase(text)
    else text
  }

  /** Applying the same casing twice is the same as applying it once. */
  lemma ApplyCasingIdempotent(text: string, mode: string)
    ensures ApplyCasing(ApplyCasing(text, mode), mode) == ApplyCasing(text, mode)
  {
    var r := ApplyCasing(text, mode);
    if mode == "upper" {
      forall i | 0 <= i < |text| ensures Upper(r[i]) == r[i] { CaseAbsorbs(text[i]); }
    } else if mode == "lower" {
      forall i | 0 <= i < |text| ensures Lower(r[i]) == r[i] { CaseAbsorbs(text[i]); }
    } else if mode == "title" && text != [] {
      TitleCaseIdempotent(text);
    }
  }
}
