/** The text-list parser of the `apply-text` handler: split the raw list by
    the chosen separator, trim every piece, drop the empty ones. */
module ListParser {
  import opened Chars
  import opened Strings

  /** How the raw list is split. */
  datatype Separator = SpaceRuns | Lines | Commas

  /** The separator option: `'space'`, `'newline'`, and comma splitting for
      every other value. */
  function SeparatorOf(option: string): (sep: Separator)
    ensures sep == SpaceRuns <==> option == "space"
    ensures sep == Lines <==> option == "newline"
  {
    if option == "space" then SpaceRuns
    else if option == "newline" then Lines
    else Commas
  }

  /** The raw pieces before trimming and filtering.  Space and newline
      splitting act on the trimmed input; comma splitting on the raw one. */
  function Pieces(raw: string, option: string): seq<string>
  {
    match SeparatorOf(option)
    case SpaceRuns => SplitWhite(Trim(raw))
    case Lines => SplitLines(Trim(raw))
    case Commas => SplitOn(raw, ',')
  }

  /** Every item is non-empty and trimmed. */
  predicate CleanItems(items: seq<string>) {
    forall i :: 0 <= i < |items| ==> items[i] != [] && IsTrimmed(items[i])
  }

  /** `map(t => t.trim()).filter(t => t.length > 0)`. */
  function Clean(pieces: seq<string>): (r: seq<string>)
    ensures |r| <= |pieces|
    ensures CleanItems(r)
    decreases |pieces|
  {
    if |pieces| == 0 then []
    else
      var t := Trim(pieces[0]);
      (if t == [] then [] else [t]) + Clean(pieces[1..])
  }

  /** Cleaning distributes over concatenation, so the surviving items keep
      the order of the pieces they came from. */
  lemma {:induction false} CleanAppend(a: seq<string>, b: seq<string>)
    ensures Clean(a + b) == Clean(a) + Clean(b)
    decreases |a|
  {
    if |a| == 0 {
      assert a + b == b;
    } else {
      assert (a + b)[1..] == a[1..] + b;
      CleanAppend(a[1..], b);
    }
  }

  /** One piece survives cleaning exactly when it is not all white space,
      and then as its trimmed form. */
  lemma CleanSingle(p: string)
    ensures AllWhite(p) ==> Clean([p]) == []
    ensures !AllWhite(p) ==> Clean([p]) == [Trim(p)]
  {
  }

  /** Pieces that are already non-empty and trimmed all survive unchanged. */
  lemma {:induction false} CleanOfClean(xs: seq<string>)
    requires CleanItems(xs)
    ensures Clean(xs) == xs
    decreases |xs|
  {
    if |xs| > 0 {
      TrimOfTrimmed(xs[0]);
      CleanOfClean(xs[1..]);
      assert [xs[0]] + xs[1..] == xs;
    }
  }

  /** The parsed text list (before the handler's emptiness check). */
  function ParseList(raw: string, option: string): (items: seq<string>)
    ensures CleanItems(items)
  {
    Clean(Pieces(raw, option))
  }

  /** Space mode: words joined by single spaces parse back to those words. */
  lemma ParseSpaceRoundTrip(words: seq<string>)
    requires |words| >= 1
    requires forall i :: 0 <= i < |words| ==> words[i] != [] && NoWhite(words[i])
    ensures ParseList(Join(words, ' '), "space") == words
  {
    var s := Join(words, ' ');
    JoinTrimmed(words, ' ');
    TrimOfTrimmed(s);
    SplitWhiteJoin(words);
    CleanOfClean(words);
  }

  /** Newline mode: trimmed lines (which may contain inner spaces) joined by
      line feeds parse back to those lines. */
  lemma ParseNewlineRoundTrip(lines: seq<string>)
    requires |lines| >= 1
    requires forall i :: 0 <= i < |lines| ==> lines[i] != [] && IsTrimmed(lines[i]) && '\n' !in lines[i]
    ensures ParseList(Join(lines, '\n'), "newline") == lines
  {
    var s := Join(lines, '\n');
    JoinTrimmed(lines, '\n');
    TrimOfTrimmed(s);
    SplitLinesJoin(lines);
    CleanOfClean(lines);
  }

  /** Comma mode, chosen by any option other than `'space'` and
      `'newline'`: trimmed items (which may contain inner spaces) joined by
      commas parse back to those items. */
  lemma ParseCommaRoundTrip(items: seq<string>, option: string)
    requires option != "space" && option != "newline"
    requires |items| >= 1
    requires forall i :: 0 <= i < |items| ==> items[i] != [] && IsTrimmed(items[i]) && ',' !in items[i]
    ensures ParseList(Join(items, ','), option) == items
  {
    SplitOnJoin(items, ',');
    CleanOfClean(items);
  }

  /** Every piece of an all-white string is all white. */
  lemma {:induction false} SplitOnAllWhite(s: string, d: char)
    requires AllWhite(s)
    ensures forall i :: 0 <= i < |SplitOn(s, d)| ==> AllWhite(SplitOn(s, d)[i])
    decreases |s|
  {
    if |s| > 0 {
      SplitOnAllWhite(s[1..], d);
    }
  }

  lemma {:induction false} CleanAllWhite(ps: seq<string>)
    requires forall i :: 0 <= i < |ps| ==> AllWhite(ps[i])
    ensures Clean(ps) == []
    decreases |ps|
  {
    if |ps| > 0 {
      TrimEmptyIffAllWhite(ps[0]);
      CleanAllWhite(ps[1..]);
    }
  }

  /** Input made only of white space parses to the empty list in every
      mode, which is the handler's "text list is empty" abort. */
  lemma BlankInputParsesEmpty(raw: string, option: string)
    requires AllWhite(raw)
    ensures ParseList(raw, option) == []
  {
    TrimEmptyIffAllWhite(raw);
    match SeparatorOf(option)
    case SpaceRuns =>
    case Lines =>
    case Commas =>
      SplitOnAllWhite(raw, ',');
      CleanAllWhite(SplitOn(raw, ','));
  }

  /* The worked examples below take their input as a parameter fixed by the
     precondition, so that the verifier does not unfold the parser on a
     literal argument. */

  lemma TrimSpaced(p: string)
    requires p == " b "
    ensures Trim(p) == "b"
  {
    assert WhitePrefix(p[1..]) == 0;
    assert WhitePrefix(p) == 1;
    assert WhiteSuffix(p[1..][..1]) == 0;
  }

  lemma CommaPieces(raw: string, a: string, b: string, c: string)
    requires raw == "a, b ,c" && a == "a" && b == " b " && c == "c"
    ensures SplitOn(raw, ',') == [a, b, c]
  {
    var pieces := [a, b, c];
    assert Join(pieces[2..], ',') == c;
    assert Join(pieces[1..], ',') == b + [','] + c;
    assert raw == Join(pieces, ',');
    SplitOnJoin(pieces, ',');
  }

  lemma CommaClean(a: string, b: string, c: string)
    requires a == "a" && b == " b " && c == "c"
    ensures Clean([a, b, c]) == ["a", "b", "c"]
  {
    TrimOfTrimmed(a);
    TrimSpaced(b);
    TrimOfTrimmed(c);
    assert Clean([c]) == [c];
    assert Clean([b, c]) == ["b", c];
  }

  /** `"a, b ,c"` in comma mode gives `["a", "b", "c"]`. */
  lemma ExampleCommas(raw: string)
    requires raw == "a, b ,c"
    ensures ParseList(raw, "comma") == ["a", "b", "c"]
  {
    CommaPieces(raw, "a", " b ", "c");
    CommaClean("a", " b ", "c");
  }

  lemma LinePieces(raw: string, a: string, b: string, c: string)
    requires raw == "a\nb\n\nc" && a == "a" && b == "b" && c == "c"
    ensures Trim(raw) == raw
    ensures SplitLines(raw) == [a, b, "", c]
  {
    var lines := [a, b, "", c];
    assert Join(lines[3..], '\n') == c;
    assert Join(lines[2..], '\n') == ['\n'] + c;
    assert Join(lines[1..], '\n') == b + ['\n'] + ['\n'] + c;
    assert raw == Join(lines, '\n');
    SplitLinesJoin(lines);
  }

  lemma LineClean(a: string, b: string, e: string, c: string)
    requires a == "a" && b == "b" && e == "" && c == "c"
    ensures Clean([a, b, e, c]) == [a, b, c]
  {
    TrimOfTrimmed(a);
    TrimOfTrimmed(b);
    TrimOfTrimmed(c);
    assert Clean([c]) == [c];
    assert Clean([e, c]) == [c];
    assert Clean([b, e, c]) == [b, c];
  }

  /** `"a\nb\n\nc"` in newline mode gives `["a", "b", "c"]`: the blank
      line is dropped. */
  lemma ExampleLines(raw: string)
    requires raw == "a\nb\n\nc"
    ensures ParseList(raw, "newline") == ["a", "b", "c"]
  {
    LinePieces(raw, "a", "b", "c");
    LineClean("a", "b", "", "c");
  }

  lemma SpacePieces(raw: string, a: string, b: string, c: string, w2: string, w3: string)
    requires raw == "a   b  c" && a == "a" && b == "b" && c == "c"
    requires w2 == "  " && w3 == "   "
    ensures SplitWhite(raw) == [a, b, c]
  {
    assert raw == a + w3 + (b + w2 + c);
    SplitWhiteNoWhite(c);
    SplitWhiteFirstPiece(b, w2, c);
    SplitWhiteFirstPiece(a, w3, b + w2 + c);
  }

  lemma SpaceClean(a: string, b: string, c: string)
    requires a == "a" && b == "b" && c == "c"
    ensures Clean([a, b, c]) == [a, b, c]
  {
    CleanOfClean([a, b, c]);
  }

  /** `"a   b  c"` in space mode gives `["a", "b", "c"]`. */
  lemma ExampleSpaces(raw: string)
    requires raw == "a   b  c"
    ensures ParseList(raw, "space") == ["a", "b", "c"]
  {
    assert Trim(raw) == raw;
    SpacePieces(raw, "a", "b", "c", "  ", "   ");
    SpaceClean("a", "b", "c");
  }
}
