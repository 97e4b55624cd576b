/** The per-layer replacement loop of the `apply-text` handler: one forward
    pass over the selected text layers that skips layers with a missing
    font, skips empty mixed-font layers, loads each font once through a
    cache keyed by `family-style`, writes the composed text and counts
    updates and errors. */
module ReplacePass {
  import opened Options
  import opened Formatting

  datatype FontName = FontName(family: string, style: string)

  /** A layer's `fontName`: one font for all characters, or the `mixed`
      sentinel. */
  datatype FontField = Uniform(font: FontName) | Mixed

  /** What the handler reads from a text layer.  `firstCharFont` is what
      `getRangeFontName(0, 1)` answers for a mixed-font layer. */
  datatype TextNode = TextNode(
    hasMissingFont: bool,
    fontName: FontField,
    firstCharFont: FontName,
    characters: string)

  /** The host's answers, by position of the layer in the pass: whether the
      `loadFontAsync` call made for that layer succeeds, whether assigning
      its `characters` succeeds, and the `Math.random()` draw used for it. */
  datatype Host = Host(loadOk: seq<bool>, writeOk: seq<bool>, draws: seq<real>)

  /** The host has an answer for each of `n` layers, and every draw lies in
      `[0, 1)`. */
  predicate Fits(host: Host, n: nat) {
    && |host.loadOk| == n && |host.writeOk| == n && |host.draws| == n
    && forall i :: 0 <= i < n ==> 0.0 <= host.draws[i] < 1.0
  }

  datatype Failure = MissingFont | LoadFailed | WriteFailed

  /** What happened to one layer: written, counted as an error, or skipped
      without being counted. */
  datatype Outcome = Updated(text: string) | Failed(why: Failure) | Skipped

  /** The font to load: the uniform font, or the first character's font of a
      non-empty mixed-font layer; none for an empty mixed-font layer. */
  function ResolvedFont(node: TextNode): (r: Option<FontName>)
    ensures r.None? <==> node.fontName.Mixed? && node.characters == []
    ensures node.fontName.Uniform? ==> r == Some(node.fontName.font)
    ensures node.fontName.Mixed? && node.characters != [] ==> r == Some(node.firstCharFont)
  {
    match node.fontName
    case Uniform(f) => Some(f)
    case Mixed => if |node.characters| > 0 then Some(node.firstCharFont) else None
  }

  /** The cache key `${family}-${style}`. */
  function FontKey(f: FontName): string {
    f.family + "-" + f.style
  }

  /** The cache key of the font a layer needs, for layers that get as far
      as loading a font. */
  function LoadKey(node: TextNode): (r: Option<string>)
    ensures r.Some? <==> !node.hasMissingFont && ResolvedFont(node).Some?
    ensures r.Some? ==> r.value == FontKey(ResolvedFont(node).value)
  {
    if node.hasMissingFont then None
    else match ResolvedFont(node)
      case Some(f) => Some(FontKey(f))
      case None => None
  }

  /** The result of processing one layer: its outcome, and the
      `loadFontAsync` call made for it (`None` when no call was made,
      otherwise whether the call succeeded). */
  datatype Step = Step(outcome: Outcome, load: Option<bool>)

  predicate HostAt(host: Host, i: nat) {
    i < |host.loadOk| && i < |host.writeOk| && i < |host.draws| && 0.0 <= host.draws[i] < 1.0
  }

  /** The font cache's rule for the layer at position `i`: `loadFontAsync`
      is called exactly when the layer needs a font whose key is not yet in
      the cache, and the host decides whether that call succeeds. */
  predicate LoadFacts(node: TextNode, i: nat, host: Host, loaded: set<string>, load: Option<bool>)
    requires i < |host.loadOk|
  {
    && (load.Some? <==> LoadKey(node).Some? && LoadKey(node).value !in loaded)
    && (load.Some? ==> load.value == host.loadOk[i])
  }

  /** What the handler does for the layer at position `i`, processed
      while the cache holds `loaded`. */
  predicate NodeFacts(node: TextNode, i: nat, list: seq<string>, msg: Message, host: Host,
                      loaded: set<string>, o: Outcome, load: Option<bool>)
    requires |list| > 0 && HostAt(host, i)
  {
    // a missing font is an error, and only a missing font is that error
    && (o == Failed(MissingFont) <==> node.hasMissingFont)
    // an empty mixed-font layer is skipped silently, and nothing else is
    && (o == Skipped <==> !node.hasMissingFont && node.fontName.Mixed? && node.characters == [])
    // the font is loaded exactly when its key is not yet in the cache
    && LoadFacts(node, i, host, loaded, load)
    // a failed load is an error
    && (o == Failed(LoadFailed) <==> load == Some(false))
    // the layer is written when its font is available and the write succeeds
    && (o.Updated? <==> LoadKey(node).Some? && load != Some(false) && host.writeOk[i])
    && (o.Updated? ==> o.text == ComposeText(msg, BaseText(list, i, msg.mode, host.draws[i])))
  }

  /** The body of the loop for the layer at position `i`. */
  function StepNode(node: TextNode, i: nat, list: seq<string>, msg: Message, host: Host,
                    loaded: set<string>): (r: Step)
    requires |list| > 0 && HostAt(host, i)
    ensures NodeFacts(node, i, list, msg, host, loaded, r.outcome, r.load)
  {
    if node.hasMissingFont then Step(Failed(MissingFont), None)
    else match ResolvedFont(node)
      case None => Step(Skipped, None)
      case Some(font) =>
        var load := if FontKey(font) in loaded then None else Some(host.loadOk[i]);
        if load == Some(false) then Step(Failed(LoadFailed), load)
        else if host.writeOk[i] then
          Step(Updated(ComposeText(msg, BaseText(list, i, msg.mode, host.draws[i]))), load)
        else Step(Failed(WriteFailed), load)
  }

  /** The keys whose load succeeded among the first `b` layers: the cache
      as the layer at position `b` sees it. */
  function OkKeys(nodes: seq<TextNode>, loads: seq<Option<bool>>, b: nat): set<string>
    requires b <= |nodes| && b <= |loads|
  {
    if b == 0 then {}
    else
      var earlier := OkKeys(nodes, loads, b - 1);
      match LoadKey(nodes[b - 1])
      case Some(k) => if loads[b - 1] == Some(true) then earlier + {k} else earlier
      case None => earlier
  }

  /** The cache after `b` layers holds exactly the keys of the layers before
      `b` whose load succeeded. */
  lemma {:induction false} OkKeysMeaning(nodes: seq<TextNode>, loads: seq<Option<bool>>, b: nat, k: string)
    requires b <= |nodes| && b <= |loads|
    ensures k in OkKeys(nodes, loads, b) <==>
            exists a :: 0 <= a < b && loads[a] == Some(true) && LoadKey(nodes[a]) == Some(k)
  {
    if b > 0 {
      OkKeysMeaning(nodes, loads, b - 1, k);
    }
  }

  /** A key missing from the cache stays missing while no layer loads it
      successfully. */
  lemma {:induction false} KeyStaysOut(nodes: seq<TextNode>, loads: seq<Option<bool>>, a: nat, b: nat, k: string)
    requires a <= b <= |nodes| && b <= |loads|
    requires k !in OkKeys(nodes, loads, a)
    requires forall c :: a <= c < b && LoadKey(nodes[c]) == Some(k) ==> loads[c] != Some(true)
    ensures k !in OkKeys(nodes, loads, b)
  {
    if a < b {
      KeyStaysOut(nodes, loads, a, b - 1, k);
    }
  }

  /** Appending to the load trace does not change the cache seen by earlier
      layers. */
  lemma {:induction false} OkKeysPrefix(nodes: seq<TextNode>, loads: seq<Option<bool>>, x: Option<bool>, b: nat)
    requires b <= |loads| < |nodes|
    ensures OkKeys(nodes, loads + [x], b) == OkKeys(nodes, loads, b)
  {
    if b > 0 {
      OkKeysPrefix(nodes, loads, x, b - 1);
      assert (loads + [x])[b - 1] == loads[b - 1];
    }
  }

  function CountUpdated(os: seq<Outcome>): nat {
    if |os| == 0 then 0 else CountUpdated(os[..|os| - 1]) + (if os[|os| - 1].Updated? then 1 else 0)
  }

  function CountFailed(os: seq<Outcome>): nat {
    if |os| == 0 then 0 else CountFailed(os[..|os| - 1]) + (if os[|os| - 1].Failed? then 1 else 0)
  }

  function CountSkipped(os: seq<Outcome>): nat {
    if |os| == 0 then 0 else CountSkipped(os[..|os| - 1]) + (if os[|os| - 1].Skipped? then 1 else 0)
  }

  /** Every outcome is counted in exactly one of the three counts. */
  lemma {:induction false} CountsPartition(os: seq<Outcome>)
    ensures CountUpdated(os) + CountFailed(os) + CountSkipped(os) == |os|
  {
    if |os| > 0 {
      CountsPartition(os[..|os| - 1]);
    }
  }

  /** The loop's variables: the font cache, the two counters, and (for the
      proofs) the outcome and load call of every layer processed so far. */
  datatype PassState = PassState(
    loaded: set<string>,
    updated: nat,
    errors: nat,
    outcomes: seq<Outcome>,
    loads: seq<Option<bool>>)

  /** The recorded outcome and load call of layer `b` are what the handler
      does for it, given the cache the earlier layers built. */
  predicate FactsAt(nodes: seq<TextNode>, list: seq<string>, msg: Message, host: Host, st: PassState, b: nat)
    requires |list| > 0 && Fits(host, |nodes|)
    requires b < |nodes| && b < |st.outcomes| && b < |st.loads|
  {
    NodeFacts(nodes[b], b, list, msg, host, OkKeys(nodes, st.loads, b), st.outcomes[b], st.loads[b])
  }

  /** The loop invariant after `i` layers. */
  predicate Good(nodes: seq<TextNode>, list: seq<string>, msg: Message, host: Host, i: nat, st: PassState)
    requires |list| > 0 && Fits(host, |nodes|) && i <= |nodes|
  {
    && |st.outcomes| == i && |st.loads| == i
    && st.loaded == OkKeys(nodes, st.loads, i)
    && st.updated == CountUpdated(st.outcomes)
    && st.errors == CountFailed(st.outcomes)
    && forall b :: 0 <= b < i ==> FactsAt(nodes, list, msg, host, st, b)
  }

  /** Record one layer's step: a successful load adds the key to the
      cache, an update or an error bumps its counter. */
  function Advance(st: PassState, node: TextNode, step: Step): PassState {
    var loaded :=
      match LoadKey(node)
      case Some(k) => if step.load == Some(true) then st.loaded + {k} else st.loaded
      case None => st.loaded;
    PassState(
      loaded,
      st.updated + (if step.outcome.Updated? then 1 else 0),
      st.errors + (if step.outcome.Failed? then 1 else 0),
      st.outcomes + [step.outcome],
      st.loads + [step.load])
  }

  lemma StepKeepsGood(nodes: seq<TextNode>, list: seq<string>, msg: Message, host: Host, i: nat, st: PassState)
    requires |list| > 0 && Fits(host, |nodes|) && i < |nodes|
    requires Good(nodes, list, msg, host, i, st)
    ensures Good(nodes, list, msg, host, i + 1,
                 Advance(st, nodes[i], StepNode(nodes[i], i, list, msg, host, st.loaded)))
  {
    var step := StepNode(nodes[i], i, list, msg, host, st.loaded);
    var st' := Advance(st, nodes[i], step);
    forall b | 0 <= b <= i
      ensures OkKeys(nodes, st'.loads, b) == OkKeys(nodes, st.loads, b)
    {
      OkKeysPrefix(nodes, st.loads, step.load, b);
    }
    forall b | 0 <= b <= i
      ensures FactsAt(nodes, list, msg, host, st', b)
    {
      if b < i {
        assert FactsAt(nodes, list, msg, host, st, b);
        assert st'.outcomes[b] == st.outcomes[b] && st'.loads[b] == st.loads[b];
      }
    }
    assert st'.outcomes[..i] == st.outcomes;
  }

  /** The loop from layer `i` on. */
  function Run(nodes: seq<TextNode>, list: seq<string>, msg: Message, host: Host, i: nat, st: PassState): (r: PassState)
    requires |list| > 0 && Fits(host, |nodes|) && i <= |nodes|
    requires Good(nodes, list, msg, host, i, st)
    ensures Good(nodes, list, msg, host, |nodes|, r)
    decreases |nodes| - i
  {
    if i == |nodes| then st
    else
      StepKeepsGood(nodes, list, msg, host, i, st);
      Run(nodes, list, msg, host, i + 1, Advance(st, nodes[i], StepNode(nodes[i], i, list, msg, host, st.loaded)))
  }

  /** The whole pass over the selected text layers, starting from an empty
      cache and zero counters. */
  function Pass(nodes: seq<TextNode>, list: seq<string>, msg: Message, host: Host): (r: PassState)
    requires |list| > 0 && Fits(host, |nodes|)
    ensures Good(nodes, list, msg, host, |nodes|, r)
  {
    Run(nodes, list, msg, host, 0, PassState({}, 0, 0, [], []))
  }

  /** Each layer lands in exactly one of updated, error or silent skip, so
      the two counters never exceed the number of layers; the skipped ones
      make up the difference. */
  lemma PassAccounting(nodes: seq<TextNode>, list: seq<string>, msg: Message, host: Host)
    requires |list| > 0 && Fits(host, |nodes|)
    ensures var r := Pass(nodes, list, msg, host);
      && |r.outcomes| == |nodes|
      && r.updated + r.errors + CountSkipped(r.outcomes) == |nodes|
      && r.updated + r.errors <= |nodes|
  {
    CountsPartition(Pass(nodes, list, msg, host).outcomes);
  }

  /** Layers with a missing font and empty mixed-font layers are never
      written; a layer is written only when its write succeeded. */
  lemma PassWritesOnlyHealthyLayers(nodes: seq<TextNode>, list: seq<string>, msg: Message, host: Host, b: nat)
    requires |list| > 0 && Fits(host, |nodes|) && b < |nodes|
    ensures var o := Pass(nodes, list, msg, host).outcomes[b];
      && (nodes[b].hasMissingFont ==> o == Failed(MissingFont))
      && (!nodes[b].hasMissingFont && nodes[b].fontName.Mixed? && nodes[b].characters == [] ==> o == Skipped)
      && (o.Updated? ==> host.writeOk[b])
  {
    var r := Pass(nodes, list, msg, host);
    assert FactsAt(nodes, list, msg, host, r, b);
  }

  /** Sequential mode: the layer at position `b` gets list entry
      `b mod |list|`, whatever happened to the layers before it. */
  lemma SequentialText(nodes: seq<TextNode>, list: seq<string>, msg: Message, host: Host, b: nat)
    requires |list| > 0 && Fits(host, |nodes|) && b < |nodes|
    requires msg.mode != "random"
    requires Pass(nodes, list, msg, host).outcomes[b].Updated?
    ensures Pass(nodes, list, msg, host).outcomes[b].text == ComposeText(msg, list[b % |list|])
  {
    var r := Pass(nodes, list, msg, host);
    assert FactsAt(nodes, list, msg, host, r, b);
  }

  /** Random mode: the base text of every written layer is some entry of
      the list. */
  lemma RandomText(nodes: seq<TextNode>, list: seq<string>, msg: Message, host: Host, b: nat)
    requires |list| > 0 && Fits(host, |nodes|) && b < |nodes|
    requires Pass(nodes, list, msg, host).outcomes[b].Updated?
    ensures exists k :: 0 <= k < |list| && Pass(nodes, list, msg, host).outcomes[b].text == ComposeText(msg, list[k])
  {
    var r := Pass(nodes, list, msg, host);
    assert FactsAt(nodes, list, msg, host, r, b);
    var base := BaseText(list, b, msg.mode, host.draws[b]);
    var k :| 0 <= k < |list| && list[k] == base;
  }

  /** A layer with a healthy font whose load (if one is needed) and write
      both succeed is written. */
  lemma HealthyLayerUpdated(nodes: seq<TextNode>, list: seq<string>, msg: Message, host: Host, b: nat)
    requires |list| > 0 && Fits(host, |nodes|) && b < |nodes|
    requires LoadKey(nodes[b]).Some? && host.loadOk[b] && host.writeOk[b]
    ensures Pass(nodes, list, msg, host).outcomes[b] ==
            Updated(ComposeText(msg, BaseText(list, b, msg.mode, host.draws[b])))
  {
    var r := Pass(nodes, list, msg, host);
    assert FactsAt(nodes, list, msg, host, r, b);
  }

  /** The load trace follows the cache rule at layer `b`. */
  predicate LoadedRightAt(nodes: seq<TextNode>, host: Host, loads: seq<Option<bool>>, b: nat)
    requires b < |loads| <= |nodes| <= |host.loadOk|
  {
    LoadFacts(nodes[b], b, host, OkKeys(nodes, loads, b), loads[b])
  }

  /** A load trace that follows the cache rule at every layer. */
  predicate CacheTrace(nodes: seq<TextNode>, host: Host, loads: seq<Option<bool>>)
    requires |loads| <= |nodes| <= |host.loadOk|
  {
    forall b :: 0 <= b < |loads| ==> LoadedRightAt(nodes, host, loads, b)
  }

  /** The pass's `loadFontAsync` calls follow the cache rule. */
  lemma PassFollowsCache(nodes: seq<TextNode>, list: seq<string>, msg: Message, host: Host)
    requires |list| > 0 && Fits(host, |nodes|)
    ensures |Pass(nodes, list, msg, host).loads| == |nodes|
    ensures CacheTrace(nodes, host, Pass(nodes, list, msg, host).loads)
  {
    var r := Pass(nodes, list, msg, host);
    forall b | 0 <= b < |nodes|
      ensures LoadedRightAt(nodes, host, r.loads, b)
    {
      assert FactsAt(nodes, list, msg, host, r, b);
    }
  }

  /** Once a key has loaded successfully, `loadFontAsync` is never called
      for that key again: at most one successful load per key. */
  lemma NoReloadAfterSuccess(nodes: seq<TextNode>, host: Host, loads: seq<Option<bool>>, a: nat, b: nat)
    requires |loads| <= |nodes| <= |host.loadOk| && CacheTrace(nodes, host, loads)
    requires a < b < |loads|
    requires loads[a] == Some(true) && LoadKey(nodes[b]) == LoadKey(nodes[a])
    ensures loads[b] == None
  {
    assert LoadedRightAt(nodes, host, loads, a);
    assert LoadedRightAt(nodes, host, loads, b);
    OkKeysMeaning(nodes, loads, b, LoadKey(nodes[a]).value);
  }

  /** A key is added to the cache only after a successful load, so a font
      whose load failed is tried again by the next layer that needs it. */
  lemma FailedLoadRetried(nodes: seq<TextNode>, host: Host, loads: seq<Option<bool>>, a: nat, b: nat)
    requires |loads| <= |nodes| <= |host.loadOk| && CacheTrace(nodes, host, loads)
    requires a < b < |loads|
    requires loads[a] == Some(false) && LoadKey(nodes[b]) == LoadKey(nodes[a])
    requires forall c :: a < c < b && LoadKey(nodes[c]) == LoadKey(nodes[a]) ==> loads[c] != Some(true)
    ensures loads[b] == Some(host.loadOk[b])
  {
    assert LoadedRightAt(nodes, host, loads, a);
    assert LoadedRightAt(nodes, host, loads, b);
    KeyStaysOut(nodes, loads, a, b, LoadKey(nodes[a]).value);
  }

  /** When every load succeeds, `loadFontAsync` is called at most once per
      distinct key. */
  lemma OneLoadPerKey(nodes: seq<TextNode>, host: Host, loads: seq<Option<bool>>, a: nat, b: nat)
    requires |loads| <= |nodes| <= |host.loadOk| && CacheTrace(nodes, host, loads)
    requires a < b < |loads|
    requires forall c :: 0 <= c < |loads| ==> host.loadOk[c]
    requires loads[a].Some? && loads[b].Some?
    ensures LoadKey(nodes[a]) != LoadKey(nodes[b])
  {
    assert LoadedRightAt(nodes, host, loads, a);
    if LoadKey(nodes[a]) == LoadKey(nodes[b]) {
      NoReloadAfterSuccess(nodes, host, loads, a, b);
    }
  }

  /** Layers sharing one font, with the first load succeeding: exactly one
      `loadFontAsync` call, made for the first layer. */
  lemma SharedFontLoadedOnce(nodes: seq<TextNode>, host: Host, loads: seq<Option<bool>>)
    requires |loads| <= |nodes| <= |host.loadOk| && CacheTrace(nodes, host, loads)
    requires |loads| > 0 && LoadKey(nodes[0]).Some? && host.loadOk[0]
    requires forall b :: 0 <= b < |loads| ==> LoadKey(nodes[b]) == LoadKey(nodes[0])
    ensures loads[0] == Some(true)
    ensures forall b :: 0 < b < |loads| ==> loads[b] == None
  {
    assert LoadedRightAt(nodes, host, loads, 0);
    forall b | 0 < b < |loads| ensures loads[b] == None {
      NoReloadAfterSuccess(nodes, host, loads, 0, b);
    }
  }

  /** The cache key is not injective: two different fonts can share a key. */
  lemma FontKeyCollides()
    ensures FontKey(FontName("A-B", "C")) == FontKey(FontName("A", "B-C"))
    ensures FontName("A-B", "C") != FontName("A", "B-C")
  {
  }

  /** Because of the collision, a layer in font (`A`, `B-C`) that follows a
      layer whose font (`A-B`, `C`) loaded successfully makes no
      `loadFontAsync` call of its own. */
  lemma CollidingFontNotLoaded(nodes: seq<TextNode>, list: seq<string>, msg: Message, host: Host)
    requires |list| > 0 && Fits(host, |nodes|) && |nodes| >= 2
    requires !nodes[0].hasMissingFont && nodes[0].fontName == Uniform(FontName("A-B", "C"))
    requires !nodes[1].hasMissingFont && nodes[1].fontName == Uniform(FontName("A", "B-C"))
    requires host.loadOk[0]
    ensures Pass(nodes, list, msg, host).loads[1] == None
  {
    var loads := Pass(nodes, list, msg, host).loads;
    PassFollowsCache(nodes, list, msg, host);
    FontKeyCollides();
    assert LoadedRightAt(nodes, host, loads, 0);
    NoReloadAfterSuccess(nodes, host, loads, 0, 1);
  }
}
