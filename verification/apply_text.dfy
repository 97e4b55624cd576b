/** The `apply-text` handler as a whole: keep the text layers of the
    selection, abort when there are none, parse the list, abort when it is
    empty, and otherwise run the replacement pass. */
module ApplyText {
  import opened Options
  import opened ListParser
  import opened Casing
  import opened Formatting
  import opened ReplacePass

  /** A selected layer: a text layer, or a layer of any other type. */
  datatype Layer = TextLayer(node: TextNode) | OtherLayer

  /** `selection.filter(node => node.type === "TEXT")`. */
  function TextNodes(sel: seq<Layer>): (r: seq<TextNode>)
    ensures |r| <= |sel|
    ensures r == [] <==> forall i :: 0 <= i < |sel| ==> sel[i].OtherLayer?
  {
    if |sel| == 0 then []
    else
      var rest := TextNodes(sel[1..]);
      assert forall i :: 1 <= i < |sel| ==> sel[i] == sel[1..][i - 1];
      match sel[0]
      case TextLayer(n) => [n] + rest
      case OtherLayer => rest
  }

  /** Every kept layer is a selected text layer, and every selected text
      layer is kept. */
  lemma {:induction false} TextNodesMembers(sel: seq<Layer>, n: TextNode)
    ensures n in TextNodes(sel) <==> TextLayer(n) in sel
  {
    if |sel| > 0 {
      TextNodesMembers(sel[1..], n);
      assert sel == [sel[0]] + sel[1..];
    }
  }

  /** The filter keeps the text layers in selection order: filtering a
      concatenation concatenates the filtered parts. */
  lemma {:induction false} TextNodesAppend(a: seq<Layer>, b: seq<Layer>)
    ensures TextNodes(a + b) == TextNodes(a) + TextNodes(b)
  {
    if |a| > 0 {
      assert (a + b)[1..] == a[1..] + b;
      TextNodesAppend(a[1..], b);
    } else {
      assert a + b == b;
    }
  }

  /** What the handler ends with. */
  datatype Report =
    | NoTextLayers          // no text layer selected: nothing parsed, nothing touched
    | EmptyTextList         // the list parsed to nothing: nothing touched
    | Finished(pass: PassState)

  function HandleApplyText(sel: seq<Layer>, msg: Message, host: Host): (r: Report)
    requires Fits(host, |TextNodes(sel)|)
    ensures r == NoTextLayers <==> forall i :: 0 <= i < |sel| ==> sel[i].OtherLayer?
    ensures r == EmptyTextList <==>
              TextNodes(sel) != [] && ParseList(msg.textList, msg.separator) == []
    ensures r.Finished? ==>
              var list := ParseList(msg.textList, msg.separator);
              |list| > 0 && Good(TextNodes(sel), list, msg, host, |TextNodes(sel)|, r.pass)
  {
    var nodes := TextNodes(sel);
    if |nodes| == 0 then NoTextLayers
    else
      var list := ParseList(msg.textList, msg.separator);
      if |list| == 0 then EmptyTextList
      else Finished(Pass(nodes, list, msg, host))
  }

  /** The `characters` of every selected text layer once the handler is
      done: the written text for updated layers, the old text otherwise. */
  function TextsAfter(sel: seq<Layer>, msg: Message, host: Host): (r: seq<string>)
    requires Fits(host, |TextNodes(sel)|)
    ensures |r| == |TextNodes(sel)|
    // an aborted run leaves every text layer as it was
    ensures !HandleApplyText(sel, msg, host).Finished? ==>
              forall b :: 0 <= b < |r| ==> r[b] == TextNodes(sel)[b].characters
  {
    var nodes := TextNodes(sel);
    match HandleApplyText(sel, msg, host)
    case Finished(st) =>
      seq(|nodes|, b requires 0 <= b < |nodes| =>
        if st.outcomes[b].Updated? then st.outcomes[b].text else nodes[b].characters)
    case _ => seq(|nodes|, b requires 0 <= b < |nodes| => nodes[b].characters)
  }

  /** A layer with a missing font, and an empty mixed-font layer, keep
      their text whatever the list and the host do. */
  lemma UnwrittenLayersKeepText(sel: seq<Layer>, msg: Message, host: Host, b: nat)
    requires Fits(host, |TextNodes(sel)|) && b < |TextNodes(sel)|
    requires TextNodes(sel)[b].hasMissingFont ||
             (TextNodes(sel)[b].fontName.Mixed? && TextNodes(sel)[b].characters == [])
    ensures TextsAfter(sel, msg, host)[b] == TextNodes(sel)[b].characters
  {
    var nodes := TextNodes(sel);
    match HandleApplyText(sel, msg, host)
    case Finished(st) =>
      assert FactsAt(nodes, ParseList(msg.textList, msg.separator), msg, host, st, b);
    case _ =>
  }

  /** A blank list (only whitespace, in any separator mode) aborts the
      handler once a text layer is selected. */
  lemma BlankListAborts(sel: seq<Layer>, msg: Message, host: Host)
    requires Fits(host, |TextNodes(sel)|)
    requires TextNodes(sel) != []
    requires Strings.AllWhite(msg.textList)
    ensures HandleApplyText(sel, msg, host) == EmptyTextList
  {
    BlankInputParsesEmpty(msg.textList, msg.separator);
  }

  /** A text layer whose font is already available: uniform, installed. */
  predicate Healthy(n: TextNode) {
    !n.hasMissingFont && n.fontName.Uniform?
  }

  /** A host on which every load and every write succeeds. */
  predicate Smooth(host: Host) {
    && (forall i :: 0 <= i < |host.loadOk| ==> host.loadOk[i])
    && (forall i :: 0 <= i < |host.writeOk| ==> host.writeOk[i])
  }

  /** With no casing and no affixes, a healthy layer on a smooth host gets
      its list entry verbatim. */
  lemma PlainEntryWritten(nodes: seq<TextNode>, list: seq<string>, msg: Message, host: Host, b: nat)
    requires |list| > 0 && Fits(host, |nodes|) && Smooth(host) && b < |nodes| && Healthy(nodes[b])
    requires msg.mode != "random" && msg.casing == "none"
    requires msg.prefix == None && msg.suffix == None
    ensures Pass(nodes, list, msg, host).outcomes[b] == Updated(list[b % |list|])
  {
    HealthyLayerUpdated(nodes, list, msg, host, b);
    ComposeWithoutAffixes(msg, list[b % |list|]);
  }

  /** Three healthy layers, the list `["X", "Y"]`, sequential mode, no
      casing, no affixes: the layers read `X`, `Y`, `X`. */
  lemma RotationExample(nodes: seq<TextNode>, msg: Message, host: Host)
    requires |nodes| == 3 && Healthy(nodes[0]) && Healthy(nodes[1]) && Healthy(nodes[2])
    requires Fits(host, 3) && Smooth(host)
    requires msg.mode == "sequential" && msg.casing == "none"
    requires msg.prefix == None && msg.suffix == None
    ensures Pass(nodes, ["X", "Y"], msg, host).outcomes == [Updated("X"), Updated("Y"), Updated("X")]
  {
    var list := ["X", "Y"];
    PlainEntryWritten(nodes, list, msg, host, 0);
    PlainEntryWritten(nodes, list, msg, host, 1);
    PlainEntryWritten(nodes, list, msg, host, 2);
  }

  /** A layer with a missing font between healthy ones: two updated, one
      error, and the healthy layers still get entries 1 and 2 of the
      rotation. */
  lemma MissingFontExample(nodes: seq<TextNode>, list: seq<string>, msg: Message, host: Host)
    requires |nodes| == 3 && nodes[0].hasMissingFont && Healthy(nodes[1]) && Healthy(nodes[2])
    requires |list| > 0 && Fits(host, 3) && Smooth(host)
    ensures Pass(nodes, list, msg, host).updated == 2
    ensures Pass(nodes, list, msg, host).errors == 1
    ensures msg.mode != "random" ==>
              Pass(nodes, list, msg, host).outcomes[1] == Updated(ComposeText(msg, list[1 % |list|])) &&
              Pass(nodes, list, msg, host).outcomes[2] == Updated(ComposeText(msg, list[2 % |list|]))
  {
    var r := Pass(nodes, list, msg, host);
    PassWritesOnlyHealthyLayers(nodes, list, msg, host, 0);
    HealthyLayerUpdated(nodes, list, msg, host, 1);
    HealthyLayerUpdated(nodes, list, msg, host, 2);
    var os := r.outcomes;
    assert os[..2][..1][..0] == [];
    assert CountUpdated(os[..2][..1]) == 0 && CountFailed(os[..2][..1]) == 1;
    assert CountUpdated(os[..2]) == 1 && CountFailed(os[..2]) == 1;
  }
}
