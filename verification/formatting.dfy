/** How the handler builds the text written into one layer: pick the base
    entry of the list, apply the casing, add the prefix and the suffix. */
module Formatting {
  import opened Options
  import opened Casing

  /** The fields of an `apply-text` message.  `separator`, `mode` and
      `casing` are free strings: unknown values select the default
      behaviour.  `prefix` and `suffix` may be absent. */
  datatype Message = Message(
    textList: string,
    separator: string,
    mode: string,
    casing: string,
    prefix: Option<string>,
    suffix: Option<string>)

  /** `value || ""`: an absent or empty affix contributes nothing. */
  function OrEmpty(affix: Option<string>): (r: string)
    ensures affix.Some? ==> r == affix.value
    ensures affix.None? ==> r == []
  {
    affix.GetOr([])
  }

  /** `Math.floor(draw * n)` for a draw `0 <= draw < 1` from
      `Math.random()`. */
  function PickIndex(draw: real, n: nat): (k: nat)
    requires 0.0 <= draw < 1.0
    requires n > 0
    ensures k < n
    ensures k as real <= draw * n as real < k as real + 1.0
  {
    var x := draw * n as real;
    assert 0.0 <= x < n as real;
    x.Floor
  }

  /** Every entry of the list can be drawn: the draw `k / n` picks entry
      `k`. */
  lemma PickReachesEvery(k: nat, n: nat)
    requires k < n
    ensures PickIndex(k as real / n as real, n) == k
  {
  }

  /** The list entry used for the layer at position `i`: a random entry in
      `'random'` mode, otherwise entry `i mod |list|`. */
  function BaseText(list: seq<string>, i: nat, mode: string, draw: real): (r: string)
    requires |list| > 0
    requires 0.0 <= draw < 1.0
    ensures r in list
    ensures mode != "random" ==> r == list[i % |list|]
  {
    if mode == "random" then list[PickIndex(draw, |list|)]
    else list[i % |list|]
  }

  /** The final text: prefix, then the cased base text, then suffix. */
  function ComposeText(msg: Message, base: string): (r: string)
    ensures |r| == |OrEmpty(msg.prefix)| + |base| + |OrEmpty(msg.suffix)|
    ensures r[..|OrEmpty(msg.prefix)|] == OrEmpty(msg.prefix)
    ensures r[|r| - |OrEmpty(msg.suffix)|..] == OrEmpty(msg.suffix)
    ensures r[|OrEmpty(msg.prefix)|..|r| - |OrEmpty(msg.suffix)|] == ApplyCasing(base, msg.casing)
  {
    var p := OrEmpty(msg.prefix);
    var c := ApplyCasing(base, msg.casing);
    var s := OrEmpty(msg.suffix);
    var r := p + c + s;
    assert r[..|p|] == p;
    assert r[|p|..|r| - |s|] == c;
    r
  }

  /** With no prefix and no suffix (absent or empty) the written text is
      the cased base text itself. */
  lemma ComposeWithoutAffixes(msg: Message, base: string)
    requires OrEmpty(msg.prefix) == [] && OrEmpty(msg.suffix) == []
    ensures ComposeText(msg, base) == ApplyCasing(base, msg.casing)
  {
  }
}
