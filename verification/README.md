# apply-individually: the `apply-text` handler in Dafny

The plugin replaces the text of every selected text layer with an entry from a
user-supplied list. It cycles through the list by position, or draws entries at
random. It can upper-case, lower-case or title-case the entry, and adds an
optional prefix and suffix. This project models the pure part of the
`apply-text` message handler in `code.js`:

- **the list parser**: split by white-space runs, by lines or by commas; trim
  every piece; drop the empty ones; abort when nothing is left;
- **`applyCasing`** and the text composition: base-entry selection, casing,
  prefix and suffix;
- **the replacement pass**: one forward pass over the selected text layers with
  the `updated`/`errors` counters and the `loadedFonts` cache keyed by
  `family-style`.

Modules, one per file:

| file | module | what it holds |
|---|---|---|
| `options.dfy` | `Options` | `Option<T>` |
| `chars.dfy` | `Chars` | JavaScript's white-space set (`\s`, `trim`), the `\w` class, ASCII case mapping |
| `strings.dfy` | `Strings` | `trim`, `split(',')`, `split(/\s+/)`, `split(/\r?\n/)`, `join` |
| `list_parser.dfy` | `ListParser` | the text-list parser |
| `casing.dfy` | `Casing` | `applyCasing`, with title case stated independently as `TitleSpec` |
| `formatting.dfy` | `Formatting` | the message, base-entry selection, `prefix + cased + suffix` |
| `replace_pass.dfy` | `ReplacePass` | the per-layer loop, its counters and the font cache |
| `apply_text.dfy` | `ApplyText` | the handler: selection filter, both aborts, the pass |

The host is modelled as data:
- a text layer is a `TextNode` holding `hasMissingFont`, its `fontName` (`Uniform(font)` or `Mixed`), the font `getRangeFontName(0, 1)` would answer, and its `characters`;
- the host's answers for the layer at position `i` form a `Host`: whether `loadFontAsync` succeeds, whether assigning `characters` succeeds, and the `Math.random()` draw.

The pass returns:
- the cache;
- the two counters;
- for the proofs, every layer's outcome (`Updated(text)`, `Failed(why)` or `Skipped`);
- the trace of `loadFontAsync` calls: `None` for no call, `Some(ok)` for a call.

Three behaviours of `code.js` worth stating:
- An empty mixed-font layer is skipped without being counted as an error (`continue` at code.js:76).
- Title case rewrites the `/\w\S*/` matches. A run starts at a word character and extends over non-white characters, so in `-abc` only `abc` is a run.
- Any separator value other than `'space'` and `'newline'` selects comma splitting.

## Model

| member | source | states |
|---|---|---|
| Strings.Trim | code.js:30 | `trim` yields a string with no white space at either end |
| Strings.TrimInfix | code.js:37 | the input is `p + trim(s) + q` with `p` and `q` all white: trimming removes only white space, and only at the ends |
| Strings.TrimOfTrimmed | code.js:37 | an already trimmed string is left unchanged by `trim` |
| Strings.TrimEmptyIffAllWhite | code.js:37 | `trim(s)` is empty exactly when `s` is all white space |
| Strings.SplitOn | code.js:34 | `split(',')` gives at least one piece, no piece holds a comma, and joining the pieces with commas gives back the input |
| Strings.SplitOnJoin | code.js:34 | splitting a comma-join of comma-free items gives back the items |
| Strings.SplitWhite | code.js:30 | `split(/\s+/)` gives at least one piece and no piece holds white space |
| Strings.SplitWhiteJoin | code.js:30 | splitting a single-space join of non-empty words without white space gives back the words |
| Strings.SplitLines | code.js:32 | `split(/\r?\n/)` gives at least one piece and no piece holds a line feed |
| Strings.DropCR | code.js:32 | a piece before a line feed that ends in a carriage return loses exactly that one carriage return; any other piece is unchanged |
| Strings.SplitLinesCRLF | code.js:32 | `"a\r\nb"` splits into `a` and `b`: the `\r` of a `\r\n` line end belongs to the separator |
| Strings.SplitLinesJoin | code.js:32 | splitting a line-feed join of line-feed-free lines that do not end in a carriage return gives back the lines |
| ListParser.SeparatorOf | code.js:29-35 | `'space'` selects white-space runs, `'newline'` selects lines, and every other value selects commas |
| ListParser.Clean | code.js:37 | trimming and filtering never lengthens the list, and every surviving item is non-empty and trimmed |
| ListParser.CleanAppend | code.js:37 | trimming and filtering act piece by piece, so surviving items keep the order of their pieces |
| ListParser.CleanSingle | code.js:37 | a piece is dropped exactly when it is all white space, and otherwise survives as its trimmed form |
| ListParser.CleanOfClean | code.js:37 | a list of non-empty trimmed items passes through trimming and filtering unchanged |
| ListParser.ParseList | code.js:28-37 | every parsed item is non-empty and trimmed |
| ListParser.ParseSpaceRoundTrip | code.js:30 | space mode parses a single-space join of white-space-free words back to those words |
| ListParser.ParseNewlineRoundTrip | code.js:32 | newline mode parses a line-feed join of trimmed lines back to those lines, inner spaces included |
| ListParser.ParseCommaRoundTrip | code.js:33-35 | for any separator other than space and newline, a comma-join of trimmed comma-free items parses back to those items, inner spaces included |
| ListParser.BlankInputParsesEmpty | code.js:28-42 | an all-white raw list parses to the empty list in every mode, which is the handler's second abort |
| ListParser.ExampleCommas | code.js:34-37 | `"a, b ,c"` in comma mode parses to `a`, `b`, `c` |
| ListParser.ExampleLines | code.js:32-37 | `"a\nb\n\nc"` in newline mode parses to `a`, `b`, `c`: the blank line is dropped |
| ListParser.ExampleSpaces | code.js:30-37 | `"a   b  c"` in space mode parses to `a`, `b`, `c` |
| Chars.Upper | code.js:54 | an ASCII lower-case letter maps to its upper-case letter, and every other character is unchanged |
| Chars.Lower | code.js:55 | an ASCII upper-case letter maps to its lower-case letter, and every other character is unchanged |
| Chars.CaseKeepsClasses | code.js:56-58 | case mapping preserves being white space and being a word character, so it cannot move run boundaries |
| Chars.CaseAbsorbs | code.js:54-57 | upper-casing and lower-casing are idempotent, and each undoes the other's effect on letters |
| Casing.TitleCase | code.js:57 | title case preserves the length of the text |
| Casing.TitleCaseMeaning | code.js:56-58 | title case equals the independent per-character definition: the first character of a run is upper-cased, the rest of the run is lower-cased, and characters outside runs are kept |
| Casing.InRunStep | code.js:57 | a character is inside a run exactly when it is not white and it is either a word character or continues a run |
| Casing.TitleCaseIdempotent | code.js:56-58 | title-casing twice is title-casing once |
| Casing.ApplyCasing | code.js:52-60 | the length is preserved and empty text stays empty. Upper and lower map every character. Title matches the run definition. Any other mode returns the text unchanged |
| Casing.ApplyCasingIdempotent | code.js:52-60 | applying the same casing twice is applying it once |
| Formatting.OrEmpty | code.js:95-96 | an absent affix contributes the empty string, and a present one contributes itself |
| Formatting.PickIndex | code.js:88 | `floor(draw * n)` for a draw in `[0, 1)` is a valid index below `n` |
| Formatting.PickReachesEvery | code.js:88 | every index is reached by some draw |
| Formatting.BaseText | code.js:85-91 | the base text is always a list entry, and outside random mode it is entry `i mod n` |
| Formatting.ComposeText | code.js:93-98 | the written text is the prefix, then the cased base text, then the suffix |
| Formatting.ComposeWithoutAffixes | code.js:94-98 | with neither prefix nor suffix, the written text is the cased base text |
| ReplacePass.ResolvedFont | code.js:72-77 | no font is resolved exactly for an empty mixed-font layer. A uniform font is used as is. A non-empty mixed-font layer uses the font of its first character (`getRangeFontName(0, 1)`) |
| ReplacePass.LoadKey | code.js:66-79 | a layer reaches the cache exactly when its font is not missing and resolves, and its key is `family + "-" + style` of the resolved font |
| ReplacePass.StepNode | code.js:65-105 | one layer is a missing-font error iff `hasMissingFont`. It is skipped iff it is an empty mixed-font layer. It loads its font iff the key is not cached. A failed load is an error. It is written iff the font is available and the write succeeds, and then with the composed text |
| ReplacePass.OkKeysMeaning | code.js:79-83 | after `b` layers the cache holds exactly the keys of earlier layers whose load succeeded |
| ReplacePass.KeyStaysOut | code.js:80-83 | a key missing from the cache stays missing until a layer loads it successfully |
| ReplacePass.CountsPartition | code.js:63-107 | every outcome is counted as exactly one of updated, error or skipped |
| ReplacePass.StepKeepsGood | code.js:63-107 | one loop iteration preserves the invariant: cache, counters, per-layer facts |
| ReplacePass.Run | code.js:63-107 | the loop from any position on ends in a state satisfying the invariant for all layers |
| ReplacePass.Pass | code.js:46-107 | starting from an empty cache and zero counters, the pass ends with counters equal to the counts of outcomes and every layer handled as `StepNode` states |
| ReplacePass.PassAccounting | code.js:63-107 | `updated + errors + skipped` equals the number of layers, so `updated + errors` never exceeds it |
| ReplacePass.PassWritesOnlyHealthyLayers | code.js:66-100 | missing-font layers are errors and empty mixed-font layers are skipped, neither is written, and a layer is written only if its write succeeded |
| ReplacePass.SequentialText | code.js:89-90 | outside random mode the layer at position `b` gets entry `b mod n`, whatever happened to earlier layers |
| ReplacePass.RandomText | code.js:86-88 | in random mode every written layer gets some list entry |
| ReplacePass.HealthyLayerUpdated | code.js:79-101 | a layer whose font resolves, loads and whose write succeeds is written with the composed text |
| ReplacePass.PassFollowsCache | code.js:79-83 | the pass calls `loadFontAsync` exactly when the layer's key is not yet cached |
| ReplacePass.NoReloadAfterSuccess | code.js:79-83 | after a key's load succeeded, no later layer with that key loads it again |
| ReplacePass.FailedLoadRetried | code.js:80-83 | after a failed load, the next layer needing that key calls `loadFontAsync` again |
| ReplacePass.OneLoadPerKey | code.js:79-83 | when every load succeeds, two load calls are for two different keys |
| ReplacePass.SharedFontLoadedOnce | code.js:79-83 | layers sharing one font whose first load succeeds load it once, for the first layer |
| ReplacePass.FontKeyCollides | code.js:79 | the fonts (`A-B`, `C`) and (`A`, `B-C`) are different but share one cache key |
| ReplacePass.CollidingFontNotLoaded | code.js:79-83 | after a successful load of (`A-B`, `C`), a layer in the different font (`A`, `B-C`) makes no `loadFontAsync` call |
| ApplyText.TextNodes | code.js:20 | the filter is empty exactly when no selected layer is a text layer |
| ApplyText.TextNodesMembers | code.js:20 | a node is kept exactly when it is a selected text layer |
| ApplyText.TextNodesAppend | code.js:20 | the filter keeps the selection's order |
| ApplyText.HandleApplyText | code.js:18-107 | the selection check comes first: no text layer aborts before parsing. An empty parsed list aborts next. Otherwise the pass runs over the text layers with the parsed list |
| ApplyText.TextsAfter | code.js:20-42 | an aborted run leaves the text of every selected text layer unchanged |
| ApplyText.UnwrittenLayersKeepText | code.js:66-76 | a layer with a missing font or empty mixed-font content keeps its text |
| ApplyText.BlankListAborts | code.js:28-42 | with a text layer selected, an all-white list aborts with the empty-list outcome |
| ApplyText.PlainEntryWritten | code.js:85-100 | with no casing and no affixes, a healthy layer outside random mode gets its entry verbatim |
| ApplyText.RotationExample | code.js:63-100 | three healthy layers with the list `X`, `Y` read `X`, `Y`, `X` |
| ApplyText.MissingFontExample | code.js:63-107 | a missing-font layer and two healthy layers give 2 updated and 1 error, and the healthy layers keep their positions in the rotation |

## Left out

- The `resize` message and `figma.showUI` (code.js:2, 7-10): UI plumbing with no logic.
- Notifications and logging (code.js:23, 40, 44, 104, 109-113, 116-119): the outcome is kept as `Report` and the counters, not as notice strings.
- The outer `catch` (code.js:115-117): in the model, `textList` is always a string. The source reaches this catch when `textList` is absent.
- Per-layer exceptions other than a failed `loadFontAsync` or a failed assignment to `characters`, such as a throwing `getRangeFontName`. These are the two host answers the model takes.
- `await` and the host's object model: the pass is sequential, and selection, fonts and characters are plain data.
- Chars.Upper: maps ASCII letters only. JavaScript's `toUpperCase` also maps other scripts and can change the length (`ß` becomes `SS`).
- Chars.Lower: maps ASCII letters only, for the same reason.
- Casing.TitleCaseIdempotent: holds for the ASCII case mapping of the model. Full Unicode mapping is not modelled.
- Formatting.PickIndex: the random draw is an exact real in `[0, 1)`. Floating-point rounding of `Math.random() * n` is not modelled.
- The key collision shown by `ReplacePass.FontKeyCollides` is stated as a property and not corrected: the pass keeps `code.js`'s string key.
