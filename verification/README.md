# Highlight command and editing integration, modelled in Dafny

This project models the core of an inline "highlight" plugin for a rich-text
editor. The plugin marks runs of text with a `highlight` attribute whose value
is a colour string. The model has two parts.

- **The `highlight` command** (`HighlightCommand`, over `Document` and `Values`).
  `Refresh` copies the selection's attribute into the command's observable
  `value`. `Execute(color)` handles two kinds of selection. At a collapsed
  caret whose selection carries a highlight, it grows the maximal run of
  characters whose attribute equals the command's `value`. It then erases that
  run or recolours it, and updates the selection's pending attribute to match.
  At a caret without a highlight, it only sets the pending attribute, or does
  nothing. On a non-collapsed selection, it sets or clears the attribute on
  every schema-valid range.
- **The editing integration** (`HighlightEditing`). This part holds the
  default `highlight.options` table and `BuildDefinition`. `BuildDefinition`
  folds an option list into a converter definition: a list of model `values`
  and a `view` map from model name to a `font` element.

The document is flattened to one sequence `doc: seq<Option<string>>`, holding
the highlight value of each character. A position `p <= |doc|` lies between
characters `p - 1` and `p`.

Code and comments disagree in two places. The model follows the code in both.

- The doc comment at `src/highlightcommand.js:17` shows an `{ value: ... }`
  argument. The code at `:54` takes the colour string itself.
- The comment at `:93` says the attribute is removed "when passing highlighter
  different then current". The code at `:92` removes it when the colour is
  clear or *equal* to the current value.

The run test at `:83` compares each character against `this.value`. That is
the value from the last refresh, not the selection attribute, whose presence `:80` tests.
The model keeps both fields (`value` and `selAttr`). When `value` is absent,
no character matches, so the run is empty.

The selection's pending attribute `selAttr` is a free input of the model. In
the host a caret usually takes it from the character before it, but an
explicit `setSelectionAttribute` can leave any value there, so the lemmas
allow any value.

JavaScript truthiness is modelled explicitly. `!color` and `if (color)` treat
`undefined` and `""` alike as a clear request (`Values.IsClear`).

Configured identifiers are not checked against the option table. Any string
passes through `Execute` unchanged, as in the code.

## Model

| member | source | states |
|---|---|---|
| Document.RunStart | src/highlightcommand.js:86 | the backward scan stops at or before the caret; every character it passes carries the command value; the character before its stop does not |
| Document.RunEnd | src/highlightcommand.js:87 | the forward scan stops at or after the caret, inside the document; every character it passes carries the command value; the character at its stop does not |
| Document.Run | src/highlightcommand.js:82-89 | the range built from both scans is a maximal run of the command value that contains the caret |
| Document.RunUnique | src/highlightcommand.js:82-89 | any maximal run of the value containing the caret is exactly the range the two scans find |
| Document.RunCovers | src/highlightcommand.js:82-89 | every stretch of characters carrying the value around the caret lies inside the scanned run |
| Values.IsClear | src/highlightcommand.js:92 | definition: `!color` as JavaScript reads it, so `undefined` and `""` are both a clear request, as are the falsy branches of `if (color)` at :101 and :106 |
| Values.Matches | src/highlightcommand.js:82-84 | definition: `isSameHighlight`, true when the character has the attribute and it is strictly equal to the command value, so nothing matches when the command has no value |
| Values.Applied | src/highlightcommand.js:106-110 | definition: the attribute each valid range receives, the colour when it is truthy and none (removal) otherwise |
| Document.SetRange | src/highlightcommand.js:107-109 | definition: the writer's set or remove of the attribute over one range, giving every character inside the range the attribute (none for removal) and keeping the others, as at :94, :98, :107 and :109 |
| Document.SetRanges | src/highlightcommand.js:105-111 | handling the ranges one after another gives every character inside some range the attribute and leaves every other character alone, whatever the order or overlap of the ranges |
| HighlightCommand.Refresh | src/highlightcommand.js:29-43 | the command value becomes the selection attribute and the enabled flag the schema verdict; document, selection and selection attribute are unchanged |
| HighlightCommand.Erases | src/highlightcommand.js:92 | definition: the eraser test at a highlighted caret, true for a clear request or a colour strictly equal to the command value |
| HighlightCommand.Execute | src/highlightcommand.js:54-114 | execution keeps the document length, the selection and the command's own fields; a caret stays inside the document |
| HighlightCommand.CaretErasesRun | src/highlightcommand.js:92-95 | at a highlighted caret, with a clear request or the current colour, every character of the maximal run loses the attribute, all others are unchanged, and the pending attribute is dropped |
| HighlightCommand.CaretRecoloursRun | src/highlightcommand.js:96-99 | at a highlighted caret, with a different truthy colour, every character of the maximal run gets that colour, all others are unchanged, and the pending attribute becomes that colour |
| HighlightCommand.CaretPendingOnly | src/highlightcommand.js:86-99 | when neither neighbour of the caret carries the command value, the run is empty, the document is unchanged, and only the pending attribute changes |
| HighlightCommand.CaretUnhighlighted | src/highlightcommand.js:101-103 | at a caret without a highlight the document never changes; a truthy colour becomes the pending attribute; a clear request leaves the whole editor unchanged |
| HighlightCommand.RecolourThenToggleErases | src/highlightcommand.js:82-99 | recolouring a run, refreshing, and executing the same colour again erases a run that contains the first run; the second run may also take in neighbours that already had that colour; nothing outside it changes, and the pending attribute is dropped |
| HighlightCommand.SpanSetsRanges | src/highlightcommand.js:104-111 | on a non-collapsed selection, every character in a valid range gets the colour or loses the attribute on a clear request; characters outside all ranges and the selection attribute are untouched |
| HighlightCommand.SpanIdempotent | src/highlightcommand.js:105-110 | executing the same request twice on the same ranges gives the same editor state as executing it once |
| HighlightCommand.CaretExecuteThenRefresh | src/highlightcommand.js:92-103 | after a caret execution and a refresh, the command value is absent exactly for a clear request or the eraser toggle, and otherwise is the requested colour |
| HighlightCommand.ScenarioPinkEraser | src/highlightcommand.js:92-95 | a caret inside a run marked `pinkMarker`, executing `pinkMarker`, removes the attribute from the whole run and drops the pending attribute |
| HighlightCommand.ScenarioSwitchColour | src/highlightcommand.js:96-99 | a caret inside a `redPen` run, executing `blueMarker`, turns the whole contiguous run `blueMarker` and makes it the pending attribute |
| HighlightEditing.FontElement | src/highlightediting.js:152-158 | definition: the view entry literal, a `font` element at priority 5 whose only style is `color`, set to the option's colour |
| HighlightEditing.AddOption | src/highlightediting.js:151-159 | definition: one loop iteration, pushing the option's name onto `values` and assigning its `font` element to `view[name]` |
| HighlightEditing.BuildDefinition | src/highlightediting.js:141-163 | the key is `highlight`; `values` lists the option names in input order; the view keys are exactly the option names; each name maps to the `font` element of its last option; every entry is a coloured `font` element at priority 5 |
| HighlightEditing.AddOptionStep | src/highlightediting.js:150-160 | one loop iteration extends a definition of the first options to a definition of all of them |
| HighlightEditing.DistinctNamesViewSize | src/highlightediting.js:150-159 | with pairwise-distinct names, the view map has exactly one entry per option |
| HighlightEditing.DistinctNamesAllLast | src/highlightediting.js:152-159 | with pairwise-distinct names, every option's name maps to that option's own `font` element |
| HighlightEditing.DuplicateNameLastWins | src/highlightediting.js:151-152 | a repeated name appears at both positions of `values`, and its view entry is the later option's element |
| HighlightEditing.EmptyOptions | src/highlightediting.js:142-148 | no options give empty `values` and an empty view map |
| HighlightEditing.DefaultOptions | src/highlightediting.js:36-81 | the default table, field by field: six options, four markers and two pens, with their classes, titles and colour variables |
| HighlightEditing.DefaultOptionsShape | src/highlightediting.js:36-81 | the default table has six options with pairwise-distinct names, each of kind `marker` or `pen` |
| HighlightEditing.DefaultDefinition | src/highlightediting.js:36-81 | the default table converts to six values and six view entries, with `redPen` mapped to its own pen colour |

## Left out

- The host's document tree is flattened to one character sequence. Run scans across element boundaries (the tree walker of `getLastMatchingPosition`) are not modelled.
- Schema narrowing of the selection (`getValidRanges`, `src/highlightcommand.js:74`) is not modelled. Its result is the `valid` parameter of `Execute`. The schema verdict `checkAttributeInSelection` (`:42`) is the `allowed` parameter of `Refresh`.
- The `model.change` transaction (`:73`) is host machinery. `Execute` is one pure state transition.
- After a non-collapsed execution, the host recomputes the selection's attributes from the document. That recomputation is not modelled, so no lemma says what `Refresh` reads after a span execution.
- Converter registration is not modelled: `downcastAttributeToElement`, `attributeToElement` (`src/highlightediting.js:93-115`), `_createElement` and its custom-property marker (`:165-171`). These are calls into the rendering pipeline.
- The schema extension (`:91`) and command registration (`:133`) are host registry calls and are not modelled.
- The commented-out upcast converter (`:116-127`), the commented-out `_buildDefinition` call (`:131`) and the commented-out UI-model block (`src/highlightcommand.js:60-71`) are dead code.
- Colour strings such as CSS `var(...)` values are opaque data and are not parsed.
- Host command machinery outside both files is not modelled. The host refreshes every command after each document change; the model needs an explicit `Refresh`, and `value` stays stale until then. The host also skips `execute` while `isEnabled` is false; `Execute` ignores `isEnabled`.
- `view` is modelled as a Dafny map. The source builds it as a plain JavaScript object (`src/highlightediting.js:147`, `:152`), so an option named `__proto__` would set the object's prototype instead of adding a key. The view-key and last-entry properties of `BuildDefinition` do not hold for that name in the source.
- HighlightEditing.DefaultDefinition: states the count of values rather than the literal list of six names. The per-index equality with the option names comes from `BuildDefinition`.
