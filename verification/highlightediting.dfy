/**
  The editing integration's pure parts: the default `highlight.options`
  table and the conversion of an option list into a converter definition.
 */
module HighlightEditing {

  /** One configured highlight style. `kind` is the option's `type` field. */
  datatype HighlightOption = HighlightOption(
    model: string,
    cssClass: string,
    title: string,
    color: string,
    kind: string)

  /** The view element an attribute value converts to. */
  datatype ViewElement = ViewElement(name: string, styles: map<string, string>, priority: int)

  datatype ModelPart = ModelPart(key: string, values: seq<string>)

  /** A converter definition: the attribute key with its values, and one view element per value. */
  datatype Definition = Definition(model: ModelPart, view: map<string, ViewElement>)

  /** The `font` element coloured with `color`, at priority 5. */
  function FontElement(color: string): ViewElement {
    ViewElement("font", map["color" := color], 5)
  }

  /** No option after index `j` uses the same model name as option `j`. */
  predicate IsLastWithName(options: seq<HighlightOption>, j: nat)
    requires j < |options|
  {
    forall k :: j < k < |options| ==> options[k].model != options[j].model
  }

  predicate DistinctNames(options: seq<HighlightOption>) {
    forall i, j :: 0 <= i < j < |options| ==> options[i].model != options[j].model
  }

  /** Some option carries the model name `name`. */
  predicate HasName(options: seq<HighlightOption>, name: string) {
    exists j :: 0 <= j < |options| && options[j].model == name
  }

  /** `values` lists the model names in input order, duplicates included. */
  ghost predicate ValuesListed(d: Definition, options: seq<HighlightOption>) {
    && |d.model.values| == |options|
    && (forall j :: 0 <= j < |options| ==> d.model.values[j] == options[j].model)
  }

  /** The view map has exactly the model names as keys. */
  ghost predicate KeysAreNames(d: Definition, options: seq<HighlightOption>) {
    forall name :: name in d.view <==> HasName(options, name)
  }

  /** The entry of a name is the `font` element of the last option with that name. */
  ghost predicate LastEntries(d: Definition, options: seq<HighlightOption>) {
    forall j :: 0 <= j < |options| && IsLastWithName(options, j) ==>
      options[j].model in d.view && d.view[options[j].model] == FontElement(options[j].color)
  }

  /** Every entry is a coloured `font` element at priority 5. */
  ghost predicate FontEntries(d: Definition) {
    forall name :: name in d.view ==>
      d.view[name].name == "font" && d.view[name].priority == 5 && "color" in d.view[name].styles
  }

  /** What a converter definition built from `options` looks like; the key is always `highlight`. */
  ghost predicate Describes(d: Definition, options: seq<HighlightOption>) {
    && d.model.key == "highlight"
    && ValuesListed(d, options)
    && KeysAreNames(d, options)
    && LastEntries(d, options)
    && FontEntries(d)
  }

  /** One loop iteration: push the name, assign the view entry. */
  function AddOption(d: Definition, o: HighlightOption): Definition {
    Definition(ModelPart(d.model.key, d.model.values + [o.model]), d.view[o.model := FontElement(o.color)])
  }

  /** The options, in order, folded into a definition. */
  function BuildDefinition(options: seq<HighlightOption>): (d: Definition)
    ensures Describes(d, options)
  {
    if |options| == 0 then
      Definition(ModelPart("highlight", []), map[])
    else
      var n := |options| - 1;
      var d := BuildDefinition(options[..n]);
      AddOptionStep(d, options);
      AddOption(d, options[n])
  }

  /** Adding the last option to the definition of the others gives the definition of all. */
  lemma AddOptionStep(d: Definition, options: seq<HighlightOption>)
    requires |options| > 0 && Describes(d, options[..|options| - 1])
    ensures Describes(AddOption(d, options[|options| - 1]), options)
  {
    var n := |options| - 1;
    var d' := AddOption(d, options[n]);
    assert ValuesListed(d', options) by { AddOptionValues(d, options); }
    assert KeysAreNames(d', options) by { PrefixFacts(options); AddOptionKeys(d, options); }
    assert LastEntries(d', options) && FontEntries(d') by { PrefixFacts(options); AddOptionEntries(d, options); }
  }

  lemma AddOptionValues(d: Definition, options: seq<HighlightOption>)
    requires |options| > 0 && ValuesListed(d, options[..|options| - 1])
    ensures ValuesListed(AddOption(d, options[|options| - 1]), options)
  {
  }

  lemma AddOptionKeys(d: Definition, options: seq<HighlightOption>)
    requires |options| > 0 && KeysAreNames(d, options[..|options| - 1])
    requires forall name :: HasName(options, name) <==> HasName(options[..|options| - 1], name) || name == options[|options| - 1].model
    ensures KeysAreNames(AddOption(d, options[|options| - 1]), options)
  {
  }

  lemma AddOptionEntries(d: Definition, options: seq<HighlightOption>)
    requires |options| > 0
    requires var n := |options| - 1;
             && LastEntries(d, options[..n])
             && FontEntries(d)
             && (forall j :: 0 <= j < n ==> options[..n][j] == options[j])
             && (forall j :: 0 <= j < n && IsLastWithName(options, j) ==>
                   IsLastWithName(options[..n], j) && options[j].model != options[n].model)
    ensures var d' := AddOption(d, options[|options| - 1]);
            LastEntries(d', options) && FontEntries(d')
  {
  }

  /** How names and last occurrences of a list relate to those of the list without its last option. */
  lemma PrefixFacts(options: seq<HighlightOption>)
    requires |options| > 0
    ensures var n := |options| - 1;
            && (forall j :: 0 <= j < n ==> options[..n][j] == options[j])
            && (forall name :: HasName(options, name) <==> HasName(options[..n], name) || name == options[n].model)
            && (forall j :: 0 <= j < n && IsLastWithName(options, j) ==>
                  IsLastWithName(options[..n], j) && options[j].model != options[n].model)
  {
  }

  /** With pairwise-distinct model names every option gets its own view entry. */
  lemma {:induction false} DistinctNamesViewSize(options: seq<HighlightOption>)
    requires DistinctNames(options)
    ensures |BuildDefinition(options).view| == |options|
  {
    if |options| > 0 {
      var n := |options| - 1;
      var prefix := options[..n];
      assert DistinctNames(prefix) by {
        forall i, j | 0 <= i < j < n ensures prefix[i].model != prefix[j].model {
          assert prefix[i] == options[i] && prefix[j] == options[j];
        }
      }
      DistinctNamesViewSize(prefix);
      var d := BuildDefinition(prefix);
      PrefixFacts(options);
      assert !HasName(prefix, options[n].model);
      assert BuildDefinition(options) == AddOption(d, options[n]);
    }
  }

  /** With pairwise-distinct model names every option is the last one with its name. */
  lemma DistinctNamesAllLast(options: seq<HighlightOption>, j: nat)
    requires DistinctNames(options) && j < |options|
    ensures BuildDefinition(options).view[options[j].model] == FontElement(options[j].color)
  {
    assert IsLastWithName(options, j);
  }

  /**
    A repeated model name: `values` keeps both occurrences, and the view
    entry of the name is the element of the later option.
   */
  lemma DuplicateNameLastWins(options: seq<HighlightOption>, i: nat, j: nat)
    requires i < j < |options| && options[i].model == options[j].model
    requires IsLastWithName(options, j)
    ensures var d := BuildDefinition(options);
            && d.model.values[i] == d.model.values[j] == options[j].model
            && d.view[options[j].model] == FontElement(options[j].color)
  {
  }

  /** An empty option list gives no values and no view entries. */
  lemma EmptyOptions()
    ensures BuildDefinition([]).model.values == []
    ensures BuildDefinition([]).view == map[]
  {
  }

  /** The default `highlight.options` table, defined when the plugin is constructed. */
  const DefaultOptions: seq<HighlightOption> := [
    HighlightOption("yellowMarker", "marker-yellow", "Yellow marker", "var(--ck-highlight-marker-yellow)", "marker"),
    HighlightOption("greenMarker", "marker-green", "Green marker", "var(--ck-highlight-marker-green)", "marker"),
    HighlightOption("pinkMarker", "marker-pink", "Pink marker", "var(--ck-highlight-marker-pink)", "marker"),
    HighlightOption("blueMarker", "marker-blue", "Blue marker", "var(--ck-highlight-marker-blue)", "marker"),
    HighlightOption("redPen", "pen-red", "Red pen", "var(--ck-highlight-pen-red)", "pen"),
    HighlightOption("greenPen", "pen-green", "Green pen", "var(--ck-highlight-pen-green)", "pen")
  ]

  /** The default table has six options with distinct names, each a marker or a pen. */
  lemma DefaultOptionsShape()
    ensures |DefaultOptions| == 6
    ensures DistinctNames(DefaultOptions)
    ensures forall j :: 0 <= j < |DefaultOptions| ==>
              DefaultOptions[j].kind == "marker" || DefaultOptions[j].kind == "pen"
  {
  }

  /** The default table converts to six view entries, one per option, each with its own colour. */
  lemma DefaultDefinition()
    ensures var d := BuildDefinition(DefaultOptions);
            && |d.model.values| == 6
            && |d.view| == 6
            && d.view["redPen"] == FontElement("var(--ck-highlight-pen-red)")
  {
    DefaultOptionsShape();
    DistinctNamesViewSize(DefaultOptions);
    DistinctNamesAllLast(DefaultOptions, 4);
  }
}
