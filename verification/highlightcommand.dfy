/**
  The `highlight` command over a flattened document: `Refresh` reads the
  selection's attribute into the command's value, `Execute` applies or
  removes the attribute around a caret or over the schema-valid ranges of a
  non-collapsed selection. A whole `Execute` is one state transition (the
  host runs it inside a single model change).
 */
module HighlightCommand {
  import opened Values
  import opened Document

  /**
    A collapsed selection is a caret position; otherwise it is a list of
    ranges. `Execute` does not read `ranges` itself: its `valid` parameter is
    the host schema's narrowing of them.
   */
  datatype Selection = Caret(pos: nat) | Ranges(ranges: seq<Range>)

  /**
    The editor as the command sees it: the document, the selection, the
    selection's own `highlight` attribute (what newly typed text would get),
    and the command's two observable fields.
   */
  datatype Editor = Editor(
    doc: Doc,
    sel: Selection,
    selAttr: Highlight,
    value: Highlight,
    isEnabled: bool)

  /**
    A caret always lies inside the document. A `Ranges` selection is really
    non-collapsed: a single empty range is a caret to the host, so it must be
    written as `Caret`.
   */
  predicate WellFormed(ed: Editor) {
    && (ed.sel.Caret? ==> ed.sel.pos <= |ed.doc|)
    && (ed.sel.Ranges? ==>
          |ed.sel.ranges| > 0 && !(|ed.sel.ranges| == 1 && ed.sel.ranges[0].start >= ed.sel.ranges[0].end))
  }

  /**
    Recomputes the observable fields. The schema's verdict on the selection
    is supplied by the host as `allowed`.
   */
  function Refresh(ed: Editor, allowed: bool): (r: Editor)
    ensures r.value == ed.selAttr && r.isEnabled == allowed
    ensures r.doc == ed.doc && r.sel == ed.sel && r.selAttr == ed.selAttr
  {
    ed.(value := ed.selAttr, isEnabled := allowed)
  }

  /** The erase decision at a highlighted caret: a clear request, or the colour already in place. */
  predicate Erases(ed: Editor, color: Highlight) {
    IsClear(color) || ed.value == color
  }

  /**
    Executes the command with argument `color`. `valid` is the host's
    schema-valid narrowing of `ed.sel.ranges`; only the non-collapsed case
    uses it.
   */
  function Execute(ed: Editor, color: Highlight, valid: seq<Range>): (r: Editor)
    requires WellFormed(ed)
    ensures WellFormed(r)
    ensures |r.doc| == |ed.doc|
    ensures r.sel == ed.sel && r.value == ed.value && r.isEnabled == ed.isEnabled
  {
    match ed.sel
    case Caret(p) =>
      if ed.selAttr.Some? then
        var run := Run(ed.doc, p, ed.value);
        if Erases(ed, color) then
          ed.(doc := SetRange(ed.doc, run, None), selAttr := None)
        else
          ed.(doc := SetRange(ed.doc, run, color), selAttr := color)
      else if !IsClear(color) then
        ed.(selAttr := color)
      else
        ed
    case Ranges(_) =>
      ed.(doc := SetRanges(ed.doc, valid, Applied(color)))
  }

  // ----- caret case -----

  /**
    Caret in a highlighted selection, clear request or the same colour: the
    whole maximal run around the caret loses the attribute, nothing else
    changes, and the pending selection attribute is dropped.
   */
  lemma CaretErasesRun(ed: Editor, color: Highlight, valid: seq<Range>)
    requires WellFormed(ed) && ed.sel.Caret? && ed.selAttr.Some?
    requires Erases(ed, color)
    ensures var r := Execute(ed, color, valid);
            var run := Run(ed.doc, ed.sel.pos, ed.value);
            && (forall i :: run.start <= i < run.end ==> r.doc[i] == None)
            && (forall i :: 0 <= i < |ed.doc| && !InRange(i, run) ==> r.doc[i] == ed.doc[i])
            && r.selAttr == None
  {
  }

  /**
    Caret in a highlighted selection, a different truthy colour: the whole
    maximal run is recoloured, nothing else changes, and the pending
    selection attribute becomes the new colour.
   */
  lemma CaretRecoloursRun(ed: Editor, color: Highlight, valid: seq<Range>)
    requires WellFormed(ed) && ed.sel.Caret? && ed.selAttr.Some?
    requires !Erases(ed, color)
    ensures var r := Execute(ed, color, valid);
            var run := Run(ed.doc, ed.sel.pos, ed.value);
            && (forall i :: run.start <= i < run.end ==> r.doc[i] == color)
            && (forall i :: 0 <= i < |ed.doc| && !InRange(i, run) ==> r.doc[i] == ed.doc[i])
            && r.selAttr == color && color.Some?
  {
  }

  /**
    A pending-only attribute: when neither neighbour of the caret carries the
    command's value the run is empty, so the document is untouched and only
    the selection attribute changes.
   */
  lemma CaretPendingOnly(ed: Editor, color: Highlight, valid: seq<Range>)
    requires WellFormed(ed) && ed.sel.Caret? && ed.selAttr.Some?
    requires ed.sel.pos == 0 || !Matches(ed.doc[ed.sel.pos - 1], ed.value)
    requires ed.sel.pos == |ed.doc| || !Matches(ed.doc[ed.sel.pos], ed.value)
    ensures var r := Execute(ed, color, valid);
            && Run(ed.doc, ed.sel.pos, ed.value) == Range(ed.sel.pos, ed.sel.pos)
            && r.doc == ed.doc
            && r.selAttr == (if Erases(ed, color) then None else color)
  {
  }

  /**
    Caret outside any highlight: the document never changes; a truthy colour
    becomes the pending selection attribute, a clear request does nothing.
   */
  lemma CaretUnhighlighted(ed: Editor, color: Highlight, valid: seq<Range>)
    requires WellFormed(ed) && ed.sel.Caret? && ed.selAttr.None?
    ensures var r := Execute(ed, color, valid);
            && r.doc == ed.doc
            && r.selAttr == Applied(color)
            && (IsClear(color) ==> r == ed)
  {
  }

  /**
    Toggling: recolour the run at a caret, let the host refresh, then execute
    the same colour again. The second call is the eraser: every character of
    the first run loses the attribute, and so does every character the
    recolouring joined to it.
   */
  lemma RecolourThenToggleErases(
    ed: Editor, color: Highlight, valid: seq<Range>, allowed: bool)
    requires WellFormed(ed) && ed.sel.Caret? && ed.selAttr.Some?
    requires !Erases(ed, color)
    ensures var r1 := Execute(ed, color, valid);
            var r2 := Execute(Refresh(r1, allowed), color, valid);
            var run := Run(ed.doc, ed.sel.pos, ed.value);
            var run2 := Run(r1.doc, ed.sel.pos, color);
            && run2.start <= run.start && run.end <= run2.end
            && (forall i :: run2.start <= i < run2.end ==> r2.doc[i] == None)
            && (forall i :: 0 <= i < |ed.doc| && !InRange(i, run2) ==> r2.doc[i] == ed.doc[i])
            && r2.selAttr == None
  {
  }

  // ----- non-collapsed case -----

  /**
    A non-collapsed selection: every character of every valid range gets the
    colour, or loses the attribute on a clear request; every other character
    and the selection attribute are untouched.
   */
  lemma SpanSetsRanges(ed: Editor, color: Highlight, valid: seq<Range>)
    requires WellFormed(ed) && ed.sel.Ranges?
    ensures var r := Execute(ed, color, valid);
            && (forall i :: 0 <= i < |ed.doc| && InSomeRange(i, valid) ==>
                  r.doc[i] == Applied(color))
            && (forall i :: 0 <= i < |ed.doc| && !InSomeRange(i, valid) ==> r.doc[i] == ed.doc[i])
            && r.selAttr == ed.selAttr
  {
  }

  /** Re-executing the same request on the same ranges changes nothing more. */
  lemma SpanIdempotent(ed: Editor, color: Highlight, valid: seq<Range>)
    requires WellFormed(ed) && ed.sel.Ranges?
    ensures var r := Execute(ed, color, valid);
            Execute(r, color, valid) == r
  {
  }

  // ----- refresh -----

  /**
    Executing at a caret and refreshing: the command's value is cleared exactly
    when the request was a clear request or the eraser toggle on a highlighted
    caret, and is the requested colour otherwise.
   */
  lemma CaretExecuteThenRefresh(ed: Editor, color: Highlight, valid: seq<Range>, allowed: bool)
    requires WellFormed(ed) && ed.sel.Caret?
    ensures var r := Refresh(Execute(ed, color, valid), allowed);
            && (r.value.None? <==> IsClear(color) || (ed.selAttr.Some? && ed.value == color))
            && (r.value.Some? ==> r.value == color)
  {
  }

  // ----- scenarios -----

  /** A caret inside a run entirely marked `pinkMarker`, executing `pinkMarker`, erases the whole run. */
  lemma ScenarioPinkEraser()
    ensures var pink: Highlight := Some("pinkMarker");
            var ed := Editor([None, pink, pink, pink, None], Caret(2), pink, pink, true);
            var r := Execute(ed, pink, []);
            r.doc == [None, None, None, None, None] && r.selAttr == None
  {
    var pink: Highlight := Some("pinkMarker");
    var doc := [None, pink, pink, pink, None];
    RunUnique(doc, 2, pink, 1, 4);
  }

  /** A caret inside a `redPen` run, executing `blueMarker`, recolours the whole contiguous run. */
  lemma ScenarioSwitchColour()
    ensures var red: Highlight := Some("redPen");
            var blue: Highlight := Some("blueMarker");
            var ed := Editor([blue, red, red, None], Caret(2), red, red, true);
            var r := Execute(ed, blue, []);
            r.doc == [blue, blue, blue, None] && r.selAttr == blue
  {
    var red: Highlight := Some("redPen");
    var blue: Highlight := Some("blueMarker");
    RunUnique([blue, red, red, None], 2, red, 1, 3);
  }
}
