/**
  The document flattened to one sequence of characters, each carrying an
  optional `highlight` value. A position `p` with `0 <= p <= |doc|` sits
  between characters `p - 1` and `p`; a range covers positions
  `start <= i < end`.
 */
module Document {
  import opened Values

  type Doc = seq<Highlight>

  datatype Range = Range(start: nat, end: nat)

  predicate InRange(i: int, r: Range) {
    r.start <= i < r.end
  }

  predicate InSomeRange(i: int, rs: seq<Range>) {
    exists k :: 0 <= k < |rs| && InRange(i, rs[k])
  }

  /** The writer's setAttribute / removeAttribute over one range: `a == None` removes. */
  function SetRange(doc: Doc, r: Range, a: Highlight): Doc {
    seq(|doc|, i requires 0 <= i < |doc| => if InRange(i, r) then a else doc[i])
  }

  /**
    The ranges handled one after another, in order. Every character inside
    some range ends up with `a`, every other character is left alone.
   */
  function SetRanges(doc: Doc, rs: seq<Range>, a: Highlight): (d: Doc)
    ensures |d| == |doc|
    ensures forall i :: 0 <= i < |doc| && InSomeRange(i, rs) ==> d[i] == a
    ensures forall i :: 0 <= i < |doc| && !InSomeRange(i, rs) ==> d[i] == doc[i]
    decreases |rs|
  {
    if |rs| == 0 then doc
    else
      var d := SetRanges(SetRange(doc, rs[0], a), rs[1..], a);
      assert forall i :: InSomeRange(i, rs) <==> InRange(i, rs[0]) || InSomeRange(i, rs[1..]) by {
        forall i ensures InSomeRange(i, rs) ==> InRange(i, rs[0]) || InSomeRange(i, rs[1..]) {
          if InSomeRange(i, rs) {
            var k :| 0 <= k < |rs| && InRange(i, rs[k]);
            if k > 0 {
              assert rs[1..][k - 1] == rs[k];
            }
          }
        }
        forall i ensures InSomeRange(i, rs[1..]) ==> InSomeRange(i, rs) {
          if InSomeRange(i, rs[1..]) {
            var k :| 0 <= k < |rs[1..]| && InRange(i, rs[1..][k]);
            assert rs[k + 1] == rs[1..][k];
          }
        }
      }
      d
  }

  /** Backward scan from `p` while the character before carries `v`. */
  function RunStart(doc: Doc, p: nat, v: Highlight): (s: nat)
    requires p <= |doc|
    ensures s <= p
    ensures forall i :: s <= i < p ==> Matches(doc[i], v)
    ensures s == 0 || !Matches(doc[s - 1], v)
  {
    if p > 0 && Matches(doc[p - 1], v) then RunStart(doc, p - 1, v) else p
  }

  /** Forward scan from `p` while the character after carries `v`. */
  function RunEnd(doc: Doc, p: nat, v: Highlight): (e: nat)
    requires p <= |doc|
    ensures p <= e <= |doc|
    ensures forall i :: p <= i < e ==> Matches(doc[i], v)
    ensures e == |doc| || !Matches(doc[e], v)
    decreases |doc| - p
  {
    if p < |doc| && Matches(doc[p], v) then RunEnd(doc, p + 1, v) else p
  }

  /**
    `[s, e)` is a maximal run of characters carrying `v` that contains the
    position `p`: it cannot be grown on either side.
   */
  ghost predicate IsMaximalRun(doc: Doc, p: nat, v: Highlight, s: nat, e: nat) {
    && s <= p <= e <= |doc|
    && (forall i :: s <= i < e ==> Matches(doc[i], v))
    && (s == 0 || !Matches(doc[s - 1], v))
    && (e == |doc| || !Matches(doc[e], v))
  }

  /** The run the caret case acts on: both scans from the caret. */
  function Run(doc: Doc, p: nat, v: Highlight): (r: Range)
    requires p <= |doc|
    ensures IsMaximalRun(doc, p, v, r.start, r.end)
  {
    Range(RunStart(doc, p, v), RunEnd(doc, p, v))
  }

  /** There is only one maximal run around a position, and the scans find it. */
  lemma RunUnique(doc: Doc, p: nat, v: Highlight, s: nat, e: nat)
    requires IsMaximalRun(doc, p, v, s, e)
    ensures Run(doc, p, v) == Range(s, e)
  {
  }

  /**
    Every stretch of characters carrying `v` around `p` lies inside the run
    found from `p`.
   */
  lemma RunCovers(doc: Doc, p: nat, v: Highlight, s: nat, e: nat)
    requires s <= p <= e <= |doc|
    requires forall i :: s <= i < e ==> Matches(doc[i], v)
    ensures Run(doc, p, v).start <= s && e <= Run(doc, p, v).end
  {
  }
}
