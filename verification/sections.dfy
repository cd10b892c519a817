/**
  Which page section the navigation bar marks as active. On every scroll the
  page walks over its sections in document order and keeps the id of the last
  one whose window (its box shifted up by 200 pixels) contains the scroll
  position; the active section then changes only to a non-empty, different id.
 */
module Sections {

  /** A section's box as laid out by the browser: top edge, height and id. */
  datatype Section = Section(top: int, height: int, id: string)

  /** A section counts as in view from 200 pixels above its top edge. */
  const ViewOffset: int := 200

  predicate InView(sec: Section, y: int) {
    sec.top - ViewOffset <= y < sec.top + sec.height - ViewOffset
  }

  /** Section `j` is in view and no later section is. */
  predicate IsLastInView(ss: seq<Section>, y: int, j: int) {
    0 <= j < |ss| && InView(ss[j], y) && forall k :: j < k < |ss| ==> !InView(ss[k], y)
  }

  predicate NoneInView(ss: seq<Section>, y: int) {
    forall k :: 0 <= k < |ss| ==> !InView(ss[k], y)
  }

  /** The walk over the sections in order, `current` holding the id found so far. */
  function Scan(ss: seq<Section>, y: int, current: string): (r: string)
    ensures NoneInView(ss, y) ==> r == current
    ensures forall j :: IsLastInView(ss, y, j) ==> r == ss[j].id
    decreases |ss|
  {
    if |ss| == 0 then current
    else
      var next := if InView(ss[0], y) then ss[0].id else current;
      var r := Scan(ss[1..], y, next);
      assert forall j :: IsLastInView(ss, y, j) && j > 0 ==> IsLastInView(ss[1..], y, j - 1);
      assert forall j :: IsLastInView(ss, y, j) && j == 0 ==> NoneInView(ss[1..], y);
      r
  }

  /** The id of the section in view at scroll position `y`, or "" when none is. */
  function SectionInView(ss: seq<Section>, y: int): (r: string)
    ensures NoneInView(ss, y) ==> r == ""
    ensures forall j :: IsLastInView(ss, y, j) ==> r == ss[j].id
  {
    Scan(ss, y, "")
  }

  /** When some section is in view, there is a last one. */
  lemma {:induction false} SomeSectionIsLast(ss: seq<Section>, y: int)
    requires !NoneInView(ss, y)
    ensures exists j :: IsLastInView(ss, y, j)
    decreases |ss|
  {
    var n := |ss|;
    if InView(ss[n - 1], y) {
      assert IsLastInView(ss, y, n - 1);
    } else {
      var front := ss[..n - 1];
      assert !NoneInView(front, y);
      SomeSectionIsLast(front, y);
      var j :| IsLastInView(front, y, j);
      assert IsLastInView(ss, y, j);
    }
  }

  /** So the selection is either "" with nothing in view, or the id of the last section in view. */
  lemma SectionInViewCases(ss: seq<Section>, y: int)
    ensures || (NoneInView(ss, y) && SectionInView(ss, y) == "")
            || (exists j :: IsLastInView(ss, y, j) && SectionInView(ss, y) == ss[j].id)
  {
    if !NoneInView(ss, y) {
      SomeSectionIsLast(ss, y);
    }
  }

  /** The active section moves only to a non-empty id that differs from it. */
  function UpdateActive(active: string, current: string): (r: string)
    ensures r != active <==> current != "" && current != active
    ensures r == active || r == current
  {
    if current != "" && current != active then current else active
  }

  lemma UpdateActiveIdempotent(active: string, current: string)
    ensures UpdateActive(UpdateActive(active, current), current) == UpdateActive(active, current)
  {
  }

  /** A non-empty active section never becomes empty. */
  lemma ActiveNeverEmptied(active: string, current: string)
    requires active != ""
    ensures UpdateActive(active, current) != ""
  {
  }
}
