/**
  Master-detail navigation over the sport events: given every event id in
  start-date order and an optional requested id, choose the current event and
  the ids of its neighbours. This is a pure function of the id list; the
  controller action that loads the rows is EventManagement.SportEventController.SportEvents.
 */
module Navigation {
  import opened Entities

  /** The navigation part of the master-detail page. */
  datatype Nav = Nav(
    hasEvents: bool,
    currentId: Option<int>,
    previousEventId: Option<int>,
    nextEventId: Option<int>)

  /** No id occurs twice (the ids are primary keys). */
  ghost predicate Distinct(ids: seq<int>)
  {
    forall i, j :: 0 <= i < j < |ids| ==> ids[i] != ids[j]
  }

  /** List.IndexOf: the first position of x in ids, or -1 when x does not occur. */
  function IndexOf(ids: seq<int>, x: int): (i: int)
    ensures -1 <= i < |ids|
    ensures i == -1 <==> x !in ids
    ensures 0 <= i ==> ids[i] == x && x !in ids[..i]
  {
    if |ids| == 0 then -1
    else if ids[0] == x then 0
    else
      var j := IndexOf(ids[1..], x);
      assert ids == [ids[0]] + ids[1..];
      if j == -1 then -1
      else
        assert ids[..j + 1] == [ids[0]] + ids[1..][..j];
        j + 1
  }

  /** The ids just before and just after the position of current, by index arithmetic on IndexOf. */
  function Neighbours(ids: seq<int>, current: int): (Option<int>, Option<int>)
  {
    var i := IndexOf(ids, current);
    (if i > 0 then Some(ids[i - 1]) else None,
     if i < |ids| - 1 then Some(ids[i + 1]) else None)
  }

  /**
    The navigation result for the ordered ids and the requested id: no events
    gives an empty result; otherwise a requested id that is one of the ids is
    current, and anything else (no id, an unknown id) falls back to the first.
   */
  function Navigate(ids: seq<int>, id: Option<int>): (nav: Nav)
    ensures nav.hasEvents <==> |ids| > 0
    ensures !nav.hasEvents ==> nav.currentId.None? && nav.previousEventId.None? && nav.nextEventId.None?
    ensures nav.hasEvents ==> nav.currentId.Some? && nav.currentId.value in ids
    ensures id.Some? && id.value in ids ==> nav.currentId == id
    ensures |ids| > 0 && id.None? ==> nav.currentId == Some(ids[0])
    ensures |ids| > 0 && id.Some? && id.value !in ids ==> nav.currentId == Some(ids[0])
  {
    if |ids| == 0 then Nav(false, None, None, None)
    else
      var current := if id.Some? && id.value in ids then id.value else ids[0];
      var (previous, next) := Neighbours(ids, current);
      Nav(true, Some(current), previous, next)
  }

  /** In a list of distinct ids, IndexOf finds every id at its own position. */
  lemma IndexOfDistinct(ids: seq<int>, i: int)
    requires Distinct(ids) && 0 <= i < |ids|
    ensures IndexOf(ids, ids[i]) == i
  {
  }

  /**
    When the current event sits at position i, the previous id is the one at
    i - 1 exactly when i > 0 and the next id is the one at i + 1 exactly when
    i is not the last position.
   */
  lemma PreviousAndNext(ids: seq<int>, id: Option<int>, i: int)
    requires Distinct(ids) && 0 <= i < |ids|
    requires Navigate(ids, id).currentId == Some(ids[i])
    ensures Navigate(ids, id).previousEventId == if i > 0 then Some(ids[i - 1]) else None
    ensures Navigate(ids, id).nextEventId == if i < |ids| - 1 then Some(ids[i + 1]) else None
  {
    IndexOfDistinct(ids, i);
  }

  /** The first event in start-date order has no previous event, the last has no next. */
  lemma EndsHaveNoNeighbour(ids: seq<int>, id: Option<int>)
    requires Distinct(ids) && |ids| > 0
    ensures Navigate(ids, id).currentId == Some(ids[0]) ==> Navigate(ids, id).previousEventId.None?
    ensures Navigate(ids, id).currentId == Some(ids[|ids| - 1]) ==> Navigate(ids, id).nextEventId.None?
  {
    if Navigate(ids, id).currentId == Some(ids[0]) {
      PreviousAndNext(ids, id, 0);
    }
    if Navigate(ids, id).currentId == Some(ids[|ids| - 1]) {
      PreviousAndNext(ids, id, |ids| - 1);
    }
  }

  /** Following the next link and then the previous link comes back to the same event. */
  lemma NextThenPrevious(ids: seq<int>, id: Option<int>)
    requires Distinct(ids)
    requires Navigate(ids, id).nextEventId.Some?
    ensures Navigate(ids, Navigate(ids, id).nextEventId).previousEventId == Navigate(ids, id).currentId
  {
    var current := Navigate(ids, id).currentId.value;
    var i := IndexOf(ids, current);
    PreviousAndNext(ids, id, i);
    PreviousAndNext(ids, Some(ids[i + 1]), i + 1);
  }

  /** Following the previous link and then the next link comes back to the same event. */
  lemma PreviousThenNext(ids: seq<int>, id: Option<int>)
    requires Distinct(ids)
    requires Navigate(ids, id).previousEventId.Some?
    ensures Navigate(ids, Navigate(ids, id).previousEventId).nextEventId == Navigate(ids, id).currentId
  {
    var current := Navigate(ids, id).currentId.value;
    var i := IndexOf(ids, current);
    PreviousAndNext(ids, id, i);
    PreviousAndNext(ids, Some(ids[i - 1]), i - 1);
  }
}
