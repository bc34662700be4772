/**
 * The window registry: the insertion-ordered list of `(element, page)` entries the
 * window manager keeps, the lookups it performs on it, and the focus-cycling order
 * it induces.
 */
module Registry {
  import opened Wrappers
  import opened Cycling

  /** A window element, identified by an opaque handle. */
  type WinId = nat

  /** One registry entry: the window's element and the page it was opened for. */
  datatype Entry = Entry(element: WinId, page: string)

  predicate Registered(ws: seq<Entry>, id: WinId)
  {
    exists i :: 0 <= i < |ws| && ws[i].element == id
  }

  /** No element is registered twice. */
  predicate Distinct(ws: seq<Entry>)
  {
    forall i, j :: 0 <= i < j < |ws| ==> ws[i].element != ws[j].element
  }

  /** No page is registered twice. */
  predicate PagesDistinct(ws: seq<Entry>)
  {
    forall i, j :: 0 <= i < j < |ws| ==> ws[i].page != ws[j].page
  }

  /** `findIndex(w => w.element === target)`: the first entry holding `target`, or -1. */
  function FindIndex(ws: seq<Entry>, target: Option<WinId>): (r: int)
    ensures -1 <= r < |ws|
    ensures 0 <= r ==> Some(ws[r].element) == target
    ensures 0 <= r ==> forall j :: 0 <= j < r ==> Some(ws[j].element) != target
    ensures r == -1 ==> forall j :: 0 <= j < |ws| ==> Some(ws[j].element) != target
  {
    if ws == [] then -1
    else if Some(ws[0].element) == target then 0
    else
      var rest := FindIndex(ws[1..], target);
      if rest == -1 then -1 else rest + 1
  }

  /** `find(w => w.page === page)`: the position of the first entry for `page`, if any. */
  function FindPage(ws: seq<Entry>, page: string): (r: Option<nat>)
    ensures r.Some? ==> r.value < |ws| && ws[r.value].page == page
    ensures r.Some? ==> forall j :: 0 <= j < r.value ==> ws[j].page != page
    ensures r.None? ==> forall j :: 0 <= j < |ws| ==> ws[j].page != page
  {
    if ws == [] then None
    else if ws[0].page == page then Some(0)
    else
      match FindPage(ws[1..], page)
      case None => None
      case Some(k) => Some(k + 1)
  }

  /** In a registry without duplicates, an element's index is its only position. */
  lemma FindIndexOfMember(ws: seq<Entry>, j: int)
    requires Distinct(ws) && 0 <= j < |ws|
    ensures FindIndex(ws, Some(ws[j].element)) == j
  {
  }

  /** Reference definition of closing: every entry for `id` dropped, the rest kept in order. */
  function Removed(ws: seq<Entry>, id: WinId): seq<Entry>
  {
    if ws == [] then []
    else (if ws[0].element == id then [] else [ws[0]]) + Removed(ws[1..], id)
  }

  /** `Removed` keeps every entry of another element, in order, and only those. */
  lemma {:induction false} RemovedKeepsOthers(ws: seq<Entry>, id: WinId)
    ensures forall e :: e in Removed(ws, id) <==> e in ws && e.element != id
    ensures |Removed(ws, id)| <= |ws|
  {
    if ws != [] {
      RemovedKeepsOthers(ws[1..], id);
      assert ws == [ws[0]] + ws[1..];
    }
  }

  lemma {:induction false} RemovedAbsent(ws: seq<Entry>, id: WinId)
    requires !Registered(ws, id)
    ensures Removed(ws, id) == ws
  {
    if ws != [] {
      assert ws[0].element != id;
      assert !Registered(ws[1..], id) by {
        forall i | 0 <= i < |ws[1..]| ensures ws[1..][i].element != id {
          assert ws[1..][i] == ws[i + 1];
        }
      }
      RemovedAbsent(ws[1..], id);
      assert ws == [ws[0]] + ws[1..];
    }
  }

  /**
   * `closeWindow`'s splice at the found index removes exactly the entry for `id` and
   * keeps the others' order; an unregistered `id` leaves the registry as it is.
   */
  lemma {:induction false} SpliceRemoves(ws: seq<Entry>, id: WinId)
    requires Distinct(ws)
    ensures var k := FindIndex(ws, Some(id));
            (0 <= k ==> ws[..k] + ws[k + 1..] == Removed(ws, id)) &&
            (k == -1 ==> ws == Removed(ws, id))
  {
    var k := FindIndex(ws, Some(id));
    if k == -1 {
      RemovedAbsent(ws, id);
    } else {
      var tail := ws[1..];
      assert Distinct(tail) by {
        forall i, j | 0 <= i < j < |tail| ensures tail[i].element != tail[j].element {
          assert tail[i] == ws[i + 1] && tail[j] == ws[j + 1];
        }
      }
      if k == 0 {
        assert !Registered(tail, id) by {
          forall i | 0 <= i < |tail| ensures tail[i].element != id {
            assert tail[i] == ws[i + 1];
          }
        }
        RemovedAbsent(tail, id);
        assert Removed(ws, id) == [] + Removed(tail, id);
      } else {
        SpliceTail(ws, id, k);
      }
    }
  }

  lemma {:induction false} SpliceTail(ws: seq<Entry>, id: WinId, k: int)
    requires Distinct(ws) && 0 < k == FindIndex(ws, Some(id)) && Distinct(ws[1..])
    ensures ws[..k] + ws[k + 1..] == Removed(ws, id)
  {
    var tail := ws[1..];
    assert FindIndex(tail, Some(id)) == k - 1;
    SpliceRemoves(tail, id);
    assert tail[..k - 1] + tail[k..] == Removed(tail, id);
    assert Removed(ws, id) == [ws[0]] + Removed(tail, id);
    assert ws[..k] + ws[k + 1..] == [ws[0]] + (tail[..k - 1] + tail[k..]);
  }

  /** `closeWindow`'s `splice(index, 1)` at the position `findIndex` reports, skipped when there is none. */
  method RemoveEntry(ws: seq<Entry>, id: WinId) returns (r: seq<Entry>)
    requires Distinct(ws)
    ensures r == Removed(ws, id)
    ensures !Registered(ws, id) ==> r == ws
  {
    SpliceRemoves(ws, id);
    var index := FindIndex(ws, Some(id));
    r := ws;
    if index > -1 {
      r := ws[..index] + ws[index + 1..];
    }
  }

  /** After the splice at `k`, the registered elements are the old ones but `ws[k]`'s, still without duplicates. */
  lemma SpliceKeepsOthers(ws: seq<Entry>, k: int)
    requires Distinct(ws) && 0 <= k < |ws|
    ensures Distinct(ws[..k] + ws[k + 1..])
    ensures forall x :: Registered(ws[..k] + ws[k + 1..], x) <==> Registered(ws, x) && x != ws[k].element
  {
    var r := ws[..k] + ws[k + 1..];
    assert forall i :: 0 <= i < |r| ==> r[i] == (if i < k then ws[i] else ws[i + 1]);
    forall x | Registered(ws, x) && x != ws[k].element ensures Registered(r, x) {
      var i :| 0 <= i < |ws| && ws[i].element == x;
      if i < k { assert r[i] == ws[i]; } else { assert r[i - 1] == ws[i]; }
    }
  }

  /** Closing `id` leaves a registry without duplicates that holds exactly the other elements. */
  lemma RemovedFacts(ws: seq<Entry>, id: WinId)
    requires Distinct(ws)
    ensures Distinct(Removed(ws, id))
    ensures forall x :: Registered(Removed(ws, id), x) <==> Registered(ws, x) && x != id
    ensures forall i :: 0 <= i < |Removed(ws, id)| ==> Registered(ws, Removed(ws, id)[i].element)
  {
    SpliceRemoves(ws, id);
    var k := FindIndex(ws, Some(id));
    var r := Removed(ws, id);
    if k == -1 {
      assert !Registered(ws, id);
    } else {
      SpliceKeepsOthers(ws, k);
    }
    forall i | 0 <= i < |r| ensures Registered(ws, r[i].element) {
      assert Registered(r, r[i].element);
    }
  }

  /** The element `focusNextWindow` focuses, for a non-empty registry. */
  function NextFocus(ws: seq<Entry>, focus: Option<WinId>): (r: WinId)
    requires |ws| > 0
    ensures Registered(ws, r)
  {
    ws[NextIndex(FindIndex(ws, focus), |ws|)].element
  }

  /** The element `focusPreviousWindow` focuses, for a non-empty registry. */
  function PrevFocus(ws: seq<Entry>, focus: Option<WinId>): (r: WinId)
    requires |ws| > 0
    ensures Registered(ws, r)
  {
    ws[PrevIndex(FindIndex(ws, focus), |ws|)].element
  }

  /** With nothing focused, next selects the first window and previous the last one. */
  lemma CyclingFromNoFocus(ws: seq<Entry>)
    requires |ws| > 0
    ensures NextFocus(ws, None) == ws[0].element
    ensures PrevFocus(ws, None) == ws[|ws| - 1].element
  {
    assert FindIndex(ws, None) == -1;
  }

  /** Previous undoes next, from any registered focus. */
  lemma PrevFocusUndoesNext(ws: seq<Entry>, f: WinId)
    requires Distinct(ws) && Registered(ws, f)
    ensures PrevFocus(ws, Some(NextFocus(ws, Some(f)))) == f
  {
    var j :| 0 <= j < |ws| && ws[j].element == f;
    FindIndexOfMember(ws, j);
    var m := NextIndex(j, |ws|);
    FindIndexOfMember(ws, m);
    PrevUndoesNext(j, |ws|);
  }

  /** The focus after `k` presses of next. */
  function NextFocusTimes(ws: seq<Entry>, focus: Option<WinId>, k: nat): (r: Option<WinId>)
    requires |ws| > 0
    ensures k > 0 ==> r.Some? && Registered(ws, r.value)
  {
    if k == 0 then focus else Some(NextFocus(ws, NextFocusTimes(ws, focus, k - 1)))
  }

  lemma {:induction false} NextFocusTimesFollowsIndex(ws: seq<Entry>, j: int, k: nat)
    requires Distinct(ws) && 0 <= j < |ws|
    ensures NextFocusTimes(ws, Some(ws[j].element), k) == Some(ws[NextTimes(j, |ws|, k)].element)
  {
    if k > 0 {
      NextFocusTimesFollowsIndex(ws, j, k - 1);
      var before := NextTimes(j, |ws|, k - 1);
      FindIndexOfMember(ws, before);
      assert NextFocus(ws, Some(ws[before].element)) == ws[NextIndex(before, |ws|)].element;
    }
  }

  /** Pressing next once per registered window brings focus back to where it started. */
  lemma FullCycleRestoresFocus(ws: seq<Entry>, f: WinId)
    requires Distinct(ws) && Registered(ws, f)
    ensures NextFocusTimes(ws, Some(f), |ws|) == Some(f)
  {
    var j :| 0 <= j < |ws| && ws[j].element == f;
    NextFocusTimesFollowsIndex(ws, j, |ws|);
    FullCycleReturns(j, |ws|);
  }

  /** Appending an entry for a page that `find` did not see keeps pages distinct. */
  lemma AppendingUnseenPage(ws: seq<Entry>, id: WinId, page: string)
    requires PagesDistinct(ws) && FindPage(ws, page).None?
    ensures PagesDistinct(ws + [Entry(id, page)])
  {
  }
}
