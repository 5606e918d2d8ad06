/** Drag-and-drop reordering of the image list: `arrayMove` from
    @dnd-kit/sortable and the `handleDragEnd` updater that applies it
    (src/App.tsx). */
module Reorder {
  import opened Wrappers
  import opened ImageList

  /** The list with the entry at index `k` taken out. */
  function RemoveAt<T>(s: seq<T>, k: nat): seq<T>
    requires k < |s|
  {
    s[..k] + s[k + 1..]
  }

  /** `arrayMove(s, from, to)`: take the entry out at `from`, then insert it so
      that it sits at index `to` of the result. */
  function ArrayMove<T>(s: seq<T>, from: nat, to: nat): (r: seq<T>)
    requires from < |s| && to < |s|
    ensures |r| == |s|
    ensures r[to] == s[from]
    ensures RemoveAt(r, to) == RemoveAt(s, from)
    ensures multiset(r) == multiset(s)
  {
    var rest := RemoveAt(s, from);
    var r := rest[..to] + [s[from]] + rest[to..];
    assert r[..to] == rest[..to] && r[to + 1..] == rest[to..];
    assert rest[..to] + rest[to..] == rest;
    calc {
      multiset(r);
      multiset(rest[..to]) + multiset([s[from]]) + multiset(rest[to..]);
      multiset(rest) + multiset([s[from]]);
      { assert s == s[..from] + [s[from]] + s[from + 1..]; }
      multiset(s);
    }
    r
  }

  /** Where the entry at index `k` of a moved list came from: an index-level
      description of a list move, independent of slicing. */
  function MoveSource(from: nat, to: nat, k: nat): nat
  {
    if k == to then from
    else if from <= to && from <= k < to then k + 1
    else if to < from && to < k <= from then k - 1
    else k
  }

  /** Every entry of the moved list is the entry of the input at `MoveSource`:
      entries outside the range between `from` and `to` stay put, entries inside
      it shift by one towards `from`. */
  lemma ArrayMoveIndex<T>(s: seq<T>, from: nat, to: nat, k: nat)
    requires from < |s| && to < |s| && k < |s|
    ensures MoveSource(from, to, k) < |s|
    ensures ArrayMove(s, from, to)[k] == s[MoveSource(from, to, k)]
  {
    var rest := RemoveAt(s, from);
    var r := ArrayMove(s, from, to);
    assert r == rest[..to] + [s[from]] + rest[to..];
    if k < to {
      assert r[k] == rest[k];
    } else if k > to {
      assert r[k] == rest[k - 1];
    }
  }

  /** `MoveSource` is a bijection on the indices: distinct positions of the
      result come from distinct positions of the input. */
  lemma MoveSourceInjective(from: nat, to: nat, i: nat, j: nat)
    requires i != j
    ensures MoveSource(from, to, i) != MoveSource(from, to, j)
  {
  }

  /** Moving the entry back undoes the move. */
  lemma ArrayMoveInverse<T>(s: seq<T>, from: nat, to: nat)
    requires from < |s| && to < |s|
    ensures ArrayMove(ArrayMove(s, from, to), to, from) == s
  {
    var r := ArrayMove(s, from, to);
    var rest := RemoveAt(s, from);
    assert RemoveAt(r, to) == rest && r[to] == s[from];
    assert rest[..from] == s[..from] && rest[from..] == s[from + 1..];
    assert s == s[..from] + [s[from]] + s[from + 1..];
  }

  /** The list with the entries at `i` and `i + 1` exchanged. */
  function Swap<T>(s: seq<T>, i: nat): seq<T>
    requires i + 1 < |s|
  {
    s[i := s[i + 1]][i + 1 := s[i]]
  }

  /** Moving an entry onto its right-hand neighbour swaps the two, and so does
      the opposite move. */
  lemma AdjacentMoveSwaps<T>(s: seq<T>, i: nat)
    requires i + 1 < |s|
    ensures ArrayMove(s, i, i + 1) == Swap(s, i)
    ensures ArrayMove(s, i + 1, i) == Swap(s, i)
  {
    var w := Swap(s, i);
    forall k | 0 <= k < |s| ensures ArrayMove(s, i, i + 1)[k] == w[k] && ArrayMove(s, i + 1, i)[k] == w[k] {
      ArrayMoveIndex(s, i, i + 1, k);
      ArrayMoveIndex(s, i + 1, i, k);
    }
  }

  /** A move keeps ids unique. */
  lemma ArrayMoveKeepsUniqueIds(s: seq<ImageData>, from: nat, to: nat)
    requires from < |s| && to < |s|
    requires UniqueIds(s)
    ensures UniqueIds(ArrayMove(s, from, to))
  {
    var r := ArrayMove(s, from, to);
    forall i, j | 0 <= i < j < |r| ensures r[i].id != r[j].id {
      ArrayMoveIndex(s, from, to, i);
      ArrayMoveIndex(s, from, to, j);
      MoveSourceInjective(from, to, i, j);
      var a, b := MoveSource(from, to, i), MoveSource(from, to, j);
      if a < b { assert s[a].id != s[b].id; } else { assert s[b].id != s[a].id; }
    }
  }

  /** The `onDragEnd` handler's updater. `overId` is absent when the drag ended
      over no sortable item. When it is present and differs from `activeId`,
      both ids are ids of the current list: the drag library only reports ids
      it was given from the list. The entry with the active id (the first one,
      as `findIndex` returns) moves to the index of the first entry with the
      target id. */
  function HandleDragEnd(items: seq<ImageData>, activeId: string, overId: Option<string>): (r: seq<ImageData>)
    requires overId.Some? && overId.value != activeId ==> activeId in Ids(items) && overId.value in Ids(items)
    ensures overId.None? || overId.value == activeId ==> r == items
    ensures overId.Some? && overId.value != activeId ==>
      var from, to := FirstWithId(items, activeId), FirstWithId(items, overId.value);
      && |r| == |items|
      && multiset(r) == multiset(items)
      && r[to] == items[from] && r[to].id == activeId
      && RemoveAt(r, to) == RemoveAt(items, from)
  {
    match overId
    case Some(over) =>
      if activeId != over then
        var oldIndex := FirstWithId(items, activeId);
        var newIndex := FirstWithId(items, over);
        ArrayMove(items, oldIndex, newIndex)
      else items
    case None => items
  }

  /** With unique ids, `findIndex` on the id of an entry finds that entry. */
  lemma FirstWithIdUnique(s: seq<ImageData>, i: nat)
    requires i < |s| && UniqueIds(s)
    ensures s[i].id in Ids(s) && FirstWithId(s, s[i].id) == i
  {
    assert Ids(s)[i] == s[i].id;
  }

  /** Swapping the same neighbours twice restores the list. */
  lemma SwapTwice<T>(s: seq<T>, i: nat)
    requires i + 1 < |s|
    ensures Swap(Swap(s, i), i) == s
  {
  }

  /** With unique ids, dragging an entry onto its right-hand neighbour, or the
      neighbour onto it, swaps the two and keeps the ids unique. */
  lemma DragOntoNeighbourSwaps(s: seq<ImageData>, i: nat)
    requires i + 1 < |s|
    requires UniqueIds(s)
    ensures s[i].id in Ids(s) && s[i + 1].id in Ids(s)
    ensures var r := HandleDragEnd(s, s[i].id, Some(s[i + 1].id));
      r == Swap(s, i) && UniqueIds(r)
    ensures var r := HandleDragEnd(s, s[i + 1].id, Some(s[i].id));
      r == Swap(s, i) && UniqueIds(r)
  {
    FirstWithIdUnique(s, i);
    FirstWithIdUnique(s, i + 1);
    assert s[i].id != s[i + 1].id;
    assert HandleDragEnd(s, s[i].id, Some(s[i + 1].id)) == ArrayMove(s, i, i + 1);
    assert HandleDragEnd(s, s[i + 1].id, Some(s[i].id)) == ArrayMove(s, i + 1, i);
    AdjacentMoveSwaps(s, i);
    ArrayMoveKeepsUniqueIds(s, i, i + 1);
    ArrayMoveKeepsUniqueIds(s, i + 1, i);
  }

  /** With unique ids, a drag between two neighbours followed by the drag back
      restores the list, whichever of the two is dragged first. */
  lemma DragBackRestores(s: seq<ImageData>, i: nat)
    requires i + 1 < |s|
    requires UniqueIds(s)
    ensures var a, b := s[i].id, s[i + 1].id;
      && a in Ids(s) && b in Ids(s)
      && var r := HandleDragEnd(s, a, Some(b));
         && a in Ids(r) && b in Ids(r)
         && HandleDragEnd(r, b, Some(a)) == s
    ensures var a, b := s[i].id, s[i + 1].id;
      && a in Ids(s) && b in Ids(s)
      && var r := HandleDragEnd(s, b, Some(a));
         && a in Ids(r) && b in Ids(r)
         && HandleDragEnd(r, a, Some(b)) == s
  {
    DragOntoNeighbourSwaps(s, i);
    var r := Swap(s, i);
    DragOntoNeighbourSwaps(r, i);
    SwapTwice(s, i);
  }
}
