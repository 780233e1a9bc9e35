/**
 * Reordering the bookmark list: `moveBookmark` copies the list, takes the
 * record at `from` out of the copy (the first `splice`) and puts it back in
 * at `to` (the second `splice`). The cards only ever ask for a move by one
 * position, up or down, and only when there is a neighbour to swap with.
 */
module Reorder {
  import opened Bookmarks

  /**
   * The list after moving the record at `from` to position `to`: remove it,
   * then insert it at `to` in what remains.
   */
  function Moved(s: seq<Bookmark>, from: nat, to: nat): (r: seq<Bookmark>)
    requires from < |s| && to < |s|
    ensures |r| == |s| && r[to] == s[from]
    ensures multiset(r) == multiset(s)
  {
    var rest := s[..from] + s[from + 1..];
    assert s == s[..from] + [s[from]] + s[from + 1..];
    assert multiset(s) == multiset(s[..from]) + multiset{s[from]} + multiset(s[from + 1..]);
    assert rest == rest[..to] + rest[to..];
    assert multiset(rest) == multiset(s[..from]) + multiset(s[from + 1..]);
    assert multiset(rest) == multiset(rest[..to]) + multiset(rest[to..]);
    var result := rest[..to] + [s[from]] + rest[to..];
    assert multiset(result) == multiset(rest[..to]) + multiset{s[from]} + multiset(rest[to..]);
    assert multiset(result) == multiset(s[..from]) + multiset(s[from + 1..]) + multiset{s[from]};
    result
  }

  /**
   * Where every record ends up: the moved one at `to`, the ones between the
   * two positions shifted by one towards `from`, all others where they were.
   */
  lemma MovedAt(s: seq<Bookmark>, from: nat, to: nat, k: nat)
    requires from < |s| && to < |s| && k < |s|
    ensures Moved(s, from, to)[k] ==
      if k == to then s[from]
      else if from < to && from <= k < to then s[k + 1]
      else if to < from && to < k <= from then s[k - 1]
      else s[k]
  {
    var rest := s[..from] + s[from + 1..];
    assert forall m :: 0 <= m < |rest| ==> rest[m] == if m < from then s[m] else s[m + 1];
  }

  /** Moving a record onto its own position changes nothing. */
  lemma MovedSame(s: seq<Bookmark>, i: nat)
    requires i < |s|
    ensures Moved(s, i, i) == s
  {
    forall k | 0 <= k < |s| ensures Moved(s, i, i)[k] == s[k] {
      MovedAt(s, i, i, k);
    }
  }

  /** Moving from `i` to `j` and then from `j` back to `i` restores the list. */
  lemma MovedBack(s: seq<Bookmark>, i: nat, j: nat)
    requires i < |s| && j < |s|
    ensures Moved(Moved(s, i, j), j, i) == s
  {
    forall k | 0 <= k < |s| ensures Moved(Moved(s, i, j), j, i)[k] == s[k] {
      MovedBackAt(s, i, j, k);
    }
  }

  /** `MovedBack` at one position. */
  lemma MovedBackAt(s: seq<Bookmark>, i: nat, j: nat, k: nat)
    requires i < |s| && j < |s| && k < |s|
    ensures Moved(Moved(s, i, j), j, i)[k] == s[k]
  {
    var t := Moved(s, i, j);
    MovedAt(t, j, i, k);
    if k == i {
      assert t[j] == s[i];
    } else if i < j && i < k <= j {
      MovedAt(s, i, j, k - 1);
    } else if j < i && j <= k < i {
      MovedAt(s, i, j, k + 1);
    } else {
      MovedAt(s, i, j, k);
    }
  }

  /**
   * A move between neighbours, in either direction, swaps the two records
   * and leaves every other position alone.
   */
  lemma MovedAdjacent(s: seq<Bookmark>, i: nat)
    requires i + 1 < |s|
    ensures Moved(s, i, i + 1) == s[i := s[i + 1]][i + 1 := s[i]]
    ensures Moved(s, i + 1, i) == s[i := s[i + 1]][i + 1 := s[i]]
  {
    var swapped := s[i := s[i + 1]][i + 1 := s[i]];
    forall k | 0 <= k < |s| ensures Moved(s, i, i + 1)[k] == swapped[k] {
      MovedAt(s, i, i + 1, k);
    }
    forall k | 0 <= k < |s| ensures Moved(s, i + 1, i)[k] == swapped[k] {
      MovedAt(s, i + 1, i, k);
    }
  }

  /** Moving keeps ids unique: the same records, only in another order. */
  lemma MovedUniqueIds(s: seq<Bookmark>, from: nat, to: nat)
    requires from < |s| && to < |s|
    requires UniqueIds(s)
    ensures UniqueIds(Moved(s, from, to))
  {
    var r := Moved(s, from, to);
    forall i, j | 0 <= i < j < |r| ensures r[i].id != r[j].id {
      MovedAt(s, from, to, i);
      MovedAt(s, from, to, j);
    }
  }

  /**
   * `splice(from, 1)` on a fixed-size buffer: the records after `from` each
   * move one place to the left, so the first `a.Length - 1` slots hold the
   * list without the record at `from`; the last slot is no longer in use.
   */
  method SpliceOut(a: array<Bookmark>, from: nat)
    requires from < a.Length
    modifies a
    ensures a[..a.Length - 1] == old(a[..from]) + old(a[from + 1..])
  {
    var n := a.Length;
    var i := from;
    while i < n - 1
      invariant from <= i <= n - 1
      invariant forall k :: 0 <= k < from ==> a[k] == old(a[k])
      invariant forall k :: from <= k < i ==> a[k] == old(a[k + 1])
      invariant forall k :: i <= k < n ==> a[k] == old(a[k])
    {
      a[i] := a[i + 1];
      i := i + 1;
    }
    assert forall k :: 0 <= k < n - 1 ==> a[k] == (old(a[..from]) + old(a[from + 1..]))[k];
  }

  /**
   * `splice(to, 0, x)` on a fixed-size buffer whose first `a.Length - 1`
   * slots are in use: the records from `to` on each move one place to the
   * right and `x` goes into the gap at `to`.
   */
  method SpliceIn(a: array<Bookmark>, to: nat, x: Bookmark)
    requires to < a.Length
    modifies a
    ensures a[..] == old(a[..to]) + [x] + old(a[to..a.Length - 1])
  {
    var n := a.Length;
    ghost var before := a[..];
    var j := n - 1;
    while j > to
      invariant to <= j <= n - 1
      invariant forall k :: 0 <= k <= j ==> a[k] == before[k]
      invariant forall k :: j < k < n ==> a[k] == before[k - 1]
    {
      a[j] := a[j - 1];
      j := j - 1;
    }
    a[to] := x;
    ghost var spec := before[..to] + [x] + before[to..n - 1];
    forall k | 0 <= k < n ensures a[k] == spec[k] {
      if k < to {
        assert spec[k] == before[k];
      } else if k > to {
        assert spec[k] == before[k - 1];
      }
    }
    assert a[..] == spec;
  }

  /**
   * `moveBookmark` as the code runs it: copy the list, take the record at
   * `fromIndex` out of the copy, put it back in at `toIndex`.
   */
  method SpliceMove(bookmarks: seq<Bookmark>, fromIndex: nat, toIndex: nat) returns (updated: seq<Bookmark>)
    requires fromIndex < |bookmarks| && toIndex < |bookmarks|
    ensures updated == Moved(bookmarks, fromIndex, toIndex)
  {
    var n := |bookmarks|;
    var a := new Bookmark[n](i requires 0 <= i < n => bookmarks[i]);
    assert a[..] == bookmarks;
    var moved := a[fromIndex];
    SpliceOut(a, fromIndex);
    ghost var rest := a[..n - 1];
    SpliceIn(a, toIndex, moved);
    assert a[..toIndex] == rest[..toIndex] && a[toIndex + 1..] == rest[toIndex..];
    updated := a[..];
  }

  /**
   * The "move up" button of the card at `index`: a no-op on the first card,
   * otherwise a move to `index - 1`, which swaps it with the card above.
   */
  function MoveUp(list: seq<Bookmark>, index: nat): (r: seq<Bookmark>)
    requires index < |list|
    ensures index == 0 ==> r == list
    ensures index > 0 ==> r == list[index - 1 := list[index]][index := list[index - 1]]
  {
    if index > 0 then
      MovedAdjacent(list, index - 1);
      Moved(list, index, index - 1)
    else list
  }

  /**
   * The "move down" button of the card at `index`: a no-op on the last card,
   * otherwise a move to `index + 1`, which swaps it with the card below.
   */
  function MoveDown(list: seq<Bookmark>, index: nat): (r: seq<Bookmark>)
    requires index < |list|
    ensures index == |list| - 1 ==> r == list
    ensures index < |list| - 1 ==> r == list[index := list[index + 1]][index + 1 := list[index]]
  {
    if index < |list| - 1 then
      MovedAdjacent(list, index);
      Moved(list, index, index + 1)
    else list
  }

  /** Moving a card down and then moving it up again restores the list. */
  lemma MoveDownThenUp(list: seq<Bookmark>, index: nat)
    requires index + 1 < |list|
    ensures MoveUp(MoveDown(list, index), index + 1) == list
  {
    MovedBack(list, index, index + 1);
  }

  /** Moving a card up and then moving it down again restores the list. */
  lemma MoveUpThenDown(list: seq<Bookmark>, index: nat)
    requires 0 < index < |list|
    ensures MoveDown(MoveUp(list, index), index - 1) == list
  {
    MovedBack(list, index, index - 1);
  }
}
