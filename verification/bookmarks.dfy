/**
 * The bookmark list of the start page: an ordered sequence of records,
 * and the three operations that build a new list from the old one
 * (append, replace-by-id, remove-by-id).
 *
 * Ids are never checked for uniqueness by the application, so `Edit` and
 * `Delete` act on EVERY record with a matching id, exactly as the
 * array `map` and `filter` they model do. The lemmas at the end show that
 * when ids happen to be unique they act on exactly one record.
 */
module Bookmarks {

  /** One shortcut card. */
  datatype Bookmark = Bookmark(id: string, title: string, url: string, color: string)

  /** Some record of `list` carries `id`. */
  predicate HasId(list: seq<Bookmark>, id: string)
  {
    exists i :: 0 <= i < |list| && list[i].id == id
  }

  /** No two records of `list` share an id (expected, never enforced). */
  predicate UniqueIds(list: seq<Bookmark>)
  {
    forall i, j :: 0 <= i < j < |list| ==> list[i].id != list[j].id
  }

  /** `addBookmark`: the new record goes to the end of the list. */
  function Add(list: seq<Bookmark>, b: Bookmark): (r: seq<Bookmark>)
    ensures |r| == |list| + 1
    ensures r[..|list|] == list && r[|list|] == b
  {
    list + [b]
  }

  /**
   * `editBookmark`: every record whose id equals `b.id` is replaced by `b`,
   * in place; every other record is kept.
   */
  function Edit(list: seq<Bookmark>, b: Bookmark): (r: seq<Bookmark>)
    ensures |r| == |list|
    ensures forall i :: 0 <= i < |list| ==> r[i] == (if list[i].id == b.id then b else list[i])
  {
    if list == [] then []
    else [if list[0].id == b.id then b else list[0]] + Edit(list[1..], b)
  }

  /**
   * `deleteBookmark`: every record whose id equals `id` is dropped, and the
   * result holds no such record; `DeleteCounts`, `DeleteAbsent` and
   * `DeleteAppend` below say what it keeps and in which order.
   */
  function Delete(list: seq<Bookmark>, id: string): (r: seq<Bookmark>)
    ensures |r| <= |list|
    ensures !HasId(r, id)
  {
    if list == [] then []
    else if list[0].id != id then [list[0]] + Delete(list[1..], id)
    else Delete(list[1..], id)
  }

  // ---------------------------------------------------------------- Add

  /** Deleting the id of a record just added removes it again, along with any older namesakes. */
  lemma AddThenDelete(list: seq<Bookmark>, b: Bookmark)
    ensures Delete(Add(list, b), b.id) == Delete(list, b.id)
    ensures !HasId(list, b.id) ==> Delete(Add(list, b), b.id) == list
  {
    DeleteAppend(list, [b], b.id);
    assert Delete([b], b.id) == [];
    DeleteAbsent(list, b.id);
  }

  /** Appending keeps ids unique exactly when the new id is fresh. */
  lemma AddUnique(list: seq<Bookmark>, b: Bookmark)
    ensures UniqueIds(Add(list, b)) <==> UniqueIds(list) && !HasId(list, b.id)
  {
    var r := Add(list, b);
    if UniqueIds(r) {
      assert UniqueIds(list) by {
        forall i, j | 0 <= i < j < |list| ensures list[i].id != list[j].id {
          assert r[i] == list[i] && r[j] == list[j];
        }
      }
      assert !HasId(list, b.id) by {
        forall i | 0 <= i < |list| ensures list[i].id != b.id {
          assert r[i] == list[i] && r[|list|] == b;
        }
      }
    }
  }

  // ---------------------------------------------------------------- Edit

  /** Editing with an id that no record carries leaves the list unchanged. */
  lemma EditAbsent(list: seq<Bookmark>, b: Bookmark)
    requires !HasId(list, b.id)
    ensures Edit(list, b) == list
  {
    var r := Edit(list, b);
    forall i | 0 <= i < |list| ensures r[i] == list[i] {
      assert list[i].id != b.id;
    }
  }

  /** Editing never changes the id at any position. */
  lemma EditKeepsIds(list: seq<Bookmark>, b: Bookmark, i: int)
    requires 0 <= i < |list|
    ensures Edit(list, b)[i].id == list[i].id
  {
  }

  /** Applying the same edit twice is the same as applying it once. */
  lemma EditIdempotent(list: seq<Bookmark>, b: Bookmark)
    ensures Edit(Edit(list, b), b) == Edit(list, b)
  {
    var r := Edit(list, b);
    var rr := Edit(r, b);
    forall i | 0 <= i < |list| ensures rr[i] == r[i] {
      EditKeepsIds(list, b, i);
    }
  }

  /** Under unique ids, an edit replaces exactly the one record with that id. */
  lemma EditUnique(list: seq<Bookmark>, b: Bookmark, k: int)
    requires UniqueIds(list)
    requires 0 <= k < |list| && list[k].id == b.id
    ensures Edit(list, b) == list[k := b]
  {
    var r := Edit(list, b);
    forall i | 0 <= i < |list| ensures r[i] == list[k := b][i] {
      if i < k {
        assert list[i].id != list[k].id;
      } else if i > k {
        assert list[k].id != list[i].id;
      }
    }
  }

  /** Editing keeps ids unique, and cannot make them unique. */
  lemma EditUniqueIds(list: seq<Bookmark>, b: Bookmark)
    ensures UniqueIds(Edit(list, b)) <==> UniqueIds(list)
  {
    var r := Edit(list, b);
    forall i | 0 <= i < |list| ensures r[i].id == list[i].id {
      EditKeepsIds(list, b, i);
    }
  }

  /** Deleting an id after editing it is the same as deleting it outright. */
  lemma {:induction false} EditThenDelete(list: seq<Bookmark>, b: Bookmark)
    ensures Delete(Edit(list, b), b.id) == Delete(list, b.id)
  {
    if list != [] {
      EditThenDelete(list[1..], b);
      assert Edit(list, b)[1..] == Edit(list[1..], b);
    }
  }

  // ---------------------------------------------------------------- Delete

  /** Every record without that id is kept as many times as it occurred; none with it is. */
  lemma {:induction false} DeleteCounts(list: seq<Bookmark>, id: string)
    ensures forall x :: multiset(Delete(list, id))[x] == if x.id == id then 0 else multiset(list)[x]
  {
    if list != [] {
      DeleteCounts(list[1..], id);
      assert list == [list[0]] + list[1..];
    }
  }

  /** Deleting changes the list exactly when some record carries the id. */
  lemma {:induction false} DeleteAbsent(list: seq<Bookmark>, id: string)
    ensures Delete(list, id) == list <==> !HasId(list, id)
  {
    if list != [] {
      DeleteAbsent(list[1..], id);
      if list[0].id != id && !HasId(list[1..], id) {
        assert !HasId(list, id) by {
          forall i | 0 < i < |list| ensures list[i].id != id {
            assert list[i] == list[1..][i - 1];
          }
        }
      } else if list[0].id != id {
        var i :| 0 <= i < |list[1..]| && list[1..][i].id == id;
        assert list[i + 1].id == id;
      }
    }
  }

  /** Deleting distributes over concatenation: what survives keeps its order. */
  lemma {:induction false} DeleteAppend(a: seq<Bookmark>, b: seq<Bookmark>, id: string)
    ensures Delete(a + b, id) == Delete(a, id) + Delete(b, id)
  {
    if a != [] {
      DeleteAppend(a[1..], b, id);
      assert (a + b)[0] == a[0];
      assert (a + b)[1..] == a[1..] + b;
      if a[0].id != id {
        assert Delete(a + b, id) == [a[0]] + (Delete(a[1..], id) + Delete(b, id));
        assert Delete(a, id) == [a[0]] + Delete(a[1..], id);
      }
    } else {
      assert a + b == b;
    }
  }

  /**
   * Order preservation stated pointwise: a record kept at position `i` ends
   * up at position "number of records kept before it".
   */
  lemma DeleteKeepsPosition(list: seq<Bookmark>, id: string, i: int)
    requires 0 <= i < |list| && list[i].id != id
    ensures |Delete(list[..i], id)| < |Delete(list, id)|
    ensures Delete(list, id)[|Delete(list[..i], id)|] == list[i]
  {
    assert list == list[..i] + list[i..];
    DeleteAppend(list[..i], list[i..], id);
    assert list[i..][0] == list[i];
    assert list[i..][1..] == list[i + 1..];
  }

  /** Two kept records keep their relative order. */
  lemma DeleteKeepsOrder(list: seq<Bookmark>, id: string, i: int, j: int)
    requires 0 <= i < j < |list| && list[i].id != id && list[j].id != id
    ensures |Delete(list[..i], id)| < |Delete(list[..j], id)|
  {
    assert list[..j] == list[..i] + list[i..j];
    DeleteAppend(list[..i], list[i..j], id);
    assert list[i..j] == [list[i]] + list[i + 1..j];
  }

  /** Deleting the same id twice is the same as deleting it once. */
  lemma DeleteIdempotent(list: seq<Bookmark>, id: string)
    ensures Delete(Delete(list, id), id) == Delete(list, id)
  {
  }

  /** Deletions of two ids commute. */
  lemma {:induction false} DeleteCommutes(list: seq<Bookmark>, x: string, y: string)
    ensures Delete(Delete(list, x), y) == Delete(Delete(list, y), x)
  {
    if list != [] {
      DeleteCommutes(list[1..], x, y);
      assert list == [list[0]] + list[1..];
      DeleteAppend([list[0]], list[1..], x);
      DeleteAppend([list[0]], list[1..], y);
      DeleteAppend(Delete([list[0]], x), Delete(list[1..], x), y);
      DeleteAppend(Delete([list[0]], y), Delete(list[1..], y), x);
    }
  }

  /** Deleting keeps ids unique. */
  lemma {:induction false} DeleteUniqueIds(list: seq<Bookmark>, id: string)
    requires UniqueIds(list)
    ensures UniqueIds(Delete(list, id))
  {
    if list != [] {
      var tail := list[1..];
      assert UniqueIds(tail) by {
        forall i, j | 0 <= i < j < |tail| ensures tail[i].id != tail[j].id {
          assert tail[i] == list[i + 1] && tail[j] == list[j + 1];
        }
      }
      DeleteUniqueIds(tail, id);
      DeleteCounts(tail, id);
      if list[0].id != id {
        var d := Delete(tail, id);
        var r := [list[0]] + d;
        assert r == Delete(list, id);
        forall j | 0 < j < |r| ensures r[0].id != r[j].id {
          assert r[j] in multiset(d);
          assert multiset(tail)[r[j]] > 0;
          var m :| 0 <= m < |tail| && tail[m] == r[j];
          assert list[m + 1] == r[j];
        }
      }
    }
  }

  /** Under unique ids, deleting removes exactly the one record with that id. */
  lemma DeleteUnique(list: seq<Bookmark>, id: string, k: int)
    requires UniqueIds(list)
    requires 0 <= k < |list| && list[k].id == id
    ensures Delete(list, id) == list[..k] + list[k + 1..]
  {
    var pre, post := list[..k], list[k + 1..];
    assert !HasId(pre, id) by {
      forall i | 0 <= i < |pre| ensures pre[i].id != id {
        assert pre[i] == list[i];
      }
    }
    assert !HasId(post, id) by {
      forall i | 0 <= i < |post| ensures post[i].id != id {
        assert post[i] == list[k + 1 + i];
      }
    }
    assert list == pre + [list[k]] + post;
    DeleteOne(pre, list[k], post);
  }

  /** Removing the only record with an id leaves the records around it. */
  lemma DeleteOne(pre: seq<Bookmark>, x: Bookmark, post: seq<Bookmark>)
    requires !HasId(pre, x.id) && !HasId(post, x.id)
    ensures Delete(pre + [x] + post, x.id) == pre + post
  {
    DeleteAbsent(pre, x.id);
    DeleteAbsent(post, x.id);
    assert Delete([x], x.id) == [];
    DeleteAppend(pre + [x], post, x.id);
    DeleteAppend(pre, [x], x.id);
  }
}
