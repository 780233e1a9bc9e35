/**
 * The page component's list state together with the browser storage slot
 * named "bookmarks" that mirrors it. Every change of the list is written
 * back to the slot, so after each handler the slot holds what is shown and
 * a reload of the page shows the same list again.
 *
 * The slot holds the list's JSON text; here it holds the list itself, and
 * `None` stands for a slot that is missing or empty.
 */
module App {
  import opened Bookmarks
  import opened Reorder

  /** What the page finds in the slot on mount: a list, or nothing (missing or empty). */
  datatype Option<T> = None | Some(value: T)

  class BookmarkStore {
    /** The list on screen, in display order. */
    var bookmarks: seq<Bookmark>
    /** The storage slot. */
    var stored: seq<Bookmark>

    /** The storage slot agrees with the list on screen. */
    ghost predicate Saved()
      reads this
    {
      stored == bookmarks
    }

    /**
     * Mounting the page: start from the empty list, take the slot's list
     * if the slot holds anything, and write the list back to the slot.
     */
    constructor Mount(slot: Option<seq<Bookmark>>)
      ensures Saved()
      ensures bookmarks == if slot.Some? then slot.value else []
    {
      var initial := [];
      if slot.Some? {
        initial := slot.value;
      }
      bookmarks := initial;
      stored := initial;
    }

    /** `setBookmarks` followed by the effect that saves the list. */
    method SetBookmarks(list: seq<Bookmark>)
      modifies this
      ensures bookmarks == list && Saved()
    {
      bookmarks := list;
      stored := list;
    }

    method AddBookmark(b: Bookmark)
      modifies this
      ensures bookmarks == Add(old(bookmarks), b) && Saved()
    {
      SetBookmarks(Add(bookmarks, b));
    }

    method EditBookmark(b: Bookmark)
      modifies this
      ensures bookmarks == Edit(old(bookmarks), b) && Saved()
    {
      SetBookmarks(Edit(bookmarks, b));
    }

    method DeleteBookmark(id: string)
      modifies this
      ensures bookmarks == Delete(old(bookmarks), id) && Saved()
    {
      SetBookmarks(Delete(bookmarks, id));
    }

    method MoveBookmark(fromIndex: nat, toIndex: nat)
      requires fromIndex < |bookmarks| && toIndex < |bookmarks|
      modifies this
      ensures bookmarks == Moved(old(bookmarks), fromIndex, toIndex) && Saved()
    {
      var updated := SpliceMove(bookmarks, fromIndex, toIndex);
      SetBookmarks(updated);
    }

    /** The card at `index` asks to move up; the first card stays put. */
    method OnMoveUp(index: nat)
      requires index < |bookmarks|
      modifies this
      ensures bookmarks == MoveUp(old(bookmarks), index)
      ensures index > 0 ==> Saved()
      ensures index == 0 ==> bookmarks == old(bookmarks) && stored == old(stored)
    {
      if index > 0 {
        MoveBookmark(index, index - 1);
      }
    }

    /** The card at `index` asks to move down; the last card stays put. */
    method OnMoveDown(index: nat)
      requires index < |bookmarks|
      modifies this
      ensures bookmarks == MoveDown(old(bookmarks), index)
      ensures index < |old(bookmarks)| - 1 ==> Saved()
      ensures index == |old(bookmarks)| - 1 ==> bookmarks == old(bookmarks) && stored == old(stored)
    {
      if index < |bookmarks| - 1 {
        MoveBookmark(index, index + 1);
      }
    }

    /** Reloading the page shows the list that was on screen. */
    method Reload() returns (page: BookmarkStore)
      requires Saved()
      ensures fresh(page) && page.Saved()
      ensures page.bookmarks == bookmarks
    {
      page := new BookmarkStore.Mount(Some(stored));
    }
  }
}
