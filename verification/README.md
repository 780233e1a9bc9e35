# Bookmark list of the bolt-bookmark start page

The start page shows a grid of bookmark cards. Each card is a record with an
`id`, a `title`, a `url` and a `color`. The page keeps an ordered list of
these records. Its handlers build a new list from the old one in four ways:

- append a record (`addBookmark`);
- replace by id (`editBookmark`, an array `map`);
- remove by id (`deleteBookmark`, an array `filter`);
- move the record at one index to another (`moveBookmark`, two `splice`
  calls on a copy).

The "move up" and "move down" buttons of each card call `moveBookmark` only
when a neighbour exists. Every new list is written to the browser storage
slot `bookmarks`, and the slot is read back when the page mounts.

The model has three modules:

- `Bookmarks` (bookmarks.dfy): the record type `Bookmark`, which models the
  `Bookmark` interface of src/App.tsx:6-11, and the three list-building
  operations as functions over `seq<Bookmark>`, with lemmas about them. Ids are
  never checked for uniqueness, so `Edit` and `Delete` act on every record with
  the id, as `map` and `filter` do. Separate lemmas show that when ids are
  unique, they replace or remove exactly one record.
- `Reorder` (reorder.dfy): `Moved`, the specification of a move as
  remove-then-insert, and its properties. `SpliceMove` is the method that does
  the move the way the code does: it copies the list into an array, runs the
  two splices as `SpliceOut` and `SpliceIn`, and is proved equal to `Moved`.
  `MoveUp` and `MoveDown` model the card buttons and their guards.
- `App` (app.dfy): the class `BookmarkStore`. It holds the list on screen and
  the storage slot. Each handler is a method that sets the list and saves it,
  so that afterwards `Saved()` holds: the slot equals the list. `Reload` shows
  that a page mounted from the slot shows the same list.

Facts about the code that the model keeps:

- `map` and `filter` act on every record with the id, and ids are never
  checked for uniqueness.
- The slot is written by an effect that runs after every change of the list.
- `JSON.parse` on mount has no `try`/`catch` (see "Left out").

## Model

| member | source | states |
|---|---|---|
| `Bookmarks.Add` | src/App.tsx:31-32 | The list grows by one. The old list is the unchanged prefix, and the new record is last. |
| `Bookmarks.Edit` | src/App.tsx:36-40 | Length is preserved. Each position holds `b` if its id equals `b.id`, and otherwise its original record. |
| `Bookmarks.Delete` | src/App.tsx:45-47 | The result is no longer than the input and holds no record with the deleted id. |
| `Bookmarks.AddThenDelete` | src/App.tsx:31-47 | Deleting the id of a record just added gives the same list as deleting it before the add. If the id was fresh, this is the original list. |
| `Bookmarks.AddUnique` | src/App.tsx:31-32 | After an append, ids are unique if and only if they were unique before and the new id was absent. |
| `Bookmarks.EditAbsent` | src/App.tsx:37-39 | An edit whose id no record carries returns the list unchanged. |
| `Bookmarks.EditKeepsIds` | src/App.tsx:37-39 | An edit never changes the id at any position. |
| `Bookmarks.EditIdempotent` | src/App.tsx:36-40 | Applying the same edit twice equals applying it once. |
| `Bookmarks.EditUnique` | src/App.tsx:37-39 | With unique ids and the id at position k, an edit equals replacing position k alone. |
| `Bookmarks.EditUniqueIds` | src/App.tsx:37-39 | After an edit, ids are unique if and only if they were before. |
| `Bookmarks.EditThenDelete` | src/App.tsx:36-47 | Deleting an id after editing it equals deleting it without the edit. |
| `Bookmarks.DeleteCounts` | src/App.tsx:46 | Each record with another id occurs in the result as often as in the input. Records with the deleted id occur zero times. |
| `Bookmarks.DeleteAbsent` | src/App.tsx:46 | Delete returns its input unchanged if and only if no record carries the id. |
| `Bookmarks.DeleteAppend` | src/App.tsx:46 | Deleting from a concatenation equals concatenating the deletions from each part, so the order is kept. |
| `Bookmarks.DeleteKeepsPosition` | src/App.tsx:46 | A kept record at position i lands at the position equal to the number of records kept before it. |
| `Bookmarks.DeleteKeepsOrder` | src/App.tsx:46 | For two kept records at i < j, the first lands strictly before the second. |
| `Bookmarks.DeleteIdempotent` | src/App.tsx:45-46 | Deleting the same id twice equals deleting it once. |
| `Bookmarks.DeleteCommutes` | src/App.tsx:45-46 | Deleting two ids gives the same list in either order. |
| `Bookmarks.DeleteUniqueIds` | src/App.tsx:46 | Delete keeps ids unique. |
| `Bookmarks.DeleteUnique` | src/App.tsx:46 | With unique ids and the id at position k, delete equals removing position k alone. |
| `Reorder.Moved` | src/App.tsx:49-53 | A move with both indices in range keeps the length and the multiset of records, and the record from `from` ends up at `to`. |
| `Reorder.MovedAt` | src/App.tsx:50-52 | Where every record ends up: the moved one at `to`, those between the two indices shifted one place towards `from`, all others in place. |
| `Reorder.MovedSame` | src/App.tsx:50-52 | Moving from i to i is the identity. |
| `Reorder.MovedBack` | src/App.tsx:50-52 | Moving from i to j and then from j to i restores the list. |
| `Reorder.MovedAdjacent` | src/App.tsx:49-53 | A move between neighbours i and i+1, in either direction, swaps the two records and leaves all other positions unchanged. |
| `Reorder.MovedUniqueIds` | src/App.tsx:49-53 | A move keeps ids unique. |
| `Reorder.SpliceOut` | src/App.tsx:51 | Taking one record out of a buffer leaves the list without it in the first length-1 slots. |
| `Reorder.SpliceIn` | src/App.tsx:52 | Inserting a record at `to` shifts the records from `to` on one place to the right and puts the record at `to`. |
| `Reorder.SpliceMove` | src/App.tsx:49-53 | Copying the list and running the two splices gives exactly `Moved(bookmarks, fromIndex, toIndex)`. |
| `Reorder.MoveUp` | src/App.tsx:70 | The up button is a no-op on the first card and otherwise swaps the card with the one above. It only calls the move with in-range indices. |
| `Reorder.MoveDown` | src/App.tsx:71 | The down button is a no-op on the last card and otherwise swaps the card with the one below. It only calls the move with in-range indices. |
| `Reorder.MoveDownThenUp` | src/App.tsx:70-71 | Moving a card down and then moving the same card up restores the list. |
| `Reorder.MoveUpThenDown` | src/App.tsx:70-71 | Moving a card up and then moving the same card down restores the list. |
| `App.BookmarkStore.Mount` | src/App.tsx:14-29 | On mount, the list is the slot's list if the slot holds one and is empty otherwise. The slot then agrees with it. |
| `App.BookmarkStore.SetBookmarks` | src/App.tsx:26-29 | Setting the list also writes it to the slot. |
| `App.BookmarkStore.AddBookmark` | src/App.tsx:31-34 | The new list is `Add` of the old one, and it is saved. |
| `App.BookmarkStore.EditBookmark` | src/App.tsx:36-43 | The new list is `Edit` of the old one, and it is saved. |
| `App.BookmarkStore.DeleteBookmark` | src/App.tsx:45-47 | The new list is `Delete` of the old one, and it is saved. |
| `App.BookmarkStore.MoveBookmark` | src/App.tsx:49-54 | With indices in range, the new list is `Moved` of the old one, and it is saved. |
| `App.BookmarkStore.OnMoveUp` | src/App.tsx:70 | The new list is `MoveUp` of the old one. On the first card nothing changes, including the slot. |
| `App.BookmarkStore.OnMoveDown` | src/App.tsx:71 | The new list is `MoveDown` of the old one. On the last card nothing changes, including the slot. |
| `App.BookmarkStore.Reload` | src/App.tsx:18-29 | A page mounted from a saved slot shows the same list. |

## Left out

- The JSON text in the storage slot. `JSON.stringify` and `JSON.parse` are library calls, so the slot holds the list value itself. Serializing and then parsing is taken to give the same list back.
- The parse-failure path on mount. In this code an unparsable slot makes `JSON.parse` throw inside the effect, with no `try`/`catch`. Stored text of the wrong shape is taken as is. The model's slot always holds a well-formed list.
- The transient write on mount. React runs the save effect once with the initial empty list before the loaded list is rendered. The model only states the state after mounting, where the slot equals the loaded list.
- `App.BookmarkStore.OnMoveUp`: as a no-op on the first card, it says the slot is unchanged, not that the slot equals the list. The two agree whenever the store was saved before, which every handler ensures.
- `App.BookmarkStore.OnMoveDown`: as a no-op on the last card, it says the slot is unchanged, not that the slot equals the list. The same reason as for `OnMoveUp` applies.
- The modal and editing state (`isModalOpen`, `editingBookmark`): these are view state and do not touch the list.
- Rendering: the JSX, `BookmarkCard`, `AddBookmarkModal` and the `Plus` icon. `BookmarkCard` and `AddBookmarkModal` are not part of this model, so the way ids are generated is not modelled either.
- Out-of-range or negative indices to `moveBookmark`. JavaScript `splice` would count from the end or insert `undefined`, and the only callers are the guarded buttons. `Moved` and `SpliceMove` require both indices to be in range.
- Import and export of a `bookmarks.json` file, and a `description` field: `App.tsx` has neither.
- Concurrency and asynchrony: none exists here, because every handler runs to completion on the UI thread.
