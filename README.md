# SnapStash item store in Dafny

SnapStash is a browser-extension popup that saves the active tab under a category, lists
the saved items, deletes one item or all of them, and undoes the last of these actions.
This project models its undoable item store and the demo page's plain item list.

- `items.dfy`, module `Items`: the saved `Item` record, `Option`, and the two list queries
  the handlers run: `WithoutId` (`items.filter(item => item.id !== id)`) and `FindById`
  (`items.find(item => item.id === id)`). It also holds the lemmas about order and id
  uniqueness under filtering.
- `popup.dfy`, module `Popup`: the popup's store. The stored-title and preview rules and
  the undo message map are functions. The two persisted collections are modelled as a value
  `Store(items, history)`, with one transition function per handler (`Saved`, `Deleted`,
  `Cleared`, `Undone`). The lemmas prove the following:
  - each handler followed by undo restores both collections exactly;
  - undo on an empty history changes nothing;
  - the history only grows, by one entry per handler call that gets through;
  - undoing once per recorded entry takes any run of handlers back to its start;
  - ids stay unique.

  The class `SnapStash` has the two fields `items` and `history`. Its methods do the
  handlers' read-modify-write, and each is proved to follow its transition function and to
  keep ids unique (for a save, when its id is not already in the list).
- `index.dfy`, module `Demo`: the demo page. The class `DemoStore` holds one
  `Option<seq<Item>>` field, the page's local-storage slot, where `None` means the key is
  absent. It has save, delete and clear-all, and no history. Clear-all removes the key, so
  the list then reads back as empty.

The environment's inputs become parameters:
- the tab query's result is a `seq<Tab>`;
- `Date.now()` becomes the item `id` and the entry timestamp `now`;
- the locale date strings become `savedAt` and `timeText`;
- `Math.floor(Math.random() * 1000)` becomes `productNumber`;
- the `confirm()` answer becomes `confirmed`.

Three behaviours of the code are worth stating plainly:
- Deleting an id that is not in the list still pushes a `'delete'` history entry, whose
  item is absent, and rewrites the list unchanged (popup.js:263-274).
- A save with no category or no active tab pushes nothing, and neither does an unconfirmed
  clear-all (popup.js:109-116, popup.js:296). Every other save, delete or clear-all pushes
  exactly one entry.
- Undo treats a history entry without a snapshot as an empty list (popup.js:346). It shows
  the message `'Action undone'` for an action tag the message map does not know
  (popup.js:358-363).

## Model

| member | source | states |
|---|---|---|
| `Items.WithoutId` | popup.js:265-266 | Result keeps exactly the items whose id differs from the argument, so the id no longer occurs. An unknown id leaves the list unchanged, and a present id makes it strictly shorter. |
| `Items.FindById` | popup.js:262-263 | Result is absent iff no item has the id. Otherwise it is an item of the list with that id, found at the first position whose id matches. |
| `Items.WithoutIdAppend` | index.js:89-92 | Filtering distributes over concatenation, so the kept items stay in their original relative order. |
| `Items.WithoutIdRemovesAt` | popup.js:254-266 | With unique ids, deleting the id at position k gives exactly the list without position k. |
| `Items.WithoutIdKeepsUnique` | popup.js:265-266 | Filtering a list of unique ids leaves the ids unique. |
| `Items.AppendFreshKeepsUnique` | popup.js:147-148 | Appending an item whose id is not yet in a list of unique ids keeps the ids unique. |
| `Popup.ItemName` | popup.js:118 | An empty tab title becomes `'Untitled Page'`. Any other title is kept as is. |
| `Popup.StoredTitle` | popup.js:118-123 | The stored title has at most 50 characters and is a prefix of the item name, with no `'...'` added. It equals the name when the name fits, and has exactly 50 characters otherwise. |
| `Popup.PreviewText` | popup.js:81-86 | The preview has at most 53 characters. It is the item name when the name fits. Otherwise it is the name's first 50 characters followed by `'...'`. |
| `Popup.PreviewIsStoredTitleMarked` | popup.js:81-86 | The preview is the stored title, followed by `'...'` exactly when the name was cut. So the stored title is a prefix of the preview. |
| `Popup.UndoMessage` | popup.js:357-363 | Each of `'add'`, `'delete'` and `'clearAll'` gets its own message. Every other tag, and only those, gets `'Action undone'`. |
| `Popup.Snapshot` | popup.js:346 | The restored list is the entry's snapshot when it has one, and the empty list otherwise. |
| `Popup.NewItem` | popup.js:131-137 | The new item carries the given id, category, tab URL and save time. Its title is the stored title of the tab: the item name cut to its first 50 characters, so at most 50 characters and a prefix of the name. |
| `Popup.Saved` | popup.js:109-148 | Without a category or a tab, the store is unchanged. Otherwise items gain exactly the new item at the end and history gains exactly one `'add'` entry holding that item and the old list. All earlier items and entries are unchanged. |
| `Popup.Deleted` | popup.js:257-274 | Items become the old list filtered by id (`WithoutId`): the items whose id differs, kept in their order, never growing, and unchanged for an unknown id. History gains exactly one `'delete'` entry holding the first matching item, if any, and the full old list. Earlier entries are unchanged. |
| `Popup.Cleared` | popup.js:295-312 | When confirmed, items become empty and history gains exactly one `'clearAll'` entry with no item and the old list. When not confirmed, the store is unchanged. |
| `Popup.Undone` | popup.js:332-351 | With an empty history the store is unchanged. Otherwise the last entry is removed, the remaining entries are unchanged, and items become that entry's snapshot. |
| `Popup.UndoDisabled` | popup.js:374-378 | The undo control is disabled iff the history is empty. |
| `Popup.UndoChangesIffEnabled` | popup.js:374-378 | Undo leaves the store unchanged iff the undo control is disabled, which is iff the history is empty. |
| `Popup.UndoAfterSave` | popup.js:139-148 | A save that gets through, followed by undo, restores items and history exactly. |
| `Popup.UndoAfterDelete` | popup.js:262-274 | A delete followed by undo restores items and history exactly, including when the id was not found. |
| `Popup.UndoAfterClearAll` | popup.js:301-312 | A confirmed clear-all followed by undo restores items and history exactly. |
| `Popup.SaveKeepsValid` | popup.js:130-148 | A save with a fresh id keeps ids unique in the list and in every snapshot. |
| `Popup.DeleteKeepsValid` | popup.js:257-274 | A delete keeps ids unique in the list and in every snapshot. |
| `Popup.ClearAllKeepsValid` | popup.js:296-307 | A clear-all keeps ids unique in the list and in every snapshot. |
| `Popup.UndoKeepsValid` | popup.js:341-351 | Undo keeps ids unique, because the restored snapshot had unique ids. |
| `Popup.ApplyThenUndo` | popup.js:332-351 | One handler call grows the history by the number of entries it records (0 or 1) and keeps the old entries as a prefix. That many undos restore the store. |
| `Popup.RunHistoryDepth` | popup.js:139-145 | After any run of save, delete and clear-all calls, the old history is a prefix of the new one. The depth has grown by exactly the number of calls that got through. |
| `Popup.RunThenUndoAll` | popup.js:326-351 | After any run of handler calls, undoing once per recorded entry restores the initial items and history exactly. |
| `Popup.RunKeepsValid` | popup.js:97-98 | A run whose saves each use an id not yet in the list never produces two items with the same id. |
| `Popup.SaveSaveDeleteUndo` | popup.js:332-351 | Save "books", save "electronics", delete the first, then undo. Both items are back in their original order, and the history depth is 2 again. |
| `Popup.ClearEmptyThenUndo` | popup.js:296-307 | A clear-all on an empty list still records one entry, and undo removes it again. |
| `Popup.SnapStash.constructor` | popup.js:127-128 | With empty storage, items and history both read as empty. |
| `Popup.SnapStash.SaveItem` | popup.js:105-171 | Without a category or a tab, nothing changes. Otherwise exactly one item is appended at the end, and one `'add'` entry holding that item and the old list. Earlier items and entries are unchanged. Ids stay unique when the new id is not already in the list; a colliding id is accepted, as in the source. |
| `Popup.SnapStash.DeleteItem` | popup.js:257-287 | Items become the old list without every item with the id, in order. One `'delete'` entry is pushed, with the first matching item and the full old list. With an unknown id, items are unchanged and history still grows by one. |
| `Popup.SnapStash.ClearAllItems` | popup.js:295-321 | When confirmed, items become empty and one `'clearAll'` entry with no item and the old list is pushed, even for an empty list. When not confirmed, nothing changes. |
| `Popup.SnapStash.UndoAction` | popup.js:332-366 | On an empty history, nothing changes and the message is `'Nothing to undo'`. Otherwise the last entry is popped and items become its snapshot, and the message is chosen by the entry's action. |
| `Popup.SnapStash.UpdateUndoButtonState` | popup.js:374-379 | The control is disabled iff the history is empty, which is iff undo would change nothing. |
| `Popup.SaveThenUndo` | popup.js:139-148 | Calling the class's save and then its undo leaves both fields exactly as they were. |
| `Demo.Decimal` | index.js:31 | The rendered number is a non-empty run of decimal digits with no leading zero. It is one digit iff the number is below 10. |
| `Demo.DecimalRoundTrip` | index.js:31 | Reading the rendered digits back gives the number. |
| `Demo.DemoItem` | index.js:28-34 | The item carries the given id, category and save time. Its title is the category, `' Item - '` and the time of day. Its URL is `'example.com/product-'` followed by the product number in decimal, with no leading zero, and those digits read back as the number. |
| `Demo.DemoStore.Loaded` | index.js:51-52 | The list each handler reads is the stored list, or the empty list while the key is absent. |
| `Demo.DemoStore.constructor` | index.js:51-54 | With no stored key, the list reads as empty. |
| `Demo.DemoStore.SaveItem` | index.js:20-49 | With an empty category, storage is unchanged. Otherwise the stored list is the old list with exactly one item appended at the end, and the old items are unchanged and in order. |
| `Demo.DemoStore.DeleteItem` | index.js:89-95 | The stored list is the old list without the items with the id, in order, and is never longer. An unknown id leaves it unchanged, and unique ids stay unique. |
| `Demo.DemoStore.ClearAllItems` | index.js:97-103 | When confirmed, the key is removed and the list reads as empty. Otherwise storage is unchanged. |

## Left out

- The DOM and notifications are view code with no state of the store, and are not modelled: `displayCurrentUrl`, `loadAndDisplayItems`, `displayItems`, `createItemElement` and `showNotification` in both files, and the alert shown for a missing category.
- `chrome.tabs.query`, `chrome.storage.local` and the page's `localStorage` with its JSON encoding are asynchronous foreign I/O. Storage is the class fields, and each handler is one synchronous step.
- Callback ordering, and the lost-update race between overlapping handlers, is concurrency. The model runs one event to completion at a time.
- The `JSON.parse(JSON.stringify(...))` snapshot copy is not modelled as an operation. Dafny sequences are values, so a stored snapshot can never change when the live list does.
- `saveItem` calls `Date.now()` twice, once for the id and once for the entry timestamp. These are two independent parameters, `id` and `now`.
- A tab without a title is taken to have the empty title. Both fall back to `'Untitled Page'`.
- Lengths and cutting are counted in characters, while JavaScript counts UTF-16 code units. A surrogate pair split at position 50 is not modelled.
- `Popup.UndoMessage`: property names inherited by a plain JavaScript object, such as `'constructor'`, would also be found by the message lookup. The model treats every tag other than the three actions as unknown.
- Storage contents of the wrong shape are not modelled: non-array values, items without an id, or text that does not parse. The one exception is a history entry without a snapshot, which is modelled.
- Id uniqueness is proved only for saves whose id is not already in the list (`Popup.RunKeepsValid`, `Popup.SaveKeepsValid`). The source takes `Date.now()` as the id and does not check it, so two saves within one millisecond would give two items the same id.
- `Demo.DemoItem`: the product number is any natural number. The source only produces numbers below 1000.
- A persistence failure is not modelled. Every storage write is taken to succeed.
