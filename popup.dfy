/**
 The extension popup's undoable item store. Two persisted collections, the saved
 items and the action history, are changed by three handlers (save, delete,
 clear-all); each of them pushes a history entry holding a copy of the item list as
 it was before the action, and undo pops the newest entry and puts that copy back.

 The store is modelled twice: as a value (`Store`) with one transition function per
 handler, which the lemmas reason about, and as the class `SnapStash`, whose methods
 update the two fields in place and are proved to follow the transition functions.
 */
module Popup {
  import opened Items

  /** Longest item name the popup stores or previews. */
  const MaxPreviewLength: nat := 50
  /** Name used when the tab has no title. */
  const UntitledPage: string := "Untitled Page"
  /** Appended to a preview that was cut short. */
  const Ellipsis: string := "..."

  /** The active tab as the tab query reports it; a missing title is the empty string. */
  datatype Tab = Tab(url: string, title: string)

  // ---------------------------------------------------------------------------
  // Title rules
  // ---------------------------------------------------------------------------

  /** `tab.title || 'Untitled Page'`: an empty title falls back to the default name. */
  function ItemName(title: string): (name: string)
    ensures name != []
    ensures title != [] ==> name == title
    ensures title == [] ==> name == UntitledPage
  {
    if title == [] then UntitledPage else title
  }

  /** The title stored with a saved item: the item name cut to its first 50 characters. */
  function StoredTitle(title: string): (r: string)
    ensures |r| <= MaxPreviewLength
    ensures r <= ItemName(title)
    ensures |ItemName(title)| <= MaxPreviewLength ==> r == ItemName(title)
    ensures |ItemName(title)| > MaxPreviewLength ==> |r| == MaxPreviewLength
    ensures title == [] ==> r == UntitledPage
  {
    var name := ItemName(title);
    if |name| > MaxPreviewLength then name[..MaxPreviewLength] else name
  }

  /** The preview shown before saving: a cut name is marked by a trailing ellipsis. */
  function PreviewText(title: string): (r: string)
    ensures |r| <= MaxPreviewLength + |Ellipsis|
    ensures |ItemName(title)| <= MaxPreviewLength ==> r == ItemName(title)
    ensures |ItemName(title)| > MaxPreviewLength ==>
              |r| == MaxPreviewLength + |Ellipsis| && r[..MaxPreviewLength] <= ItemName(title)
              && r[MaxPreviewLength..] == Ellipsis
  {
    var name := ItemName(title);
    if |name| > MaxPreviewLength then name[..MaxPreviewLength] + Ellipsis else name
  }

  /** The preview is the stored title, plus an ellipsis exactly when the name was cut. */
  lemma PreviewIsStoredTitleMarked(title: string)
    ensures PreviewText(title) ==
            StoredTitle(title) + (if |ItemName(title)| > MaxPreviewLength then Ellipsis else [])
    ensures StoredTitle(title) <= PreviewText(title)
  {
  }

  // ---------------------------------------------------------------------------
  // History entries and the undo message
  // ---------------------------------------------------------------------------

  /** Action tags as persisted in a history entry. */
  const AddAction: string := "add"
  const DeleteAction: string := "delete"
  const ClearAllAction: string := "clearAll"

  /** Undo messages, and the fallback for a tag the message map does not know. */
  const AddUndoneMessage: string := "Item addition undone"
  const DeleteUndoneMessage: string := "Item deletion undone"
  const ClearAllUndoneMessage: string := "Clear all undone"
  const FallbackUndoneMessage: string := "Action undone"
  /** Shown when undo finds an empty history. */
  const NothingToUndoMessage: string := "Nothing to undo"

  predicate KnownAction(action: string) {
    action == AddAction || action == DeleteAction || action == ClearAllAction
  }

  /**
   One reversible action: its tag, the item it added or removed (absent for clear-all
   and for a delete whose id was not found), the item list as it was before the action
   (absent only in a corrupted entry), and when it happened.
   */
  datatype HistoryEntry = HistoryEntry(
    action: string,
    item: Option<Item>,
    previousState: Option<seq<Item>>,
    timestamp: int)

  /** `lastAction.previousState || []`: the list undo restores from an entry. */
  function Snapshot(e: HistoryEntry): (r: seq<Item>)
    ensures e.previousState.Some? ==> r == e.previousState.value
    ensures e.previousState.None? ==> r == []
  {
    e.previousState.GetOr([])
  }

  /** The message map shown after an undo, with its fallback for unknown tags. */
  function UndoMessage(action: string): (m: string)
    ensures m == FallbackUndoneMessage <==> !KnownAction(action)
    ensures m == AddUndoneMessage <==> action == AddAction
    ensures m == DeleteUndoneMessage <==> action == DeleteAction
    ensures m == ClearAllUndoneMessage <==> action == ClearAllAction
  {
    if action == AddAction then AddUndoneMessage
    else if action == DeleteAction then DeleteUndoneMessage
    else if action == ClearAllAction then ClearAllUndoneMessage
    else FallbackUndoneMessage
  }

  // ---------------------------------------------------------------------------
  // The store as a value, one transition function per handler
  // ---------------------------------------------------------------------------

  /** The two persisted collections. */
  datatype Store = Store(items: seq<Item>, history: seq<HistoryEntry>)

  /** Ids are unique in the live list and in every snapshot undo could restore. */
  predicate StoreValid(s: Store) {
    && UniqueIds(s.items)
    && forall e :: e in s.history ==> UniqueIds(Snapshot(e))
  }

  /** The item saveItem builds from the selected category and the active tab. */
  function NewItem(category: string, tab: Tab, id: int, savedAt: string): (it: Item)
    ensures it.id == id && it.category == category && it.url == tab.url && it.savedAt == savedAt
    ensures it.title == StoredTitle(tab.title)
    ensures |it.title| <= MaxPreviewLength && it.title <= ItemName(tab.title)
  {
    Item(id, category, tab.url, StoredTitle(tab.title), savedAt)
  }

  /** Whether saveItem gets as far as recording anything. */
  predicate SaveProceeds(category: string, tabs: seq<Tab>) {
    category != [] && tabs != []
  }

  /** saveItem: append the new item and an 'add' entry holding the list before it. */
  function Saved(s: Store, category: string, tabs: seq<Tab>, id: int, savedAt: string, now: int): (r: Store)
    ensures !SaveProceeds(category, tabs) ==> r == s
    ensures SaveProceeds(category, tabs) ==>
              var newItem := NewItem(category, tabs[0], id, savedAt);
              && |r.items| == |s.items| + 1 && r.items[..|s.items|] == s.items && r.items[|s.items|] == newItem
              && |r.history| == |s.history| + 1 && r.history[..|s.history|] == s.history
              && r.history[|s.history|] == HistoryEntry(AddAction, Some(newItem), Some(s.items), now)
  {
    if !SaveProceeds(category, tabs) then s
    else
      var newItem := NewItem(category, tabs[0], id, savedAt);
      Store(s.items + [newItem], s.history + [HistoryEntry(AddAction, Some(newItem), Some(s.items), now)])
  }

  /** deleteItem: drop every item with the id and push a 'delete' entry, found or not. */
  function Deleted(s: Store, id: int, now: int): (r: Store)
    ensures r.items == WithoutId(s.items, id)
    ensures forall it :: it in r.items <==> it in s.items && it.id != id
    ensures |r.items| <= |s.items|
    ensures id !in Ids(s.items) ==> r.items == s.items
    ensures |r.history| == |s.history| + 1 && r.history[..|s.history|] == s.history
    ensures r.history[|s.history|] == HistoryEntry(DeleteAction, FindById(s.items, id), Some(s.items), now)
  {
    Store(WithoutId(s.items, id),
          s.history + [HistoryEntry(DeleteAction, FindById(s.items, id), Some(s.items), now)])
  }

  /** clearAllItems: when confirmed, empty the list and push a 'clearAll' entry. */
  function Cleared(s: Store, confirmed: bool, now: int): (r: Store)
    ensures !confirmed ==> r == s
    ensures confirmed ==>
              && r.items == []
              && |r.history| == |s.history| + 1 && r.history[..|s.history|] == s.history
              && r.history[|s.history|] == HistoryEntry(ClearAllAction, None, Some(s.items), now)
  {
    if !confirmed then s
    else Store([], s.history + [HistoryEntry(ClearAllAction, None, Some(s.items), now)])
  }

  /** undoAction: pop the newest entry and replace the list with its snapshot. */
  function Undone(s: Store): (r: Store)
    ensures s.history == [] ==> r == s
    ensures s.history != [] ==>
              var last := s.history[|s.history| - 1];
              && |r.history| == |s.history| - 1 && r.history + [last] == s.history
              && r.items == Snapshot(last)
  {
    if s.history == [] then s
    else
      var last := s.history[|s.history| - 1];
      Store(Snapshot(last), s.history[..|s.history| - 1])
  }

  /** updateUndoButtonState: the undo control is disabled when the history is empty. */
  function UndoDisabled(s: Store): (disabled: bool)
    ensures disabled <==> s.history == []
  {
    |s.history| == 0
  }

  // ---------------------------------------------------------------------------
  // Undo restores what each handler changed
  // ---------------------------------------------------------------------------

  /** Undo is a no-op exactly when the history is empty, i.e. when its control is disabled. */
  lemma UndoChangesIffEnabled(s: Store)
    ensures Undone(s) == s <==> UndoDisabled(s)
    ensures UndoDisabled(s) <==> s.history == []
  {
  }

  /** A save that got through, followed by undo, restores items and history exactly. */
  lemma UndoAfterSave(s: Store, category: string, tabs: seq<Tab>, id: int, savedAt: string, now: int)
    requires SaveProceeds(category, tabs)
    ensures Undone(Saved(s, category, tabs, id, savedAt, now)) == s
  {
  }

  /** Delete followed by undo restores items and history exactly, whether the id was found or not. */
  lemma UndoAfterDelete(s: Store, id: int, now: int)
    ensures Undone(Deleted(s, id, now)) == s
  {
  }

  /** A confirmed clear-all followed by undo restores items and history exactly. */
  lemma UndoAfterClearAll(s: Store, now: int)
    ensures Undone(Cleared(s, true, now)) == s
  {
  }

  /** Every handler keeps ids unique, given that a save uses an id not yet in the list. */
  lemma SaveKeepsValid(s: Store, category: string, tabs: seq<Tab>, id: int, savedAt: string, now: int)
    requires StoreValid(s)
    requires id !in Ids(s.items)
    ensures StoreValid(Saved(s, category, tabs, id, savedAt, now))
  {
  }

  lemma DeleteKeepsValid(s: Store, id: int, now: int)
    requires StoreValid(s)
    ensures StoreValid(Deleted(s, id, now))
  {
    WithoutIdKeepsUnique(s.items, id);
  }

  lemma ClearAllKeepsValid(s: Store, confirmed: bool, now: int)
    requires StoreValid(s)
    ensures StoreValid(Cleared(s, confirmed, now))
  {
  }

  lemma UndoKeepsValid(s: Store)
    requires StoreValid(s)
    ensures StoreValid(Undone(s))
  {
  }

  // ---------------------------------------------------------------------------
  // Runs of handler calls
  // ---------------------------------------------------------------------------

  /** One user event reaching a mutating handler, with the inputs the environment supplied. */
  datatype Event =
    | SaveEvent(category: string, tabs: seq<Tab>, id: int, savedAt: string, now: int)
    | DeleteEvent(id: int, now: int)
    | ClearAllEvent(confirmed: bool, now: int)

  function Apply(s: Store, e: Event): Store {
    match e
    case SaveEvent(category, tabs, id, savedAt, now) => Saved(s, category, tabs, id, savedAt, now)
    case DeleteEvent(id, now) => Deleted(s, id, now)
    case ClearAllEvent(confirmed, now) => Cleared(s, confirmed, now)
  }

  /** How many history entries an event pushes: one, unless the handler stopped early. */
  function Recorded(e: Event): nat {
    match e
    case SaveEvent(category, tabs, _, _, _) => if SaveProceeds(category, tabs) then 1 else 0
    case DeleteEvent(_, _) => 1
    case ClearAllEvent(confirmed, _) => if confirmed then 1 else 0
  }

  function RecordedAll(evs: seq<Event>): nat {
    if evs == [] then 0 else Recorded(evs[0]) + RecordedAll(evs[1..])
  }

  /** The store after handling the events in order. */
  function Run(s: Store, evs: seq<Event>): Store
    decreases evs
  {
    if evs == [] then s else Run(Apply(s, evs[0]), evs[1..])
  }

  /** The store after n consecutive undos. */
  function UndoTimes(s: Store, n: nat): Store
    decreases n
  {
    if n == 0 then s else UndoTimes(Undone(s), n - 1)
  }

  /** Every save in the run uses an id not in the list at the moment it is handled. */
  predicate FreshSaveIds(s: Store, evs: seq<Event>)
    decreases evs
  {
    evs == [] ||
    ((evs[0].SaveEvent? ==> evs[0].id !in Ids(s.items)) && FreshSaveIds(Apply(s, evs[0]), evs[1..]))
  }

  /** One event grows the history by what it records, and that many undos revert it. */
  lemma ApplyThenUndo(s: Store, e: Event)
    ensures |Apply(s, e).history| == |s.history| + Recorded(e)
    ensures s.history <= Apply(s, e).history
    ensures UndoTimes(Apply(s, e), Recorded(e)) == s
  {
  }

  lemma {:induction false} UndoTimesAdd(s: Store, a: nat, b: nat)
    ensures UndoTimes(s, a + b) == UndoTimes(UndoTimes(s, a), b)
    decreases a
  {
    if a > 0 {
      UndoTimesAdd(Undone(s), a - 1, b);
    }
  }

  /**
   History is append-only under the handlers: after a run the old entries are a prefix,
   and the depth has grown by exactly one per event that got through.
   */
  lemma {:induction false} RunHistoryDepth(s: Store, evs: seq<Event>)
    ensures |Run(s, evs).history| == |s.history| + RecordedAll(evs)
    ensures s.history <= Run(s, evs).history
    decreases evs
  {
    if evs != [] {
      ApplyThenUndo(s, evs[0]);
      RunHistoryDepth(Apply(s, evs[0]), evs[1..]);
    }
  }

  /** Undoing once per recorded entry takes any run of handlers back to where it started. */
  lemma {:induction false} RunThenUndoAll(s: Store, evs: seq<Event>)
    ensures UndoTimes(Run(s, evs), RecordedAll(evs)) == s
    decreases evs
  {
    if evs != [] {
      var s1 := Apply(s, evs[0]);
      RunThenUndoAll(s1, evs[1..]);
      UndoTimesAdd(Run(s1, evs[1..]), RecordedAll(evs[1..]), Recorded(evs[0]));
      ApplyThenUndo(s, evs[0]);
    }
  }

  /** A run whose saves use fresh ids never produces two items with the same id. */
  lemma {:induction false} RunKeepsValid(s: Store, evs: seq<Event>)
    requires StoreValid(s)
    requires FreshSaveIds(s, evs)
    ensures StoreValid(Run(s, evs))
    decreases evs
  {
    if evs != [] {
      match evs[0] {
        case SaveEvent(category, tabs, id, savedAt, now) => SaveKeepsValid(s, category, tabs, id, savedAt, now);
        case DeleteEvent(id, now) => DeleteKeepsValid(s, id, now);
        case ClearAllEvent(confirmed, now) => ClearAllKeepsValid(s, confirmed, now);
      }
      RunKeepsValid(Apply(s, evs[0]), evs[1..]);
    }
  }

  /**
   Save "books", save "electronics", delete the first, undo: both items are back in
   their original order and the history holds the two 'add' entries again.
   */
  lemma SaveSaveDeleteUndo(tab: Tab)
    ensures
      var s0 := Store([], []);
      var s1 := Saved(s0, "books", [tab], 1, "t1", 1);
      var s2 := Saved(s1, "electronics", [tab], 2, "t2", 2);
      var s3 := Deleted(s2, 1, 3);
      var s4 := Undone(s3);
      && s4.items == [NewItem("books", tab, 1, "t1"), NewItem("electronics", tab, 2, "t2")]
      && s4 == s2
      && |s4.history| == 2
  {
  }

  /** Clear-all on an empty list still records an entry; undo removes it again. */
  lemma ClearEmptyThenUndo(history: seq<HistoryEntry>, now: int)
    ensures |Cleared(Store([], history), true, now).history| == |history| + 1
    ensures Undone(Cleared(Store([], history), true, now)) == Store([], history)
  {
  }

  // ---------------------------------------------------------------------------
  // The popup's handlers, updating the persisted collections in place
  // ---------------------------------------------------------------------------

  class SnapStash {
    /** Persisted under 'snapstashItems'. */
    var items: seq<Item>
    /** Persisted under 'snapstashHistory'. */
    var history: seq<HistoryEntry>

    function State(): Store
      reads this
    {
      Store(items, history)
    }

    ghost predicate Valid()
      reads this
    {
      StoreValid(State())
    }

    /** Fresh storage: both keys are missing, and each reads as an empty list. */
    constructor ()
      ensures items == [] && history == []
      ensures Valid()
    {
      items, history := [], [];
    }

    /** saveItem, given the selected category, the tab query's result and the clock. */
    method SaveItem(category: string, tabs: seq<Tab>, id: int, savedAt: string, now: int)
      modifies this
      ensures State() == Saved(old(State()), category, tabs, id, savedAt, now)
      ensures !SaveProceeds(category, tabs) ==> items == old(items) && history == old(history)
      ensures SaveProceeds(category, tabs) ==>
                var newItem := NewItem(category, tabs[0], id, savedAt);
                && items == old(items) + [newItem]
                && history == old(history) + [HistoryEntry(AddAction, Some(newItem), Some(old(items)), now)]
      ensures old(Valid()) && id !in Ids(old(items)) ==> Valid()
    {
      ghost var before := State();
      if category == [] {
        return;
      }
      if |tabs| > 0 {
        var url := tabs[0].url;
        var itemName := StoredTitle(tabs[0].title);
        var list := items;
        var hist := history;
        var newItem := Item(id, category, url, itemName, savedAt);
        hist := hist + [HistoryEntry(AddAction, Some(newItem), Some(list), now)];
        list := list + [newItem];
        items, history := list, hist;
        if StoreValid(before) && id !in Ids(before.items) {
          SaveKeepsValid(before, category, tabs, id, savedAt, now);
        }
      }
    }

    /** deleteItem: every item with the id goes, and an entry is pushed even if none matched. */
    method DeleteItem(id: int, now: int)
      modifies this
      ensures State() == Deleted(old(State()), id, now)
      ensures items == WithoutId(old(items), id)
      ensures history == old(history) + [HistoryEntry(DeleteAction, FindById(old(items), id), Some(old(items)), now)]
      ensures id !in Ids(old(items)) ==> items == old(items) && |history| == |old(history)| + 1
      ensures old(Valid()) ==> Valid()
    {
      ghost var before := State();
      var list := items;
      var hist := history;
      var deletedItem := FindById(list, id);
      list := WithoutId(list, id);
      hist := hist + [HistoryEntry(DeleteAction, deletedItem, Some(items), now)];
      items, history := list, hist;
      if StoreValid(before) {
        DeleteKeepsValid(before, id, now);
      }
    }

    /** clearAllItems, given the answer to the confirmation dialog. */
    method ClearAllItems(confirmed: bool, now: int)
      modifies this
      ensures State() == Cleared(old(State()), confirmed, now)
      ensures !confirmed ==> items == old(items) && history == old(history)
      ensures confirmed ==>
                && items == []
                && history == old(history) + [HistoryEntry(ClearAllAction, None, Some(old(items)), now)]
      ensures old(Valid()) ==> Valid()
    {
      if confirmed {
        var hist := history;
        hist := hist + [HistoryEntry(ClearAllAction, None, Some(items), now)];
        items, history := [], hist;
      }
    }

    /** undoAction: returns the notification text it shows. */
    method UndoAction() returns (message: string)
      modifies this
      ensures State() == Undone(old(State()))
      ensures old(history) == [] ==>
                items == old(items) && history == old(history) && message == NothingToUndoMessage
      ensures old(history) != [] ==>
                var last := old(history)[|old(history)| - 1];
                && history + [last] == old(history)
                && items == Snapshot(last)
                && message == UndoMessage(last.action)
      ensures old(Valid()) ==> Valid()
    {
      ghost var before := State();
      var hist := history;
      if |hist| == 0 {
        message := NothingToUndoMessage;
        return;
      }
      var lastAction := hist[|hist| - 1];
      hist := hist[..|hist| - 1];
      var previousState := Snapshot(lastAction);
      items, history := previousState, hist;
      message := UndoMessage(lastAction.action);
      if StoreValid(before) {
        UndoKeepsValid(before);
      }
    }

    /** updateUndoButtonState: disabled exactly when undo would change nothing. */
    method UpdateUndoButtonState() returns (disabled: bool)
      ensures disabled <==> history == []
      ensures disabled <==> Undone(State()) == State()
    {
      disabled := |history| == 0;
      UndoChangesIffEnabled(State());
    }
  }

  /** A save immediately undone leaves the popup's store exactly as it was. */
  method SaveThenUndo(store: SnapStash, category: string, tab: Tab, id: int, savedAt: string, now: int)
    requires category != []
    modifies store
    ensures store.items == old(store.items) && store.history == old(store.history)
  {
    store.SaveItem(category, [tab], id, savedAt, now);
    var message := store.UndoAction();
    assert message == AddUndoneMessage;
  }
}
