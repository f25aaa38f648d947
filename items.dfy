/**
 The saved-item record shared by the extension popup and the demo page, and the
 two list queries both of them run over a list of items: `items.filter(item =>
 item.id !== id)` (here `WithoutId`) and `items.find(item => item.id === id)`
 (here `FindById`).
 */
module Items {

  /** A value that may be absent (JavaScript's `undefined`/`null`). */
  datatype Option<T> = None | Some(value: T) {
    function GetOr(default: T): T {
      match this
      case Some(v) => v
      case None => default
    }
  }

  /** One saved reference. `id` is the creation time in milliseconds. */
  datatype Item = Item(id: int, category: string, url: string, title: string, savedAt: string)

  /** The ids occurring in a list of items. */
  function Ids(items: seq<Item>): set<int> {
    set it | it in items :: it.id
  }

  /** No two positions of the list carry the same id. */
  predicate UniqueIds(items: seq<Item>) {
    forall i, j :: 0 <= i < j < |items| ==> items[i].id != items[j].id
  }

  /** `items.filter(item => item.id !== id)`: every item whose id matches is dropped. */
  function WithoutId(items: seq<Item>, id: int): (r: seq<Item>)
    ensures |r| <= |items|
    ensures forall it :: it in r <==> it in items && it.id != id
    ensures id !in Ids(r)
    ensures id !in Ids(items) ==> r == items
    ensures id in Ids(items) ==> |r| < |items|
  {
    if items == [] then []
    else
      var rest := WithoutId(items[1..], id);
      assert items == [items[0]] + items[1..];
      if items[0].id == id then rest else [items[0]] + rest
  }

  /** `items.find(item => item.id === id)`: the first item whose id matches, if any. */
  function FindById(items: seq<Item>, id: int): (r: Option<Item>)
    ensures r.None? <==> id !in Ids(items)
    ensures r.Some? ==> exists k :: 0 <= k < |items| && items[k] == r.value && FirstMatch(items, id, k)
  {
    if items == [] then None
    else if items[0].id == id then
      assert FirstMatch(items, id, 0);
      Some(items[0])
    else
      var r := FindById(items[1..], id);
      assert r.Some? ==> exists k :: 0 <= k < |items| && items[k] == r.value && FirstMatch(items, id, k) by {
        if r.Some? {
          var k :| 0 <= k < |items[1..]| && items[1..][k] == r.value && FirstMatch(items[1..], id, k);
          assert FirstMatch(items, id, k + 1);
        }
      }
      assert Ids(items) == {items[0].id} + Ids(items[1..]) by {
        assert items == [items[0]] + items[1..];
      }
      r
  }

  /** Position k holds the first item of the list whose id is `id`. */
  predicate FirstMatch(items: seq<Item>, id: int, k: nat)
    requires k < |items|
  {
    items[k].id == id && forall j :: 0 <= j < k ==> items[j].id != id
  }

  /** Filtering distributes over concatenation, so the kept items stay in their order. */
  lemma {:induction false} WithoutIdAppend(a: seq<Item>, b: seq<Item>, id: int)
    ensures WithoutId(a + b, id) == WithoutId(a, id) + WithoutId(b, id)
  {
    if a == [] {
      assert a + b == b;
    } else {
      assert (a + b)[1..] == a[1..] + b;
      WithoutIdAppend(a[1..], b, id);
    }
  }

  /** When ids are unique, deleting the id found at position k removes exactly that position. */
  lemma {:induction false} WithoutIdRemovesAt(items: seq<Item>, k: nat, id: int)
    requires UniqueIds(items)
    requires k < |items| && items[k].id == id
    ensures WithoutId(items, id) == items[..k] + items[k + 1..]
  {
    var before, after := items[..k], items[k + 1..];
    IdNotBefore(items, k);
    IdNotAfter(items, k);
    assert WithoutId([items[k]], id) == [];
    assert items == before + ([items[k]] + after);
    WithoutIdAppend(before, [items[k]] + after, id);
    WithoutIdAppend([items[k]], after, id);
  }

  /** With unique ids, the id at position k occurs nowhere before k. */
  lemma {:induction false} IdNotBefore(items: seq<Item>, k: nat)
    requires UniqueIds(items)
    requires k < |items|
    ensures items[k].id !in Ids(items[..k])
  {
    forall it | it in items[..k]
      ensures it.id != items[k].id
    {
      var j :| 0 <= j < k && items[..k][j] == it;
      assert items[j] == it;
    }
  }

  /** With unique ids, the id at position k occurs nowhere after k. */
  lemma {:induction false} IdNotAfter(items: seq<Item>, k: nat)
    requires UniqueIds(items)
    requires k < |items|
    ensures items[k].id !in Ids(items[k + 1..])
  {
    forall it | it in items[k + 1..]
      ensures it.id != items[k].id
    {
      var j :| 0 <= j < |items| - k - 1 && items[k + 1..][j] == it;
      assert items[k + 1 + j] == it;
    }
  }

  /** Dropping items never creates a duplicate id. */
  lemma {:induction false} WithoutIdKeepsUnique(items: seq<Item>, id: int)
    requires UniqueIds(items)
    ensures UniqueIds(WithoutId(items, id))
  {
    if items != [] {
      var rest := items[1..];
      assert UniqueIds(rest) by {
        forall i, j | 0 <= i < j < |rest| ensures rest[i].id != rest[j].id {
          assert rest[i] == items[i + 1] && rest[j] == items[j + 1];
        }
      }
      WithoutIdKeepsUnique(rest, id);
    }
  }

  /** A fresh id appended to a list of unique ids keeps them unique. */
  lemma AppendFreshKeepsUnique(items: seq<Item>, it: Item)
    requires UniqueIds(items)
    requires it.id !in Ids(items)
    ensures UniqueIds(items + [it])
  {
  }
}
