/**
 The demo page's item list: the same save, delete and clear-all as the popup, on a
 single list kept in the page's local storage, with no history and no undo.
 */
module Demo {
  import opened Items

  /** The fixed part of a demo item's URL; a number below 1000 follows it. */
  const ProductUrlPrefix: string := "example.com/product-"
  /** Between the category and the time of day in a demo item's title. */
  const TitleInfix: string := " Item - "

  predicate IsDigits(s: string) {
    forall i :: 0 <= i < |s| ==> '0' <= s[i] <= '9'
  }

  function DigitChar(d: nat): (c: char)
    requires d < 10
  {
    ('0' as int + d) as char
  }

  /** A natural number written in decimal without leading zeros, as string concatenation renders it. */
  function Decimal(n: nat): (r: string)
    ensures 1 <= |r|
    ensures IsDigits(r)
    ensures |r| > 1 ==> r[0] != '0'
    ensures n < 10 <==> |r| == 1
    decreases n
  {
    if n < 10 then [DigitChar(n)] else Decimal(n / 10) + [DigitChar(n % 10)]
  }

  /** The number a string of decimal digits denotes. */
  function DecimalValue(s: string): nat
    requires IsDigits(s)
    decreases |s|
  {
    if s == [] then 0
    else DecimalValue(s[..|s| - 1]) * 10 + (s[|s| - 1] as int - '0' as int)
  }

  /** Reading back the rendered number gives the number. */
  lemma {:induction false} DecimalRoundTrip(n: nat)
    ensures DecimalValue(Decimal(n)) == n
    decreases n
  {
    if n >= 10 {
      var r := Decimal(n);
      assert r[..|r| - 1] == Decimal(n / 10);
      DecimalRoundTrip(n / 10);
    }
  }

  /**
   The item the demo's saveItem builds. `productNumber` stands for
   `Math.floor(Math.random() * 1000)`, `timeText` for the locale time of day.
   */
  function DemoItem(category: string, id: int, productNumber: nat, timeText: string, savedAt: string): (it: Item)
    ensures it.url == ProductUrlPrefix + Decimal(productNumber)
    ensures |ProductUrlPrefix| < |it.url| && it.url[..|ProductUrlPrefix|] == ProductUrlPrefix
    ensures IsDigits(it.url[|ProductUrlPrefix|..])
    ensures DecimalValue(it.url[|ProductUrlPrefix|..]) == productNumber
    ensures it.id == id && it.category == category && it.savedAt == savedAt
    ensures it.title == category + TitleInfix + timeText
  {
    var digits := Decimal(productNumber);
    DecimalRoundTrip(productNumber);
    var url := ProductUrlPrefix + digits;
    assert url[|ProductUrlPrefix|..] == digits;
    Item(id, category, url, category + TitleInfix + timeText, savedAt)
  }

  class DemoStore {
    /** The page's local storage under 'snapstashDemoItems'; None while the key is absent. */
    var stored: Option<seq<Item>>

    /** What each handler reads back: a missing key reads as the empty list. */
    function Loaded(): (items: seq<Item>)
      reads this
      ensures stored.Some? ==> items == stored.value
      ensures stored.None? ==> items == []
    {
      stored.GetOr([])
    }

    /** Nothing stored yet. */
    constructor ()
      ensures stored == None && Loaded() == []
    {
      stored := None;
    }

    /** saveItem: with a category, append one demo item at the end of the list. */
    method SaveItem(category: string, id: int, productNumber: nat, timeText: string, savedAt: string)
      modifies this
      ensures category == [] ==> stored == old(stored)
      ensures category != [] ==>
                stored == Some(old(Loaded()) + [DemoItem(category, id, productNumber, timeText, savedAt)])
      ensures category != [] ==>
                |Loaded()| == |old(Loaded())| + 1 && Loaded()[..|old(Loaded())|] == old(Loaded())
      ensures UniqueIds(old(Loaded())) && id !in Ids(old(Loaded())) ==> UniqueIds(Loaded())
    {
      if category == [] {
        return;
      }
      var newItem := DemoItem(category, id, productNumber, timeText, savedAt);
      var items := Loaded();
      items := items + [newItem];
      stored := Some(items);
      if UniqueIds(old(Loaded())) && id !in Ids(old(Loaded())) {
        AppendFreshKeepsUnique(old(Loaded()), newItem);
      }
    }

    /** deleteItem: keep the items whose id differs, in order, and write the list back. */
    method DeleteItem(id: int)
      modifies this
      ensures stored == Some(WithoutId(old(Loaded()), id))
      ensures |Loaded()| <= |old(Loaded())|
      ensures forall it :: it in Loaded() <==> it in old(Loaded()) && it.id != id
      ensures id !in Ids(old(Loaded())) ==> Loaded() == old(Loaded())
      ensures UniqueIds(old(Loaded())) ==> UniqueIds(Loaded())
    {
      var items := Loaded();
      items := WithoutId(items, id);
      stored := Some(items);
      if UniqueIds(old(Loaded())) {
        WithoutIdKeepsUnique(old(Loaded()), id);
      }
    }

    /** clearAllItems: when confirmed, remove the key, so the list then reads as empty. */
    method ClearAllItems(confirmed: bool)
      modifies this
      ensures confirmed ==> stored == None && Loaded() == []
      ensures !confirmed ==> stored == old(stored)
    {
      if confirmed {
        stored := None;
      }
    }
  }
}
