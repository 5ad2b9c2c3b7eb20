/** The in-memory item table behind the `/items` routes: a module-level list of
    records that `create_item` appends to and `get_item` scans. */
module Items {
  import opened Wrappers
  import opened Http

  /** One record of the table; the description is optional. */
  datatype Item = Item(id: int, name: string, description: Option<string>)

  /** What `get_item` produces: the record, or the exception it raises. */
  datatype Reply = Found(item: Item) | Raised(error: HttpError)

  /** The record the table is seeded with. */
  const SampleItem := Item(1, "Sample", Some("A sample item"))

  /** The exception `get_item` raises for an unknown id. */
  const NotFound := HttpError(404, "Item not found")

  /** The status code of a successful `create_item`. */
  const Created := 201

  /** Position of the first record whose id is `k`, if there is one. */
  function FirstWithId(s: seq<Item>, k: int): (r: Option<nat>)
    ensures r.Some? ==> r.value < |s| && s[r.value].id == k
    ensures r.Some? ==> forall j :: 0 <= j < r.value ==> s[j].id != k
    ensures r.None? <==> forall j :: 0 <= j < |s| ==> s[j].id != k
  {
    if |s| == 0 then None
    else if s[0].id == k then Some(0)
    else match FirstWithId(s[1..], k)
      case None => None
      case Some(j) => Some(j + 1)
  }

  /** The reply `get_item(k)` gives on the table `s`. */
  function LookupById(s: seq<Item>, k: int): (r: Reply)
    ensures r.Found? ==>
      exists j :: 0 <= j < |s| && s[j] == r.item && s[j].id == k && (forall i :: 0 <= i < j ==> s[i].id != k)
    ensures r.Raised? <==> forall j :: 0 <= j < |s| ==> s[j].id != k
    ensures r.Raised? ==> r.error == NotFound
  {
    match FirstWithId(s, k)
    case Some(j) => Found(s[j])
    case None => Raised(NotFound)
  }

  /** Appending one record leaves every earlier match in place; the new record
      is found only for an id no earlier record carries. */
  lemma LookupAfterAppend(s: seq<Item>, it: Item, k: int)
    ensures LookupById(s + [it], k) ==
      if LookupById(s, k).Found? then LookupById(s, k)
      else if it.id == k then Found(it)
      else Raised(NotFound)
  {
    var t := s + [it];
    match FirstWithId(s, k)
    case Some(j) =>
      assert t[j] == s[j];
      assert FirstWithId(t, k) == Some(j);
    case None =>
      if it.id == k {
        assert t[|s|] == it;
        assert FirstWithId(t, k) == Some(|s|);
      }
  }

  /** After `create_item(it)`, `get_item(it.id)` finds a record. */
  lemma CreateThenGetSucceeds(s: seq<Item>, it: Item)
    ensures LookupById(s + [it], it.id).Found?
  {
    LookupAfterAppend(s, it, it.id);
  }

  /** Adding a record with an id already present does not change what `get_item`
      returns for that id: the earlier record still wins. */
  lemma DuplicateIdKeepsEarlier(s: seq<Item>, it: Item, j: nat)
    requires j < |s| && s[j].id == it.id
    ensures LookupById(s + [it], it.id) == LookupById(s, it.id)
  {
    LookupAfterAppend(s, it, it.id);
  }

  /** The table, `_items_db`. */
  class ItemTable {
    var items: seq<Item>

    /** The table as the module starts it: the one sample record. */
    constructor ()
      ensures items == [SampleItem]
    {
      items := [SampleItem];
    }

    /** `list_items`: the whole table, unchanged. */
    method ListItems() returns (r: seq<Item>)
      ensures r == items
    {
      r := items;
    }

    /** `get_item`: scans in table order and returns the first record with the
        id, or raises 404. It modifies nothing. */
    method GetItem(itemId: int) returns (r: Reply)
      ensures r == LookupById(items, itemId)
    {
      var i := 0;
      while i < |items|
        invariant 0 <= i <= |items|
        invariant forall j :: 0 <= j < i ==> items[j].id != itemId
      {
        if items[i].id == itemId {
          return Found(items[i]);
        }
        i := i + 1;
      }
      return Raised(NotFound);
    }

    /** `create_item`: appends the record without looking for duplicates and
        answers 201 with the record it was given. */
    method CreateItem(item: Item) returns (status: int, r: Item)
      modifies this
      ensures items == old(items) + [item]
      ensures status == Created && r == item
    {
      items := items + [item];
      status, r := Created, item;
    }
  }
}
