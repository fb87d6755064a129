/**
 The in-memory item repository: a hash map from id to item and an id
 counter. Saving an item without an id draws the next counter value;
 saving one with an id overwrites that entry. `existsById` is a stub.
 */
module ItemStore {
  import opened Common
  import opened Domain

  datatype ItemStore = ItemStore(items: map<nat, Item>, counter: nat)

  /** Every key is a counter value already drawn and the id of its item. */
  ghost predicate Valid(s: ItemStore) {
    forall k :: k in s.items ==> 1 <= k <= s.counter && s.items[k].id == k
  }

  /** `save`: `id` is the item's id as given (`None` for null); the item is
      stored, and returned, under the id it ends up with. */
  function Save(s: ItemStore, id: Option<nat>, item: Item): (r: (ItemStore, Item))
    ensures id.None? ==> r.1.id == s.counter + 1 && r.0.counter == s.counter + 1
    ensures id.Some? ==> r.1.id == id.value && r.0.counter == s.counter
    ensures r.1 == item.(id := r.1.id)
    ensures r.0.items.Keys == s.items.Keys + {r.1.id}
    ensures r.0.items[r.1.id] == r.1
    ensures forall k :: k in s.items && k != r.1.id ==> r.0.items[k] == s.items[k]
    ensures Valid(s) && id.None? ==> r.1.id !in s.items
  {
    match id
    case None =>
      var newId := s.counter + 1;
      var saved := item.(id := newId);
      (ItemStore(s.items[newId := saved], newId), saved)
    case Some(k) =>
      var saved := item.(id := k);
      (ItemStore(s.items[k := saved], s.counter), saved)
  }

  /** `findById` */
  function FindById(s: ItemStore, id: nat): (r: Option<Item>)
    ensures r.Some? <==> id in s.items
    ensures r.Some? ==> r.value == s.items[id]
  {
    if id in s.items then Some(s.items[id]) else None
  }

  /** `existsById`: a stub that answers false for every id. */
  function ExistsById(s: ItemStore, id: nat): (r: bool)
    ensures !r
  {
    false
  }

  /** `findItemsByOwnerId`: the stored items of one owner (a list in no
      particular order in the source). */
  function FindItemsByOwnerId(s: ItemStore, ownerId: nat): (r: set<Item>)
    ensures forall it :: it in r <==> it in s.items.Values && it.owner == ownerId
  {
    set it | it in s.items.Values && it.owner == ownerId
  }

  /** The search predicate: an available item whose name or description
      contains the text, ignoring case. */
  predicate MatchesText(it: Item, text: string) {
    && it.available
    && (Contains(Lower(it.name), Lower(text)) || Contains(Lower(it.description), Lower(text)))
  }

  /** `findItemsByText` */
  function FindItemsByText(s: ItemStore, text: string): (r: set<Item>)
    ensures forall it :: it in r ==> it in s.items.Values && it.available
    ensures forall it :: it in s.items.Values && MatchesText(it, text) ==> it in r
    ensures forall it :: it in r ==> Contains(Lower(it.name), Lower(text)) || Contains(Lower(it.description), Lower(text))
  {
    set it | it in s.items.Values && MatchesText(it, text)
  }

  // ---- Properties ---------------------------------------------------------

  /** What was saved is found under the id it was given, and every other id
      still finds what it found before. */
  lemma FindAfterSave(s: ItemStore, id: Option<nat>, item: Item, other: nat)
    ensures var (s', saved) := Save(s, id, item);
            && FindById(s', saved.id) == Some(saved)
            && (other != saved.id ==> FindById(s', other) == FindById(s, other))
  {
  }

  /** Saving a new item never overwrites a stored one, and saving keeps the
      store consistent as long as explicit ids are ids already stored. */
  lemma SaveKeepsValid(s: ItemStore, id: Option<nat>, item: Item)
    requires Valid(s)
    requires id.Some? ==> id.value in s.items
    ensures Valid(Save(s, id, item).0)
    ensures id.None? ==> Save(s, id, item).0.items.Keys == s.items.Keys + {s.counter + 1}
    ensures id.None? ==> |Save(s, id, item).0.items| == |s.items| + 1
  {
  }

  /** Saves new items one after another; returns the store and the saved items. */
  function SaveAllNew(s: ItemStore, items: seq<Item>): (r: (ItemStore, seq<Item>))
    ensures |r.1| == |items|
    decreases |items|
  {
    if |items| == 0 then (s, [])
    else
      var (s1, first) := Save(s, None, items[0]);
      var (s2, rest) := SaveAllNew(s1, items[1..]);
      (s2, [first] + rest)
  }

  /** New items get ids counter+1, counter+2, … in the order saved, and the
      counter grows by the number of items. */
  lemma {:induction false} FreshIdsCount(s: ItemStore, items: seq<Item>)
    ensures var (s', saved) := SaveAllNew(s, items);
            && s'.counter == s.counter + |items|
            && forall i :: 0 <= i < |saved| ==> saved[i].id == s.counter + 1 + i
    decreases |items|
  {
    if |items| > 0 {
      var (s1, first) := Save(s, None, items[0]);
      FreshIdsCount(s1, items[1..]);
    }
  }

  /** The stub disagrees with `findById`: a saved item is found but is said
      not to exist. */
  lemma ExistsByIdIgnoresStore(s: ItemStore, item: Item)
    ensures var (s', saved) := Save(s, None, item);
            FindById(s', saved.id).Some? && !ExistsById(s', saved.id)
  {
  }

  /** A saved item is listed for its owner and for no one else. */
  lemma SavedItemListedForOwner(s: ItemStore, id: Option<nat>, item: Item, someone: nat)
    ensures var (s', saved) := Save(s, id, item);
            && saved in FindItemsByOwnerId(s', item.owner)
            && (someone != item.owner ==> saved !in FindItemsByOwnerId(s', someone))
  {
    var (s', saved) := Save(s, id, item);
    assert s'.items[saved.id] == saved;
  }

  /** The search ignores the case of the text. */
  lemma SearchIgnoresCase(s: ItemStore, text: string)
    ensures FindItemsByText(s, Lower(text)) == FindItemsByText(s, text)
  {
    LowerIdempotent(text);
  }

  /** An available item is found by its full name. */
  lemma SearchFindsName(s: ItemStore, id: Option<nat>, item: Item)
    requires item.available
    ensures var (s', saved) := Save(s, id, item);
            saved in FindItemsByText(s', item.name)
  {
    var (s', saved) := Save(s, id, item);
    ContainsSelfAndEmpty(Lower(item.name));
    assert s'.items[saved.id] == saved;
  }
}
