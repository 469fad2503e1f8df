/** The wishlist as a value: an ordered list of entries keyed by product id,
    and the list operations `WishlistManager` performs on it
    (assets/wishlist.js). */
module WishlistModel {

  /** What `getProductData` captures from the page: either nothing (`{}`) or
      the four descriptive fields. */
  datatype Metadata =
    | NoMetadata
    | Product(title: string, price: string, image: string, url: string)

  /** One wishlist record `{id, addedAt, ...productData}`. */
  datatype Entry = Entry(id: string, addedAt: string, meta: Metadata)

  /** `list.some(item => item.id === id)` */
  function HasId(list: seq<Entry>, id: string): (b: bool)
    ensures b <==> exists k :: 0 <= k < |list| && list[k].id == id
  {
    if list == [] then false
    else
      assert forall k :: 0 < k < |list| ==> list[k] == list[1..][k - 1];
      list[0].id == id || HasId(list[1..], id)
  }

  /** At most one entry per id. */
  predicate NoDuplicateIds(list: seq<Entry>) {
    forall i, j :: 0 <= i < j < |list| ==> list[i].id != list[j].id
  }

  /** `addToWishlist`: skipped when the id is present, otherwise one new
      entry at the end. */
  function AddEntry(list: seq<Entry>, id: string, addedAt: string, meta: Metadata): (r: seq<Entry>)
    ensures HasId(r, id)
    ensures |list| <= |r| && r[..|list|] == list
  {
    if HasId(list, id) then list
    else
      var r := list + [Entry(id, addedAt, meta)];
      assert r[|list|].id == id;
      r
  }

  /** `list.filter(item => item.id !== id)` */
  function RemoveId(list: seq<Entry>, id: string): (r: seq<Entry>)
    ensures |r| <= |list|
    ensures forall e :: e in r <==> e in list && e.id != id
  {
    if list == [] then []
    else if list[0].id == id then RemoveId(list[1..], id)
    else [list[0]] + RemoveId(list[1..], id)
  }

  /** `toggleWishlist`: remove when present, add when absent. */
  function ToggleEntry(list: seq<Entry>, id: string, addedAt: string, meta: Metadata): (r: seq<Entry>)
    ensures HasId(r, id) <==> !HasId(list, id)
  {
    if HasId(list, id) then RemoveId(list, id) else AddEntry(list, id, addedAt, meta)
  }

  /** Adding an absent id appends exactly one entry, with that id, time and
      metadata; the count grows by one. */
  lemma AddAbsentAppends(list: seq<Entry>, id: string, addedAt: string, meta: Metadata)
    requires !HasId(list, id)
    ensures var r := AddEntry(list, id, addedAt, meta);
      |r| == |list| + 1 && r[..|list|] == list && r[|list|] == Entry(id, addedAt, meta)
  {
  }

  /** Adding a present id changes nothing, in particular not the existing
      entry's time or metadata. */
  lemma AddPresentUnchanged(list: seq<Entry>, id: string, addedAt: string, meta: Metadata)
    requires HasId(list, id)
    ensures AddEntry(list, id, addedAt, meta) == list
  {
  }

  lemma AddPreservesNoDuplicates(list: seq<Entry>, id: string, addedAt: string, meta: Metadata)
    requires NoDuplicateIds(list)
    ensures NoDuplicateIds(AddEntry(list, id, addedAt, meta))
  {
  }

  /** The filter keeps the order: it distributes over concatenation. */
  lemma {:induction false} RemoveDistributes(a: seq<Entry>, b: seq<Entry>, id: string)
    ensures RemoveId(a + b, id) == RemoveId(a, id) + RemoveId(b, id)
  {
    if a == [] {
      assert a + b == b;
    } else {
      assert (a + b)[0] == a[0] && (a + b)[1..] == a[1..] + b;
      RemoveDistributes(a[1..], b, id);
      if a[0].id != id {
        assert [a[0]] + RemoveId(a[1..], id) + RemoveId(b, id)
            == [a[0]] + (RemoveId(a[1..], id) + RemoveId(b, id));
      }
    }
  }

  /** Removing an absent id leaves the list as it was. */
  lemma {:induction false} RemoveAbsentUnchanged(list: seq<Entry>, id: string)
    requires !HasId(list, id)
    ensures RemoveId(list, id) == list
  {
    if list != [] {
      RemoveAbsentUnchanged(list[1..], id);
    }
  }

  lemma {:induction false} RemovePreservesNoDuplicates(list: seq<Entry>, id: string)
    requires NoDuplicateIds(list)
    ensures NoDuplicateIds(RemoveId(list, id))
  {
    if list != [] {
      var t := list[1..];
      TailNoDuplicates(list);
      RemovePreservesNoDuplicates(t, id);
      if list[0].id != id {
        var rt := RemoveId(t, id);
        assert !HasId(t, list[0].id) by {
          forall k | 0 <= k < |t| ensures t[k].id != list[0].id {
            assert t[k] == list[k + 1];
          }
        }
        RemoveKeepsOthers(t, id, list[0].id);
        ConsNoDuplicates(list[0], rt);
      }
    }
  }

  lemma TailNoDuplicates(list: seq<Entry>)
    requires list != [] && NoDuplicateIds(list)
    ensures NoDuplicateIds(list[1..])
  {
    var t := list[1..];
    forall i, j | 0 <= i < j < |t| ensures t[i].id != t[j].id {
      assert t[i] == list[i + 1] && t[j] == list[j + 1];
    }
  }

  lemma ConsNoDuplicates(e: Entry, list: seq<Entry>)
    requires NoDuplicateIds(list) && !HasId(list, e.id)
    ensures NoDuplicateIds([e] + list)
  {
    var r := [e] + list;
    forall i, j | 0 <= i < j < |r| ensures r[i].id != r[j].id {
      assert r[j] == list[j - 1];
      if i > 0 {
        assert r[i] == list[i - 1];
      }
    }
  }

  /** On a list without duplicates, removing a present id removes exactly
      one entry. */
  lemma {:induction false} RemovePresentCount(list: seq<Entry>, id: string)
    requires NoDuplicateIds(list) && HasId(list, id)
    ensures |RemoveId(list, id)| == |list| - 1
  {
    var t := list[1..];
    TailNoDuplicates(list);
    if list[0].id == id {
      assert !HasId(t, id) by {
        forall k | 0 <= k < |t| ensures t[k].id != id {
          assert t[k] == list[k + 1];
        }
      }
      RemoveAbsentUnchanged(t, id);
    } else {
      RemovePresentCount(t, id);
    }
  }

  /** Membership of every other id is unaffected by a removal. */
  lemma RemoveKeepsOthers(list: seq<Entry>, id: string, other: string)
    requires other != id
    ensures HasId(RemoveId(list, id), other) == HasId(list, other)
  {
    if HasId(list, other) {
      var k :| 0 <= k < |list| && list[k].id == other;
      assert list[k] in RemoveId(list, id);
    }
  }

  /** Adding an absent id and then removing it gives the original list back. */
  lemma AddThenRemoveRestores(list: seq<Entry>, id: string, addedAt: string, meta: Metadata)
    requires !HasId(list, id)
    ensures RemoveId(AddEntry(list, id, addedAt, meta), id) == list
  {
    RemoveDistributes(list, [Entry(id, addedAt, meta)], id);
    RemoveAbsentUnchanged(list, id);
  }

  lemma TogglePreservesNoDuplicates(list: seq<Entry>, id: string, addedAt: string, meta: Metadata)
    requires NoDuplicateIds(list)
    ensures NoDuplicateIds(ToggleEntry(list, id, addedAt, meta))
  {
    if HasId(list, id) {
      RemovePreservesNoDuplicates(list, id);
    }
  }

  /** Toggling twice restores membership of the toggled id. */
  lemma ToggleTwiceMembership(list: seq<Entry>, id: string, a1: string, m1: Metadata, a2: string, m2: Metadata)
    ensures HasId(ToggleEntry(ToggleEntry(list, id, a1, m1), id, a2, m2), id) == HasId(list, id)
  {
  }

  /** Toggling an absent id twice restores the list exactly. */
  lemma ToggleTwiceFromAbsent(list: seq<Entry>, id: string, a1: string, m1: Metadata, a2: string, m2: Metadata)
    requires !HasId(list, id)
    ensures ToggleEntry(ToggleEntry(list, id, a1, m1), id, a2, m2) == list
  {
    AddThenRemoveRestores(list, id, a1, m1);
  }

  /** Toggling a present id twice drops its entry and appends a fresh one with
      the second call's time and metadata: the old `addedAt` is not kept. */
  lemma ToggleTwiceFromPresent(list: seq<Entry>, id: string, a1: string, m1: Metadata, a2: string, m2: Metadata)
    requires HasId(list, id)
    ensures ToggleEntry(ToggleEntry(list, id, a1, m1), id, a2, m2)
         == RemoveId(list, id) + [Entry(id, a2, m2)]
  {
    var r := RemoveId(list, id);
    assert !HasId(r, id) by {
      forall k | 0 <= k < |r| ensures r[k].id != id {
        assert r[k] in r;
      }
    }
  }
}
