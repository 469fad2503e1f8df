/** `WishlistManager` (assets/wishlist.js): the in-memory list, written
    through to one key of the browser's `localStorage` after every change,
    reloaded when another tab changes that key. */
module WishlistStore {
  import opened Optional
  import opened WishlistModel
  import opened WishlistCodec
  import opened WishlistView

  const StorageKey: string := "shopify_wishlist"

  /** `loadWishlist` as a function of the storage contents: the parsed list,
      or `[]` when the key is missing, holds `""`, or does not parse. */
  function Loaded(items: map<string, string>, key: string): (list: seq<Entry>)
    ensures key !in items || items[key] == "" ==> list == []
    ensures list != [] ==> key in items && Decode(items[key]) == Some(list)
  {
    if key !in items || items[key] == "" then []
    else
      match Decode(items[key])
      case None => []
      case Some(list) => list
  }

  /** The storage contents after `saveWishlist`: the key holds the encoded
      list, unless the write fails, in which case nothing changes. */
  function Persisted(items: map<string, string>, writable: bool, key: string, list: seq<Entry>): (after: map<string, string>)
    ensures writable ==> key in after && after[key] == Encode(list)
    ensures !writable ==> after == items
    ensures forall other :: other != key ==> (other in after <==> other in items)
    ensures forall other :: other != key && other in after ==> after[other] == items[other]
  {
    if writable then items[key := Encode(list)] else items
  }

  /** What was saved loads back unchanged. */
  lemma LoadAfterSave(items: map<string, string>, key: string, list: seq<Entry>)
    ensures Loaded(items[key := Encode(list)], key) == list
  {
    DecodeEncode(list);
  }

  /** A missing key, an empty value or unparsable text loads as `[]`. */
  lemma LoadFallsBackToEmpty(items: map<string, string>, key: string)
    requires key !in items || items[key] == "" || Decode(items[key]).None?
    ensures Loaded(items, key) == []
  {
  }

  /** Writes under other keys do not affect what the wishlist loads. */
  lemma LoadIgnoresOtherKeys(items: map<string, string>, key: string, other: string, value: string)
    requires other != key
    ensures Loaded(items[other := value], key) == Loaded(items, key)
  {
  }

  /** A concrete corrupt value: text that is not a stored list loads as `[]`. */
  lemma LoadCorruptExample()
    ensures Loaded(map[StorageKey := "{not a list"], StorageKey) == []
  {
    DecodeRejectsNonList("{not a list");
  }

  /** The browser's `localStorage`, shared by all tabs of the origin.
      `writable` is false when `setItem` throws (quota exceeded or storage
      disabled). */
  class Storage {
    var items: map<string, string>
    var writable: bool

    constructor (items: map<string, string>, writable: bool)
      ensures this.items == items && this.writable == writable
    {
      this.items := items;
      this.writable := writable;
    }

    /** `getItem(key)`: `null` (here `None`) when the key is missing. */
    method GetItem(key: string) returns (value: Option<string>)
      ensures value.Some? <==> key in items
      ensures value.Some? ==> value.value == items[key]
    {
      value := if key in items then Some(items[key]) else None;
    }

    /** `setItem(key, value)`; `ok` is false where it would throw. */
    method SetItem(key: string, value: string) returns (ok: bool)
      modifies this
      ensures ok == old(writable) && writable == old(writable)
      ensures items == if ok then old(items)[key := value] else old(items)
    {
      ok := writable;
      if ok {
        items := items[key := value];
      }
    }
  }

  class WishlistManager {
    const storageKey: string := StorageKey
    const storage: Storage
    var wishlist: seq<Entry>

    /** The storage holds exactly the in-memory list. */
    ghost predicate InSync()
      reads this, storage
    {
      Loaded(storage.items, storageKey) == wishlist
    }

    /** `constructor`: the list starts as whatever the storage holds. */
    constructor (storage: Storage)
      ensures this.storage == storage
      ensures wishlist == Loaded(storage.items, StorageKey)
    {
      this.storage := storage;
      wishlist := [];
      new;
      wishlist := LoadWishlist();
    }

    method LoadWishlist() returns (list: seq<Entry>)
      ensures list == Loaded(storage.items, storageKey)
    {
      var stored := storage.GetItem(storageKey);
      if stored.None? || stored.value == "" {
        list := [];
      } else {
        match Decode(stored.value)
        case None =>
          list := [];
        case Some(parsed) =>
          list := parsed;
      }
    }

    method SaveWishlist()
      modifies storage
      ensures storage.writable == old(storage.writable)
      ensures storage.items == Persisted(old(storage.items), old(storage.writable), storageKey, wishlist)
      ensures old(storage.writable) ==> InSync()
    {
      var _ := storage.SetItem(storageKey, Encode(wishlist));
      LoadAfterSave(old(storage.items), storageKey, wishlist);
    }

    /** `isInWishlist` */
    function IsInWishlist(productId: string): (b: bool)
      reads this
      ensures b <==> exists k :: 0 <= k < |wishlist| && wishlist[k].id == productId
    {
      HasId(wishlist, productId)
    }

    /** `getWishlistCount` */
    function GetWishlistCount(): (n: nat)
      reads this
      ensures n == |wishlist|
      ensures n == 0 <==> forall productId :: !IsInWishlist(productId)
    {
      assert wishlist != [] ==> IsInWishlist(wishlist[0].id);
      |wishlist|
    }

    method AddToWishlist(productId: string, productData: Metadata, addedAt: string)
      modifies this, storage
      ensures wishlist == AddEntry(old(wishlist), productId, addedAt, productData)
      ensures IsInWishlist(productId)
      ensures GetWishlistCount() == old(GetWishlistCount()) + (if old(IsInWishlist(productId)) then 0 else 1)
      ensures storage.writable == old(storage.writable)
      ensures storage.items == if old(IsInWishlist(productId)) then old(storage.items)
                               else Persisted(old(storage.items), old(storage.writable), storageKey, wishlist)
      ensures old(storage.writable) && !old(IsInWishlist(productId)) ==> InSync()
      ensures old(NoDuplicateIds(wishlist)) ==> NoDuplicateIds(wishlist)
    {
      if NoDuplicateIds(wishlist) {
        AddPreservesNoDuplicates(wishlist, productId, addedAt, productData);
      }
      if !IsInWishlist(productId) {
        wishlist := wishlist + [Entry(productId, addedAt, productData)];
        SaveWishlist();
      }
    }

    method RemoveFromWishlist(productId: string)
      modifies this, storage
      ensures wishlist == RemoveId(old(wishlist), productId)
      ensures !IsInWishlist(productId)
      ensures !old(IsInWishlist(productId)) ==> wishlist == old(wishlist)
      ensures old(NoDuplicateIds(wishlist)) && old(IsInWishlist(productId))
              ==> GetWishlistCount() == old(GetWishlistCount()) - 1
      ensures storage.writable == old(storage.writable)
      ensures storage.items == Persisted(old(storage.items), old(storage.writable), storageKey, wishlist)
      ensures old(storage.writable) ==> InSync()
      ensures old(NoDuplicateIds(wishlist)) ==> NoDuplicateIds(wishlist)
    {
      if !IsInWishlist(productId) {
        RemoveAbsentUnchanged(wishlist, productId);
      } else if NoDuplicateIds(wishlist) {
        RemovePresentCount(wishlist, productId);
      }
      if NoDuplicateIds(wishlist) {
        RemovePreservesNoDuplicates(wishlist, productId);
      }
      wishlist := RemoveId(wishlist, productId);
      SaveWishlist();
    }

    /** `toggleWishlist`; both branches write the storage. */
    method ToggleWishlist(productId: string, productData: Metadata, addedAt: string)
      modifies this, storage
      ensures wishlist == ToggleEntry(old(wishlist), productId, addedAt, productData)
      ensures IsInWishlist(productId) <==> !old(IsInWishlist(productId))
      ensures storage.writable == old(storage.writable)
      ensures storage.items == Persisted(old(storage.items), old(storage.writable), storageKey, wishlist)
      ensures old(storage.writable) ==> InSync()
      ensures old(NoDuplicateIds(wishlist)) ==> NoDuplicateIds(wishlist)
    {
      if IsInWishlist(productId) {
        RemoveFromWishlist(productId);
      } else {
        AddToWishlist(productId, productData, addedAt);
      }
    }

    method ClearWishlist()
      modifies this, storage
      ensures wishlist == [] && GetWishlistCount() == 0
      ensures storage.writable == old(storage.writable)
      ensures storage.items == Persisted(old(storage.items), old(storage.writable), storageKey, [])
      ensures old(storage.writable) ==> InSync()
    {
      wishlist := [];
      SaveWishlist();
    }

    /** The click handler of `bindEvents`: toggle the button's product, with
        the metadata scraped from the page. */
    method OnWishlistClick(productId: string, page: PageContext, addedAt: string)
      modifies this, storage
      ensures wishlist == ToggleEntry(old(wishlist), productId, addedAt, GetProductData(page))
      ensures storage.writable == old(storage.writable)
      ensures storage.items == Persisted(old(storage.items), old(storage.writable), storageKey, wishlist)
      ensures old(storage.writable) ==> InSync()
    {
      ToggleWishlist(productId, GetProductData(page), addedAt);
    }

    /** The `storage` event handler of `bindEvents`: reload only when the
        changed key (`None` for a `clear()` of the whole storage) is this
        store's key. */
    method OnStorageEvent(key: Option<string>)
      modifies this
      ensures wishlist == if key == Some(storageKey) then Loaded(storage.items, storageKey) else old(wishlist)
      ensures key == Some(storageKey) ==> InSync()
    {
      if key == Some(storageKey) {
        wishlist := LoadWishlist();
      }
    }
  }

  /** Two tabs over one storage: after a click in the first tab and the
      storage event it causes in the second, both hold the same list. */
  method TabsConverge(first: WishlistManager, second: WishlistManager, productId: string, page: PageContext, addedAt: string)
    requires first != second && first.storage == second.storage && first.storage.writable
    modifies first, second, first.storage
    ensures second.wishlist == first.wishlist
    ensures first.wishlist == ToggleEntry(old(first.wishlist), productId, addedAt, GetProductData(page))
  {
    first.OnWishlistClick(productId, page, addedAt);
    second.OnStorageEvent(Some(StorageKey));
  }
}
