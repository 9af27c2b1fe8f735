/** The portfolio store: one object holding the ordered asset list. Edit,
    remove and reorder each install a new list; add installs a longer list,
    or keeps the current one when the asset's id is already present. */
module Store {
  import opened AssetList

  /** `updatedAssets.splice(i, 1)` on the first `len` cells of `a`: the entry
      at `i` is taken out and returned, the ones after it move one cell left. */
  method SpliceOut<T>(a: array<T>, len: nat, i: nat) returns (moved: T)
    requires i < len <= a.Length
    modifies a
    ensures moved == old(a[i])
    ensures a[..len - 1] == Without(old(a[..len]), i)
  {
    ghost var before := a[..len];
    moved := a[i];
    var k := i;
    while k < len - 1
      invariant i <= k <= len - 1
      invariant forall m :: 0 <= m < i ==> a[m] == before[m]
      invariant forall m :: i <= m < k ==> a[m] == before[m + 1]
      invariant forall m :: k <= m < len ==> a[m] == before[m]
    {
      assert a[k + 1] == before[k + 1];
      a[k] := a[k + 1];
      k := k + 1;
    }
    ghost var w := Without(before, i);
    assert forall m :: 0 <= m < i ==> a[m] == w[m];
    assert forall m :: i <= m < len - 1 ==> a[m] == w[m];
    assert a[..len - 1] == w;
  }

  /** `updatedAssets.splice(i, 0, x)` on the first `len` cells of `a`: the
      entries from `i` on move one cell right and `x` goes into cell `i`. */
  method SpliceIn<T>(a: array<T>, len: nat, i: nat, x: T)
    requires i <= len < a.Length
    modifies a
    ensures a[..len + 1] == Inserted(old(a[..len]), i, x)
  {
    ghost var before := a[..len];
    var k := len;
    while k > i
      invariant i <= k <= len
      invariant forall m :: 0 <= m < k ==> a[m] == before[m]
      invariant forall m :: k < m <= len ==> a[m] == before[m - 1]
    {
      a[k] := a[k - 1];
      k := k - 1;
    }
    assert forall m :: 0 <= m < i ==> a[m] == before[m];
    assert forall m :: i < m <= len ==> a[m] == before[m - 1];
    a[i] := x;
    ghost var r := Inserted(before, i, x);
    assert forall m :: 0 <= m < i ==> a[m] == r[m];
    assert forall m :: i < m <= len ==> a[m] == r[m];
    assert a[i] == r[i];
  }

  /** The body of `reorderAssets`: copy the list into a fresh array, cut
      the entry at `fromIndex` out of the copy and insert it at `toIndex`,
      all in place; the list passed in is left as it was. */
  method ReorderedCopy(s: seq<Asset>, fromIndex: nat, toIndex: nat) returns (r: seq<Asset>)
    requires fromIndex < |s| && toIndex < |s|
    ensures r == Reordered(s, fromIndex, toIndex)
  {
    var n := |s|;
    var updated := new Asset[n](k requires 0 <= k < n => s[k]);
    assert updated[..n] == s;
    var moved := SpliceOut(updated, n, fromIndex);
    ghost var rest := updated[..n - 1];
    assert rest == Without(s, fromIndex) && moved == s[fromIndex];
    SpliceIn(updated, n - 1, toIndex, moved);
    r := updated[..];
    assert r == updated[..n] == Inserted(rest, toIndex, moved);
  }

  class PortfolioStore {
    /** The tracked holdings, in the order the user sees them. */
    var assets: seq<Asset>

    /** The store's invariant: no two entries share an id. */
    ghost predicate Valid()
      reads this
    {
      UniqueIds(assets)
    }

    /** The store starts with an empty list. */
    constructor ()
      ensures Valid() && assets == []
    {
      assets := [];
    }

    /** Insert keyed by id: a no-op when the id is present, else an append. */
    method AddAsset(asset: Asset)
      requires Valid()
      modifies this
      ensures Valid()
      ensures assets == Added(old(assets), asset)
    {
      AddedKeepsUnique(assets, asset);
      assets := Added(assets, asset);
    }

    /** Replace the entries with the asset's id, keeping their position. */
    method EditAsset(asset: Asset)
      requires Valid()
      modifies this
      ensures Valid()
      ensures assets == Edited(old(assets), asset)
      ensures forall k :: 0 <= k < |old(assets)| && old(assets)[k].id == asset.id ==>
                assets == old(assets)[k := asset]
    {
      var before := assets;
      EditedKeepsUnique(before, asset);
      forall k | 0 <= k < |before| && before[k].id == asset.id
        ensures Edited(before, asset) == before[k := asset]
      {
        EditedSingle(before, asset, k);
      }
      assets := Edited(before, asset);
    }

    /** Drop the entries with the asset's id. */
    method RemoveAsset(asset: Asset)
      requires Valid()
      modifies this
      ensures Valid()
      ensures assets == Removed(old(assets), asset.id)
      ensures forall k :: 0 <= k < |old(assets)| && old(assets)[k].id == asset.id ==>
                assets == Without(old(assets), k)
    {
      var before := assets;
      RemovedKeepsUnique(before, asset.id);
      forall k | 0 <= k < |before| && before[k].id == asset.id
        ensures Removed(before, asset.id) == Without(before, k)
      {
        RemovedSingle(before, k);
      }
      assets := Removed(before, asset.id);
    }

    /** Move the entry at `fromIndex` to `toIndex`; the reordered copy
        replaces the list. */
    method ReorderAssets(fromIndex: nat, toIndex: nat)
      requires Valid()
      requires fromIndex < |assets| && toIndex < |assets|
      modifies this
      ensures Valid()
      ensures assets == Reordered(old(assets), fromIndex, toIndex)
    {
      ReorderedKeepsUnique(assets, fromIndex, toIndex);
      assets := ReorderedCopy(assets, fromIndex, toIndex);
    }
  }

  /** Adding an id that is already present keeps the first quantity. */
  method AddTwiceScenario() returns (store: PortfolioStore)
    ensures fresh(store) && store.Valid()
    ensures store.assets == [Asset("bitcoin", "Bitcoin", "btc", "1.5")]
  {
    store := new PortfolioStore();
    var first := Asset("bitcoin", "Bitcoin", "btc", "1.5");
    store.AddAsset(first);
    assert store.assets == [first];
    var second := first.(quantity := "2");
    assert HasId([first], second.id) by { assert [first][0].id == second.id; }
    store.AddAsset(second);
  }

  /** Continuing from there: an edit replaces the quantity, and a remove of
      the only id empties the store. */
  method EditRemoveScenario() returns (store: PortfolioStore, afterEdit: seq<Asset>)
    ensures fresh(store) && store.Valid() && store.assets == []
    ensures afterEdit == [Asset("bitcoin", "Bitcoin", "btc", "2")]
  {
    store := AddTwiceScenario();
    var before := store.assets;
    var second := before[0].(quantity := "2");
    store.EditAsset(second);
    assert store.assets == [second] by {
      assert Edited(before, second)[0] == second;
    }
    afterEdit := store.assets;
    RemovedAll([second], second.id);
    store.RemoveAsset(second);
    assert store.assets == [];
  }
}
