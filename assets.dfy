/** The portfolio's asset records and the pure transitions of the asset list:
    the membership test behind `addAsset`, the `map` behind `editAsset`, the
    `filter` behind `removeAsset` and the remove-then-insert behind
    `reorderAssets`, with the properties each of them keeps. */
module AssetList {

  /** One tracked holding. Every field is a string, `quantity` included. */
  datatype Asset = Asset(id: string, name: string, symbol: string, quantity: string)

  // ---------------------------------------------------------------------------
  // Reference definitions

  /** Some entry of `s` carries the id `id`. */
  ghost predicate HasId(s: seq<Asset>, id: string)
  {
    exists i :: 0 <= i < |s| && s[i].id == id
  }

  /** No two entries of `s` share an id: the portfolio's key invariant. */
  ghost predicate UniqueIds(s: seq<Asset>)
  {
    forall i, j :: 0 <= i < j < |s| ==> s[i].id != s[j].id
  }

  /** `r` is `s` with some entries dropped and the rest in their old order. */
  ghost predicate SubseqOf(r: seq<Asset>, s: seq<Asset>)
    decreases |s|
  {
    r == [] ||
    (s != [] &&
     ((r[|r| - 1] == s[|s| - 1] && SubseqOf(r[..|r| - 1], s[..|s| - 1])) ||
      SubseqOf(r, s[..|s| - 1])))
  }

  // ---------------------------------------------------------------------------
  // addAsset

  /** `assets.some(a => a.id === id)`. */
  function ContainsId(s: seq<Asset>, id: string): (r: bool)
    ensures r <==> HasId(s, id)
  {
    if s == [] then false
    else
      var found := ContainsId(s[..|s| - 1], id);
      assert HasId(s[..|s| - 1], id) ==> HasId(s, id);
      assert HasId(s, id) && s[|s| - 1].id != id ==> HasId(s[..|s| - 1], id);
      found || s[|s| - 1].id == id
  }

  /** The list `addAsset(asset)` leaves behind: unchanged when the id is
      already present (the stored entry is not overwritten), otherwise the
      old list with `asset` appended at the end. */
  function Added(s: seq<Asset>, asset: Asset): (r: seq<Asset>)
    ensures HasId(s, asset.id) ==> r == s
    ensures !HasId(s, asset.id) ==>
              |r| == |s| + 1 && r[..|s|] == s && r[|s|] == asset
    ensures HasId(r, asset.id)
  {
    if ContainsId(s, asset.id) then s else s + [asset]
  }

  lemma AddedKeepsUnique(s: seq<Asset>, asset: Asset)
    requires UniqueIds(s)
    ensures UniqueIds(Added(s, asset))
  {
  }

  /** Adding an asset whose id is already present, whatever its other
      fields, changes nothing: a second add of the same id is a no-op. */
  lemma AddedIdempotent(s: seq<Asset>, a: Asset, b: Asset)
    requires a.id == b.id
    ensures Added(Added(s, a), b) == Added(s, a)
  {
  }

  // ---------------------------------------------------------------------------
  // A series of addAsset calls from the empty list

  /** The list after `addAsset(xs[0])`, ..., `addAsset(xs[|xs| - 1])`
      starting from the empty portfolio. */
  function AddAll(xs: seq<Asset>): seq<Asset>
  {
    if xs == [] then [] else Added(AddAll(xs[..|xs| - 1]), xs[|xs| - 1])
  }

  /** `xs[k]` is the first entry of `xs` with its id. */
  ghost predicate FirstWithId(xs: seq<Asset>, k: int)
  {
    0 <= k < |xs| && forall m :: 0 <= m < k ==> xs[m].id != xs[k].id
  }

  /** `x` is the first entry of `xs` with its id. */
  ghost predicate FirstOffer(xs: seq<Asset>, x: Asset)
  {
    exists k :: FirstWithId(xs, k) && xs[k] == x
  }

  /** After any series of adds no two entries share an id. */
  lemma {:induction false} AddAllUnique(xs: seq<Asset>)
    ensures UniqueIds(AddAll(xs))
  {
    if xs != [] {
      AddAllUnique(xs[..|xs| - 1]);
      AddedKeepsUnique(AddAll(xs[..|xs| - 1]), xs[|xs| - 1]);
    }
  }

  /** After any series of adds every id offered is in the list. */
  lemma {:induction false} AddAllCovers(xs: seq<Asset>)
    ensures forall k :: 0 <= k < |xs| ==> HasId(AddAll(xs), xs[k].id)
  {
    if xs != [] {
      var p, x := xs[..|xs| - 1], xs[|xs| - 1];
      var q := AddAll(p);
      AddAllCovers(p);
      var r := AddAll(xs);
      forall k | 0 <= k < |xs| - 1 ensures HasId(r, xs[k].id) {
        assert xs[k] == p[k];
        var i :| 0 <= i < |q| && q[i].id == xs[k].id;
        assert r[i] == q[i];
      }
    }
  }

  /** After any series of adds every entry is the first one offered with
      its id: a later add with the same id never overwrites it. */
  lemma {:induction false} AddAllFirst(xs: seq<Asset>)
    ensures forall i :: 0 <= i < |AddAll(xs)| ==> FirstOffer(xs, AddAll(xs)[i])
  {
    if xs != [] {
      var p := xs[..|xs| - 1];
      AddAllFirst(p);
      forall i | 0 <= i < |AddAll(xs)| ensures FirstOffer(xs, AddAll(xs)[i]) {
        if i < |AddAll(p)| {
          var k :| FirstWithId(p, k) && p[k] == AddAll(p)[i];
          KeptFirst(xs, i, k);
        } else {
          FirstOfNew(xs);
          assert FirstWithId(xs, |xs| - 1) && xs[|xs| - 1] == AddAll(xs)[i];
        }
      }
    }
  }

  /** An entry kept through the last add of a series was the first offer of
      its id in the shorter series, so it is also the first in the longer. */
  lemma KeptFirst(xs: seq<Asset>, i: nat, k: int)
    requires xs != [] && i < |AddAll(xs[..|xs| - 1])|
    requires FirstWithId(xs[..|xs| - 1], k) && xs[..|xs| - 1][k] == AddAll(xs[..|xs| - 1])[i]
    ensures FirstWithId(xs, k) && xs[k] == AddAll(xs)[i]
  {
    FirstInLonger(xs, k);
  }

  /** The first entry with its id in a prefix is the first one in the whole. */
  lemma FirstInLonger(xs: seq<Asset>, k: int)
    requires xs != [] && FirstWithId(xs[..|xs| - 1], k)
    ensures FirstWithId(xs, k) && xs[k] == xs[..|xs| - 1][k]
  {
    var p := xs[..|xs| - 1];
    assert forall m :: 0 <= m <= k ==> xs[m] == p[m];
  }

  /** The entry a series of adds appends last is the first with its id. */
  lemma FirstOfNew(xs: seq<Asset>)
    requires xs != []
    requires |AddAll(xs)| > |AddAll(xs[..|xs| - 1])|
    ensures |AddAll(xs)| == |AddAll(xs[..|xs| - 1])| + 1
    ensures AddAll(xs)[|AddAll(xs)| - 1] == xs[|xs| - 1]
    ensures FirstWithId(xs, |xs| - 1)
  {
    var p, x := xs[..|xs| - 1], xs[|xs| - 1];
    var q := AddAll(p);
    assert !HasId(q, x.id);
    AddAllCovers(p);
    forall m | 0 <= m < |xs| - 1 ensures xs[m].id != x.id {
      assert xs[m] == p[m];
    }
  }

  /** A series of adds keeps the entries it accepts in the order offered. */
  lemma {:induction false} AddAllInOrder(xs: seq<Asset>)
    ensures SubseqOf(AddAll(xs), xs)
  {
    if xs != [] {
      var p, x := xs[..|xs| - 1], xs[|xs| - 1];
      var q := AddAll(p);
      AddAllInOrder(p);
      var r := AddAll(xs);
      assert xs[..|xs| - 1] == p;
      if HasId(q, x.id) {
        assert r == q;
      } else {
        assert r[..|r| - 1] == q && r[|r| - 1] == x;
      }
    }
  }

  /** First-insertion order, defined directly on the offers: scanning `xs`
      from the left, keep each entry that is the first with its id. */
  ghost function FirstOffers(xs: seq<Asset>): seq<Asset>
  {
    if xs == [] then []
    else
      FirstOffers(xs[..|xs| - 1])
      + (if FirstWithId(xs, |xs| - 1) then [xs[|xs| - 1]] else [])
  }

  /** The last offer of a series is the first with its id exactly when the
      adds before it have not put that id into the list. */
  lemma NewIdIsFirst(xs: seq<Asset>)
    requires xs != []
    ensures FirstWithId(xs, |xs| - 1) <==> !HasId(AddAll(xs[..|xs| - 1]), xs[|xs| - 1].id)
  {
    var p, x := xs[..|xs| - 1], xs[|xs| - 1];
    var q := AddAll(p);
    if HasId(q, x.id) {
      var i :| 0 <= i < |q| && q[i].id == x.id;
      AddAllFirst(p);
      var k :| FirstWithId(p, k) && p[k] == q[i];
      assert xs[k] == p[k] && k < |xs| - 1;
    } else {
      AddAllCovers(p);
      forall m | 0 <= m < |xs| - 1 ensures xs[m].id != x.id {
        assert xs[m] == p[m];
      }
    }
  }

  /** A series of adds from the empty list yields exactly the first offer
      of each id, in the order offered. */
  lemma {:induction false} AddAllIsFirstOffers(xs: seq<Asset>)
    ensures AddAll(xs) == FirstOffers(xs)
  {
    if xs != [] {
      var p, x := xs[..|xs| - 1], xs[|xs| - 1];
      var q := AddAll(p);
      AddAllIsFirstOffers(p);
      NewIdIsFirst(xs);
      if HasId(q, x.id) {
        assert FirstOffers(xs) == q + [];
      } else {
        assert AddAll(xs) == q + [x];
      }
    }
  }

  // ---------------------------------------------------------------------------
  // editAsset

  /** `assets.map(a => a.id === asset.id ? asset : a)`: every entry with the
      given id becomes `asset`, every other entry stays, and positions and
      length are kept. */
  function Edited(s: seq<Asset>, asset: Asset): (r: seq<Asset>)
    ensures |r| == |s|
    ensures forall i :: 0 <= i < |s| ==>
              r[i] == (if s[i].id == asset.id then asset else s[i])
  {
    if s == [] then []
    else
      var last := s[|s| - 1];
      Edited(s[..|s| - 1], asset) + [if last.id == asset.id then asset else last]
  }

  /** Editing an id that is not in the list leaves it unchanged. */
  lemma EditedMissing(s: seq<Asset>, asset: Asset)
    requires !HasId(s, asset.id)
    ensures Edited(s, asset) == s
  {
  }

  /** With unique ids the edit changes exactly the one entry with the id. */
  lemma EditedSingle(s: seq<Asset>, asset: Asset, k: nat)
    requires UniqueIds(s) && k < |s| && s[k].id == asset.id
    ensures Edited(s, asset) == s[k := asset]
  {
    assert forall i :: 0 <= i < |s| && i != k ==> s[i].id != asset.id;
  }

  /** Applying the same edit twice equals applying it once. */
  lemma EditedIdempotent(s: seq<Asset>, asset: Asset)
    ensures Edited(Edited(s, asset), asset) == Edited(s, asset)
  {
  }

  /** An edit keeps every entry's id, so it keeps the ids unique. */
  lemma EditedKeepsUnique(s: seq<Asset>, asset: Asset)
    requires UniqueIds(s)
    ensures UniqueIds(Edited(s, asset))
  {
  }

  // ---------------------------------------------------------------------------
  // removeAsset

  /** `assets.filter(a => a.id !== id)`: no entry keeps the id, and the
      entries kept are a subsequence of the old list (old relative order). */
  function Removed(s: seq<Asset>, id: string): (r: seq<Asset>)
    ensures |r| <= |s|
    ensures forall i :: 0 <= i < |r| ==> r[i].id != id
    ensures SubseqOf(r, s)
  {
    if s == [] then []
    else
      var init, last := s[..|s| - 1], s[|s| - 1];
      var rest := Removed(init, id);
      if last.id == id then rest
      else
        assert (rest + [last])[..|rest|] == rest;
        rest + [last]
  }

  /** A remove keeps every entry with another id as often as it occurred
      and drops every entry with the id. */
  lemma {:induction false} RemovedCounts(s: seq<Asset>, id: string, x: Asset)
    ensures multiset(Removed(s, id))[x] == if x.id == id then 0 else multiset(s)[x]
  {
    if s != [] {
      var init, last := s[..|s| - 1], s[|s| - 1];
      assert s == init + [last];
      RemovedCounts(init, id, x);
      if x.id == id {
        assert x !in Removed(s, id);
      }
    }
  }

  /** No entry of the result carries the removed id. */
  lemma RemovedHasNoId(s: seq<Asset>, id: string)
    ensures !HasId(Removed(s, id), id)
  {
  }

  /** Membership after a remove: exactly the old entries with other ids. */
  lemma RemovedMembers(s: seq<Asset>, id: string, x: Asset)
    ensures x in Removed(s, id) <==> x in s && x.id != id
  {
  }

  /** Removing an id that is not in the list leaves it unchanged. */
  lemma {:induction false} RemovedMissing(s: seq<Asset>, id: string)
    requires !HasId(s, id)
    ensures Removed(s, id) == s
  {
    if s != [] {
      var init := s[..|s| - 1];
      RemovedMissing(init, id);
      assert s[|s| - 1].id != id;
      assert s == init + [s[|s| - 1]];
    }
  }

  /** With unique ids a remove takes out exactly the one entry with the id. */
  lemma {:induction false} RemovedSingle(s: seq<Asset>, k: nat)
    requires UniqueIds(s) && k < |s|
    ensures Removed(s, s[k].id) == Without(s, k)
  {
    var init, last, id := s[..|s| - 1], s[|s| - 1], s[k].id;
    UniqueInit(s, k);
    if k == |s| - 1 {
      RemovedMissing(init, id);
    } else {
      RemovedSingle(init, k);
    }
    WithoutSplit(s, k);
  }

  /** Taking out entry `k` of a list, split at its last entry. */
  lemma WithoutSplit<T>(s: seq<T>, k: nat)
    requires k < |s|
    ensures k == |s| - 1 ==> Without(s, k) == s[..|s| - 1]
    ensures k < |s| - 1 ==> Without(s, k) == Without(s[..|s| - 1], k) + [s[|s| - 1]]
  {
    if k < |s| - 1 {
      assert Without(s[..|s| - 1], k) + [s[|s| - 1]] == s[..k] + s[k + 1..];
    }
  }

  /** Dropping the last entry of a list with unique ids: the rest has unique
      ids, and the id of the last entry does not occur in it. */
  lemma UniqueInit(s: seq<Asset>, k: nat)
    requires UniqueIds(s) && k < |s|
    ensures UniqueIds(s[..|s| - 1])
    ensures k == |s| - 1 ==> !HasId(s[..|s| - 1], s[k].id)
    ensures k < |s| - 1 ==> s[|s| - 1].id != s[k].id && s[..|s| - 1][k] == s[k]
  {
    var init := s[..|s| - 1];
    assert forall m :: 0 <= m < |init| ==> init[m] == s[m];
  }

  /** Removing the id every entry carries empties the list. */
  lemma RemovedAll(s: seq<Asset>, id: string)
    requires forall i :: 0 <= i < |s| ==> s[i].id == id
    ensures Removed(s, id) == []
  {
  }

  /** Removing twice equals removing once. */
  lemma RemovedIdempotent(s: seq<Asset>, id: string)
    ensures Removed(Removed(s, id), id) == Removed(s, id)
  {
    RemovedHasNoId(s, id);
    RemovedMissing(Removed(s, id), id);
  }

  /** A subsequence of a list with unique ids has unique ids. */
  lemma {:induction false} SubseqKeepsUnique(r: seq<Asset>, s: seq<Asset>)
    requires SubseqOf(r, s) && UniqueIds(s)
    ensures UniqueIds(r)
    decreases |s|
  {
    if r != [] {
      var s' := s[..|s| - 1];
      assert UniqueIds(s');
      if r[|r| - 1] == s[|s| - 1] && SubseqOf(r[..|r| - 1], s') {
        var r' := r[..|r| - 1];
        SubseqKeepsUnique(r', s');
        forall i | 0 <= i < |r'| ensures r'[i].id != r[|r| - 1].id {
          SubseqMember(r', s', i);
          var k :| 0 <= k < |s'| && s'[k] == r'[i];
          assert s[k] == r'[i];
        }
        assert r == r' + [r[|r| - 1]];
      } else {
        SubseqKeepsUnique(r, s');
      }
    }
  }

  /** Every entry of a subsequence is an entry of the whole. */
  lemma {:induction false} SubseqMember(r: seq<Asset>, s: seq<Asset>, i: int)
    requires SubseqOf(r, s) && 0 <= i < |r|
    ensures exists k :: 0 <= k < |s| && s[k] == r[i]
    decreases |s|
  {
    var s' := s[..|s| - 1];
    if r[|r| - 1] == s[|s| - 1] && SubseqOf(r[..|r| - 1], s') {
      if i < |r| - 1 {
        SubseqMember(r[..|r| - 1], s', i);
        var k :| 0 <= k < |s'| && s'[k] == r[..|r| - 1][i];
        assert s[k] == r[i];
      } else {
        assert s[|s| - 1] == r[i];
      }
    } else {
      SubseqMember(r, s', i);
      var k :| 0 <= k < |s'| && s'[k] == r[i];
      assert s[k] == r[i];
    }
  }

  /** A remove only drops entries, so it keeps the ids unique. */
  lemma RemovedKeepsUnique(s: seq<Asset>, id: string)
    requires UniqueIds(s)
    ensures UniqueIds(Removed(s, id))
  {
    SubseqKeepsUnique(Removed(s, id), s);
  }

  // ---------------------------------------------------------------------------
  // reorderAssets

  /** The list `splice(i, 1)` leaves: entry `i` taken out. */
  function Without<T>(s: seq<T>, i: nat): (r: seq<T>)
    requires i < |s|
    ensures |r| == |s| - 1
    ensures forall k :: 0 <= k < |r| ==> r[k] == if k < i then s[k] else s[k + 1]
  {
    s[..i] + s[i + 1..]
  }

  /** `splice(i, 1)` loses one occurrence of the entry at `i`. */
  lemma WithoutCounts<T>(s: seq<T>, i: nat)
    requires i < |s|
    ensures multiset(Without(s, i)) == multiset(s) - multiset{s[i]}
  {
    assert s == s[..i] + [s[i]] + s[i + 1..];
  }

  /** The list `splice(i, 0, x)` leaves: `x` inserted so that it sits at `i`. */
  function Inserted<T>(s: seq<T>, i: nat, x: T): (r: seq<T>)
    requires i <= |s|
    ensures |r| == |s| + 1
    ensures forall k :: 0 <= k < |r| ==>
              r[k] == if k < i then s[k] else if k == i then x else s[k - 1]
  {
    s[..i] + [x] + s[i..]
  }

  /** `splice(i, 0, x)` gains one occurrence of `x`. */
  lemma InsertedCounts<T>(s: seq<T>, i: nat, x: T)
    requires i <= |s|
    ensures multiset(Inserted(s, i, x)) == multiset(s) + multiset{x}
  {
    assert s == s[..i] + s[i..];
  }

  /** Taking out what was just inserted at the same place gives the list back. */
  lemma WithoutInserted<T>(s: seq<T>, i: nat, x: T)
    requires i <= |s|
    ensures Without(Inserted(s, i, x), i) == s
  {
  }

  /** Re-inserting an entry where it was taken from gives the list back. */
  lemma InsertedWithout<T>(s: seq<T>, i: nat)
    requires i < |s|
    ensures Inserted(Without(s, i), i, s[i]) == s
  {
  }

  /** `reorderAssets(from, to)`: the entry at `from` is taken out and put
      back so that it sits at `to`; the result is a permutation of the old
      list of the same length. */
  function Reordered<T>(s: seq<T>, from: nat, to: nat): (r: seq<T>)
    requires from < |s| && to < |s|
    ensures |r| == |s| && r[to] == s[from]
    ensures multiset(r) == multiset(s)
  {
    WithoutCounts(s, from);
    InsertedCounts(Without(s, from), to, s[from]);
    assert s[from] in multiset(s);
    Inserted(Without(s, from), to, s[from])
  }

  /** Where every other entry goes under a reorder: entries outside the span
      between `from` and `to` stay put, entries inside it shift by one place
      towards `from`. */
  lemma ReorderedShifts<T>(s: seq<T>, from: nat, to: nat, k: nat)
    requires from < |s| && to < |s| && k < |s| && k != to
    ensures k < from && k < to ==> Reordered(s, from, to)[k] == s[k]
    ensures from < k && to < k ==> Reordered(s, from, to)[k] == s[k]
    ensures from <= k < to ==> Reordered(s, from, to)[k] == s[k + 1]
    ensures to < k <= from ==> Reordered(s, from, to)[k] == s[k - 1]
  {
    var w := Without(s, from);
    var r := Inserted(w, to, s[from]);
    assert r == Reordered(s, from, to);
    if k < to {
      assert r[k] == w[k];
      if k < from { assert w[k] == s[k]; } else { assert w[k] == s[k + 1]; }
    } else {
      assert r[k] == w[k - 1];
      if k - 1 < from { assert w[k - 1] == s[k - 1]; } else { assert w[k - 1] == s[k]; }
    }
  }

  /** Moving an entry back where it came from restores the list. */
  lemma ReorderedInverse<T>(s: seq<T>, i: nat, j: nat)
    requires i < |s| && j < |s|
    ensures Reordered(Reordered(s, i, j), j, i) == s
  {
    var w := Without(s, i);
    var t := Inserted(w, j, s[i]);
    assert t == Reordered(s, i, j);
    WithoutInserted(w, j, s[i]);
    InsertedWithout(s, i);
  }

  /** Taking an entry out keeps the ids unique, and the remaining entries
      all have ids other than the one taken out. */
  lemma WithoutKeepsUnique(s: seq<Asset>, i: nat)
    requires i < |s| && UniqueIds(s)
    ensures UniqueIds(Without(s, i))
    ensures forall k :: 0 <= k < |s| - 1 ==> Without(s, i)[k].id != s[i].id
  {
    var w := Without(s, i);
    forall a, b | 0 <= a < b < |w| ensures w[a].id != w[b].id {
      var a', b' := if a < i then a else a + 1, if b < i then b else b + 1;
      assert w[a] == s[a'] && w[b] == s[b'] && a' < b';
    }
    forall k | 0 <= k < |w| ensures w[k].id != s[i].id {
      var k' := if k < i then k else k + 1;
      assert w[k] == s[k'] && k' != i;
    }
  }

  /** Inserting an entry whose id is absent keeps the ids unique. */
  lemma InsertedKeepsUnique(s: seq<Asset>, i: nat, x: Asset)
    requires i <= |s| && UniqueIds(s)
    requires forall k :: 0 <= k < |s| ==> s[k].id != x.id
    ensures UniqueIds(Inserted(s, i, x))
  {
    var r := Inserted(s, i, x);
    forall a, b | 0 <= a < b < |r| ensures r[a].id != r[b].id {
      if a == i {
        assert r[a] == x && r[b] == s[b - 1];
      } else if b == i {
        assert r[a] == s[a] && r[b] == x;
      } else {
        var a', b' := if a < i then a else a - 1, if b < i then b else b - 1;
        assert r[a] == s[a'] && r[b] == s[b'] && a' < b';
      }
    }
  }

  /** A reorder only moves entries, so it keeps the ids unique. */
  lemma ReorderedKeepsUnique(s: seq<Asset>, from: nat, to: nat)
    requires from < |s| && to < |s| && UniqueIds(s)
    ensures UniqueIds(Reordered(s, from, to))
  {
    WithoutKeepsUnique(s, from);
    InsertedKeepsUnique(Without(s, from), to, s[from]);
  }
}
