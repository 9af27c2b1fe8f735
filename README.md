# Portfolio store of crypto-portfolio, modelled in Dafny

The portfolio tracker keeps the user's holdings in one store. The store holds an
ordered list of `Asset` records. Each record has four string fields: `id` (the
market-data coin id, used as the key), `name`, `symbol` and `quantity`. The
store has four operations. Edit, remove and reorder each install a new list.
Add installs a longer list, or returns the state itself when the id is present:

- `addAsset` appends the asset. If an entry with the same id is already there, it does nothing.
- `editAsset` replaces every entry with the asset's id by the asset. Positions stay the same.
- `removeAsset` keeps only the entries with a different id.
- `reorderAssets(from, to)` copies the list, cuts out the entry at `from` and inserts it at `to`.

The model has two modules:

- `AssetList` (`assets.dfy`) holds the `Asset` datatype and the pure transitions.
  `ContainsId` is the `some` test, `Added` is addAsset, `Edited` is the `map`,
  `Removed` is the `filter`, and `Without`/`Inserted`/`Reordered` are the two
  `splice` calls. It also holds reference definitions (`HasId`, `UniqueIds`,
  `SubseqOf`) and the lemmas that tie the transitions to them.
- `Store` (`store.dfy`) holds the class `PortfolioStore`. Its `assets: seq<Asset>`
  field is replaced by each method. `Valid()` is the invariant that ids are unique,
  and every method keeps it. `ReorderedCopy` is the body of `reorderAssets`. It
  copies the list into a fresh array and changes that copy in place with
  `SpliceOut` and `SpliceIn`. `ReorderAssets` then puts the copy in place of the
  field, so the old list value is never changed. The splice functions and
  methods are generic in the element type.
  `AddTwiceScenario` and `EditRemoveScenario` are client methods. They add bitcoin
  twice, edit its quantity and then remove it.

Two points about the code that the model follows:

- The code does not check reorder indices. The model makes valid indices a precondition.
- The code's `map` replaces every entry with the id. Under the uniqueness invariant
  that is exactly one entry when the id is present (`EditedSingle`), and a remove
  then takes out exactly that entry (`RemovedSingle`).

## Model

| member | source | states |
|---|---|---|
| AssetList.ContainsId | src/app/store.ts:26 | the `some` test is true exactly when some entry has the id |
| AssetList.Added | src/app/store.ts:24-32 | if the id is present, the list is returned unchanged (the stored quantity is not overwritten); otherwise the length grows by one, the old list is a prefix, and the last entry is the new asset; either way the id is present afterwards |
| AssetList.AddedKeepsUnique | src/app/store.ts:26-31 | add keeps ids unique |
| AssetList.AddedIdempotent | src/app/store.ts:26-28 | a second add with the same id, whatever its other fields, changes nothing |
| AssetList.AddAllUnique | src/app/store.ts:24-32 | after any series of adds starting from the empty list, no two entries share an id |
| AssetList.AddAllCovers | src/app/store.ts:24-32 | after any series of adds, every id that was offered is in the list |
| AssetList.AddAllFirst | src/app/store.ts:26-28 | after any series of adds, every entry is the first asset offered with its id |
| AssetList.KeptFirst | src/app/store.ts:26-28 | the induction step: an entry kept through the last add was the first offer of its id in the shorter series, so it is also the first in the longer one |
| AssetList.FirstOfNew | src/app/store.ts:29-31 | when an add grows the list, the appended entry is the first offer of its id |
| AssetList.AddAllInOrder | src/app/store.ts:29-31 | the accepted entries form a subsequence of the offers: they appear in the order offered |
| AssetList.NewIdIsFirst | src/app/store.ts:26-31 | the last offer is the first with its id exactly when the earlier adds have not put that id in the list |
| AssetList.AddAllIsFirstOffers | src/app/store.ts:24-32 | any series of adds from the empty list yields exactly the first offer of each id, in the order offered (first-insertion order), as defined directly on the offers by `FirstOffers` |
| AssetList.Edited | src/app/store.ts:33-36 | length and positions are kept; each entry with the id becomes the asset, and every other entry is unchanged |
| AssetList.EditedSingle | src/app/store.ts:35 | with unique ids, when entry `k` has the id, the edit is exactly `s[k := asset]` |
| AssetList.EditedMissing | src/app/store.ts:35 | editing an id that is absent leaves the list unchanged |
| AssetList.EditedIdempotent | src/app/store.ts:33-36 | applying the same edit twice equals applying it once |
| AssetList.EditedKeepsUnique | src/app/store.ts:35 | edit keeps ids unique |
| AssetList.Removed | src/app/store.ts:37-40 | no entry of the result has the id; the result is a subsequence of the old list (relative order kept) and no longer than it |
| AssetList.RemovedCounts | src/app/store.ts:39 | each entry with another id occurs as often as before; entries with the id occur zero times |
| AssetList.RemovedHasNoId | src/app/store.ts:39 | after a remove, the id is absent |
| AssetList.RemovedMembers | src/app/store.ts:39 | something is in the result exactly when it was in the old list and has another id |
| AssetList.RemovedMissing | src/app/store.ts:39 | removing an id that is absent leaves the list unchanged |
| AssetList.RemovedSingle | src/app/store.ts:39 | with unique ids, removing the id of entry `k` is exactly taking out entry `k` |
| AssetList.RemovedAll | src/app/store.ts:39 | removing the id that every entry carries empties the list |
| AssetList.RemovedIdempotent | src/app/store.ts:37-40 | removing twice equals removing once |
| AssetList.RemovedKeepsUnique | src/app/store.ts:39 | remove keeps ids unique |
| AssetList.Without | src/app/store.ts:44 | `splice(i, 1)` leaves one entry fewer: the entries before `i` stay and the ones after move down one place |
| AssetList.WithoutCounts | src/app/store.ts:44 | `splice(i, 1)` loses exactly one occurrence of `s[i]` |
| AssetList.Inserted | src/app/store.ts:45 | `splice(i, 0, x)` leaves one entry more, with `x` at `i` and the later entries moved up one place |
| AssetList.InsertedCounts | src/app/store.ts:45 | `splice(i, 0, x)` gains exactly one occurrence of `x` |
| AssetList.WithoutInserted | src/app/store.ts:44-45 | removing at `i` what was just inserted at `i` gives the list back |
| AssetList.InsertedWithout | src/app/store.ts:44-45 | inserting at `i` the entry just removed from `i` gives the list back |
| AssetList.Reordered | src/app/store.ts:41-47 | for valid indices the length is kept, the result is a permutation of the old list, and `result[to] == old[from]` |
| AssetList.ReorderedShifts | src/app/store.ts:43-45 | entries outside the span between `from` and `to` stay put; entries inside it shift one place towards `from` |
| AssetList.ReorderedInverse | src/app/store.ts:43-45 | `reorder(i, j)` followed by `reorder(j, i)` restores the original list |
| AssetList.WithoutKeepsUnique | src/app/store.ts:44 | taking an entry out keeps ids unique, and no remaining entry has the id of the entry taken out |
| AssetList.InsertedKeepsUnique | src/app/store.ts:45 | inserting an entry whose id is absent keeps ids unique |
| AssetList.ReorderedKeepsUnique | src/app/store.ts:41-47 | reorder keeps ids unique |
| Store.SpliceOut | src/app/store.ts:44 | the in-place `splice(i, 1)` on an array returns the old `a[i]` and leaves `Without(old list, i)` in the first `len - 1` cells |
| Store.SpliceIn | src/app/store.ts:45 | the in-place `splice(i, 0, x)` on an array leaves `Inserted(old list, i, x)` in the first `len + 1` cells |
| Store.ReorderedCopy | src/app/store.ts:43-46 | copying into a fresh array and splicing that copy twice in place yields exactly `Reordered(s, from, to)`; the list passed in, being a value, is unchanged |
| Store.PortfolioStore.constructor | src/app/store.ts:23 | the store starts with an empty list, which satisfies the uniqueness invariant |
| Store.PortfolioStore.AddAsset | src/app/store.ts:24-32 | the new list is `Added(old list, asset)`, and ids stay unique |
| Store.PortfolioStore.EditAsset | src/app/store.ts:33-36 | the new list is `Edited(old list, asset)`; when entry `k` has the id, it is the old list with only entry `k` replaced; ids stay unique |
| Store.PortfolioStore.RemoveAsset | src/app/store.ts:37-40 | the new list is `Removed(old list, asset.id)`; when entry `k` has the id, it is the old list with only entry `k` taken out; ids stay unique |
| Store.PortfolioStore.ReorderAssets | src/app/store.ts:41-47 | the new list is `Reordered(old list, from, to)`, computed on a copy, and ids stay unique |
| Store.AddTwiceScenario | src/app/store.ts:24-32 | starting empty, adding bitcoin with quantity "1.5" and then with quantity "2" leaves one entry with quantity "1.5" |
| Store.EditRemoveScenario | src/app/store.ts:33-40 | continuing from there, editing the quantity to "2" leaves one entry with quantity "2", and removing bitcoin then empties the store |

## Left out

- Persistence: the `persist` middleware (a `localStorage` write of JSON under the name `portfolio-storage`) and restoring state at start-up. They are library code whose behaviour is not visible, so the model claims no persistence round trip.
- The `devtools` middleware and subscriber notification. These are library plumbing with no effect on the list.
- Store.PortfolioStore.ReorderAssets: requires `0 <= fromIndex < |assets|` and `0 <= toIndex < |assets|`. The source passes any number to `splice`, and JavaScript gives out-of-range and negative indices its own meaning (counting from the end, inserting `undefined`). That is library behaviour, not a promised contract.
- Index types: indices are unbounded naturals. JavaScript numbers (floats) are not modelled.
- The rest of the application is not part of this model: the React pages, form handling and validation, the market-data HTTP queries and their polling, and the floating-point value and currency formatting.
