/** The favourites list: `toggleFavorite` and `isFavorite`. Items are keyed
    by an optional `path` (explorer entries) or an optional `id`; a missing
    key is JavaScript's `undefined`, and strict equality makes two missing
    keys equal, which `Option` equality reproduces. */
module Favorites {
  import opened Wrappers
  import opened Seqs

  /** A favourite as stored; `details` stands for the remaining fields. */
  datatype Item = Item(path: Option<string>, id: Option<string>, details: string)

  /** The existence test of `toggleFavorite`: equal `path` or equal `id`,
      with no guard against both being missing. */
  predicate SharesKey(f: Item, item: Item) {
    f.path == item.path || f.id == item.id
  }

  /** The filter of the removal branch: `f` stays when it has a defined
      `path` other than the item's, or a defined `id` other than the item's. */
  predicate Kept(f: Item, item: Item) {
    (f.path != item.path && f.path.Some?) || (f.id != item.id && f.id.Some?)
  }

  function KeptBy(item: Item): Item -> bool {
    f => Kept(f, item)
  }

  /** The test of `isFavorite`: a defined key the favourite shares. */
  predicate Matches(f: Item, item: Item) {
    (f.path == item.path && item.path.Some?) || (f.id == item.id && item.id.Some?)
  }

  function Unmatched(item: Item): Item -> bool {
    f => !Matches(f, item)
  }

  /** `favorites.find(...)`: the first favourite sharing a key. */
  function Find(favorites: seq<Item>, item: Item): (r: Option<Item>)
    ensures r.Some? <==> exists i :: 0 <= i < |favorites| && SharesKey(favorites[i], item)
    ensures r.Some? ==>
      exists i :: 0 <= i < |favorites| && favorites[i] == r.value && SharesKey(r.value, item)
        && forall j :: 0 <= j < i ==> !SharesKey(favorites[j], item)
    decreases |favorites|
  {
    if favorites == [] then None
    else if SharesKey(favorites[0], item) then Some(favorites[0])
    else
      var r := Find(favorites[1..], item);
      assert forall j :: 1 <= j < |favorites| ==> favorites[j] == favorites[1..][j - 1];
      r
  }

  /** `isFavorite(item)`: `favorites.some(...)`. */
  function IsFavorite(favorites: seq<Item>, item: Item): (r: bool)
    ensures r <==> exists i :: 0 <= i < |favorites| && Matches(favorites[i], item)
    ensures r ==> item.path.Some? || item.id.Some?
    decreases |favorites|
  {
    if favorites == [] then false
    else if Matches(favorites[0], item) then true
    else
      assert forall j :: 1 <= j < |favorites| ==> favorites[j] == favorites[1..][j - 1];
      IsFavorite(favorites[1..], item)
  }

  /** The list `toggleFavorite(item)` computes: the filtered list when a
      favourite shares a key, otherwise the item appended. */
  function Toggled(favorites: seq<Item>, item: Item): (r: seq<Item>)
    ensures Find(favorites, item).None? ==> r == favorites + [item]
    ensures Find(favorites, item).Some? ==>
      && IsSubsequence(r, favorites)
      && (forall i :: 0 <= i < |r| ==> Kept(r[i], item))
      && (forall i :: 0 <= i < |favorites| && Kept(favorites[i], item) ==> favorites[i] in r)
  {
    if Find(favorites, item).Some? then Filter(favorites, KeptBy(item)) else favorites + [item]
  }

  // ---------------------------------------------------------------------
  // Properties of the toggle as written
  // ---------------------------------------------------------------------

  /** Appending a keyed item that shares no key makes it a favourite. */
  lemma ToggleAddsFavorite(favorites: seq<Item>, item: Item)
    requires Find(favorites, item).None?
    requires item.path.Some? || item.id.Some?
    ensures IsFavorite(Toggled(favorites, item), item)
  {
    var r := Toggled(favorites, item);
    assert r[|favorites|] == item && Matches(item, item);
  }

  /** The removal branch never adds: what remains is a sub-multiset of the
      old list. */
  lemma ToggleRemovalShrinks(favorites: seq<Item>, item: Item)
    requires Find(favorites, item).Some?
    ensures multiset(Toggled(favorites, item)) <= multiset(favorites)
  {
    FilterMultiplicity(favorites, KeptBy(item));
  }

  /** An item is one-keyed when exactly one of `path` and `id` is defined. */
  predicate OneKeyed(f: Item) {
    f.path.Some? != f.id.Some?
  }

  /** Among one-keyed items the removal filter drops exactly the favourites
      `isFavorite` would match. */
  lemma {:induction false} OneKeyedRemoval(favorites: seq<Item>, item: Item)
    requires OneKeyed(item)
    requires forall i :: 0 <= i < |favorites| ==> OneKeyed(favorites[i])
    requires Find(favorites, item).Some?
    ensures Toggled(favorites, item) == Filter(favorites, Unmatched(item))
    ensures !IsFavorite(Toggled(favorites, item), item)
  {
    forall i | 0 <= i < |favorites|
      ensures KeptBy(item)(favorites[i]) == Unmatched(item)(favorites[i])
    {
      assert OneKeyed(favorites[i]);
    }
    FilterCongruent(favorites, KeptBy(item), Unmatched(item));
  }

  /** Toggling an item that shares no key, then toggling it again, restores
      the list, provided every favourite has some key. */
  lemma ToggleTwiceRestores(favorites: seq<Item>, item: Item)
    requires Find(favorites, item).None?
    requires forall i :: 0 <= i < |favorites| ==> favorites[i].path.Some? || favorites[i].id.Some?
    ensures Toggled(Toggled(favorites, item), item) == favorites
  {
    var once := favorites + [item];
    assert once[|favorites|] == item;
    assert Find(once, item).Some?;
    FilterSnoc(favorites, item, KeptBy(item));
    assert forall i :: 0 <= i < |favorites| ==> !SharesKey(favorites[i], item);
    FilterAll(favorites, KeptBy(item));
  }

  /** Without the guard, a favourite stored by `path` alone shares the
      missing `id` of every other path-only item, so a second path-only
      item is never added: the toggle leaves the list as it was. */
  lemma SecondPathFavoriteIgnored()
    ensures var a := Item(Some("/a"), None, "a");
            var b := Item(Some("/b"), None, "b");
            Toggled([a], b) == [a] && !IsFavorite(Toggled([a], b), b)
  {
    var a := Item(Some("/a"), None, "a");
    var b := Item(Some("/b"), None, "b");
    assert SharesKey(a, b);
    assert Find([a], b).Some?;
    assert Filter([a], KeptBy(b)) == [a] + Filter([a][1..], KeptBy(b));
    assert !Matches(a, b);
  }

  // ---------------------------------------------------------------------
  // The toggle with the guard `isFavorite` uses
  // ---------------------------------------------------------------------

  /** The toggle with the existence test and the removal filter guarded as
      in `isFavorite`. */
  function GuardedToggled(favorites: seq<Item>, item: Item): (r: seq<Item>)
    ensures item.path.Some? || item.id.Some? ==>
      (IsFavorite(r, item) <==> !IsFavorite(favorites, item))
    ensures IsFavorite(favorites, item) ==> IsSubsequence(r, favorites)
  {
    if IsFavorite(favorites, item) then
      var r := Filter(favorites, Unmatched(item));
      assert forall i :: 0 <= i < |r| ==> !Matches(r[i], item);
      r
    else
      var r := favorites + [item];
      assert r[|favorites|] == item;
      r
  }

  /** With the guard, toggling a keyed non-favourite twice restores the
      list, whatever the other favourites hold. */
  lemma GuardedToggleTwiceRestores(favorites: seq<Item>, item: Item)
    requires item.path.Some? || item.id.Some?
    requires !IsFavorite(favorites, item)
    ensures GuardedToggled(GuardedToggled(favorites, item), item) == favorites
  {
    FilterSnoc(favorites, item, Unmatched(item));
    FilterAll(favorites, Unmatched(item));
  }

  // ---------------------------------------------------------------------
  // The provider state
  // ---------------------------------------------------------------------

  class FavoritesProvider {
    /** The `favorites` state. */
    var favorites: seq<Item>
    /** The value last written under `user-favorites`, if any. */
    var stored: Option<seq<Item>>

    constructor (saved: Option<seq<Item>>)
      ensures favorites == [] && stored == saved
    {
      favorites := [];
      stored := saved;
    }

    /** `loadFavorites`: adopts the saved list when there is one. `readOk`
        is whether `getItem` succeeds; a failed read is logged and changes
        nothing. */
    method LoadFavorites(readOk: bool)
      modifies this
      ensures stored == old(stored)
      ensures readOk && stored.Some? ==> favorites == stored.value
      ensures !readOk || stored.None? ==> favorites == old(favorites)
    {
      if !readOk {
        return;
      }
      if stored.Some? {
        favorites := stored.value;
      }
    }

    /** `toggleFavorite(item)`; `writeOk` is whether `setItem` succeeds. The
        state is set before the write, so a failed write keeps it. */
    method ToggleFavorite(item: Item, writeOk: bool)
      modifies this
      ensures favorites == Toggled(old(favorites), item)
      ensures writeOk ==> stored == Some(favorites)
      ensures !writeOk ==> stored == old(stored)
    {
      var newFavorites: seq<Item>;
      var isExist := Find(favorites, item);
      if isExist.Some? {
        newFavorites := Filter(favorites, KeptBy(item));
      } else {
        newFavorites := favorites + [item];
      }
      favorites := newFavorites;
      if writeOk {
        stored := Some(newFavorites);
      }
    }
  }
}
