/**
 * Favorite routes (`saveFav.onclick` and `removeFavorite` in script.js).
 * The stored list is an array of `{f, t}` pairs of place names; saving
 * appends unless a field is empty or the same pair is already stored,
 * removing splices out one in-range index.
 */
module Favorites {

  /** One saved route: the texts of the "From" and "To" inputs. */
  datatype Favorite = Favorite(from: string, to: string)

  /** Which of the three messages the save handler shows. */
  datatype SaveOutcome = MissingField | Duplicate | Added

  /** No pair is stored twice. */
  ghost predicate NoDuplicates(favs: seq<Favorite>) {
    forall i, j :: 0 <= i < j < |favs| ==> favs[i] != favs[j]
  }

  /** The decision of the save handler, before anything is stored. */
  function SaveVerdict(favs: seq<Favorite>, from: string, to: string): (r: SaveOutcome)
    ensures r == MissingField <==> from == [] || to == []
    ensures r == Duplicate <==>
      from != [] && to != [] && exists j :: 0 <= j < |favs| && favs[j].from == from && favs[j].to == to
  {
    if from == [] || to == [] then MissingField
    else if Favorite(from, to) in favs then Duplicate
    else Added
  }

  /** The list after a click on the save button. */
  function Saved(favs: seq<Favorite>, from: string, to: string): (r: seq<Favorite>)
    ensures SaveVerdict(favs, from, to) == Added ==> |r| == |favs| + 1 && r[|favs|] == Favorite(from, to)
    ensures SaveVerdict(favs, from, to) != Added ==> r == favs
    ensures r[..|favs|] == favs
    ensures Favorite(from, to) in r <==> Favorite(from, to) in favs || (from != [] && to != [])
    ensures NoDuplicates(favs) ==> NoDuplicates(r)
  {
    if SaveVerdict(favs, from, to) == Added then favs + [Favorite(from, to)] else favs
  }

  /** The list after `removeFavorite(index)`. */
  function Removed(favs: seq<Favorite>, index: int): (r: seq<Favorite>)
    ensures !(0 <= index < |favs|) ==> r == favs
    ensures 0 <= index < |favs| ==>
      |r| == |favs| - 1 &&
      (forall j :: 0 <= j < index ==> r[j] == favs[j]) &&
      (forall j :: index <= j < |r| ==> r[j] == favs[j + 1])
    ensures 0 <= index < |favs| ==> multiset(r) + multiset{favs[index]} == multiset(favs)
  {
    if 0 <= index < |favs| then
      assert favs == favs[..index] + [favs[index]] + favs[index + 1..];
      favs[..index] + favs[index + 1..]
    else favs
  }

  /** Removing keeps the list free of duplicates. */
  lemma RemovedKeepsNoDuplicates(favs: seq<Favorite>, index: int)
    requires NoDuplicates(favs)
    ensures NoDuplicates(Removed(favs, index))
  {
  }

  /** Saving a pair that is already stored, or saving it twice, changes nothing more. */
  lemma SaveIdempotent(favs: seq<Favorite>, from: string, to: string)
    ensures Saved(Saved(favs, from, to), from, to) == Saved(favs, from, to)
  {
  }

  /** Removing the entry just added restores the list: save and remove are inverse. */
  lemma RemoveUndoesSave(favs: seq<Favorite>, from: string, to: string)
    requires SaveVerdict(favs, from, to) == Added
    ensures Removed(Saved(favs, from, to), |favs|) == favs
  {
  }

  /**
   * The stored favorites. The source re-reads the array from local storage
   * at each click and writes it back after `push` or `splice`; the field
   * stands for that stored array.
   */
  class FavoriteStore {
    var favs: seq<Favorite>

    /** Nothing stored yet: the source reads `'[]'`. */
    constructor ()
      ensures favs == []
    {
      favs := [];
    }

    /** `saveFav.onclick` with the two input texts. */
    method SaveFavorite(from: string, to: string) returns (outcome: SaveOutcome)
      modifies this
      ensures outcome == SaveVerdict(old(favs), from, to)
      ensures favs == Saved(old(favs), from, to)
    {
      if from == [] || to == [] {
        return MissingField;
      }
      if Favorite(from, to) in favs {
        return Duplicate;
      }
      favs := favs + [Favorite(from, to)];
      outcome := Added;
    }

    /** `removeFavorite(index)`; `removed` tells whether the success message is shown. */
    method RemoveFavorite(index: int) returns (removed: bool)
      modifies this
      ensures removed <==> 0 <= index < |old(favs)|
      ensures favs == Removed(old(favs), index)
    {
      removed := 0 <= index < |favs|;
      if removed {
        favs := favs[..index] + favs[index + 1..];
      }
    }
  }
}
