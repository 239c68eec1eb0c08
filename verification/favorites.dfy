/**
  Favourites lists. The archived widget keeps partner names and toggles with
  `indexOf` and `splice`; the v2 widget keeps partner ids as strings and toggles by
  filtering out or appending; v2 also carries a `FavoritesManager` class with
  `add`, `remove`, `toggle` and `isFavorite`. Saving to `localStorage` and the
  re-rendering that follows each change are not part of this model.
 */
module Favorites {
  import opened Seqs

  /** No entry appears twice. */
  predicate NoDup(s: seq<string>) {
    forall i, j :: 0 <= i < j < |s| ==> s[i] != s[j]
  }

  /** `f => f !== id`. */
  function Except(id: string): string -> bool {
    x => x != id
  }

  /** `favorites.indexOf(x)`: the first position holding `x`, or -1. */
  function PositionOf(s: seq<string>, x: string): (r: int)
    ensures r == -1 <==> x !in s
    ensures r != -1 ==> 0 <= r < |s| && s[r] == x && forall j :: 0 <= j < r ==> s[j] != x
  {
    if |s| == 0 then -1
    else if s[0] == x then 0
    else
      var r := PositionOf(s[1..], x);
      if r == -1 then -1 else r + 1
  }

  /** Archived `isFavorite(name)`: `indexOf(name) > -1`. */
  predicate ArchiveIsFavorite(favorites: seq<string>, name: string) {
    PositionOf(favorites, name) > -1
  }

  /** Archived `toggleFavorite(name)`: remove the first copy of the name, or append it. */
  function ArchiveToggle(favorites: seq<string>, name: string): (r: seq<string>)
    ensures name !in favorites ==> r == favorites + [name]
    ensures name in favorites ==> |r| == |favorites| - 1 && multiset(r) == multiset(favorites) - multiset{name}
  {
    var i := PositionOf(favorites, name);
    if i > -1 then
      assert favorites == favorites[..i] + [favorites[i]] + favorites[i + 1..];
      favorites[..i] + favorites[i + 1..]
    else
      favorites + [name]
  }

  /** v2 `toggleFavorite(id)`: drop every copy of the id when present, otherwise append it. */
  function V2Toggle(favorites: seq<string>, id: string): (r: seq<string>)
    ensures id in r <==> id !in favorites
    ensures forall x :: x != id ==> (x in r <==> x in favorites)
  {
    if id in favorites then
      forall x ensures x in Filter(favorites, Except(id)) <==> x in favorites && x != id {
        FilterMembership(favorites, Except(id), x);
      }
      Filter(favorites, Except(id))
    else
      favorites + [id]
  }

  /** `FavoritesManager.add`: append unless already present. */
  function ManagerAdd(favorites: seq<string>, id: string): (r: seq<string>)
    ensures id in r
    ensures forall x :: x != id ==> (x in r <==> x in favorites)
    ensures id in favorites ==> r == favorites
    ensures id !in favorites ==> r == favorites + [id]
  {
    if id !in favorites then favorites + [id] else favorites
  }

  /** `add` never creates a duplicate: a list without repeats keeps none. */
  lemma ManagerAddNoDup(favorites: seq<string>, id: string)
    requires NoDup(favorites)
    ensures NoDup(ManagerAdd(favorites, id))
  {
    var r := ManagerAdd(favorites, id);
    if id !in favorites {
      forall i, j | 0 <= i < j < |r| ensures r[i] != r[j] {
        if j == |favorites| {
          assert r[i] == favorites[i];
        }
      }
    }
  }

  /** `FavoritesManager.remove`: keep every other entry, in order. */
  function ManagerRemove(favorites: seq<string>, id: string): (r: seq<string>)
    ensures id !in r
    ensures forall x :: x != id ==> (x in r <==> x in favorites)
    ensures Subsequence(r, favorites)
  {
    forall x ensures x in Filter(favorites, Except(id)) <==> x in favorites && x != id {
      FilterMembership(favorites, Except(id), x);
    }
    FilterIsSubsequence(favorites, Except(id));
    Filter(favorites, Except(id))
  }

  /** `FavoritesManager.toggle`: remove when it is a favourite, otherwise add. */
  function ManagerToggle(favorites: seq<string>, id: string): (r: seq<string>)
    ensures id in r <==> id !in favorites
  {
    if id in favorites then ManagerRemove(favorites, id) else ManagerAdd(favorites, id)
  }

  /** The manager's toggle and the v2 free function change the list the same way. */
  lemma ManagerToggleIsV2Toggle(favorites: seq<string>, id: string)
    ensures ManagerToggle(favorites, id) == V2Toggle(favorites, id)
  {
  }

  /** A list that leaves an entry out, with the entry removed, is the list itself. */
  lemma RemoveAbsent(favorites: seq<string>, id: string)
    requires id !in favorites
    ensures Filter(favorites, Except(id)) == favorites
  {
    FilterKeepsAll(favorites, Except(id));
  }

  /** Toggling an id on and off again gives the list back. */
  lemma V2ToggleTwice(favorites: seq<string>, id: string)
    requires id !in favorites
    ensures V2Toggle(V2Toggle(favorites, id), id) == favorites
  {
    var added := favorites + [id];
    FilterConcat(favorites, [id], Except(id));
    RemoveAbsent(favorites, id);
    assert Filter([id], Except(id)) == [] by {
      FilterNone([id], Except(id));
    }
  }

  /** Taking entries out of a list without repeats leaves a list without repeats. */
  lemma NoDupSubsequence(r: seq<string>, s: seq<string>)
    requires NoDup(s) && Subsequence(r, s)
    ensures NoDup(r)
  {
    var idx :| Embeds(idx, r, s);
    forall i, j | 0 <= i < j < |r| ensures r[i] != r[j] {
      assert idx[i] < idx[j];
    }
  }

  /** v2 toggling never creates a repeat. */
  lemma V2ToggleNoDup(favorites: seq<string>, id: string)
    requires NoDup(favorites)
    ensures NoDup(V2Toggle(favorites, id))
  {
    if id in favorites {
      FilterIsSubsequence(favorites, Except(id));
      NoDupSubsequence(Filter(favorites, Except(id)), favorites);
    }
  }

  /** Archived toggling never creates a repeat. */
  lemma ArchiveToggleNoDup(favorites: seq<string>, name: string)
    requires NoDup(favorites)
    ensures NoDup(ArchiveToggle(favorites, name))
  {
    var i := PositionOf(favorites, name);
    if i > -1 {
      var r := favorites[..i] + favorites[i + 1..];
      forall a, b | 0 <= a < b < |r| ensures r[a] != r[b] {
        var a' := if a < i then a else a + 1;
        var b' := if b < i then b else b + 1;
        assert r[a] == favorites[a'] && r[b] == favorites[b'];
      }
    }
  }

  /**
    On a list without repeats the archived toggle and the v2 toggle agree: removing
    the first copy is removing every copy.
   */
  lemma ArchiveToggleIsV2Toggle(favorites: seq<string>, name: string)
    requires NoDup(favorites)
    ensures ArchiveToggle(favorites, name) == V2Toggle(favorites, name)
  {
    var i := PositionOf(favorites, name);
    if i > -1 {
      var before := favorites[..i];
      var after := favorites[i + 1..];
      assert ArchiveToggle(favorites, name) == before + after;
      assert favorites == before + [name] + after;
      assert name !in before;
      assert name !in after by {
        forall k | 0 <= k < |after| ensures after[k] != name {
          assert after[k] == favorites[i + 1 + k];
        }
      }
      RemoveOnly(before, name, after);
    }
  }

  /** Removing a name that occurs once, between two stretches without it, joins the two stretches. */
  lemma RemoveOnly(before: seq<string>, name: string, after: seq<string>)
    requires name !in before && name !in after
    ensures Filter(before + [name] + after, Except(name)) == before + after
  {
    var keep := Except(name);
    assert Filter(before + [name], keep) == before by {
      FilterConcat(before, [name], keep);
      RemoveAbsent(before, name);
      FilterNone([name], keep);
    }
    FilterConcat(before + [name], after, keep);
    RemoveAbsent(after, name);
  }

  /** With a repeated name, one archived toggle leaves the partner a favourite. */
  lemma ArchiveToggleWithRepeat(favorites: seq<string>, name: string)
    requires multiset(favorites)[name] >= 2
    ensures ArchiveIsFavorite(favorites, name)
    ensures ArchiveIsFavorite(ArchiveToggle(favorites, name), name)
  {
    var r := ArchiveToggle(favorites, name);
    assert name in multiset(favorites);
    assert multiset(r)[name] == multiset(favorites)[name] - 1;
    assert name in multiset(r);
  }
}
