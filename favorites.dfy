/**
 * The favorites list as a value: what toggleFavorite does to it, and the
 * properties of that change (uniqueness of ids, order, membership).
 */
module Favorites {
  import opened Options
  import opened Sites

  /** At most one entry per id. */
  predicate UniqueIds(favorites: seq<SiteRecord>)
  {
    forall i, j :: 0 <= i < j < |favorites| ==> favorites[i].id != favorites[j].id
  }

  /** Index of the first entry with `id`, the one the for-of loop in toggleFavorite stops at. */
  function FirstIndex(favorites: seq<SiteRecord>, id: string): (k: nat)
    requires HasId(favorites, id)
    ensures k < |favorites| && favorites[k].id == id
    ensures forall j :: 0 <= j < k ==> favorites[j].id != id
  {
    if favorites[0].id == id then 0
    else
      var w :| 0 <= w < |favorites| && favorites[w].id == id;
      assert favorites[1..][w - 1].id == id;
      1 + FirstIndex(favorites[1..], id)
  }

  /** The projection that is appended when a record becomes a favorite. */
  function Entry(r: SiteRecord): (e: SiteRecord)
    ensures IsEntry(e) && e.id == r.id
    ensures e == SiteRecord(r.id, r.name, r.categories, r.imageSets, map[])
  {
    Serialize(MakeCard(Some(r), [])).value
  }

  /**
   * The list after toggling record `r`: the first entry with its id spliced
   * out if there is one, otherwise the record's projection appended.
   */
  function Toggled(favorites: seq<SiteRecord>, r: SiteRecord): (t: seq<SiteRecord>)
    ensures HasId(favorites, r.id) ==>
              var k := FirstIndex(favorites, r.id);
              && |t| == |favorites| - 1
              && forall j :: 0 <= j < |t| ==> t[j] == favorites[if j < k then j else j + 1]
    ensures !HasId(favorites, r.id) ==>
              && |t| == |favorites| + 1
              && (forall j :: 0 <= j < |favorites| ==> t[j] == favorites[j])
              && t[|favorites|] == Entry(r)
  {
    if HasId(favorites, r.id) then
      var k := FirstIndex(favorites, r.id);
      favorites[..k] + favorites[k + 1..]
    else
      favorites + [Entry(r)]
  }

  /** Reference definition: the list with every entry of one id dropped, order kept. */
  function WithoutId(favorites: seq<SiteRecord>, id: string): seq<SiteRecord>
  {
    if |favorites| == 0 then []
    else if favorites[0].id == id then WithoutId(favorites[1..], id)
    else [favorites[0]] + WithoutId(favorites[1..], id)
  }

  lemma {:induction false} WithoutAbsent(favorites: seq<SiteRecord>, id: string)
    requires !HasId(favorites, id)
    ensures WithoutId(favorites, id) == favorites
  {
    if |favorites| > 0 {
      assert favorites[0].id != id;
      assert !HasId(favorites[1..], id) by {
        forall k | 0 <= k < |favorites| - 1 ensures favorites[1..][k].id != id {
          assert favorites[1..][k] == favorites[k + 1];
        }
      }
      WithoutAbsent(favorites[1..], id);
      assert favorites == [favorites[0]] + favorites[1..];
    }
  }

  lemma {:induction false} WithoutIdAppend(a: seq<SiteRecord>, b: seq<SiteRecord>, id: string)
    ensures WithoutId(a + b, id) == WithoutId(a, id) + WithoutId(b, id)
  {
    if |a| > 0 {
      assert (a + b)[1..] == a[1..] + b;
      WithoutIdAppend(a[1..], b, id);
    } else {
      assert a + b == b;
    }
  }

  lemma WithoutOne(pre: seq<SiteRecord>, e: SiteRecord, post: seq<SiteRecord>)
    requires !HasId(pre, e.id) && !HasId(post, e.id)
    ensures WithoutId(pre + [e] + post, e.id) == pre + post
  {
    WithoutAbsent(pre, e.id);
    WithoutAbsent(post, e.id);
    WithoutIdAppend(pre + [e], post, e.id);
    WithoutIdAppend(pre, [e], e.id);
    assert WithoutId([e], e.id) == [];
  }

  /**
   * On a list with unique ids, toggling a favorited record removes exactly its
   * entry and keeps every other entry in its original order.
   */
  lemma RemovalKeepsOthers(favorites: seq<SiteRecord>, r: SiteRecord)
    requires UniqueIds(favorites) && HasId(favorites, r.id)
    ensures Toggled(favorites, r) == WithoutId(favorites, r.id)
    ensures |Toggled(favorites, r)| == |favorites| - 1
  {
    var k := FirstIndex(favorites, r.id);
    var pre, e, post := favorites[..k], favorites[k], favorites[k + 1..];
    assert favorites == pre + [e] + post;
    assert !HasId(post, r.id) by {
      forall j | 0 <= j < |post| ensures post[j].id != r.id {
        assert post[j] == favorites[k + 1 + j];
      }
    }
    WithoutOne(pre, e, post);
  }

  /** Toggling keeps the ids unique. */
  lemma ToggledUnique(favorites: seq<SiteRecord>, r: SiteRecord)
    requires UniqueIds(favorites)
    ensures UniqueIds(Toggled(favorites, r))
  {
    var t := Toggled(favorites, r);
    if HasId(favorites, r.id) {
      var k := FirstIndex(favorites, r.id);
      forall i, j | 0 <= i < j < |t| ensures t[i].id != t[j].id {
        var i' := if i < k then i else i + 1;
        var j' := if j < k then j else j + 1;
        assert t[i] == favorites[i'] && t[j] == favorites[j'];
      }
    } else {
      forall i, j | 0 <= i < j < |t| ensures t[i].id != t[j].id {
        if j == |favorites| { assert t[j].id == r.id && t[i] == favorites[i]; }
      }
    }
  }

  /**
   * On a list with unique ids a toggle flips the membership of the toggled id
   * and leaves the membership of every other id as it was.
   */
  lemma ToggledMembership(favorites: seq<SiteRecord>, r: SiteRecord, id: string)
    requires UniqueIds(favorites)
    ensures HasId(Toggled(favorites, r), r.id) <==> !HasId(favorites, r.id)
    ensures id != r.id ==> (HasId(Toggled(favorites, r), id) <==> HasId(favorites, id))
  {
    var t := Toggled(favorites, r);
    if HasId(favorites, r.id) {
      var k := FirstIndex(favorites, r.id);
      assert forall j :: 0 <= j < |t| ==> t[j] == favorites[if j < k then j else j + 1];
      if HasId(favorites, id) && id != r.id {
        var w :| 0 <= w < |favorites| && favorites[w].id == id;
        assert t[if w < k then w else w - 1].id == id;
      }
    } else {
      assert t[|favorites|].id == r.id;
      assert forall j :: 0 <= j < |favorites| ==> t[j] == favorites[j];
    }
  }

  /**
   * Two toggles of one record restore its membership; when it was absent they
   * restore the list itself.
   */
  lemma ToggleTwice(favorites: seq<SiteRecord>, r: SiteRecord)
    requires UniqueIds(favorites)
    ensures HasId(Toggled(Toggled(favorites, r), r), r.id) <==> HasId(favorites, r.id)
    ensures !HasId(favorites, r.id) ==> Toggled(Toggled(favorites, r), r) == favorites
  {
    ToggledUnique(favorites, r);
    ToggledMembership(favorites, r, r.id);
    ToggledMembership(Toggled(favorites, r), r, r.id);
    if !HasId(favorites, r.id) {
      var t := favorites + [Entry(r)];
      assert FirstIndex(t, r.id) == |favorites|;
      assert t[..|favorites|] == favorites;
    }
  }

  /**
   * Uniqueness is what the toggle relies on: with a duplicated id, toggling
   * the favorited record leaves it favorited.
   */
  lemma DuplicateSurvivesToggle(r: SiteRecord)
    ensures !UniqueIds([r, r])
    ensures HasId(Toggled([r, r], r), r.id)
  {
    assert HasId([r, r], r.id);
    assert FirstIndex([r, r], r.id) == 0;
    assert Toggled([r, r], r) == [r];
  }
}
