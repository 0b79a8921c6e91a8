/**
 * The card lists the two views are filled with: handleSearchResult for the
 * results view and renderFavorites for the favorites view.
 */
module Render {
  import opened Options
  import opened Sites

  /** Placeholder cards appended after the real ones for layout padding. */
  const Padding: nat := 10

  function Placeholders(n: nat): (ps: seq<Card>)
    ensures |ps| == n && forall i :: 0 <= i < n ==> ps[i] == Placeholder
  {
    seq(n, _ => Placeholder)
  }

  /**
   * The results view after a response: one site card per site, in response
   * order, each favorited exactly when its id is a favorite, then the padding.
   */
  function ResultCards(sites: seq<SiteRecord>, favorites: seq<SiteRecord>): (cards: seq<Card>)
    ensures |cards| == |sites| + Padding
    ensures forall i :: 0 <= i < |sites| ==>
              cards[i].SiteCard? && cards[i].site == sites[i] && cards[i] == MakeCard(Some(sites[i]), favorites)
    ensures forall i :: |sites| <= i < |cards| ==> cards[i] == Placeholder
  {
    seq(|sites|, i requires 0 <= i < |sites| => MakeCard(Some(sites[i]), favorites)) + Placeholders(Padding)
  }

  /** A favorites-view card: the restored entry, explicitly marked favorited. */
  function FavoriteCard(entry: SiteRecord, favorites: seq<SiteRecord>): (c: Card)
    ensures c.SiteCard? && c.site == entry && c.favorited
  {
    var c := Unserialize(Some(entry), favorites);
    c.(favorited := true)
  }

  /** The explicit mark changes nothing: a card restored from the list already finds its id there. */
  lemma FavoriteCardUnmarked(favorites: seq<SiteRecord>, i: nat)
    requires i < |favorites|
    ensures FavoriteCard(favorites[i], favorites) == MakeCard(Some(favorites[i]), favorites)
  {
  }

  /**
   * The favorites view: nothing when the list is empty (the view shows only the
   * empty-state message); otherwise one favorited card per entry in list
   * order, then the padding.
   */
  function FavoriteCards(favorites: seq<SiteRecord>): (cards: seq<Card>)
    ensures |favorites| == 0 ==> cards == []
    ensures |favorites| > 0 ==> |cards| == |favorites| + Padding
    ensures forall i :: 0 <= i < |favorites| ==>
              cards[i].SiteCard? && cards[i].site == favorites[i] && cards[i].favorited &&
              cards[i] == FavoriteCard(favorites[i], favorites)
    ensures forall i :: |favorites| <= i < |cards| ==> cards[i] == Placeholder
  {
    if |favorites| == 0 then []
    else seq(|favorites|, i requires 0 <= i < |favorites| => FavoriteCard(favorites[i], favorites)) + Placeholders(Padding)
  }

  /** A view built card by card equals the favorite cards. */
  lemma FavoriteCardsPointwise(cards: seq<Card>, favorites: seq<SiteRecord>)
    requires |favorites| > 0 && |cards| == |favorites| + Padding
    requires forall k :: 0 <= k < |favorites| ==> cards[k] == FavoriteCard(favorites[k], favorites)
    requires forall k :: |favorites| <= k < |cards| ==> cards[k] == Placeholder
    ensures cards == FavoriteCards(favorites)
  {
  }

  /** A view built card by card equals the result cards. */
  lemma ResultCardsPointwise(cards: seq<Card>, sites: seq<SiteRecord>, favorites: seq<SiteRecord>)
    requires |cards| == |sites| + Padding
    requires forall k :: 0 <= k < |sites| ==> cards[k] == MakeCard(Some(sites[k]), favorites)
    requires forall k :: |sites| <= k < |cards| ==> cards[k] == Placeholder
    ensures cards == ResultCards(sites, favorites)
  {
  }

  /** The data-id lookup in a container: some site card in the view has this id. */
  predicate HasCardWithId(view: seq<Card>, id: string)
    ensures HasCardWithId(view, id) <==> id in (set c | c in view && c.SiteCard? :: c.site.id)
  {
    exists k | 0 <= k < |view| :: view[k].SiteCard? && view[k].site.id == id
  }

  /** Number of site cards (not placeholders) in a view. */
  function SiteCardCount(view: seq<Card>): nat
  {
    if |view| == 0 then 0 else (if view[0].SiteCard? then 1 else 0) + SiteCardCount(view[1..])
  }

  lemma {:induction false} SiteCardCountAppend(a: seq<Card>, b: seq<Card>)
    ensures SiteCardCount(a + b) == SiteCardCount(a) + SiteCardCount(b)
  {
    if |a| > 0 {
      assert (a + b)[1..] == a[1..] + b;
      SiteCardCountAppend(a[1..], b);
    } else {
      assert a + b == b;
    }
  }

  lemma {:induction false} SiteCardCountAll(view: seq<Card>, allSites: bool)
    requires forall i :: 0 <= i < |view| ==> view[i].SiteCard? == allSites
    ensures SiteCardCount(view) == if allSites then |view| else 0
  {
    if |view| > 0 {
      SiteCardCountAll(view[1..], allSites);
    }
  }

  /** A render holds one site card per record and exactly `Padding` placeholders. */
  lemma RenderCounts(sites: seq<SiteRecord>, favorites: seq<SiteRecord>)
    ensures SiteCardCount(ResultCards(sites, favorites)) == |sites|
    ensures |favorites| > 0 ==> SiteCardCount(FavoriteCards(favorites)) == |favorites|
    ensures |favorites| > 0 ==> |FavoriteCards(favorites)| - SiteCardCount(FavoriteCards(favorites)) == Padding
  {
    var rs := ResultCards(sites, favorites);
    assert rs == rs[..|sites|] + rs[|sites|..];
    SiteCardCountAppend(rs[..|sites|], rs[|sites|..]);
    SiteCardCountAll(rs[..|sites|], true);
    SiteCardCountAll(rs[|sites|..], false);
    if |favorites| > 0 {
      var fs := FavoriteCards(favorites);
      assert fs == fs[..|favorites|] + fs[|favorites|..];
      SiteCardCountAppend(fs[..|favorites|], fs[|favorites|..]);
      SiteCardCountAll(fs[..|favorites|], true);
      SiteCardCountAll(fs[|favorites|..], false);
    }
  }
}
