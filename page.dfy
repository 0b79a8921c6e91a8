/**
 * The page-level state of the widget: the module-level `favorites` list, its
 * persisted copy, the two card containers with their visibility, the search
 * box's value and the search debouncer, and the handlers that change them.
 */
module Widget {
  import opened Options
  import opened Text
  import opened Sites
  import opened Favorites
  import opened Render
  import opened Debounce

  /** The two containers a card can sit in. */
  datatype View = ResultsView | FavoritesView

  /** A view with the favorited visual state of card `i` set or cleared. */
  function Flagged(cards: seq<Card>, i: nat, on: bool): (v: seq<Card>)
    requires i < |cards| && cards[i].SiteCard?
    ensures |v| == |cards| && v[i].SiteCard? && v[i].favorited == on
    ensures v[i] == cards[i].(favorited := on)
    ensures forall j :: 0 <= j < |cards| && j != i ==> v[j] == cards[j]
  {
    cards[i := cards[i].(favorited := on)]
  }

  /** performSearch's guard: the string read at fire time is sent unless it is exactly empty. */
  function SearchRequest(query: string): (request: Option<string>)
    ensures request.None? <==> query == ""
    ensures request.Some? ==> request.value == query
  {
    if query == "" then None else Some(query)
  }

  /**
   * The input handler trims, but the debounced search reads the untrimmed box:
   * a box holding only a space shows the favorites and still sends a search.
   */
  lemma WhitespaceQueryIsSent()
    ensures Trim(" ") == ""
    ensures SearchRequest(" ") == Some(" ")
  {
    assert AllWhitespace(" ");
  }

  class Page {
    /** The favorites list, in insertion order. */
    var favorites: seq<SiteRecord>
    /** The persisted "favorites" slot, as the list it encodes. */
    var persisted: seq<SiteRecord>
    var favoritesView: seq<Card>
    /** Whether the favorites container holds the empty-state message. */
    var emptyState: bool
    var resultsView: seq<Card>
    var favoritesShown: bool
    var resultsShown: bool
    /** The search box's current value. */
    var inputValue: string
    const searchTimer: Debouncer

    /** Every mutation is written through, exactly one view is visible, and the search waits 300 ms. */
    ghost predicate Valid()
      reads this
    {
      persisted == favorites && favoritesShown != resultsShown && searchTimer.wait == SearchWait
    }

    function Cards(v: View): seq<Card>
      reads this
    {
      if v == ResultsView then resultsView else favoritesView
    }

    /** Page load: the list is read from the persisted slot and the favorites view is rendered. */
    constructor (stored: seq<SiteRecord>)
      ensures Valid()
      ensures favorites == stored && persisted == stored
      ensures favoritesView == FavoriteCards(stored) && emptyState == (|stored| == 0)
      ensures favoritesShown && !resultsShown && resultsView == [] && inputValue == ""
      ensures fresh(searchTimer) && searchTimer.deadline == None
    {
      favorites, persisted := stored, stored;
      favoritesView, emptyState, resultsView := [], false, [];
      favoritesShown, resultsShown := true, false;
      inputValue := "";
      searchTimer := new Debouncer(SearchWait);
      new;
      RenderFavorites();
    }

    /** renderFavorites: rebuilds the favorites view from the list and shows it instead of the results. */
    method RenderFavorites()
      requires Valid()
      modifies this
      ensures Valid()
      ensures favoritesView == FavoriteCards(favorites) && emptyState == (|favorites| == 0)
      ensures favoritesShown && !resultsShown
      ensures favorites == old(favorites) && resultsView == old(resultsView) && inputValue == old(inputValue)
    {
      favoritesView, emptyState := [], false;
      if |favorites| == 0 {
        emptyState := true;
      } else {
        for i := 0 to |favorites|
          modifies this`favoritesView
          invariant |favoritesView| == i
          invariant forall k :: 0 <= k < i ==> favoritesView[k] == FavoriteCard(favorites[k], favorites)
        {
          favoritesView := favoritesView + [FavoriteCard(favorites[i], favorites)];
        }
        for i := 0 to Padding
          modifies this`favoritesView
          invariant |favoritesView| == |favorites| + i
          invariant forall k :: 0 <= k < |favorites| ==> favoritesView[k] == FavoriteCard(favorites[k], favorites)
          invariant forall k :: |favorites| <= k < |favoritesView| ==> favoritesView[k] == Placeholder
        {
          favoritesView := favoritesView + [Placeholder];
        }
        FavoriteCardsPointwise(favoritesView, favorites);
      }
      resultsShown, favoritesShown := false, true;
    }

    /** handleSearchResult: rebuilds the results view from a response and shows it instead of the favorites. */
    method HandleSearchResult(sites: seq<SiteRecord>)
      requires Valid()
      modifies this
      ensures Valid()
      ensures resultsView == ResultCards(sites, favorites)
      ensures resultsShown && !favoritesShown
      ensures favorites == old(favorites) && favoritesView == old(favoritesView)
      ensures emptyState == old(emptyState) && inputValue == old(inputValue)
    {
      resultsView := [];
      for i := 0 to |sites|
        modifies this`resultsView
        invariant |resultsView| == i
        invariant forall k :: 0 <= k < i ==> resultsView[k] == MakeCard(Some(sites[k]), favorites)
      {
        resultsView := resultsView + [MakeCard(Some(sites[i]), favorites)];
      }
      for i := 0 to Padding
        modifies this`resultsView
        invariant |resultsView| == |sites| + i
        invariant forall k :: 0 <= k < |sites| ==> resultsView[k] == MakeCard(Some(sites[k]), favorites)
        invariant forall k :: |sites| <= k < |resultsView| ==> resultsView[k] == Placeholder
      {
        resultsView := resultsView + [Placeholder];
      }
      ResultCardsPointwise(resultsView, sites, favorites);
      favoritesShown, resultsShown := false, true;
    }

    /** classList.add / classList.remove of 'favorited' on one card. */
    method SetFavorited(v: View, i: nat, on: bool)
      requires i < |Cards(v)| && Cards(v)[i].SiteCard?
      modifies this
      ensures resultsView == if v == ResultsView then Flagged(old(resultsView), i, on) else old(resultsView)
      ensures favoritesView == if v == FavoritesView then Flagged(old(favoritesView), i, on) else old(favoritesView)
      ensures favorites == old(favorites) && persisted == old(persisted) && emptyState == old(emptyState)
      ensures favoritesShown == old(favoritesShown) && resultsShown == old(resultsShown)
      ensures inputValue == old(inputValue)
    {
      if v == ResultsView {
        resultsView := Flagged(resultsView, i, on);
      } else {
        favoritesView := Flagged(favoritesView, i, on);
      }
    }

    /**
     * toggleFavorite on card `i` of view `v`: a favorited id loses its first
     * entry and the card its mark; otherwise the record's projection is
     * appended, a card for it is prepended to the favorites view unless that
     * view already shows the id, and the card is marked. The list is
     * persisted either way.
     */
    method Toggle(v: View, i: nat)
      requires Valid()
      requires i < |Cards(v)| && Cards(v)[i].SiteCard?
      modifies this
      ensures Valid()
      ensures favorites == Toggled(old(favorites), old(Cards(v)[i]).site)
      ensures UniqueIds(old(favorites)) ==> UniqueIds(favorites)
      ensures var c := old(Cards(v)[i]);
              var was := old(HasId(favorites, c.site.id));
              && resultsView == (if v == ResultsView then Flagged(old(resultsView), i, !was) else old(resultsView))
              && favoritesView ==
                   (if v == FavoritesView then Flagged(old(favoritesView), i, !was)
                    else if was || old(HasCardWithId(favoritesView, c.site.id)) then old(favoritesView)
                    else [Unserialize(Serialize(c), favorites)] + old(favoritesView))
      ensures emptyState == old(emptyState) && inputValue == old(inputValue)
      ensures favoritesShown == old(favoritesShown) && resultsShown == old(resultsShown)
    {
      ghost var before := favorites;
      var card := Cards(v)[i];
      var id := card.site.id;
      assert UniqueIds(before) ==> UniqueIds(Toggled(before, card.site)) by {
        if UniqueIds(before) { ToggledUnique(before, card.site); }
      }
      var k := 0;
      while k < |favorites| && favorites[k].id != id
        invariant 0 <= k <= |favorites|
        invariant forall j :: 0 <= j < k ==> favorites[j].id != id
      {
        k := k + 1;
      }
      if k < |favorites| {
        assert HasId(before, id) && FirstIndex(before, id) == k;
        Unfavorite(v, i, k);
      } else {
        assert !HasId(before, id);
        Favorite(v, i);
      }
    }

    /** The removal branch of toggleFavorite: splice out entry `k`, clear the card's mark, persist. */
    method Unfavorite(v: View, i: nat, k: nat)
      requires Valid()
      requires i < |Cards(v)| && Cards(v)[i].SiteCard?
      requires k < |favorites|
      modifies this
      ensures Valid()
      ensures favorites == old(favorites[..k] + favorites[k + 1..])
      ensures resultsView == (if v == ResultsView then Flagged(old(resultsView), i, false) else old(resultsView))
      ensures favoritesView == (if v == FavoritesView then Flagged(old(favoritesView), i, false) else old(favoritesView))
      ensures emptyState == old(emptyState) && inputValue == old(inputValue)
      ensures favoritesShown == old(favoritesShown) && resultsShown == old(resultsShown)
    {
      favorites := favorites[..k] + favorites[k + 1..];
      SetFavorited(v, i, false);
      persisted := favorites;
    }

    /**
     * The addition branch of toggleFavorite: append the card's projection,
     * prepend a card for it to the favorites view unless one with its id is
     * there, mark the card, persist.
     */
    method Favorite(v: View, i: nat)
      requires Valid()
      requires i < |Cards(v)| && Cards(v)[i].SiteCard?
      modifies this
      ensures Valid()
      ensures var c := old(Cards(v)[i]);
              && favorites == old(favorites) + [Entry(c.site)]
              && resultsView == (if v == ResultsView then Flagged(old(resultsView), i, true) else old(resultsView))
              && favoritesView ==
                   (if v == FavoritesView then Flagged(old(favoritesView), i, true)
                    else if old(HasCardWithId(favoritesView, c.site.id)) then old(favoritesView)
                    else [Unserialize(Serialize(c), favorites)] + old(favoritesView))
      ensures emptyState == old(emptyState) && inputValue == old(inputValue)
      ensures favoritesShown == old(favoritesShown) && resultsShown == old(resultsShown)
    {
      var card := Cards(v)[i];
      var id := card.site.id;
      var serialized := Serialize(card);
      assert serialized.value == Entry(card.site);
      favorites := favorites + [serialized.value];
      assert v == FavoritesView ==> HasCardWithId(favoritesView, id) by {
        if v == FavoritesView { assert favoritesView[i].SiteCard? && favoritesView[i].site.id == id; }
      }
      if !HasCardWithId(favoritesView, id) {
        favoritesView := [Unserialize(serialized, favorites)] + favoritesView;
      }
      SetFavorited(v, i, true);
      persisted := favorites;
    }

    /**
     * handleSearchInput with the box now holding `value` at time t: an empty
     * trimmed query shows the favorites and clears the results; the debounced
     * search is rescheduled in every case.
     */
    method Input(value: string, t: int)
      requires Valid()
      modifies this, searchTimer
      ensures Valid()
      ensures inputValue == value && favorites == old(favorites)
      ensures searchTimer.deadline == Some(t + SearchWait)
      ensures Trim(value) == "" ==>
                && favoritesView == FavoriteCards(favorites) && emptyState == (|favorites| == 0)
                && resultsView == [] && favoritesShown && !resultsShown
      ensures Trim(value) != "" ==>
                && favoritesView == old(favoritesView) && emptyState == old(emptyState)
                && resultsView == old(resultsView)
                && favoritesShown == old(favoritesShown) && resultsShown == old(resultsShown)
    {
      inputValue := value;
      var query := Trim(value);
      if query == "" {
        RenderFavorites();
        resultsView := [];
      }
      searchTimer.Call(t);
    }

    /**
     * The clock reaching t: if the search timer is due it fires and the
     * search it runs reads the box as it is now, untrimmed; the returned
     * request is what would be sent, and nothing is sent for an empty box.
     */
    method SearchTick(t: int) returns (request: Option<string>)
      requires Valid()
      modifies searchTimer
      ensures var due := old(searchTimer.deadline).Some? && old(searchTimer.deadline).value <= t;
              && request == (if due && inputValue != "" then Some(inputValue) else None)
              && searchTimer.deadline == (if due then None else old(searchTimer.deadline))
    {
      var fired := searchTimer.Tick(t);
      request := None;
      if fired {
        request := SearchRequest(inputValue);
      }
    }
  }

  /**
   * The end-to-end walk through the widget: an empty list shows the empty
   * state, a search for "pizza" sends one request after the quiet period,
   * a two-site response fills the results view, and favoriting site "42"
   * persists it and puts a favorited card for it at the front of the
   * favorites view.
   */
  method Walkthrough()
  {
    var page := new Page([]);
    assert page.favoritesView == [] && page.emptyState && page.favoritesShown;

    assert !IsWhitespace('p');
    page.Input("pizza", 0);
    var early := page.SearchTick(299);
    assert early == None;
    var request := page.SearchTick(300);
    assert request == Some("pizza");

    var a := SiteRecord("42", "Pizzeria", [Category("Pizza")], [], map[]);
    var b := SiteRecord("7", "Trattoria", [], [], map[]);
    page.HandleSearchResult([a, b]);
    assert |page.resultsView| == 12 && page.resultsView[0].site == a && page.resultsShown;
    assert !page.resultsView[0].favorited;

    assert !HasId(page.favorites, "42");
    assert !HasCardWithId(page.favoritesView, "42");
    page.Toggle(ResultsView, 0);
    assert page.favorites == [Entry(a)] && page.persisted == page.favorites;
    assert page.resultsView[0].favorited;
    assert page.favoritesView[0].SiteCard? && page.favoritesView[0].site.id == "42";
    assert page.favoritesView[0].favorited;
  }
}
