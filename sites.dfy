/**
 * Benefit-site records as the discovery API returns them, the four-field
 * projection that is kept as a favorite, and the display fields a card
 * derives from its bound record (the BenefitSiteElement constructor).
 */
module Sites {
  import opened Options

  datatype Category = Category(text: string)
  datatype Image = Image(url: string)
  datatype ImageSet = ImageSet(images: seq<Image>)

  /**
   * A benefit site. `others` stands for every field of the API's record that
   * the widget never reads; it is carried along but not persisted.
   */
  datatype SiteRecord = SiteRecord(
    id: string,
    name: string,
    categories: seq<Category>,
    imageSets: seq<ImageSet>,
    others: map<string, string>)

  /** A record that holds exactly the four persisted fields, i.e. a favorite entry. */
  predicate IsEntry(r: SiteRecord)
  {
    r.others == map[]
  }

  /**
   * A card. A placeholder is bound to no record and carries nothing else;
   * a site card is bound to a record and shows the fields derived from it.
   * `favorited` is the card's visual state, which toggling changes in place.
   */
  datatype Card =
    | Placeholder
    | SiteCard(site: SiteRecord, name: string, categoriesText: string, imageUrl: string,
               noImage: bool, link: string, favorited: bool)

  // ---------------------------------------------------------------- category text

  const Separator := ", "

  function CategoryTexts(cs: seq<Category>): (ts: seq<string>)
    ensures |ts| == |cs| && forall i :: 0 <= i < |cs| ==> ts[i] == cs[i].text
  {
    seq(|cs|, i requires 0 <= i < |cs| => cs[i].text)
  }

  /** The parts in order with the separator between each two of them. */
  function Join(parts: seq<string>): (s: string)
    ensures |parts| == 0 ==> s == ""
    ensures |parts| == 1 ==> s == parts[0]
    ensures |parts| > 0 ==> |parts[0]| <= |s| && s[..|parts[0]|] == parts[0]
  {
    if |parts| == 0 then ""
    else if |parts| == 1 then parts[0]
    else parts[0] + Separator + Join(parts[1..])
  }

  predicate SeparatorAt(s: string, k: int)
  {
    0 <= k && k + 1 < |s| && s[k] == ',' && s[k + 1] == ' '
  }

  predicate ContainsSeparator(s: string)
  {
    exists k | 0 <= k < |s| :: SeparatorAt(s, k)
  }

  /** Index of the first ", " in `s`, or `|s|` when there is none. */
  function SeparatorIndex(s: string): (k: nat)
    ensures k == |s| || SeparatorAt(s, k)
    ensures forall j :: 0 <= j < k ==> !SeparatorAt(s, j)
  {
    if |s| < 2 then |s|
    else if s[0] == ',' && s[1] == ' ' then 0
    else
      var k := 1 + SeparatorIndex(s[1..]);
      assert forall j :: 1 <= j < k ==> (SeparatorAt(s, j) <==> SeparatorAt(s[1..], j - 1));
      k
  }

  /** Cutting a string at every separator: the inverse of Join on separator-free parts. */
  function Split(s: string): (parts: seq<string>)
    ensures |parts| >= 1
    decreases |s|
  {
    var k := SeparatorIndex(s);
    if k == |s| then [s] else [s[..k]] + Split(s[k + 2..])
  }

  lemma {:induction false} SplitJoin(parts: seq<string>)
    requires |parts| >= 1
    requires forall i :: 0 <= i < |parts| ==> !ContainsSeparator(parts[i])
    ensures Split(Join(parts)) == parts
  {
    if |parts| == 1 {
      assert SeparatorIndex(parts[0]) == |parts[0]|;
    } else {
      var p, rest := parts[0], Join(parts[1..]);
      var s := p + Separator + rest;
      assert SeparatorAt(s, |p|);
      forall j | 0 <= j < |p|
        ensures !SeparatorAt(s, j)
      {
        if j + 1 < |p| {
          if SeparatorAt(s, j) { assert SeparatorAt(p, j); }
        }
      }
      assert SeparatorIndex(s) == |p|;
      assert s[..|p|] == p;
      assert s[|p| + 2..] == rest;
      SplitJoin(parts[1..]);
      assert parts == [p] + parts[1..];
    }
  }

  /** The text a card shows for its categories. */
  function CategoriesText(cs: seq<Category>): (t: string)
    ensures |cs| == 0 ==> t == ""
    ensures |cs| == 1 ==> t == cs[0].text
    ensures |cs| > 0 ==> |cs[0].text| <= |t| && t[..|cs[0].text|] == cs[0].text
  {
    Join(CategoryTexts(cs))
  }

  /**
   * The category names come back from a card's text whenever there is at least
   * one category and no name contains the separator.
   */
  lemma CategoriesTextRoundTrip(cs: seq<Category>)
    requires |cs| >= 1
    requires forall i :: 0 <= i < |cs| ==> !ContainsSeparator(cs[i].text)
    ensures Split(CategoriesText(cs)) == CategoryTexts(cs)
  {
    SplitJoin(CategoryTexts(cs));
  }

  // ---------------------------------------------------------------- image and link

  /** The URL of the first image of the first image set, or the empty string when either is missing. */
  function FirstImageUrl(sets: seq<ImageSet>): (url: string)
    ensures |sets| == 0 || |sets[0].images| == 0 ==> url == ""
    ensures |sets| > 0 && |sets[0].images| > 0 ==> url == sets[0].images[0].url
  {
    if |sets| > 0 && |sets[0].images| > 0 then sets[0].images[0].url else ""
  }

  const LinkPrefix := "fi.epassi://merchantinfo/"

  /** The deep link of a site: the fixed scheme prefix followed by the id, unescaped. */
  function DeepLink(id: string): (link: string)
    ensures |link| == |LinkPrefix| + |id|
    ensures link[..|LinkPrefix|] == LinkPrefix && link[|LinkPrefix|..] == id
  {
    LinkPrefix + id
  }

  /** The id a deep link points at, if it is one. */
  function LinkTarget(link: string): Option<string>
  {
    if |link| >= |LinkPrefix| && link[..|LinkPrefix|] == LinkPrefix
    then Some(link[|LinkPrefix|..]) else None
  }

  /** A deep link names its site, so distinct sites get distinct links. */
  lemma DeepLinkRoundTrip(id: string, other: string)
    ensures LinkTarget(DeepLink(id)) == Some(id)
    ensures DeepLink(id) == DeepLink(other) ==> id == other
  {
  }

  // ---------------------------------------------------------------- cards

  /** Some entry of the list has this id. */
  predicate HasId(favorites: seq<SiteRecord>, id: string)
    ensures HasId(favorites, id) <==> id in (set r | r in favorites :: r.id)
  {
    exists k :: 0 <= k < |favorites| && favorites[k].id == id
  }

  /**
   * The BenefitSiteElement constructor: no record gives a placeholder;
   * a record gives a site card whose display fields are derived from it and
   * whose `favorited` flag says whether the favorites list holds its id.
   */
  function MakeCard(site: Option<SiteRecord>, favorites: seq<SiteRecord>): (c: Card)
    ensures c.Placeholder? <==> site.None?
    ensures site.Some? ==>
      var r := site.value;
      && c.site == r
      && c.name == r.name
      && c.categoriesText == Join(CategoryTexts(r.categories))
      && c.imageUrl == FirstImageUrl(r.imageSets)
      && (c.noImage <==> c.imageUrl == "")
      && LinkTarget(c.link) == Some(r.id)
      && (c.favorited <==> HasId(favorites, r.id))
  {
    match site
    case None => Placeholder
    case Some(r) =>
      var url := FirstImageUrl(r.imageSets);
      DeepLinkRoundTrip(r.id, r.id);
      SiteCard(r, r.name, CategoriesText(r.categories), url, url == "", DeepLink(r.id), HasId(favorites, r.id))
  }

  /** The record a card was built from has no image exactly when its card shows none. */
  lemma NoImageExactly(r: SiteRecord, favorites: seq<SiteRecord>)
    ensures MakeCard(Some(r), favorites).noImage <==>
            (|r.imageSets| == 0 || |r.imageSets[0].images| == 0 || r.imageSets[0].images[0].url == "")
  {
  }

  /**
   * BenefitSiteElement.serialize: nothing for a placeholder; otherwise the
   * bound record cut down to id, name, categories and image sets.
   */
  function Serialize(c: Card): (d: Option<SiteRecord>)
    ensures d.None? <==> c.Placeholder?
    ensures c.SiteCard? ==>
      && IsEntry(d.value)
      && d.value.id == c.site.id && d.value.name == c.site.name
      && d.value.categories == c.site.categories && d.value.imageSets == c.site.imageSets
  {
    match c
    case Placeholder => None
    case SiteCard(r, _, _, _, _, _, _) => Some(SiteRecord(r.id, r.name, r.categories, r.imageSets, map[]))
  }

  /** BenefitSiteElement.unserialize: null gives a placeholder, data a card bound to it. */
  function Unserialize(d: Option<SiteRecord>, favorites: seq<SiteRecord>): (c: Card)
    ensures d.None? ==> c == Placeholder
    ensures d.Some? ==> c.SiteCard? && c.site == d.value
  {
    MakeCard(d, favorites)
  }

  /** Two cards show the same thing (the bound record may differ in unread fields). */
  predicate SameDisplay(a: Card, b: Card)
  {
    (a.Placeholder? && b.Placeholder?) ||
    (a.SiteCard? && b.SiteCard? && a.site.id == b.site.id && a.name == b.name &&
     a.categoriesText == b.categoriesText && a.imageUrl == b.imageUrl &&
     a.noImage == b.noImage && a.link == b.link && a.favorited == b.favorited)
  }

  /** Restoring a persisted entry and serializing it again gives the entry back. */
  lemma SerializeUnserialize(d: Option<SiteRecord>, favorites: seq<SiteRecord>)
    requires d.Some? ==> IsEntry(d.value)
    ensures Serialize(Unserialize(d, favorites)) == d
  {
  }

  /** A persisted entry rebuilds a card that shows exactly what the original card showed. */
  lemma UnserializeSerialize(site: Option<SiteRecord>, favorites: seq<SiteRecord>)
    ensures SameDisplay(Unserialize(Serialize(MakeCard(site, favorites)), favorites), MakeCard(site, favorites))
  {
  }
}
