/**
 * `searchSweets`: a MongoDB query object is built field by field from the
 * query-string parameters and then evaluated against every stored document.
 */
module SweetSearch {
  import opened Outcomes
  import opened Text
  import opened SweetSchema

  /** The request's query parameters, each possibly absent. */
  datatype SearchParams = SearchParams(
    name: Option<string>,
    category: Option<string>,
    minPrice: Option<real>,
    maxPrice: Option<real>)

  /** The `price` sub-document `{ $gte?, $lte? }`. */
  datatype PriceCond = PriceCond(gte: Option<real>, lte: Option<real>)

  /**
   * The query object: `name` and `category` hold the pattern of a
   * case-insensitive `$regex` (matched here as a literal substring).
   */
  datatype Query = Query(name: Option<string>, category: Option<string>, price: Option<PriceCond>)

  /** `{ ...query.price }`: the existing price bounds, or none. */
  function Spread(p: Option<PriceCond>): PriceCond {
    if p.Some? then p.value else PriceCond(None, None)
  }

  /** The query object as the controller assembles it, one `if` per parameter. */
  function BuildQuery(ps: SearchParams): Query {
    var q0 := Query(None, None, None);
    var q1 := if Given(ps.name) then q0.(name := ps.name) else q0;
    var q2 := if Given(ps.category) then q1.(category := ps.category) else q1;
    var q3 := if ps.minPrice.Some? then q2.(price := Some(Spread(q2.price).(gte := ps.minPrice))) else q2;
    var q4 := if ps.maxPrice.Some? then q3.(price := Some(Spread(q3.price).(lte := ps.maxPrice))) else q3;
    q4
  }

  /** A text condition on one field; an absent condition holds. */
  predicate TextHolds(pattern: Option<string>, field: string) {
    pattern.None? || ContainsIgnoreCase(field, pattern.value)
  }

  /** Every operator of the `price` sub-document holds. */
  predicate PriceHolds(c: Option<PriceCond>, price: real) {
    c.None? ||
    ((c.value.gte.None? || price >= c.value.gte.value) &&
     (c.value.lte.None? || price <= c.value.lte.value))
  }

  /** How the store evaluates a query object against one document: every field condition holds. */
  predicate DocMatches(q: Query, s: Sweet) {
    TextHolds(q.name, s.name) && TextHolds(q.category, s.category) && PriceHolds(q.price, s.price)
  }

  /** `Sweet.find(query)`: the stored documents the query selects, with their ids. */
  function Search(items: map<Id, Sweet>, ps: SearchParams): (r: map<Id, Sweet>)
    ensures r.Keys <= items.Keys
    ensures forall id :: id in r ==> r[id] == items[id]
  {
    map id | id in items && DocMatches(BuildQuery(ps), items[id]) :: items[id]
  }

  /** The meaning of a search: the conjunction of exactly the filters that are present. */
  predicate Selected(ps: SearchParams, s: Sweet) {
    && (Given(ps.name) ==> ContainsIgnoreCase(s.name, ps.name.value))
    && (Given(ps.category) ==> ContainsIgnoreCase(s.category, ps.category.value))
    && (ps.minPrice.Some? ==> ps.minPrice.value <= s.price)
    && (ps.maxPrice.Some? ==> s.price <= ps.maxPrice.value)
  }

  /** The query the controller builds selects a document exactly when every present filter holds. */
  lemma BuildQueryMeaning(ps: SearchParams, s: Sweet)
    ensures DocMatches(BuildQuery(ps), s) <==> Selected(ps, s)
  {
    var q := BuildQuery(ps);
    assert q.name == (if Given(ps.name) then ps.name else None);
    assert q.category == (if Given(ps.category) then ps.category else None);
    assert q.price.Some? <==> ps.minPrice.Some? || ps.maxPrice.Some?;
    if q.price.Some? {
      assert q.price.value == PriceCond(ps.minPrice, ps.maxPrice);
    }
  }

  /** An item is found exactly when it is stored and every present filter holds of it. */
  lemma SearchSelects(items: map<Id, Sweet>, ps: SearchParams, id: Id)
    ensures id in Search(items, ps) <==> id in items && Selected(ps, items[id])
  {
    if id in items {
      BuildQueryMeaning(ps, items[id]);
    }
  }

  /** With no filters, search returns the whole store. */
  lemma SearchNoFilters(items: map<Id, Sweet>, ps: SearchParams)
    requires !Given(ps.name) && !Given(ps.category) && ps.minPrice.None? && ps.maxPrice.None?
    ensures Search(items, ps) == items
  {
    forall id | id in items
      ensures id in Search(items, ps)
    {
      SearchSelects(items, ps, id);
    }
  }

  /** A lower price bound above the upper one selects nothing. */
  lemma SearchEmptyRange(items: map<Id, Sweet>, ps: SearchParams)
    requires ps.minPrice.Some? && ps.maxPrice.Some? && ps.minPrice.value > ps.maxPrice.value
    ensures Search(items, ps) == map[]
  {
    forall id | id in Search(items, ps)
      ensures false
    {
      SearchSelects(items, ps, id);
    }
  }

  /** The search that keeps only one of the four filters. */
  function OnlyName(ps: SearchParams): SearchParams { SearchParams(ps.name, None, None, None) }
  function OnlyCategory(ps: SearchParams): SearchParams { SearchParams(None, ps.category, None, None) }
  function OnlyMin(ps: SearchParams): SearchParams { SearchParams(None, None, ps.minPrice, None) }
  function OnlyMax(ps: SearchParams): SearchParams { SearchParams(None, None, None, ps.maxPrice) }

  /** Combining filters intersects what each filter selects alone. */
  lemma SearchIsConjunction(items: map<Id, Sweet>, ps: SearchParams)
    ensures Search(items, ps).Keys ==
      Search(items, OnlyName(ps)).Keys * Search(items, OnlyCategory(ps)).Keys *
      Search(items, OnlyMin(ps)).Keys * Search(items, OnlyMax(ps)).Keys
  {
    forall id
      ensures id in Search(items, ps) <==>
        id in Search(items, OnlyName(ps)) && id in Search(items, OnlyCategory(ps)) &&
        id in Search(items, OnlyMin(ps)) && id in Search(items, OnlyMax(ps))
    {
      SearchSelects(items, ps, id);
      SearchSelects(items, OnlyName(ps), id);
      SearchSelects(items, OnlyCategory(ps), id);
      SearchSelects(items, OnlyMin(ps), id);
      SearchSelects(items, OnlyMax(ps), id);
    }
  }

  /** Searching by a stored item's own name or category, in any letter case, finds it. */
  lemma SearchFindsOwnName(items: map<Id, Sweet>, id: Id)
    requires id in items
    ensures id in Search(items, SearchParams(Some(items[id].name), None, None, None))
    ensures id in Search(items, SearchParams(Some(Lower(items[id].name)), None, None, None))
    ensures id in Search(items, SearchParams(None, Some(items[id].category), None, None))
  {
    var s := items[id];
    ContainsSelfAndEmpty(s.name);
    ContainsSelfAndEmpty(s.category);
    IgnoreCaseOfQuery(s.name, s.name);
    assert |Lower(s.name)| == |s.name|;
    SearchSelects(items, SearchParams(Some(s.name), None, None, None), id);
    SearchSelects(items, SearchParams(Some(Lower(s.name)), None, None, None), id);
    SearchSelects(items, SearchParams(None, Some(s.category), None, None), id);
  }

  /** The category query "choc" selects a sweet of category "Chocolate". */
  lemma ChocolateMatchesChoc(price: real)
    ensures Selected(SearchParams(None, Some("choc"), None, None), Sweet("Truffle", "Chocolate", price, 1))
  {
    var hay, query := Lower("Chocolate"), Lower("choc");
    forall i | 0 <= i < 4
      ensures hay[i] == query[i] == "choc"[i]
    {
      LowerAt("Chocolate", i);
      LowerAt("choc", i);
    }
    assert hay[..|query|] == query;
  }
}
