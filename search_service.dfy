/** `SearchService.search`: validate the parameters, compose the criteria,
    set page and sort, ask the store, and map its hits to a result. */
module SearchService {
  import opened Wrappers
  import opened JavaLang
  import opened CourseDocuments
  import opened Elasticsearch
  import opened SearchResults

  /** The eleven parameters of `search`; a null reference is `None`. A start
      date is the instant it denotes. */
  datatype SearchParams = SearchParams(
    keyword: Option<string>,
    minAge: Option<Int32>,
    maxAge: Option<Int32>,
    category: Option<string>,
    courseType: Option<string>,
    minPrice: Option<real>,
    maxPrice: Option<real>,
    startDate: Option<int>,
    sort: Option<string>,
    page: Int32,
    size: Int32)

  // ---------------------------------------------------------------------
  // Validation
  // ---------------------------------------------------------------------

  /** The rules `validateSearchParameters` enforces, in the order it checks them. */
  datatype Violation =
    | MinAgeAboveMaxAge
    | NegativeMinAge
    | NegativeMaxAge
    | MinPriceAboveMaxPrice
    | NegativeMinPrice
    | NegativeMaxPrice
    | InvalidSort

  /** The message of the `IllegalArgumentException` thrown for each rule. */
  function Message(v: Violation): string {
    match v
    case MinAgeAboveMaxAge => "minAge cannot be greater than maxAge"
    case NegativeMinAge => "minAge cannot be negative"
    case NegativeMaxAge => "maxAge cannot be negative"
    case MinPriceAboveMaxPrice => "minPrice cannot be greater than maxPrice"
    case NegativeMinPrice => "minPrice cannot be negative"
    case NegativeMaxPrice => "maxPrice cannot be negative"
    case InvalidSort => "Invalid sort parameter. Must be one of: priceAsc, priceDesc, nextSessionDate"
  }

  /** The sort tokens the pattern `^(priceAsc|priceDesc|nextSessionDate)$`
      matches as a whole string (case-sensitive). */
  predicate IsSortToken(s: string) {
    s == "priceAsc" || s == "priceDesc" || s == "nextSessionDate"
  }

  /** `validateSearchParameters`: the first guard that fails decides the error. */
  function Validate(p: SearchParams): (r: Outcome<Violation>) {
    if p.minAge.Some? && p.maxAge.Some? && p.minAge.value > p.maxAge.value then Fail(MinAgeAboveMaxAge)
    else if p.minAge.Some? && p.minAge.value < 0 then Fail(NegativeMinAge)
    else if p.maxAge.Some? && p.maxAge.value < 0 then Fail(NegativeMaxAge)
    else if p.minPrice.Some? && p.maxPrice.Some? && p.minPrice.value > p.maxPrice.value then Fail(MinPriceAboveMaxPrice)
    else if p.minPrice.Some? && p.minPrice.value < 0.0 then Fail(NegativeMinPrice)
    else if p.maxPrice.Some? && p.maxPrice.value < 0.0 then Fail(NegativeMaxPrice)
    else if p.sort.Some? && !IsSortToken(p.sort.value) then Fail(InvalidSort)
    else Pass
  }

  // ---------------------------------------------------------------------
  // Criteria, page and sort
  // ---------------------------------------------------------------------

  /** A string parameter that is neither null nor blank. */
  predicate NonBlank(s: Option<string>) {
    s.Some? && !IsBlank(s.value)
  }

  /** The keyword clause: title contains the keyword or description does. */
  function KeywordPart(keyword: Option<string>): seq<Clause> {
    if NonBlank(keyword) then [Either(Contains(Title, keyword.value), Contains(Description, keyword.value))]
    else []
  }

  /** A keyword the keyword clause is built from, but which `contains`
      refuses because it holds a space. */
  predicate KeywordRefused(keyword: Option<string>) {
    NonBlank(keyword) && ' ' in keyword.value
  }

  /** An exact match on `f`, present iff the value is neither null nor blank. */
  function EqualsPart(f: Field, v: Option<string>): seq<Clause> {
    if NonBlank(v) then [Is(f, Text(v.value))] else []
  }

  /** A range on `f`, present iff either bound is: each bound is narrowed in
      independently of the other. */
  function RangePart(f: Field, lower: Option<Value>, upper: Option<Value>): seq<Clause> {
    if lower.Some? || upper.Some? then [Between(f, lower, upper)] else []
  }

  function WholeOf(n: Option<Int32>): Option<Value> {
    if n.Some? then Some(Whole(n.value)) else None
  }

  function DecimalOf(x: Option<real>): Option<Value> {
    if x.Some? then Some(Decimal(x.value)) else None
  }

  function InstantOf(t: Option<int>): Option<Value> {
    if t.Some? then Some(Instant(t.value)) else None
  }

  /** The conjunction `search` composes, clause by clause in source order.
      Both age bounds constrain the `minAge` field. */
  function CriteriaFor(p: SearchParams): seq<Clause> {
    KeywordPart(p.keyword)
    + EqualsPart(Category, p.category)
    + EqualsPart(Type, p.courseType)
    + RangePart(MinAge, WholeOf(p.minAge), WholeOf(p.maxAge))
    + RangePart(Price, DecimalOf(p.minPrice), DecimalOf(p.maxPrice))
    + RangePart(NextSessionDate, InstantOf(p.startDate), None)
  }

  /** The one sort `search` adds: by price for `priceAsc` (ascending) and
      `priceDesc` (descending), otherwise ascending by next session date. */
  function SortFor(sort: Option<string>): (s: Sort)
    ensures s.field == Price <==> sort == Some("priceAsc") || sort == Some("priceDesc")
    ensures s.direction == Desc <==> sort == Some("priceDesc")
    ensures s.field != Price ==> s == SortBy(Asc, NextSessionDate)
  {
    if sort == Some("priceAsc") then SortBy(Asc, Price)
    else if sort == Some("priceDesc") then SortBy(Desc, Price)
    else SortBy(Asc, NextSessionDate)
  }

  // ---------------------------------------------------------------------
  // Result mapping
  // ---------------------------------------------------------------------

  /** The contents of the hits, one course per hit, in hit order. */
  function Contents(hits: seq<SearchHit>): (courses: seq<Course>)
    ensures |courses| == |hits|
    ensures forall i :: 0 <= i < |hits| ==> courses[i] == hits[i].content
  {
    if hits == [] then [] else [hits[0].content] + Contents(hits[1..])
  }

  /** The result: the store's total, which may exceed the page, and the
      hits' courses in store order. */
  function ToSearchResult(h: SearchHits): (r: SearchResult)
    ensures r.total == h.totalHits
    ensures |r.courses| == |h.hits|
    ensures forall i :: 0 <= i < |h.hits| ==> r.courses[i] == h.hits[i].content
    ensures h.hits == [] ==> r.courses == []
  {
    SearchResult(h.totalHits, Contents(h.hits))
  }

  // ---------------------------------------------------------------------
  // search
  // ---------------------------------------------------------------------

  /** What `search` can throw: an `IllegalArgumentException` with its
      message, the `InvalidDataAccessApiUsageException` of a refused
      `contains`, or whatever the store throws. */
  datatype SearchError =
    | IllegalArgument(message: string)
    | InvalidDataAccessApiUsage(message: string)
    | StoreFailure(cause: string)

  /** The outcome of `search` once the store has answered. */
  function Answer(reply: Result<SearchHits, string>): Result<SearchResult, SearchError> {
    match reply
    case Success(h) => Success(ToSearchResult(h))
    case Failure(cause) => Failure(StoreFailure(cause))
  }

  /** Lines 61-63 and 68-70 of `search`: a criterion on field `f`, narrowed
      by `greaterThanEqual` when a lower bound is given and then by
      `lessThanEqual` when an upper bound is given. */
  method NarrowedRange(f: Field, lower: Option<Value>, upper: Option<Value>) returns (c: Clause)
    ensures c.Between? && c.field == f && c.lower == lower && c.upper == upper
  {
    c := Between(f, None, None);
    if lower.Some? { c := c.(lower := lower); }
    if upper.Some? { c := c.(upper := upper); }
  }

  /** Lines 43-76 of `search`: the criteria are extended clause by clause.
      The keyword's `contains` throws before any later clause is built. */
  method ComposeCriteria(p: SearchParams) returns (r: Result<seq<Clause>, string>)
    ensures r.Failure? <==> KeywordRefused(p.keyword)
    ensures r.Failure? ==> r.error == ContainsRefusal(p.keyword.value)
    ensures r.Success? ==> r.value == CriteriaFor(p)
  {
    var criteria := [];

    if NonBlank(p.keyword) {
      var title := ContainsOf(Title, p.keyword.value);
      if title.Failure? {
        return Failure(title.error);
      }
      var description := ContainsOf(Description, p.keyword.value);
      var textCriteria := Either(title.value, description.value);
      criteria := criteria + [textCriteria];
    }
    ghost var before := criteria;
    assert before == KeywordPart(p.keyword);

    if NonBlank(p.category) {
      criteria := criteria + [Is(Category, Text(p.category.value))];
    }
    assert criteria == before + EqualsPart(Category, p.category);
    before := criteria;

    if NonBlank(p.courseType) {
      criteria := criteria + [Is(Type, Text(p.courseType.value))];
    }
    assert criteria == before + EqualsPart(Type, p.courseType);
    before := criteria;

    if p.minAge.Some? || p.maxAge.Some? {
      var ageCriteria := NarrowedRange(MinAge, WholeOf(p.minAge), WholeOf(p.maxAge));
      criteria := criteria + [ageCriteria];
    }
    assert criteria == before + RangePart(MinAge, WholeOf(p.minAge), WholeOf(p.maxAge));
    before := criteria;

    if p.minPrice.Some? || p.maxPrice.Some? {
      var priceCriteria := NarrowedRange(Price, DecimalOf(p.minPrice), DecimalOf(p.maxPrice));
      criteria := criteria + [priceCriteria];
    }
    assert criteria == before + RangePart(Price, DecimalOf(p.minPrice), DecimalOf(p.maxPrice));
    before := criteria;

    if p.startDate.Some? {
      criteria := criteria + [Between(NextSessionDate, Some(Instant(p.startDate.value)), None)];
    }
    assert criteria == before + RangePart(NextSessionDate, InstantOf(p.startDate), None);
    r := Success(criteria);
  }

  /** `search` against a store that answers each query. `sent` is the query
      handed to the store, `None` when the store is never contacted. */
  method Search(store: Query -> Result<SearchHits, string>, p: SearchParams)
      returns (r: Result<SearchResult, SearchError>, sent: Option<Query>)
    ensures Validate(p).Fail? ==> sent == None && r == Failure(IllegalArgument(Message(Validate(p).error)))
    ensures Validate(p).Pass? && KeywordRefused(p.keyword) ==>
              sent == None && r == Failure(InvalidDataAccessApiUsage(ContainsRefusal(p.keyword.value)))
    ensures Validate(p).Pass? && !KeywordRefused(p.keyword) && PageRequestOf(p.page, p.size).Failure? ==>
              sent == None && r == Failure(IllegalArgument(PageRequestOf(p.page, p.size).error))
    ensures sent.Some? <==> Validate(p).Pass? && !KeywordRefused(p.keyword) && 0 <= p.page && 1 <= p.size
    ensures sent.Some? ==> sent.value == Query(CriteriaFor(p), PageRequest(p.page, p.size), [SortFor(p.sort)])
    ensures sent.Some? ==> r == Answer(store(sent.value))
  {
    var valid := Validate(p);
    if valid.Fail? {
      return Failure(IllegalArgument(Message(valid.error))), None;
    }

    var criteria := ComposeCriteria(p);
    if criteria.Failure? {
      return Failure(InvalidDataAccessApiUsage(criteria.error)), None;
    }

    var pageable := PageRequestOf(p.page, p.size);
    if pageable.Failure? {
      return Failure(IllegalArgument(pageable.error)), None;
    }
    var query := Query(criteria.value, pageable.value, []);

    if p.sort == Some("priceAsc") {
      query := query.(sorts := query.sorts + [SortBy(Asc, Price)]);
    } else if p.sort == Some("priceDesc") {
      query := query.(sorts := query.sorts + [SortBy(Desc, Price)]);
    } else {
      query := query.(sorts := query.sorts + [SortBy(Asc, NextSessionDate)]);
    }

    var hits := store(query);
    sent := Some(query);
    match hits {
      case Success(h) =>
        var courses := Contents(h.hits);
        r := Success(SearchResult(h.totalHits, courses));
      case Failure(cause) =>
        r := Failure(StoreFailure(cause));
    }
  }
}
