/** What `search` promises, stated against independent definitions: the
    rules of validation one by one, the slot each kind of clause takes, and
    the courses a filter is meant to admit. */
module SearchProperties {
  import opened Wrappers
  import opened JavaLang
  import opened CourseDocuments
  import opened Elasticsearch
  import opened SearchResults
  import opened SearchService

  // ---------------------------------------------------------------------
  // Validation: the first broken rule in source order is reported
  // ---------------------------------------------------------------------

  /** Whether the parameters break rule `v`, judged on its own. */
  predicate Breaks(v: Violation, p: SearchParams) {
    match v
    case MinAgeAboveMaxAge => p.minAge.Some? && p.maxAge.Some? && p.minAge.value > p.maxAge.value
    case NegativeMinAge => p.minAge.Some? && p.minAge.value < 0
    case NegativeMaxAge => p.maxAge.Some? && p.maxAge.value < 0
    case MinPriceAboveMaxPrice => p.minPrice.Some? && p.maxPrice.Some? && p.minPrice.value > p.maxPrice.value
    case NegativeMinPrice => p.minPrice.Some? && p.minPrice.value < 0.0
    case NegativeMaxPrice => p.maxPrice.Some? && p.maxPrice.value < 0.0
    case InvalidSort => p.sort.Some? && p.sort.value !in {"priceAsc", "priceDesc", "nextSessionDate"}
  }

  /** The position of each rule's guard in `validateSearchParameters`. */
  function Rank(v: Violation): nat {
    match v
    case MinAgeAboveMaxAge => 0
    case NegativeMinAge => 1
    case NegativeMaxAge => 2
    case MinPriceAboveMaxPrice => 3
    case NegativeMinPrice => 4
    case NegativeMaxPrice => 5
    case InvalidSort => 6
  }

  /** Validation reports `v` exactly when `v` is broken and no rule checked
      before it is. */
  lemma ValidateReportsFirstBrokenRule(p: SearchParams, v: Violation)
    ensures Validate(p) == Fail(v) <==> Breaks(v, p) && forall w :: Rank(w) < Rank(v) ==> !Breaks(w, p)
  {
    if Breaks(v, p) && forall w :: Rank(w) < Rank(v) ==> !Breaks(w, p) {
      assert Rank(MinAgeAboveMaxAge) == 0 && Rank(NegativeMinAge) == 1 && Rank(NegativeMaxAge) == 2;
      assert Rank(MinPriceAboveMaxPrice) == 3 && Rank(NegativeMinPrice) == 4 && Rank(NegativeMaxPrice) == 5;
    }
  }

  /** Validation passes exactly when no rule is broken. */
  lemma ValidatePassesIffNoRuleBroken(p: SearchParams)
    ensures Validate(p).Pass? <==> forall v :: !Breaks(v, p)
  {
    if !Validate(p).Pass? {
      ValidateReportsFirstBrokenRule(p, Validate(p).error);
    }
  }

  /** An inverted age range is rejected whatever else is wrong, before any
      query exists. */
  lemma InvertedAgeRangeRejected(p: SearchParams)
    requires p.minAge.Some? && p.maxAge.Some? && p.minAge.value > p.maxAge.value
    ensures Validate(p) == Fail(MinAgeAboveMaxAge)
    ensures Message(Validate(p).error) == "minAge cannot be greater than maxAge"
  {
  }

  /** minAge = 5, maxAge = -1: the inversion is reported, not the negative bound. */
  lemma InversionReportedBeforeNegativeBound(p: SearchParams)
    requires p.minAge == Some(5) && p.maxAge == Some(-1)
    ensures Breaks(NegativeMaxAge, p)
    ensures Validate(p) == Fail(MinAgeAboveMaxAge)
  {
  }

  /** A sort that passes validation is null or one of the three tokens,
      exactly as written. */
  lemma AcceptedSortIsKnownToken(p: SearchParams)
    requires Validate(p).Pass?
    ensures p.sort.None? || p.sort.value in {"priceAsc", "priceDesc", "nextSessionDate"}
  {
    ValidatePassesIffNoRuleBroken(p);
    assert !Breaks(InvalidSort, p);
  }

  // ---------------------------------------------------------------------
  // Criteria: exactly the requested clauses, in a fixed order
  // ---------------------------------------------------------------------

  /** The place of each kind of clause in the conjunction: keyword 0,
      category 1, type 2, age 3, price 4, start date 5; anything else 6. */
  function Slot(c: Clause): nat {
    match c
    case Either(_, _) => 0
    case Is(f, _) => if f == Category then 1 else if f == Type then 2 else 6
    case Between(f, _, _) =>
      if f == MinAge then 3 else if f == Price then 4 else if f == NextSessionDate then 5 else 6
    case Contains(_, _) => 6
  }

  /** Slots strictly increase along the sequence. */
  predicate Ascending(cs: seq<Clause>) {
    forall i, j :: 0 <= i < j < |cs| ==> Slot(cs[i]) < Slot(cs[j])
  }

  /** A part of the criteria: at most one clause, and it fills slot `k`. */
  predicate PartOf(part: seq<Clause>, k: nat) {
    |part| <= 1 && forall c :: c in part ==> Slot(c) == k
  }

  /** Appending the part for slot `k` to clauses of lower slots keeps the
      slots ascending. */
  lemma AppendPart(prefix: seq<Clause>, part: seq<Clause>, k: nat)
    requires Ascending(prefix) && (forall c :: c in prefix ==> Slot(c) < k)
    requires PartOf(part, k)
    ensures Ascending(prefix + part) && (forall c :: c in prefix + part ==> Slot(c) < k + 1)
  {
    var s := prefix + part;
    forall i, j | 0 <= i < j < |s| ensures Slot(s[i]) < Slot(s[j]) {
      if j < |prefix| {
        assert s[i] == prefix[i] && s[j] == prefix[j];
      } else {
        assert s[i] == prefix[i] && prefix[i] in prefix;
        assert s[j] == part[j - |prefix|] && part[j - |prefix|] in part;
      }
    }
  }

  lemma KeywordPartShape(keyword: Option<string>)
    ensures PartOf(KeywordPart(keyword), 0)
    ensures KeywordPart(keyword) != [] <==> NonBlank(keyword)
    ensures forall c :: c in KeywordPart(keyword) ==>
              NonBlank(keyword) && c == Either(Contains(Title, keyword.value), Contains(Description, keyword.value))
  {
  }

  lemma EqualsPartShape(f: Field, v: Option<string>, k: nat)
    requires (f == Category && k == 1) || (f == Type && k == 2)
    ensures PartOf(EqualsPart(f, v), k)
    ensures EqualsPart(f, v) != [] <==> NonBlank(v)
    ensures forall c :: c in EqualsPart(f, v) ==> NonBlank(v) && c == Is(f, Text(v.value))
  {
  }

  lemma RangePartShape(f: Field, lower: Option<Value>, upper: Option<Value>, k: nat)
    requires (f == MinAge && k == 3) || (f == Price && k == 4) || (f == NextSessionDate && k == 5)
    ensures PartOf(RangePart(f, lower, upper), k)
    ensures RangePart(f, lower, upper) != [] <==> lower.Some? || upper.Some?
    ensures forall c :: c in RangePart(f, lower, upper) ==> c == Between(f, lower, upper)
  {
  }

  /** The six parts: each fills its own slot, and is present exactly when
      its parameters ask for it. */
  lemma PartShapes(p: SearchParams)
    ensures PartOf(KeywordPart(p.keyword), 0)
    ensures KeywordPart(p.keyword) != [] <==> NonBlank(p.keyword)
    ensures PartOf(EqualsPart(Category, p.category), 1)
    ensures EqualsPart(Category, p.category) != [] <==> NonBlank(p.category)
    ensures PartOf(EqualsPart(Type, p.courseType), 2)
    ensures EqualsPart(Type, p.courseType) != [] <==> NonBlank(p.courseType)
    ensures PartOf(RangePart(MinAge, WholeOf(p.minAge), WholeOf(p.maxAge)), 3)
    ensures RangePart(MinAge, WholeOf(p.minAge), WholeOf(p.maxAge)) != [] <==> p.minAge.Some? || p.maxAge.Some?
    ensures PartOf(RangePart(Price, DecimalOf(p.minPrice), DecimalOf(p.maxPrice)), 4)
    ensures RangePart(Price, DecimalOf(p.minPrice), DecimalOf(p.maxPrice)) != [] <==> p.minPrice.Some? || p.maxPrice.Some?
    ensures PartOf(RangePart(NextSessionDate, InstantOf(p.startDate), None), 5)
    ensures RangePart(NextSessionDate, InstantOf(p.startDate), None) != [] <==> p.startDate.Some?
  {
    KeywordPartShape(p.keyword);
    EqualsPartShape(Category, p.category, 1);
    EqualsPartShape(Type, p.courseType, 2);
    RangePartShape(MinAge, WholeOf(p.minAge), WholeOf(p.maxAge), 3);
    RangePartShape(Price, DecimalOf(p.minPrice), DecimalOf(p.maxPrice), 4);
    RangePartShape(NextSessionDate, InstantOf(p.startDate), None, 5);
  }

  /** A clause belongs to the criteria iff it belongs to one of the six parts. */
  lemma CriteriaMembers(p: SearchParams)
    ensures forall c :: c in CriteriaFor(p) <==>
              || c in KeywordPart(p.keyword)
              || c in EqualsPart(Category, p.category)
              || c in EqualsPart(Type, p.courseType)
              || c in RangePart(MinAge, WholeOf(p.minAge), WholeOf(p.maxAge))
              || c in RangePart(Price, DecimalOf(p.minPrice), DecimalOf(p.maxPrice))
              || c in RangePart(NextSessionDate, InstantOf(p.startDate), None)
  {
  }

  /** The clauses come in slot order, so no kind occurs twice. */
  lemma CriteriaInSlotOrder(p: SearchParams)
    ensures forall i, j :: 0 <= i < j < |CriteriaFor(p)| ==> Slot(CriteriaFor(p)[i]) < Slot(CriteriaFor(p)[j])
  {
    PartShapes(p);
    var k := KeywordPart(p.keyword);
    var c := EqualsPart(Category, p.category);
    var t := EqualsPart(Type, p.courseType);
    var a := RangePart(MinAge, WholeOf(p.minAge), WholeOf(p.maxAge));
    var pr := RangePart(Price, DecimalOf(p.minPrice), DecimalOf(p.maxPrice));
    var d := RangePart(NextSessionDate, InstantOf(p.startDate), None);
    AppendPart([], k, 0);
    assert [] + k == k;
    AppendPart(k, c, 1);
    AppendPart(k + c, t, 2);
    AppendPart(k + c + t, a, 3);
    AppendPart(k + c + t + a, pr, 4);
    AppendPart(k + c + t + a + pr, d, 5);
    assert Ascending(CriteriaFor(p));
  }

  /** A keyword clause is present iff the keyword is neither null nor blank,
      and it is the or-group "title contains it or description contains it". */
  lemma KeywordClause(p: SearchParams)
    ensures NonBlank(p.keyword) <==> exists c :: c in CriteriaFor(p) && Slot(c) == 0
    ensures forall c :: c in CriteriaFor(p) && Slot(c) == 0 ==>
              NonBlank(p.keyword) && c == Either(Contains(Title, p.keyword.value), Contains(Description, p.keyword.value))
  {
    CriteriaMembers(p);
    PartShapes(p);
    KeywordPartShape(p.keyword);
    var part := KeywordPart(p.keyword);
    if part != [] { assert part[0] in part; }
  }

  /** A category clause is present iff the category is neither null nor
      blank, and it is an exact match on `category`. */
  lemma CategoryClause(p: SearchParams)
    ensures NonBlank(p.category) <==> exists c :: c in CriteriaFor(p) && Slot(c) == 1
    ensures forall c :: c in CriteriaFor(p) && Slot(c) == 1 ==>
              NonBlank(p.category) && c == Is(Category, Text(p.category.value))
  {
    CriteriaMembers(p);
    PartShapes(p);
    EqualsPartShape(Category, p.category, 1);
    var part := EqualsPart(Category, p.category);
    if part != [] { assert part[0] in part; }
  }

  /** A type clause is present iff the type is neither null nor blank, and
      it is an exact match on `type`. */
  lemma TypeClause(p: SearchParams)
    ensures NonBlank(p.courseType) <==> exists c :: c in CriteriaFor(p) && Slot(c) == 2
    ensures forall c :: c in CriteriaFor(p) && Slot(c) == 2 ==>
              NonBlank(p.courseType) && c == Is(Type, Text(p.courseType.value))
  {
    CriteriaMembers(p);
    PartShapes(p);
    EqualsPartShape(Type, p.courseType, 2);
    var part := EqualsPart(Type, p.courseType);
    if part != [] { assert part[0] in part; }
  }

  /** An age range is present iff either age bound is. It always sits on the
      `minAge` field, with a lower bound iff minAge is given and an upper
      bound iff maxAge is given, so maxAge too is compared with `minAge`. */
  lemma AgeClause(p: SearchParams)
    ensures p.minAge.Some? || p.maxAge.Some? <==> exists c :: c in CriteriaFor(p) && Slot(c) == 3
    ensures forall c :: c in CriteriaFor(p) && Slot(c) == 3 ==>
              && c.Between? && c.field == MinAge
              && (c.lower.Some? <==> p.minAge.Some?) && (c.upper.Some? <==> p.maxAge.Some?)
              && (p.minAge.Some? ==> c.lower.value == Whole(p.minAge.value))
              && (p.maxAge.Some? ==> c.upper.value == Whole(p.maxAge.value))
  {
    CriteriaMembers(p);
    PartShapes(p);
    RangePartShape(MinAge, WholeOf(p.minAge), WholeOf(p.maxAge), 3);
    var part := RangePart(MinAge, WholeOf(p.minAge), WholeOf(p.maxAge));
    if part != [] { assert part[0] in part; }
  }

  /** A price range is present iff either price bound is; it sits on the
      `price` field with a lower bound iff minPrice is given and an upper
      bound iff maxPrice is given. */
  lemma PriceClause(p: SearchParams)
    ensures p.minPrice.Some? || p.maxPrice.Some? <==> exists c :: c in CriteriaFor(p) && Slot(c) == 4
    ensures forall c :: c in CriteriaFor(p) && Slot(c) == 4 ==>
              && c.Between? && c.field == Price
              && (c.lower.Some? <==> p.minPrice.Some?) && (c.upper.Some? <==> p.maxPrice.Some?)
              && (p.minPrice.Some? ==> c.lower.value == Decimal(p.minPrice.value))
              && (p.maxPrice.Some? ==> c.upper.value == Decimal(p.maxPrice.value))
  {
    CriteriaMembers(p);
    PartShapes(p);
    RangePartShape(Price, DecimalOf(p.minPrice), DecimalOf(p.maxPrice), 4);
    var part := RangePart(Price, DecimalOf(p.minPrice), DecimalOf(p.maxPrice));
    if part != [] { assert part[0] in part; }
  }

  /** A date clause is present iff the start date is, and it is
      `nextSessionDate >= startDate` with no upper bound. */
  lemma DateClause(p: SearchParams)
    ensures p.startDate.Some? <==> exists c :: c in CriteriaFor(p) && Slot(c) == 5
    ensures forall c :: c in CriteriaFor(p) && Slot(c) == 5 ==>
              p.startDate.Some? && c == Between(NextSessionDate, Some(Instant(p.startDate.value)), None)
  {
    CriteriaMembers(p);
    PartShapes(p);
    RangePartShape(NextSessionDate, InstantOf(p.startDate), None, 5);
    var part := RangePart(NextSessionDate, InstantOf(p.startDate), None);
    if part != [] { assert part[0] in part; }
  }

  /** With every parameter absent or blank there are no criteria, and only then. */
  lemma CriteriaEmptyIffUnconstrained(p: SearchParams)
    ensures CriteriaFor(p) == [] <==>
              && !NonBlank(p.keyword) && !NonBlank(p.category) && !NonBlank(p.courseType)
              && p.minAge.None? && p.maxAge.None? && p.minPrice.None? && p.maxPrice.None?
              && p.startDate.None?
  {
  }

  // ---------------------------------------------------------------------
  // Criteria: the courses they admit
  // ---------------------------------------------------------------------

  /** The courses the parameters ask for, field by field. Both age bounds
      are compared with the course's `minAge`. */
  predicate Admits(p: SearchParams, course: Course, contains: (string, string) -> bool) {
    && (NonBlank(p.keyword) ==> contains(course.title, p.keyword.value) || contains(course.description, p.keyword.value))
    && (NonBlank(p.category) ==> course.category == p.category.value)
    && (NonBlank(p.courseType) ==> course.courseType == p.courseType.value)
    && (p.minAge.Some? ==> p.minAge.value <= course.minAge)
    && (p.maxAge.Some? ==> course.minAge <= p.maxAge.value)
    && (p.minPrice.Some? ==> p.minPrice.value <= course.price)
    && (p.maxPrice.Some? ==> course.price <= p.maxPrice.value)
    && (p.startDate.Some? ==> p.startDate.value <= course.nextSessionDate)
  }

  lemma KeywordPartMeaning(keyword: Option<string>, course: Course, contains: (string, string) -> bool)
    ensures HoldsAll(KeywordPart(keyword), course, contains) <==>
              (NonBlank(keyword) ==> contains(course.title, keyword.value) || contains(course.description, keyword.value))
  {
    if NonBlank(keyword) { HoldsAllOne(KeywordPart(keyword)[0], course, contains); }
  }

  lemma EqualsPartMeaning(f: Field, v: Option<string>, course: Course, contains: (string, string) -> bool)
    ensures HoldsAll(EqualsPart(f, v), course, contains) <==> (NonBlank(v) ==> FieldValue(course, f) == Text(v.value))
  {
    if NonBlank(v) { HoldsAllOne(EqualsPart(f, v)[0], course, contains); }
  }

  lemma RangePartMeaning(f: Field, lower: Option<Value>, upper: Option<Value>, course: Course,
                         contains: (string, string) -> bool)
    ensures HoldsAll(RangePart(f, lower, upper), course, contains) <==>
              && (lower.Some? ==> AtMost(lower.value, FieldValue(course, f)))
              && (upper.Some? ==> AtMost(FieldValue(course, f), upper.value))
  {
    if lower.Some? || upper.Some? { HoldsAllOne(RangePart(f, lower, upper)[0], course, contains); }
  }

  /** A course satisfies the composed criteria exactly when it passes every
      filter the parameters ask for. */
  lemma CriteriaMeaning(p: SearchParams, course: Course, contains: (string, string) -> bool)
    ensures HoldsAll(CriteriaFor(p), course, contains) <==> Admits(p, course, contains)
  {
    var k := KeywordPart(p.keyword);
    var c := EqualsPart(Category, p.category);
    var t := EqualsPart(Type, p.courseType);
    var a := RangePart(MinAge, WholeOf(p.minAge), WholeOf(p.maxAge));
    var pr := RangePart(Price, DecimalOf(p.minPrice), DecimalOf(p.maxPrice));
    var d := RangePart(NextSessionDate, InstantOf(p.startDate), None);
    KeywordPartMeaning(p.keyword, course, contains);
    EqualsPartMeaning(Category, p.category, course, contains);
    EqualsPartMeaning(Type, p.courseType, course, contains);
    RangePartMeaning(MinAge, WholeOf(p.minAge), WholeOf(p.maxAge), course, contains);
    RangePartMeaning(Price, DecimalOf(p.minPrice), DecimalOf(p.maxPrice), course, contains);
    RangePartMeaning(NextSessionDate, InstantOf(p.startDate), None, course, contains);
    HoldsAllAppend(k + c + t + a + pr, d, course, contains);
    HoldsAllAppend(k + c + t + a, pr, course, contains);
    HoldsAllAppend(k + c + t, a, course, contains);
    HoldsAllAppend(k + c, t, course, contains);
    HoldsAllAppend(k, c, course, contains);
  }

  // ---------------------------------------------------------------------
  // Scenarios of the service's tests
  // ---------------------------------------------------------------------

  /** All filters at once (SearchServiceTest, testSearch_WithAllFilters):
      the parameters pass, six clauses are composed, the sort is ascending
      by price, and the sample course is admitted. */
  lemma AllFiltersScenario(p: SearchParams, course: Course, contains: (string, string) -> bool)
    requires p == SearchParams(Some("math"), Some(6), Some(10), Some("Math"), Some("COURSE"),
                               Some(100.0), Some(300.0), Some(1748736000), Some("priceAsc"), 0, 10)
    requires course.category == "Math" && course.courseType == "COURSE" && course.minAge == 6
    requires course.price == 199.99 && course.nextSessionDate == 1749567600
    requires contains(course.title, "math")
    ensures Validate(p) == Pass
    ensures |CriteriaFor(p)| == 6
    ensures SortFor(p.sort) == SortBy(Asc, Price)
    ensures HoldsAll(CriteriaFor(p), course, contains)
  {
    assert !IsWhitespace("math"[0]) && !IsWhitespace("Math"[0]) && !IsWhitespace("COURSE"[0]);
    CriteriaMeaning(p, course, contains);
  }

  /** The rejections of the service's tests: an inverted age range (10, 5),
      an inverted price range (300.0, 100.0), an unknown sort token, and a
      sort token in the wrong case. */
  lemma RejectionScenarios(p: SearchParams)
    requires p.minPrice.None? && p.maxPrice.None? && p.sort == Some("nextSessionDate")
    ensures Validate(p.(minAge := Some(10), maxAge := Some(5))) == Fail(MinAgeAboveMaxAge)
    ensures Validate(p.(minAge := None, maxAge := None, minPrice := Some(300.0), maxPrice := Some(100.0)))
            == Fail(MinPriceAboveMaxPrice)
    ensures Validate(p.(minAge := None, maxAge := None, sort := Some("invalidSort"))) == Fail(InvalidSort)
    ensures Validate(p.(minAge := None, maxAge := None, sort := Some("priceasc"))) == Fail(InvalidSort)
  {
  }

  // ---------------------------------------------------------------------
  // search as a whole
  // ---------------------------------------------------------------------

  /** Two searches with the same parameters against the same store send the
      same query and give the same outcome. */
  method RepeatedSearchAgrees(store: Query -> Result<SearchHits, string>, p: SearchParams)
      returns (first: Result<SearchResult, SearchError>, second: Result<SearchResult, SearchError>)
    ensures first == second
  {
    var sent1, sent2;
    first, sent1 := Search(store, p);
    second, sent2 := Search(store, p);
  }

  /** A two-word keyword passes validation, but `contains` refuses it: the
      search throws while the criteria are built, before the (here invalid)
      page request is made, and the store is never asked. */
  method MultiWordKeywordScenario(store: Query -> Result<SearchHits, string>, p: SearchParams)
      returns (r: Result<SearchResult, SearchError>, sent: Option<Query>)
    requires p == SearchParams(Some("math basics"), None, None, None, None, None, None, None, Some("priceAsc"), -1, 10)
    ensures sent == None
    ensures r == Failure(InvalidDataAccessApiUsage(ContainsRefusal("math basics")))
  {
    assert !IsWhitespace(p.keyword.value[0]) && p.keyword.value[4] == ' ';
    assert KeywordRefused(p.keyword);
    assert Validate(p) == Pass;
    r, sent := Search(store, p);
  }

  /** Pagination (testSearch_WithPagination): keyword "math", page 2 and
      size 5 reach the store unchanged with one ascending date sort, and the
      store's one hit becomes the one course of the result. */
  method PaginationScenario(p: SearchParams, course: Course)
      returns (r: Result<SearchResult, SearchError>, sent: Option<Query>)
    requires p == SearchParams(Some("math"), None, None, None, None, None, None, None, Some("nextSessionDate"), 2, 5)
    ensures sent == Some(Query([Either(Contains(Title, "math"), Contains(Description, "math"))],
                               PageRequest(2, 5), [SortBy(Asc, NextSessionDate)]))
    ensures r == Success(SearchResult(1, [course]))
  {
    assert !IsWhitespace(p.keyword.value[0]);
    assert KeywordPart(p.keyword) == [Either(Contains(Title, "math"), Contains(Description, "math"))];
    assert CriteriaFor(p) == KeywordPart(p.keyword) + [] + [] + [] + [] + [];
    assert CriteriaFor(p) == [Either(Contains(Title, "math"), Contains(Description, "math"))];
    var store := q => Success(SearchHits(1, [SearchHit(course)]));
    r, sent := Search(store, p);
    assert ToSearchResult(SearchHits(1, [SearchHit(course)])).courses == [course];
  }

  /** Empty results (testSearch_WithEmptyResults): a store reporting 0 hits
      and no hits gives total 0 and no courses. */
  method EmptyResultsScenario(p: SearchParams) returns (r: Result<SearchResult, SearchError>)
    requires p == SearchParams(Some("nonexistent"), None, None, None, None, None, None, None, Some("nextSessionDate"), 0, 10)
    ensures r == Success(SearchResult(0, []))
  {
    var sent;
    r, sent := Search(q => Success(SearchHits(0, [])), p);
  }
}
