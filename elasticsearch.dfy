/** The part of the Spring Data Elasticsearch query library the search core
    uses, as values: criteria clauses, sorts, page requests, queries and the
    hits a query returns. `Holds` gives each clause the meaning the core
    relies on; how the store matches analysed text, ranks hits and orders
    ties stays outside the model, so text containment is a parameter. */
module Elasticsearch {
  import opened Wrappers
  import opened JavaLang
  import opened CourseDocuments

  /** The document fields the core puts in criteria and sorts. */
  datatype Field = Title | Description | Category | Type | MinAge | Price | NextSessionDate

  /** A value a criterion compares a field with. */
  datatype Value = Text(s: string) | Whole(n: int) | Decimal(r: real) | Instant(t: int)

  /** The value a course holds in a field. */
  function FieldValue(course: Course, f: Field): Value {
    match f
    case Title => Text(course.title)
    case Description => Text(course.description)
    case Category => Text(course.category)
    case Type => Text(course.courseType)
    case MinAge => Whole(course.minAge)
    case Price => Decimal(course.price)
    case NextSessionDate => Instant(course.nextSessionDate)
  }

  /** One criterion. `Between` is a field criterion narrowed by
      `greaterThanEqual` (lower) and/or `lessThanEqual` (upper); `Either` is
      an or-group of two criteria. */
  datatype Clause =
    | Contains(field: Field, text: string)
    | Is(field: Field, value: Value)
    | Between(field: Field, lower: Option<Value>, upper: Option<Value>)
    | Either(left: Clause, right: Clause)

  /** `a <= b` for two values of the same kind; values of different kinds
      are not ordered. */
  predicate AtMost(a: Value, b: Value) {
    match (a, b)
    case (Whole(x), Whole(y)) => x <= y
    case (Decimal(x), Decimal(y)) => x <= y
    case (Instant(x), Instant(y)) => x <= y
    case _ => false
  }

  /** Whether a course satisfies a clause; `contains(text, word)` is the
      store's own test that analysed text contains a word. */
  predicate Holds(c: Clause, course: Course, contains: (string, string) -> bool) {
    match c
    case Contains(f, word) => FieldValue(course, f).Text? && contains(FieldValue(course, f).s, word)
    case Is(f, v) => FieldValue(course, f) == v
    case Between(f, lo, hi) =>
      && (lo.Some? ==> AtMost(lo.value, FieldValue(course, f)))
      && (hi.Some? ==> AtMost(FieldValue(course, f), hi.value))
    case Either(a, b) => Holds(a, course, contains) || Holds(b, course, contains)
  }

  /** Whether a course satisfies a conjunction of clauses. */
  predicate HoldsAll(cs: seq<Clause>, course: Course, contains: (string, string) -> bool) {
    forall i :: 0 <= i < |cs| ==> Holds(cs[i], course, contains)
  }

  lemma HoldsAllAppend(a: seq<Clause>, b: seq<Clause>, course: Course, contains: (string, string) -> bool)
    ensures HoldsAll(a + b, course, contains) <==> HoldsAll(a, course, contains) && HoldsAll(b, course, contains)
  {
    if HoldsAll(a, course, contains) && HoldsAll(b, course, contains) {
      forall i | 0 <= i < |a + b| ensures Holds((a + b)[i], course, contains) {
        if i >= |a| { assert (a + b)[i] == b[i - |a|]; }
      }
    }
    if HoldsAll(a + b, course, contains) {
      forall i | 0 <= i < |a| ensures Holds(a[i], course, contains) {
        assert (a + b)[i] == a[i];
      }
      forall i | 0 <= i < |b| ensures Holds(b[i], course, contains) {
        assert (a + b)[|a| + i] == b[i];
      }
    }
  }

  lemma HoldsAllOne(c: Clause, course: Course, contains: (string, string) -> bool)
    ensures HoldsAll([c], course, contains) <==> Holds(c, course, contains)
  {
    assert [c][0] == c;
  }

  datatype Direction = Asc | Desc

  /** `Sort.by(direction, field)`. */
  datatype Sort = SortBy(direction: Direction, field: Field)

  /** A zero-based page index and a page size. */
  datatype PageRequest = PageRequest(page: nat, size: nat)

  /** `PageRequest.of(page, size)`, which refuses a negative page index and a
      page size below one with an `IllegalArgumentException`. */
  function PageRequestOf(page: Int32, size: Int32): (r: Result<PageRequest, string>)
    ensures r.Success? <==> 0 <= page && 1 <= size
    ensures r.Success? ==> r.value.page == page && r.value.size == size
    ensures page < 0 ==> r == Failure("Page index must not be less than zero")
    ensures 0 <= page && size < 1 ==> r == Failure("Page size must not be less than one")
  {
    if page < 0 then Failure("Page index must not be less than zero")
    else if size < 1 then Failure("Page size must not be less than one")
    else Success(PageRequest(page, size))
  }

  /** The message `Criteria.contains` throws, as an
      `InvalidDataAccessApiUsageException`, for a text with a space in it. */
  function ContainsRefusal(text: string): string {
    "Cannot constructQuery '*\"" + text + "\"*'. Use expression or multiple clauses instead."
  }

  /** `new Criteria(f).contains(text)`: a wildcard containment cannot span
      words, so a text holding a space (U+0020; other whitespace is let
      through) is refused. */
  function ContainsOf(f: Field, text: string): (r: Result<Clause, string>)
    ensures r.Success? <==> ' ' !in text
    ensures r.Success? ==> r.value == Contains(f, text)
    ensures r.Failure? ==> r.error == ContainsRefusal(text)
  {
    if ' ' in text then Failure(ContainsRefusal(text)) else Success(Contains(f, text))
  }

  /** A criteria query: the conjunction of `criteria`, the page to return,
      and the sorts in the order they were added. */
  datatype Query = Query(criteria: seq<Clause>, pageable: PageRequest, sorts: seq<Sort>)

  /** One hit; only its content is used by the core. */
  datatype SearchHit = SearchHit(content: Course)

  /** The store's answer: the total number of matching documents and the
      hits of the requested page, in store order. */
  datatype SearchHits = SearchHits(totalHits: Int64, hits: seq<SearchHit>)
}
