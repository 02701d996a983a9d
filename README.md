# Course search: parameter validation and query construction

A Dafny model of `SearchService.search` in the course-search service. The
operation takes eleven optional parameters (keyword, age bounds, category,
type, price bounds, start date, sort token, page, size), validates them,
composes a conjunction of Elasticsearch criteria, adds one sort and the page
request, asks the document store, and turns the store's hits into a
`SearchResult` holding the store's total and the page of courses.

Files and modules (every file is one module):

- `wrappers.dfy` (`Wrappers`): `Option` for Java's nullable references, `Result` and `Outcome` for thrown exceptions.
- `java_lang.dfy` (`JavaLang`): 32- and 64-bit integer ranges, `Character.isWhitespace` and `String.isBlank`.
- `course_document.dfy` (`CourseDocuments`): the stored `CourseDocument` record.
- `search_result.dfy` (`SearchResults`): the `SearchResult` payload.
- `elasticsearch.dfy` (`Elasticsearch`): the query library as values. It holds criteria clauses, sorts, `PageRequest.of`, queries and search hits. `Holds` gives each clause its meaning over a course; the store's text containment test stays a parameter.
- `search_service.dfy` (`SearchService`): validation (`Validate`), the specification of the composed criteria (`CriteriaFor`) and of the sort (`SortFor`), hit mapping, and the imperative `Search` method with its helpers `ComposeCriteria` and `NarrowedRange`.
- `search_properties.dfy` (`SearchProperties`): lemmas that check these definitions against independent statements. One statement is the rule-by-rule reading of validation. Another is the fixed slot each kind of clause takes. The third is the set of courses a filter is meant to admit. The module also holds the scenarios of the service's tests.

Modelling choices:

- The document store is a parameter of `Search`: a total function from a query to either hits or a failure. `Search` also returns the query it sent (`None` when the store was never contacted). This is how the model states that validation happens before any query is built.
- `Search` is imperative, like the source: the criteria sequence is extended step by step, the age and price criteria are narrowed bound by bound, and the sort is appended to the built query. Its postconditions tie the outcome to the specification functions, and the lemmas state what those functions mean.
- `Double` prices are `real` and `ZonedDateTime` values are the instants they denote (an `int`), because the core only compares them.
- `PageRequest.of(page, size)` throws `IllegalArgumentException` for a negative page index or a page size below one. The model keeps that error path; it fires after validation, as in the source.
- `Criteria.contains` in Spring Data Elasticsearch refuses a text that holds a space (U+0020) with an `InvalidDataAccessApiUsageException`, because a wildcard containment cannot span words. The keyword clause is built with `contains`, so a keyword such as "math basics" passes validation and then makes `search` throw while the criteria are built, before `PageRequest.of` and before the store is asked. The model keeps that error path (`ContainsOf`, `KeywordRefused`); its message is the library's, which is not in the repository.
- The service has no `suggest` operation, although its tests call one. The exception handler turns every exception except `ConstraintViolationException`, including the validation errors, into status 500, not a client error. The handler itself is not part of this model.
- Since `Search`'s postconditions fix its outcome as a function of the parameters and the store, repeated identical searches agree (`RepeatedSearchAgrees`).

## Model

| member | source | states |
|---|---|---|
| SearchService.Search | course-search/src/main/java/com/example/coursesearch/service/SearchService.java:26-96 | A failed validation returns that rule's `IllegalArgumentException` message and never contacts the store. A keyword that `contains` refuses then returns its `InvalidDataAccessApiUsageException`, and a rejected page request after that its `IllegalArgumentException`, both without contacting the store. Otherwise exactly one query goes to the store: the composed criteria, the unchanged page and size, and exactly one sort. The result is the store's answer mapped to a `SearchResult`, and a store failure propagates. |
| SearchService.ComposeCriteria | course-search/src/main/java/com/example/coursesearch/service/SearchService.java:43-76 | The keyword's `contains` fails iff the keyword clause would be built from a keyword holding a space, with the library's message. Otherwise extending the criteria clause by clause yields exactly `CriteriaFor(p)`. |
| SearchService.NarrowedRange | course-search/src/main/java/com/example/coursesearch/service/SearchService.java:60-72 | The range criterion on a field gets a lower bound iff a lower value is given and an upper bound iff an upper value is given, each with the given value. |
| SearchService.SortFor | course-search/src/main/java/com/example/coursesearch/service/SearchService.java:81-87 | The sort is on price iff the token is `priceAsc` or `priceDesc`, and descending iff it is `priceDesc`. Every other token, and a null token, gives ascending by `nextSessionDate`. |
| SearchService.Contents | course-search/src/main/java/com/example/coursesearch/service/SearchService.java:91-93 | The course list has one entry per hit, and entry i is the content of hit i (store order kept). |
| SearchService.ToSearchResult | course-search/src/main/java/com/example/coursesearch/service/SearchService.java:89-95 | `total` is the store's total hit count, even when it differs from the page length. The courses are the hits' contents in order, and empty hits give an empty list. |
| Elasticsearch.ContainsOf | course-search/src/main/java/com/example/coursesearch/service/SearchService.java:47-48 | `contains` succeeds iff the text holds no space, and then is a containment test on the field with the text unchanged. Otherwise it fails with the library's refusal message. |
| SearchService.Validate | course-search/src/main/java/com/example/coursesearch/service/SearchService.java:98-122 | The seven guards in source order; what it reports is stated by `ValidateReportsFirstBrokenRule`, `ValidatePassesIffNoRuleBroken`, `InvertedAgeRangeRejected` and `RejectionScenarios`. |
| SearchService.Message | course-search/src/main/java/com/example/coursesearch/service/SearchService.java:100-120 | The exact `IllegalArgumentException` message of each rule; `InvertedAgeRangeRejected` and `Search` state which message a call ends with. |
| SearchService.IsSortToken | course-search/src/main/java/com/example/coursesearch/service/SearchService.java:119 | The whole-string, case-sensitive match of `^(priceAsc\|priceDesc\|nextSessionDate)$`; `AcceptedSortIsKnownToken` and `RejectionScenarios` (a wrongly cased token fails) state its use. |
| SearchService.CriteriaFor | course-search/src/main/java/com/example/coursesearch/service/SearchService.java:43-76 | The composed conjunction; its structure is stated by `CriteriaInSlotOrder` and the six clause lemmas, its meaning by `CriteriaMeaning`, and `ComposeCriteria` is proved to build it. |
| SearchService.Answer | course-search/src/main/java/com/example/coursesearch/service/SearchService.java:89-95 | A store reply becomes the mapped `SearchResult` and a store failure propagates; `Search` ends with it. |
| JavaLang.IsBlank | course-search/src/main/java/com/example/coursesearch/service/SearchService.java:45-56 | `String.isBlank`: every character is whitespace for `Character.isWhitespace`; `KeywordClause`, `CategoryClause`, `TypeClause` and `CriteriaEmptyIffUnconstrained` state its use. |
| Elasticsearch.PageRequestOf | course-search/src/main/java/com/example/coursesearch/service/SearchService.java:78-79 | The page request exists iff page >= 0 and size >= 1, and then carries page and size unchanged. Otherwise it fails with the library's message for the first bad argument. |
| Elasticsearch.HoldsAllAppend | course-search/src/main/java/com/example/coursesearch/service/SearchService.java:49 | A course satisfies a conjunction extended by `and` iff it satisfies both halves. |
| SearchProperties.ValidateReportsFirstBrokenRule | course-search/src/main/java/com/example/coursesearch/service/SearchService.java:98-122 | Validation fails with rule v iff v is broken and no rule checked before v is broken. |
| SearchProperties.ValidatePassesIffNoRuleBroken | course-search/src/main/java/com/example/coursesearch/service/SearchService.java:98-122 | Validation passes iff none of the seven rules is broken. |
| SearchProperties.InvertedAgeRangeRejected | course-search/src/main/java/com/example/coursesearch/service/SearchService.java:99-101 | Both ages present with minAge > maxAge always fails with "minAge cannot be greater than maxAge", whatever else is wrong. |
| SearchProperties.InversionReportedBeforeNegativeBound | course-search/src/main/java/com/example/coursesearch/service/SearchService.java:99-107 | With minAge = 5 and maxAge = -1 both rules are broken, and the inversion is reported. |
| SearchProperties.AcceptedSortIsKnownToken | course-search/src/main/java/com/example/coursesearch/service/SearchService.java:119-121 | A sort that passes validation is null or exactly one of `priceAsc`, `priceDesc`, `nextSessionDate`. |
| SearchProperties.CriteriaInSlotOrder | course-search/src/main/java/com/example/coursesearch/service/SearchService.java:43-76 | Clauses appear in the fixed order keyword, category, type, age, price, date, and no kind appears twice. |
| SearchProperties.KeywordClause | course-search/src/main/java/com/example/coursesearch/service/SearchService.java:45-50 | A keyword clause exists iff the keyword is non-null and non-blank. It is the OR of title-contains and description-contains on the raw keyword. |
| SearchProperties.CategoryClause | course-search/src/main/java/com/example/coursesearch/service/SearchService.java:52-54 | A category clause exists iff the category is non-null and non-blank. It is an exact match on `category`. |
| SearchProperties.TypeClause | course-search/src/main/java/com/example/coursesearch/service/SearchService.java:56-58 | A type clause exists iff the type is non-null and non-blank. It is an exact match on `type`. |
| SearchProperties.AgeClause | course-search/src/main/java/com/example/coursesearch/service/SearchService.java:60-65 | An age clause exists iff either age bound is present. It is a range on the `minAge` field, with a lower bound iff minAge is present and an upper bound iff maxAge is present. |
| SearchProperties.PriceClause | course-search/src/main/java/com/example/coursesearch/service/SearchService.java:67-72 | A price clause exists iff either price bound is present. It is a range on `price`, with a lower bound iff minPrice is present and an upper bound iff maxPrice is present. |
| SearchProperties.DateClause | course-search/src/main/java/com/example/coursesearch/service/SearchService.java:74-76 | A date clause exists iff the start date is present. It is `nextSessionDate >= startDate` with no upper bound. |
| SearchProperties.CriteriaEmptyIffUnconstrained | course-search/src/main/java/com/example/coursesearch/service/SearchService.java:43-76 | The criteria are empty iff every filter parameter is absent or blank. |
| SearchProperties.CriteriaMeaning | course-search/src/main/java/com/example/coursesearch/service/SearchService.java:43-76 | A course satisfies the composed criteria iff it passes every requested filter. Both age bounds are compared with the course's `minAge`. |
| SearchProperties.AllFiltersScenario | course-search/src/test/java/com/example/coursesearch/service/SearchServiceTest.java:78-93 | With all filters set as in the test, validation passes, six clauses are built, the sort is ascending by price, and the sample course satisfies the criteria. |
| SearchProperties.RejectionScenarios | course-search/src/test/java/com/example/coursesearch/service/SearchServiceTest.java:229-248 | An inverted age range, an inverted price range, an unknown sort token and a wrongly cased token each fail with the rule's own error. |
| SearchProperties.RepeatedSearchAgrees | course-search/src/main/java/com/example/coursesearch/service/SearchService.java:26-96 | Two identical searches against the same store give the same outcome. |
| SearchProperties.PaginationScenario | course-search/src/test/java/com/example/coursesearch/service/SearchServiceTest.java:161-176 | Keyword "math" with page 2 and size 5 sends one keyword clause, page 2, size 5 and one ascending date sort. One hit gives total 1 and that course. |
| SearchProperties.MultiWordKeywordScenario | course-search/src/main/java/com/example/coursesearch/service/SearchService.java:45-48 | The keyword "math basics" passes validation, but the search fails with the `contains` refusal for it, ahead of the invalid page index, and sends nothing to the store. |
| SearchProperties.EmptyResultsScenario | course-search/src/test/java/com/example/coursesearch/service/SearchServiceTest.java:112-125 | A store answering total 0 with no hits gives total 0 and no courses. |

## Left out

- `suggest`: the service's tests call a `suggest` operation, but `SearchService.java` has none. There is no implementation to model, so `SuggestResult` is left out as well.
- The store's own work is not modelled: relevance ranking, how analysed text "contains" a keyword, and the order of hits with equal sort keys. The store is a parameter of `Search`, and containment is a parameter of `Holds`.
- Logging (`SearchService.java` lines 22 and 39) is left out because it is a side effect only.
- `Double` semantics: NaN and negative zero are not modelled. In Java a NaN price bound passes every price guard; a `real` cannot be NaN.
- `ZonedDateTime`: only the instant is kept (time zones and formats are left out), because the core only compares dates.
- Stored documents are modelled with every field present; null fields inside a `CourseDocument` are not modelled.
- What the store throws is modelled as a failure carrying an uninterpreted message.
- `CourseIndexService.java` (index setup, JSON loading, the `titleSuggest = title` copy) is not part of this model: it is I/O at startup.
- `CourseSearchApplication.java` (bootstrap) and `CourseRepository.java` (a library interface) are not part of this model.
- `SearchController.java` is not part of this model. That covers its request defaults and bounds (page >= 0, 1 <= size <= 100) and its fallback to an empty result when the service returns null. The modelled `Search` never returns null.
- `GlobalExceptionHandler.java` (status mapping with wall-clock timestamps) is not part of this model.
- Mocking in the tests is not modelled; the tests' assertions are restated as the scenario members above.
