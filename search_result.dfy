/** The payload of a search: the store's count of all matching courses and
    the courses of the requested page. */
module SearchResults {
  import opened JavaLang
  import opened CourseDocuments

  datatype SearchResult = SearchResult(total: Int64, courses: seq<Course>)
}
