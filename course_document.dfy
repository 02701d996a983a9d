/** The record held in the "courses" index. */
module CourseDocuments {
  import opened JavaLang

  /** One stored course. Prices are compared but never computed with, so a
      `Double` price is a `real`; a `ZonedDateTime` is the instant it denotes,
      counted in a fixed unit from a fixed epoch. */
  datatype Course = Course(
    id: string,
    title: string,
    description: string,
    category: string,
    courseType: string,
    gradeRange: string,
    minAge: Int32,
    maxAge: Int32,
    price: real,
    nextSessionDate: int,
    titleSuggest: string)
}
