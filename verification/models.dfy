/** The Article resource and Go's machine integer (internal/models/article.go). */
module Models {

  const MinInt64: int := -0x8000_0000_0000_0000
  const MaxInt64: int := 0x7fff_ffff_ffff_ffff

  /** Go's `int` on a 64-bit platform. */
  type Int64 = x: int | MinInt64 <= x <= MaxInt64

  /** Go's `x++` on an `int`: two's-complement arithmetic, so the result is the
      one 64-bit value congruent to `x + 1` modulo 2^64. */
  function Increment(x: Int64): (r: Int64)
    ensures (r - x - 1) % 0x1_0000_0000_0000_0000 == 0
    ensures x < MaxInt64 ==> r > x
  {
    if x == MaxInt64 then MinInt64 else x + 1
  }

  /** A stored article. Fields appear in the order the Go struct declares them. */
  datatype Article = Article(userID: Int64, articleID: Int64, title: string, body: string)

  /** The payload of a create request: an article without an id. */
  datatype NewArticle = NewArticle(userID: Int64, title: string, body: string)

  /** Go's zero value `models.Article{}`: every field zero or empty. */
  const ZeroArticle: Article := Article(0, 0, "", "")
}
