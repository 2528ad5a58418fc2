/** The records the catalog works with: an upstream film and the browsing filters. */
module FilmTypes {

  /** A film as the upstream catalog API returns it; every numeric field arrives as text. */
  datatype Film = Film(
    id: string,
    title: string,
    original_title: string,
    original_title_romanised: string,
    image: string,
    movie_banner: string,
    description: string,
    director: string,
    producer: string,
    release_date: string,
    running_time: string,
    rt_score: string
  )

  /**
   * The browsing configuration. `sort` is kept as the text it arrives as:
   * a value outside the three known options is possible at run time.
   */
  datatype FilmFilters = FilmFilters(
    search: string,
    directors: seq<string>,
    producers: seq<string>,
    years: seq<string>,
    minScore: int,
    page: int,
    pageSize: int,
    sort: string
  )
}
