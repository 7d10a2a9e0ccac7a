/**
 * The two stored records, `Movie` and `User`, with the defaults a new record
 * gets, and the import-time clock reading the rest of the program uses.
 */
module Models {
  import opened Wrappers

  /** A `datetime` value; only its year is read back by the program. */
  datatype DateTime = DateTime(year: int, month: int, day: int, hour: int, minute: int, second: int, microsecond: int)

  /** A movie document of the `movie` collection. */
  datatype Movie = Movie(
    _id: string,
    title: string,
    director: string,
    year: int,
    cast: seq<string>,
    series: seq<string>,
    lastWatched: Option<DateTime>,
    rating: int,
    tags: seq<string>,
    description: Option<string>,
    videoLink: Option<string>)
  {
    /** The read-only `id` property. */
    function Id(): string {
      _id
    }
  }

  /** A user document of the `users` collection; `password` holds the salted hash. */
  datatype User = User(
    _id: string,
    name: string,
    email: string,
    password: string,
    confirmed: bool,
    movies: seq<string>)
  {
    /** The read-only `id` property. */
    function Id(): string {
      _id
    }
  }

  /**
   * `Movie(_id=..., title=..., director=..., year=...)`: a movie with only
   * its required fields given, everything else at the dataclass defaults.
   */
  function NewMovie(id: string, title: string, director: string, year: int): (m: Movie)
    ensures m.Id() == id && m.title == title && m.director == director && m.year == year
    ensures m.cast == [] && m.series == [] && m.tags == []
    ensures m.rating == 0
    ensures m.lastWatched == None && m.description == None && m.videoLink == None
  {
    Movie(id, title, director, year, [], [], None, 0, [], None, None)
  }

  /**
   * `User(_id=..., name=..., email=..., password=...)`: a user that is not
   * confirmed yet and owns no movies.
   */
  function NewUser(id: string, name: string, email: string, passwordHash: string): (u: User)
    ensures u.Id() == id && u.name == name && u.email == email && u.password == passwordHash
    ensures !u.confirmed && u.movies == []
  {
    User(id, name, email, passwordHash, false, [])
  }

  /**
   * What the document store keeps of a `datetime`: a BSON date counts whole
   * milliseconds, so the encoder drops the microseconds below a millisecond
   * and every other field is kept.
   */
  function StoredDateTime(d: DateTime): (r: DateTime)
    ensures r.(microsecond := d.microsecond) == d
    ensures r.microsecond % 1000 == 0
    ensures d.microsecond - 1000 < r.microsecond <= d.microsecond
    ensures d.microsecond % 1000 == 0 ==> r == d
  {
    d.(microsecond := d.microsecond - d.microsecond % 1000)
  }

  /** `current_year`: the year of the `current_day` reading taken at import. */
  function CurrentYear(currentDay: DateTime): int {
    currentDay.year
  }
}
