/** A person as the program loads them: a name and the key sets of the
    three list exports of their archive. */
module People {
  import opened Results
  import opened Export

  datatype Person = Person(name: string, watched: set<string>, liked: set<string>, watchlist: set<string>)

  /** The three exports of an archive, in the order they are read. */
  datatype ExportFile = WatchedFile | LikedFile | WatchlistFile

  /** Loading a person fails with the first export whose parse raises. */
  datatype PersonError = BadExport(file: ExportFile, cause: LoadError)

  /** Loading a person from the decoded texts of their three exports. Each
      list holds the keys of its export's data lines; the exports are read
      watched, liked, watchlist, and the first that raises ends the load. */
  function LoadPerson(name: string, watchedText: string, likedText: string, watchlistText: string)
    : (r: Result<Person, PersonError>)
    ensures r.Ok? <==>
      FromCsvText(watchedText).Ok? && FromCsvText(likedText).Ok? && FromCsvText(watchlistText).Ok?
    ensures r.Ok? ==>
      && r.value.name == name
      && r.value.watched == KeySet(DataLines(watchedText))
      && r.value.liked == KeySet(DataLines(likedText))
      && r.value.watchlist == KeySet(DataLines(watchlistText))
    ensures r.Err? && r.error.file == WatchedFile ==>
      FromCsvText(watchedText) == Err(r.error.cause)
    ensures r.Err? && r.error.file == LikedFile ==>
      FromCsvText(watchedText).Ok? && FromCsvText(likedText) == Err(r.error.cause)
    ensures r.Err? && r.error.file == WatchlistFile ==>
      FromCsvText(watchedText).Ok? && FromCsvText(likedText).Ok? &&
      FromCsvText(watchlistText) == Err(r.error.cause)
  {
    match FromCsvText(watchedText)
    case Err(e) => Err(BadExport(WatchedFile, e))
    case Ok(watched) =>
      match FromCsvText(likedText)
      case Err(e) => Err(BadExport(LikedFile, e))
      case Ok(liked) =>
        match FromCsvText(watchlistText)
        case Err(e) => Err(BadExport(WatchlistFile, e))
        case Ok(watchlist) => Ok(Person(name, watched, liked, watchlist))
  }
}
