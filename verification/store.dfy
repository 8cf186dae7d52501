/** The JSON file behind the catalog, reduced to what the handlers can observe.
    Reading the file and parsing it (leerPeliculas) is an `Option`: None stands for
    a missing or unreadable file and for text that is not valid JSON. Writing it
    (guardarPeliculas) is reduced to the boolean it returns, which the handlers take
    as an input. */
module Store {
  import opened Wrappers
  import opened Catalog

  /** leerPeliculas: fail-open. Whatever goes wrong while reading or parsing, the
      caller gets an empty collection and never an error. */
  function Load(stored: Option<seq<Movie>>): (r: seq<Movie>)
    ensures stored.None? ==> r == []
    ensures stored.Some? ==> r == stored.value
  {
    stored.GetOr([])
  }

  /** GET /peliculas: the loaded collection, unfiltered and in file order. */
  function List(stored: Option<seq<Movie>>): (r: seq<Movie>)
    ensures r == Load(stored)
    ensures stored.None? ==> r == []
  {
    Load(stored)
  }

  /** An unreadable file and a file holding `[]` cannot be told apart by a caller. */
  lemma UnreadableLooksEmpty()
    ensures List(None) == List(Some([]))
  {
  }
}
