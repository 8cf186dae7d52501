/** The bodies of the POST /peliculas and PUT /peliculas/:id handlers, with the file
    reduced to the collection it holds (`stored`, None when it cannot be read or
    parsed) and the save reduced to whether it succeeded (`saveOk`). Each handler
    returns a Reply: the status the client sees and the collection handed to
    guardarPeliculas, None when the handler never calls it. */
module Handlers {
  import opened Wrappers
  import opened Text
  import opened Catalog
  import opened Store

  /** The three body fields the handlers destructure. None stands for a field that
      is absent or null. */
  datatype Input = Input(name: Option<string>, artista: Option<string>, ano: Option<int>)

  /** JavaScript truthiness of a string field: absent, null and "" are falsy. */
  function TruthyText(v: Option<string>): (r: bool)
    ensures r <==> v !in {None, Some("")}
  {
    v.Some? && v.value != ""
  }

  /** JavaScript truthiness of a number field: absent, null and 0 are falsy. */
  function TruthyNumber(v: Option<int>): (r: bool)
    ensures r <==> v !in {None, Some(0)}
  {
    v.Some? && v.value != 0
  }

  /** The check `!name || !artista || !ano` fails. It looks at the raw values, before
      any trimming, so a name of spaces passes it. */
  function Valid(input: Input): (r: bool)
    ensures r <==> && input.name !in {None, Some("")}
                   && input.artista !in {None, Some("")}
                   && input.ano !in {None, Some(0)}
  {
    TruthyText(input.name) && TruthyText(input.artista) && TruthyNumber(input.ano)
  }

  datatype Status =
    | Created(movie: Movie)   // 201 with the new record
    | Updated(movie: Movie)   // 200 with the replaced record
    | BadRequest              // 400, a required field is falsy
    | NotFound                // 404, no record carries the id
    | SaveFailed              // 500, guardarPeliculas returned false
    | Crashed                 // 500 from the framework, the handler threw

  datatype Reply = Reply(status: Status, write: Option<seq<Movie>>)

  /** The record the handlers build from a validated body: trimmed strings, the
      year as given. */
  function Build(id: int, input: Input): (m: Movie)
    requires Valid(input)
    ensures m.id == id
    ensures m.name == Trim(input.name.value)
    ensures m.artista == Trim(input.artista.value)
    ensures m.ano == input.ano.value
  {
    Movie(id, Trim(input.name.value), Trim(input.artista.value), input.ano.value)
  }

  /** POST /peliculas. Validation comes first and rejects without loading or saving.
      A valid body appends one record with the next identifier to the loaded
      collection and saves the result; success is reported only if the save
      succeeded. */
  function Create(input: Input, stored: Option<seq<Movie>>, saveOk: bool): (r: Reply)
    ensures !Valid(input) ==> r == Reply(BadRequest, None)
    ensures r.write.Some? <==> Valid(input)
    ensures r.write.Some? ==>
              var s := Load(stored);
              var w := r.write.value;
              && |w| == |s| + 1
              && w[..|s|] == s
              && (forall i :: 0 <= i < |s| ==> s[i].id < w[|s|].id)
              && w[|s|].id == NextId(s)
              && w[|s|].name == Trim(input.name.value)
              && w[|s|].artista == Trim(input.artista.value)
              && w[|s|].ano == input.ano.value
    ensures r.status.Created? <==> Valid(input) && saveOk
    ensures r.status.Created? ==> r.status.movie == r.write.value[|Load(stored)|]
    ensures r.status.SaveFailed? <==> Valid(input) && !saveOk
    ensures !r.status.Crashed? && !r.status.NotFound? && !r.status.Updated?
  {
    if !Valid(input) then Reply(BadRequest, None)
    else
      var s := Load(stored);
      var m := Build(NextId(s), input);
      var w := s + [m];
      assert w[..|s|] == s;
      if saveOk then Reply(Created(m), Some(w)) else Reply(SaveFailed, Some(w))
  }

  /** PUT /peliculas/:id, as the handler is evidently meant to work. `id` is the
      path parameter after parseInt; None stands for NaN, which `===` never matches.
      The handler as written differs in three places, all corrected here:
        - it destructures `año` (servidor.js:142, :145, :170), while the POST
          handler (:65) and the body the frontend builds (script.js:40-44) use
          `ano`; this model reads `ano`;
        - it looks up and assigns through `canciones`, a name never declared
          (servidor.js:156, :166); this model uses the collection loaded at :153;
        - it builds the success message from `Peliculas`, also undeclared
          (servidor.js:178); the message is not modelled.
      See UpdateAsWritten for the handler as it stands. */
  function Update(id: Option<int>, input: Input, stored: Option<seq<Movie>>, saveOk: bool): (r: Reply)
    ensures !Valid(input) ==> r == Reply(BadRequest, None)
    ensures r.status.NotFound? <==> Valid(input) && (id.None? || !HasId(Load(stored), id.value))
    ensures r.write.Some? <==> Valid(input) && id.Some? && HasId(Load(stored), id.value)
    ensures r.write.Some? ==>
              var s := Load(stored);
              var w := r.write.value;
              && |w| == |s|
              && forall j :: 0 <= j < |s| ==>
                   w[j] == (if IsFirstMatch(s, j, id.value)
                            then Movie(id.value, Trim(input.name.value), Trim(input.artista.value), input.ano.value)
                            else s[j])
    ensures r.status.Updated? <==> r.write.Some? && saveOk
    ensures r.status.Updated? ==>
              r.status.movie == Movie(id.value, Trim(input.name.value), Trim(input.artista.value), input.ano.value)
    ensures r.status.Updated? ==> r.status.movie in r.write.value
    ensures r.status.SaveFailed? <==> r.write.Some? && !saveOk
    ensures !r.status.Crashed? && !r.status.Created?
  {
    if !Valid(input) then Reply(BadRequest, None)
    else
      var s := Load(stored);
      match id
      case None => Reply(NotFound, None)
      case Some(key) =>
        match FindIndex(s, key)
        case None => Reply(NotFound, None)
        case Some(i) =>
          var m := Build(key, input);
          var w := s[i := m];
          assert w[i] == m;
          if saveOk then Reply(Updated(m), Some(w)) else Reply(SaveFailed, Some(w))
  }

  /** PUT /peliculas/:id as written. The year is read from the body's `año` key
      (`accentedAno`), a key the body the frontend builds does not contain. When the check passes, the
      handler loads the collection and then reads the undeclared `canciones`
      (servidor.js:156); the ReferenceError ends it before anything is saved and
      the framework answers with a server error. */
  function UpdateAsWritten(id: Option<int>, input: Input, accentedAno: Option<int>,
                           stored: Option<seq<Movie>>, saveOk: bool): (r: Reply)
    ensures r.write == None
    ensures r.status == BadRequest || r.status == Crashed
    ensures r.status == BadRequest <==>
              !TruthyText(input.name) || !TruthyText(input.artista) || !TruthyNumber(accentedAno)
  {
    if !TruthyText(input.name) || !TruthyText(input.artista) || !TruthyNumber(accentedAno) then
      Reply(BadRequest, None)
    else
      Reply(Crashed, None)
  }
}
