# Movie catalog: a Dafny model of the backend's catalog logic

The backend (`backend/servidor.js`) keeps a catalog of movies in a JSON file.
Each record is `{id, name, artista, ano}`. Three handlers work on it:

- `GET /peliculas` lists the file's contents.
- `POST /peliculas` creates a record.
- `PUT /peliculas/:id` replaces one.

Each request that passes validation loads the whole file (`leerPeliculas`). The two writing handlers then
save the whole collection back (`guardarPeliculas`). Identifiers come from
`obtenerSiguienteId`: the largest identifier plus one, or 1 for an empty
collection.

The model drops the file system and HTTP and keeps the logic in between:

- `Store.Load` is the fail-open read. The file's contents arrive as an
  `Option<seq<Movie>>`, where None stands for a missing, unreadable or unparsable
  file. None becomes the empty collection.
- The save is reduced to the boolean `guardarPeliculas` returns. It is an input,
  `saveOk`.
- `Handlers.Create` and `Handlers.Update` are the bodies of the POST and PUT
  handlers. Each returns a `Reply`: the status the client sees (`Created`,
  `Updated`, `BadRequest`, `NotFound`, `SaveFailed`, `Crashed`) and the
  collection handed to `guardarPeliculas`. That collection is None when the
  handler never saves.
- The request body is `Input(name, artista, ano)`. None stands for an absent or
  null field. The validation `!name || !artista || !ano` uses JavaScript
  falsiness: absent, null, `""` and `0` are falsy.
- `Text.Trim` is `String.prototype.trim`. It strips the ECMAScript WhiteSpace
  and LineTerminator code points.

Modules:

- `Wrappers`: the option type.
- `Text`: the trim.
- `Catalog`: records, identifiers, `NextId`, `FindIndex`.
- `Store`: the fail-open load and the listing.
- `Handlers`: the POST and PUT bodies, plus the PUT handler as written.
- `Laws`: properties that relate the operations to each other.

Two edge cases of the handlers are worth stating:

- Validation reads the raw values (servidor.js:68, :145) and trimming comes
  after, so a whitespace-only name passes and is stored as `""`
  (`Laws.BlankNameStoredEmpty`).
- A path id that `parseInt` turns into NaN gives NotFound, because
  `c.id === NaN` never holds. The model passes that id as None.

The PUT handler cannot work as written (see Findings). `Handlers.Update` models
what it evidently means to do. `Handlers.UpdateAsWritten` models the code as it
stands.

## Model

| member | source | states |
|---|---|---|
| Catalog.MaxId | backend/servidor.js:130-131 | The largest identifier of a non-empty collection bounds every identifier and is carried by some record. |
| Catalog.NextId | backend/servidor.js:123-133 | An empty collection gets 1. Otherwise the result is greater than every identifier and is one more than an identifier present, so it is max+1. |
| Catalog.FindIndex | backend/servidor.js:156-158 | The lookup finds the first position whose record has the id. It gives None exactly when no record has the id, which is findIndex's -1. |
| Catalog.AppendNextIdKeepsUnique | backend/servidor.js:80-87 | Appending a record that carries the next identifier keeps identifiers pairwise distinct. |
| Catalog.SameIdReplacementKeepsIds | backend/servidor.js:166-171 | Replacing a record with one of the same identifier keeps the identifier sequence. It also keeps its multiset and uniqueness. |
| Catalog.IdsAppend | backend/servidor.js:87 | Appending a record appends its identifier to the identifier sequence. |
| Catalog.FindAppendedFresh | backend/servidor.js:156 | A record appended with an identifier larger than all others is found by that identifier at the last position. |
| Catalog.FindIndexSameIds | backend/servidor.js:156 | Two collections with the same identifier sequence give the same lookup result for every id. |
| Text.TrimStartSpec | backend/servidor.js:81-82 | The leading-whitespace strip returns the longest suffix that does not start with whitespace. Everything it drops is whitespace. |
| Text.TrimEndSpec | backend/servidor.js:81-82 | The trailing-whitespace strip returns the longest prefix that does not end in whitespace. Everything it drops is whitespace. |
| Text.Trim | backend/servidor.js:81-82 | The trimmed string is no longer than the input and neither starts nor ends with whitespace. |
| Text.TrimEmptyIffAllSpace | backend/servidor.js:81 | Trimming yields `""` exactly when the input is all whitespace. |
| Text.TrimIsInfix | backend/servidor.js:168-169 | The trimmed text is a contiguous piece of the input. Only whitespace is cut on either side. |
| Text.TrimIdempotent | backend/servidor.js:168-169 | Trimming a trimmed string changes nothing. |
| Text.TrimKeepsClean | backend/servidor.js:81-82 | A string with no whitespace at either end is left unchanged. |
| Store.Load | backend/servidor.js:29-46 | Fail-open read. A missing, unreadable or unparsable file gives the empty collection. A readable file gives its collection unchanged. |
| Store.List | backend/servidor.js:49-52 | Listing returns the loaded collection as is. An unreadable file lists as empty. |
| Store.UnreadableLooksEmpty | backend/servidor.js:41-45 | A caller cannot tell an unreadable file from one holding `[]`. |
| Handlers.TruthyText | backend/servidor.js:68 | A string field is truthy exactly when it is present, not null and not `""`. |
| Handlers.TruthyNumber | backend/servidor.js:68 | A number field is truthy exactly when it is present, not null and not 0. |
| Handlers.Valid | backend/servidor.js:68-73 | None of `!name`, `!artista`, `!ano` holds exactly when name and artista are present and non-empty and the year is present and non-zero. It looks at the raw values, before trimming. |
| Handlers.Build | backend/servidor.js:79-84 | The record built from a validated body has the given id, the trimmed name, the trimmed artist and the year. |
| Handlers.Create | backend/servidor.js:60-102 | A falsy field gives BadRequest with no save, whatever the file holds. A valid body saves the loaded collection unchanged in place plus one last record. That record has the next identifier, the trimmed name and artist, and the year. Created is reported iff the body is valid and the save succeeds. SaveFailed is reported iff the body is valid and the save fails. |
| Handlers.Update | backend/servidor.js:137-186 | A falsy field gives BadRequest with no save. An id no record carries, or NaN, gives NotFound with no save. Otherwise a collection of the same length is saved. In it the first record carrying the id is replaced by the trimmed fields with the id kept, and every other position is untouched. Updated is reported iff the save succeeds, and it carries exactly that rebuilt record. |
| Handlers.UpdateAsWritten | backend/servidor.js:142-156 | The handler as written never saves. It answers BadRequest exactly when name, artista or the `año` key is falsy. Otherwise it crashes on the undeclared `canciones`. |
| Laws.CreateKeepsIdsUnique | backend/servidor.js:76-90 | If the loaded identifiers are pairwise distinct, so are those of the collection create saves. |
| Laws.CreateAppendsOneId | backend/servidor.js:76-90 | The identifiers saved by a create are the loaded ones followed by the next identifier. |
| Laws.CreateWritesAppended | backend/servidor.js:76-95 | A successful create saves the loaded collection followed by the record it reports, and that record has the next identifier. |
| Laws.CreatedIsFoundAtEnd | backend/servidor.js:87-95 | Looking up the created record's identifier in the saved collection finds it at the last position. |
| Laws.CreateOnUnreadableFile | backend/servidor.js:41-45 | A create against an unreadable file saves a one-record collection with identifier 1. Whatever the file held is replaced. |
| Laws.BlankNameStoredEmpty | backend/servidor.js:68-81 | A whitespace-only name passes validation and is stored as the empty string. |
| Laws.UpdateKeepsIds | backend/servidor.js:156-171 | An update keeps the identifier at every position. It therefore keeps the identifier multiset and uniqueness. |
| Laws.UpdateChangesOnlyTarget | backend/servidor.js:156-171 | With unique identifiers, an update changes the record carrying the id and leaves every other record as it was. |
| Laws.UpdateAtKnownIndex | backend/servidor.js:156-171 | When the lookup lands on position i, the saved collection is the loaded one with position i replaced by the rebuilt record. |
| Laws.UpdateIdempotent | backend/servidor.js:153-174 | Sending the same update a second time saves the collection the first one saved. |
| Laws.UpdateOfFreshLast | backend/servidor.js:156-171 | Updating the identifier of a record appended with a fresh identifier replaces that last record. |
| Laws.UpdateAfterCreate | backend/servidor.js:76-171 | A record created by POST, updated by PUT under its new identifier, leaves the earlier records plus the updated record in last place. |
| Laws.UpdateAsWrittenRejectsFrontendBody | backend/servidor.js:142-150 | Take a valid body shaped like the one the frontend builds (script.js:40-44), with no `año` key, and an id that exists. The handler as written answers BadRequest and saves nothing. The intended handler saves, and reports Updated when the save succeeds. |
| Laws.UpdateAsWrittenCounterexample | backend/servidor.js:142-150 | A concrete one-record catalog on which the as-written handler answers BadRequest and the intended one answers Updated. |
| Laws.CatalogScenario | backend/servidor.js:60-186 | Start from an empty catalog and create two records: they get identifiers 1 and 2. Updating 1 rewrites position 0 and keeps position 1. |
| Laws.ScenarioFirstCreate | backend/servidor.js:60-95 | The first create on an empty catalog gets identifier 1 and saves a one-element collection. |
| Laws.ScenarioSecondCreate | backend/servidor.js:60-95 | A create on a catalog holding identifier 1 gets identifier 2 and is appended after it. |
| Laws.ScenarioUpdate | backend/servidor.js:137-179 | Updating identifier 1 in a two-record catalog rewrites position 0 and keeps position 1. |

## Left out

- HTTP plumbing is not modelled: routing, CORS, static files, `app.listen`, the response envelope and the message strings. Only the status survives, as `Status`.
- File I/O and JSON are not modelled: `fs.readFileSync`, `fs.writeFileSync`, `JSON.parse`, `JSON.stringify`. They are foreign calls. The read is the `Option` input and the write is the `saveOk` input.
- A file that parses as JSON but is not an array of records (for example `{}`) is not modelled. Such a file is neither None nor a collection. The exception is a file holding `null`: `peliculas.length` at servidor.js:39 throws inside the `try`, so `leerPeliculas` returns `[]`, which is exactly the model's None.
- After a failed save, the state of the file is not modelled. `writeFileSync` can leave it partly written. The model only records which collection the handler tried to save.
- Body fields of the wrong JSON type are left out. A truthy non-string `name` or `artista` makes `.trim()` throw. A year sent as a string or fraction goes through `parseInt`, which can give NaN.
- Handlers.Build: the year is an unbounded integer stored as given. `parseInt` goes through the number's string form, so a year of magnitude 1e21 or more (written with an exponent) becomes the leading digits before the exponent (1e21 becomes 1, 5e21 becomes 5), and JavaScript numbers lose precision above 2^53. Neither is modelled.
- Catalog.NextId: identifiers are unbounded integers. JavaScript numbers lose precision above 2^53, where max+1 can equal max. `Math.max(...ids)` can also exceed the engine's argument limit on a huge collection. Neither is modelled.
- Catalog.NextId: records whose `id` is not a number are not modelled. `Math.max` converts each id to a number: `null` counts as 0, `true` as 1 and `"7"` as 7, arrays count as their string form (`[5]` as 5, `[]` as 0), while undefined, non-numeric strings and plain objects make the result NaN.
- Handlers.Update: the success message at servidor.js:178 reads the undeclared `Peliculas` and would throw after the save. The model returns the intended `Updated` reply and does not model the message.
- Logging through `console.log` and `console.error` is left out.
- The frontend (`frontend/script.js`) is left out: DOM, `fetch`, timers, the edit flag. Its form check tests the fields after trimming, so unlike the server it rejects a whitespace-only name (`Laws.BlankNameStoredEmpty`).
- Several processes or an outside writer sharing `peliculas.json` are left out. Within the one process started by `app.listen` (servidor.js:55), each handler runs from `leerPeliculas` to `guardarPeliculas` synchronously (`readFileSync`, `writeFileSync`, no `await` or callback in between), so one load/save cycle finishes before the next starts. That makes a pure function per request an exact model of the single-process server. Only a second writer could make two cycles take the same next identifier or lose an update.
- There is no delete operation in the backend, so none is modelled.

## Findings

| source | as written | input that shows it | evidently intended | confidence | as-written member | corrected member |
|---|---|---|---|---|---|---|
| backend/servidor.js:142-171 | The PUT handler destructures `año`, but the body the frontend builds (script.js:40-44) and the POST handler use `ano`. When that check passes it reads and assigns through the undeclared `canciones`, so it throws before saving. No update can succeed. | `PUT /peliculas/1` with `{name:"Akira (Remastered)", artista:"Katsuhiro Otomo", ano:1988}` against `[{id:1, name:"Akira", artista:"Katsuhiro Otomo", ano:1988}]` answers 400 | Read `ano`, update the collection loaded at line 153, save, answer 200 with the new record | high; not executed | Handlers.UpdateAsWritten, Laws.UpdateAsWrittenCounterexample | Handlers.Update, Laws.UpdateChangesOnlyTarget |
