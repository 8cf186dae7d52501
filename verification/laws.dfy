/** Properties that relate the handlers to the catalog's invariants and to each
    other: identifier uniqueness, which positions change, what an unreadable file
    leads to, and the PUT handler as written against its evident intent. */
module Laws {
  import opened Wrappers
  import opened Text
  import opened Catalog
  import opened Store
  import opened Handlers

  /** Create keeps identifiers pairwise distinct. */
  lemma CreateKeepsIdsUnique(input: Input, stored: Option<seq<Movie>>, saveOk: bool)
    requires UniqueIds(Load(stored))
    ensures Create(input, stored, saveOk).write.Some? ==>
              UniqueIds(Create(input, stored, saveOk).write.value)
  {
    var r := Create(input, stored, saveOk);
    if r.write.Some? {
      var s := Load(stored);
      var w := r.write.value;
      assert w == s + [w[|s|]];
      AppendNextIdKeepsUnique(s, w[|s|]);
    }
  }

  /** Create only appends: the identifiers written are the old ones followed by the
      next identifier. */
  lemma CreateAppendsOneId(input: Input, stored: Option<seq<Movie>>, saveOk: bool)
    requires Valid(input)
    ensures Ids(Create(input, stored, saveOk).write.value)
              == Ids(Load(stored)) + [NextId(Load(stored))]
  {
    var s := Load(stored);
    var w := Create(input, stored, saveOk).write.value;
    assert w == s + [w[|s|]];
    IdsAppend(s, w[|s|]);
  }

  /** The created record is the one a later lookup by its identifier finds, at the
      end of the collection. */
  lemma CreatedIsFoundAtEnd(input: Input, stored: Option<seq<Movie>>)
    requires Valid(input)
    ensures var s := Load(stored);
            var r := Create(input, stored, true);
            r.status.Created? && FindIndex(r.write.value, r.status.movie.id) == Some(|s|)
  {
    var s := Load(stored);
    var r := Create(input, stored, true);
    var w := r.write.value;
    assert w == s + [r.status.movie];
    FindAppendedFresh(s, r.status.movie);
  }

  /** A create against an unreadable or corrupt file overwrites it with a
      one-record collection whose identifier is 1: the fail-open read turns into
      the loss of whatever the file held. */
  lemma CreateOnUnreadableFile(input: Input, saveOk: bool)
    requires Valid(input)
    ensures var r := Create(input, None, saveOk);
            && r.write.Some?
            && |r.write.value| == 1
            && r.write.value[0].id == 1
  {
  }

  /** Validation runs on the raw name, so a name made only of whitespace passes it
      and is stored as the empty string. */
  lemma BlankNameStoredEmpty(input: Input, stored: Option<seq<Movie>>)
    requires Valid(input)
    requires AllSpace(input.name.value)
    ensures Create(input, stored, true).status.Created?
    ensures Create(input, stored, true).status.movie.name == ""
  {
    TrimEmptyIffAllSpace(input.name.value);
  }

  /** Update keeps the identifier at every position, and therefore the multiset of
      identifiers and their uniqueness. */
  lemma UpdateKeepsIds(id: Option<int>, input: Input, stored: Option<seq<Movie>>, saveOk: bool)
    ensures var r := Update(id, input, stored, saveOk);
            r.write.Some? ==>
              && Ids(r.write.value) == Ids(Load(stored))
              && multiset(Ids(r.write.value)) == multiset(Ids(Load(stored)))
              && (UniqueIds(Load(stored)) ==> UniqueIds(r.write.value))
  {
    var r := Update(id, input, stored, saveOk);
    if r.write.Some? {
      var s := Load(stored);
      var i := FindIndex(s, id.value).value;
      var m := Movie(id.value, Trim(input.name.value), Trim(input.artista.value), input.ano.value);
      assert IsFirstMatch(s, i, id.value);
      assert r.write.value == s[i := m];
      SameIdReplacementKeepsIds(s, i, m);
    }
  }

  /** With unique identifiers, an update changes the one record carrying the id and
      no other. */
  lemma UpdateChangesOnlyTarget(key: int, input: Input, stored: Option<seq<Movie>>, saveOk: bool)
    requires UniqueIds(Load(stored))
    ensures var s := Load(stored);
            var r := Update(Some(key), input, stored, saveOk);
            r.write.Some? ==>
              forall j :: 0 <= j < |s| ==>
                (s[j].id != key ==> r.write.value[j] == s[j]) &&
                (s[j].id == key ==> r.write.value[j] == Movie(key, Trim(input.name.value),
                                                              Trim(input.artista.value), input.ano.value))
  {
    var s := Load(stored);
    var r := Update(Some(key), input, stored, saveOk);
    if r.write.Some? {
      var i := FindIndex(s, key).value;
      assert IsFirstMatch(s, i, key);
      FirstMatchIsOnlyMatch(s, i, key);
    }
  }

  /** Sending the same update twice leaves the collection as the first one left it. */
  lemma UpdateIdempotent(key: int, input: Input, stored: Option<seq<Movie>>)
    requires Update(Some(key), input, stored, true).write.Some?
    ensures var w := Update(Some(key), input, stored, true).write.value;
            Update(Some(key), input, Some(w), true).write == Some(w)
  {
    var s := Load(stored);
    var i := FindIndex(s, key).value;
    var m := Movie(key, Trim(input.name.value), Trim(input.artista.value), input.ano.value);
    var w := Update(Some(key), input, stored, true).write.value;
    assert w == s[i := m];
    SameIdReplacementKeepsIds(s, i, m);
    FindIndexSameIds(w, s, key);
    UpdateAtKnownIndex(key, input, w, i, true);
    assert w[i := m] == w;
  }

  /** A record created by POST can be updated by PUT under the identifier it got:
      the update replaces exactly the appended record. */
  lemma UpdateAfterCreate(a: Input, b: Input, stored: Option<seq<Movie>>, saveOk: bool)
    requires Valid(a) && Valid(b)
    ensures var s := Load(stored);
            var created := Create(a, stored, true);
            var updated := Update(Some(NextId(s)), b, created.write, saveOk);
            updated.write == Some(s + [Movie(NextId(s), Trim(b.name.value),
                                             Trim(b.artista.value), b.ano.value)])
  {
    var s := Load(stored);
    var key := NextId(s);
    CreateWritesAppended(a, stored);
    var created := Create(a, stored, true);
    UpdateOfFreshLast(s, created.status.movie, b, saveOk);
  }

  /** Updating the identifier of a record appended with a fresh identifier replaces
      that last record. */
  lemma UpdateOfFreshLast(s: seq<Movie>, last: Movie, b: Input, saveOk: bool)
    requires Valid(b)
    requires forall i :: 0 <= i < |s| ==> s[i].id < last.id
    ensures Update(Some(last.id), b, Some(s + [last]), saveOk).write
              == Some(s + [Movie(last.id, Trim(b.name.value), Trim(b.artista.value), b.ano.value)])
  {
    var w := s + [last];
    var mb := Movie(last.id, Trim(b.name.value), Trim(b.artista.value), b.ano.value);
    FindAppendedFresh(s, last);
    UpdateAtKnownIndex(last.id, b, w, |s|, saveOk);
    assert w[|s| := mb] == s + [mb];
  }

  /** A successful create writes the loaded collection followed by the record it
      reports, which carries the next identifier. */
  lemma CreateWritesAppended(input: Input, stored: Option<seq<Movie>>)
    requires Valid(input)
    ensures var s := Load(stored);
            var r := Create(input, stored, true);
            && r.status.Created?
            && r.write == Some(s + [r.status.movie])
            && r.status.movie.id == NextId(s)
  {
  }

  /** Where the lookup lands decides the write: the record at that index and only
      it is replaced. */
  lemma UpdateAtKnownIndex(key: int, b: Input, w: seq<Movie>, i: nat, saveOk: bool)
    requires Valid(b)
    requires FindIndex(w, key) == Some(i)
    ensures Update(Some(key), b, Some(w), saveOk).write
              == Some(w[i := Movie(key, Trim(b.name.value), Trim(b.artista.value), b.ano.value)])
  {
  }

  /** The PUT handler as written never completes an update. A body shaped like the
      one the frontend builds (key `ano`, so no `año`) is rejected as incomplete even where the
      intended handler would replace the record; any other body ends in a crash.
      Either way nothing is saved. */
  lemma UpdateAsWrittenRejectsFrontendBody(key: int, input: Input, stored: Option<seq<Movie>>, saveOk: bool)
    requires Valid(input)
    requires HasId(Load(stored), key)
    ensures UpdateAsWritten(Some(key), input, None, stored, saveOk) == Reply(BadRequest, None)
    ensures Update(Some(key), input, stored, saveOk).write.Some?
    ensures saveOk ==> Update(Some(key), input, stored, saveOk).status.Updated?
  {
  }

  /** One concrete instance of the discrepancy: updating the only record of a
      one-record catalog with a body shaped like the frontend's. */
  lemma UpdateAsWrittenCounterexample()
    ensures var stored := Some([Movie(1, "Akira", "Katsuhiro Otomo", 1988)]);
            var body := Input(Some("Akira (Remastered)"), Some("Katsuhiro Otomo"), Some(1988));
            && UpdateAsWritten(Some(1), body, None, stored, true).status == BadRequest
            && Update(Some(1), body, stored, true).status.Updated?
  {
    var s := [Movie(1, "Akira", "Katsuhiro Otomo", 1988)];
    assert HasId(s, 1) by { assert s[0].id == 1; }
  }

  /** An empty catalog, two creates and an update of the first record: the first
      create gets identifier 1, the second 2, and the update rewrites position 0
      while position 1 keeps the second record. */
  lemma CatalogScenario()
    ensures var r1 := Create(Akira(), Some([]), true);
            var r2 := Create(Ghost(), r1.write, true);
            var r3 := Update(Some(1), Remaster(), r2.write, true);
            && r1.status == Created(Movie(1, "Akira", "Katsuhiro Otomo", 1988))
            && r1.write == Some([Movie(1, "Akira", "Katsuhiro Otomo", 1988)])
            && r2.status == Created(Movie(2, "Ghost in the Shell", "Mamoru Oshii", 1995))
            && r3.status == Updated(Movie(1, "Akira (Remastered)", "Katsuhiro Otomo", 1988))
            && r3.write == Some([Movie(1, "Akira (Remastered)", "Katsuhiro Otomo", 1988),
                                 Movie(2, "Ghost in the Shell", "Mamoru Oshii", 1995)])
  {
    ScenarioFirstCreate();
    ScenarioSecondCreate();
    ScenarioUpdate();
  }

  function Akira(): Input {
    Input(Some("Akira"), Some("Katsuhiro Otomo"), Some(1988))
  }

  function Ghost(): Input {
    Input(Some("Ghost in the Shell"), Some("Mamoru Oshii"), Some(1995))
  }

  function Remaster(): Input {
    Input(Some("Akira (Remastered)"), Some("Katsuhiro Otomo"), Some(1988))
  }

  lemma ScenarioFirstCreate()
    ensures Create(Akira(), Some([]), true)
              == Reply(Created(Movie(1, "Akira", "Katsuhiro Otomo", 1988)),
                       Some([Movie(1, "Akira", "Katsuhiro Otomo", 1988)]))
  {
    TrimKeepsClean("Akira");
    TrimKeepsClean("Katsuhiro Otomo");
    CreateWritesAppended(Akira(), Some([]));
    assert [] + [Movie(1, "Akira", "Katsuhiro Otomo", 1988)] == [Movie(1, "Akira", "Katsuhiro Otomo", 1988)];
  }

  lemma ScenarioSecondCreate()
    ensures var m1 := Movie(1, "Akira", "Katsuhiro Otomo", 1988);
            var m2 := Movie(2, "Ghost in the Shell", "Mamoru Oshii", 1995);
            Create(Ghost(), Some([m1]), true) == Reply(Created(m2), Some([m1, m2]))
  {
    var m1 := Movie(1, "Akira", "Katsuhiro Otomo", 1988);
    var m2 := Movie(2, "Ghost in the Shell", "Mamoru Oshii", 1995);
    TrimKeepsClean("Ghost in the Shell");
    TrimKeepsClean("Mamoru Oshii");
    CreateWritesAppended(Ghost(), Some([m1]));
    assert NextId([m1]) == 2;
    assert Create(Ghost(), Some([m1]), true).status.movie == m2;
    assert [m1] + [m2] == [m1, m2];
  }

  lemma ScenarioUpdate()
    ensures var m1 := Movie(1, "Akira", "Katsuhiro Otomo", 1988);
            var m2 := Movie(2, "Ghost in the Shell", "Mamoru Oshii", 1995);
            var m1' := Movie(1, "Akira (Remastered)", "Katsuhiro Otomo", 1988);
            Update(Some(1), Remaster(), Some([m1, m2]), true) == Reply(Updated(m1'), Some([m1', m2]))
  {
    var m1 := Movie(1, "Akira", "Katsuhiro Otomo", 1988);
    var m2 := Movie(2, "Ghost in the Shell", "Mamoru Oshii", 1995);
    var m1' := Movie(1, "Akira (Remastered)", "Katsuhiro Otomo", 1988);
    TrimKeepsClean("Akira (Remastered)");
    TrimKeepsClean("Katsuhiro Otomo");
    assert Valid(Remaster());
    assert FindIndex([m1, m2], 1) == Some(0);
    assert Load(Some([m1, m2])) == [m1, m2];
    assert [m1, m2][0 := m1'] == [m1', m2];
  }
}
