/** The catalog: an ordered sequence of movie records, the identifier allocator
    (obtenerSiguienteId) and the lookup by identifier the update handler performs. */
module Catalog {
  import opened Wrappers

  /** One movie as stored in the JSON file; the field names are the file's keys. */
  datatype Movie = Movie(id: int, name: string, artista: string, ano: int)

  /** The identifiers of a collection, position by position. */
  function Ids(s: seq<Movie>): (r: seq<int>)
    ensures |r| == |s|
    ensures forall i :: 0 <= i < |s| ==> r[i] == s[i].id
  {
    seq(|s|, i requires 0 <= i < |s| => s[i].id)
  }

  /** No two records of the collection share an identifier. */
  predicate UniqueIds(s: seq<Movie>) {
    forall i, j :: 0 <= i < j < |s| ==> s[i].id != s[j].id
  }

  predicate HasId(s: seq<Movie>, id: int) {
    exists i :: 0 <= i < |s| && s[i].id == id
  }

  /** The largest identifier of a non-empty collection (Math.max over the ids). */
  function MaxId(s: seq<Movie>): (r: int)
    requires |s| > 0
    ensures forall i :: 0 <= i < |s| ==> s[i].id <= r
    ensures HasId(s, r)
  {
    if |s| == 1 then s[0].id
    else
      var m := MaxId(s[1..]);
      assert forall i :: 1 <= i < |s| ==> s[i] == s[1..][i - 1];
      if s[0].id >= m then s[0].id else m
  }

  /** obtenerSiguienteId: 1 for an empty collection, otherwise one more than the
      largest identifier present. The result is never an identifier in use. */
  function NextId(s: seq<Movie>): (r: int)
    ensures forall i :: 0 <= i < |s| ==> s[i].id < r
    ensures |s| == 0 ==> r == 1
    ensures |s| > 0 ==> HasId(s, r - 1)
  {
    if |s| == 0 then 1 else MaxId(s) + 1
  }

  /** The first position holding `id`, as Array.prototype.findIndex with the strict
      equality test `c.id === id` finds it; None where findIndex gives -1. */
  function FindIndex(s: seq<Movie>, id: int): (r: Option<nat>)
    ensures r.Some? ==> r.value < |s| && s[r.value].id == id
    ensures r.Some? ==> forall k :: 0 <= k < r.value ==> s[k].id != id
    ensures r.None? <==> !HasId(s, id)
  {
    if |s| == 0 then None
    else if s[0].id == id then Some(0)
    else
      match FindIndex(s[1..], id)
      case None =>
        assert forall k :: 1 <= k < |s| ==> s[k] == s[1..][k - 1];
        None
      case Some(j) =>
        assert s[1..][j] == s[j + 1];
        Some(j + 1)
  }

  /** `j` is the first position of `s` whose record carries `id`. */
  predicate IsFirstMatch(s: seq<Movie>, j: int, id: int) {
    && 0 <= j < |s|
    && s[j].id == id
    && forall k :: 0 <= k < j ==> s[k].id != id
  }

  /** With unique identifiers, the first match is the only match. */
  lemma FirstMatchIsOnlyMatch(s: seq<Movie>, j: int, id: int)
    requires UniqueIds(s)
    requires IsFirstMatch(s, j, id)
    ensures forall k :: 0 <= k < |s| && k != j ==> s[k].id != id
  {
  }

  /** The next identifier is fresh: appending a record that carries it keeps the
      identifiers pairwise distinct. */
  lemma AppendNextIdKeepsUnique(s: seq<Movie>, m: Movie)
    requires UniqueIds(s)
    requires m.id == NextId(s)
    ensures UniqueIds(s + [m])
  {
    var t := s + [m];
    forall i, j | 0 <= i < j < |t| ensures t[i].id != t[j].id {
      if j == |s| {
        assert t[i] == s[i];
      } else {
        assert t[i] == s[i] && t[j] == s[j];
      }
    }
  }

  /** Replacing a record by one with the same identifier leaves the identifier
      sequence as it was, and with it uniqueness. */
  lemma SameIdReplacementKeepsIds(s: seq<Movie>, i: int, m: Movie)
    requires 0 <= i < |s|
    requires m.id == s[i].id
    ensures Ids(s[i := m]) == Ids(s)
    ensures multiset(Ids(s[i := m])) == multiset(Ids(s))
    ensures UniqueIds(s) ==> UniqueIds(s[i := m])
  {
    var t := s[i := m];
    assert forall k :: 0 <= k < |s| ==> t[k].id == s[k].id;
  }

  lemma IdsAppend(s: seq<Movie>, m: Movie)
    ensures Ids(s + [m]) == Ids(s) + [m.id]
  {
    assert forall i :: 0 <= i < |s| ==> (s + [m])[i] == s[i];
  }

  /** A record appended with an identifier larger than all others is found by
      that identifier, at the end. */
  lemma FindAppendedFresh(s: seq<Movie>, m: Movie)
    requires forall i :: 0 <= i < |s| ==> s[i].id < m.id
    ensures FindIndex(s + [m], m.id) == Some(|s|)
  {
    var t := s + [m];
    assert t[|s|].id == m.id;
    assert forall k :: 0 <= k < |s| ==> t[k] == s[k];
  }

  /** Lookup by identifier depends only on the identifiers, position by position. */
  lemma {:induction false} FindIndexSameIds(s: seq<Movie>, t: seq<Movie>, id: int)
    requires Ids(s) == Ids(t)
    ensures FindIndex(s, id) == FindIndex(t, id)
    decreases |s|
  {
    assert |s| == |Ids(s)| == |Ids(t)| == |t|;
    if |s| > 0 {
      assert s[0].id == Ids(s)[0] == Ids(t)[0] == t[0].id;
      if s[0].id != id {
        assert Ids(s[1..]) == Ids(s)[1..] == Ids(t)[1..] == Ids(t[1..]);
        FindIndexSameIds(s[1..], t[1..], id);
      }
    }
  }
}
