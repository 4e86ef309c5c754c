/** The in-memory movie collection and the array operations the router's
    handlers apply to it: `find`, `findIndex`, the object spread of an
    update, `splice`, `filter`, `slice` and `map`. */
module MovieCollection {
  import opened Wrappers
  import opened Text
  import opened MovieSchema

  /** `movies.find(m => m.id === id)`: the first record with that id. */
  function Find(ms: seq<Movie>, id: int): (r: Option<Movie>)
    ensures r.None? <==> forall k :: 0 <= k < |ms| ==> ms[k].id != id
    ensures r.Some? ==> r.value in ms && r.value.id == id
  {
    if ms == [] then None
    else if ms[0].id == id then Some(ms[0])
    else Find(ms[1..], id)
  }

  /** `movies.findIndex(m => m.id === id)`: the index of the first record with
      that id, or -1 when there is none. */
  function FindIndex(ms: seq<Movie>, id: int): (r: int)
    ensures -1 <= r < |ms|
    ensures r == -1 <==> forall k :: 0 <= k < |ms| ==> ms[k].id != id
    ensures r >= 0 ==> ms[r].id == id && forall k :: 0 <= k < r ==> ms[k].id != id
  {
    if ms == [] then -1
    else if ms[0].id == id then 0
    else
      var k := FindIndex(ms[1..], id);
      if k == -1 then -1 else k + 1
  }

  /** `find` and `findIndex` agree: `find` yields the record at the index
      `findIndex` reports, so a handler that has found a record always gets a
      valid index for it. */
  lemma {:induction false} FindIsAtFindIndex(ms: seq<Movie>, id: int)
    ensures Find(ms, id) == if FindIndex(ms, id) == -1 then None else Some(ms[FindIndex(ms, id)])
  {
    if ms != [] && ms[0].id != id {
      FindIsAtFindIndex(ms[1..], id);
    }
  }

  /** Looking up in a concatenation looks in the front part first. */
  lemma {:induction false} FindInConcat(a: seq<Movie>, b: seq<Movie>, id: int)
    ensures Find(a + b, id) == if Find(a, id).Some? then Find(a, id) else Find(b, id)
  {
    if a != [] {
      assert (a + b)[1..] == a[1..] + b;
      FindInConcat(a[1..], b, id);
    } else {
      assert a + b == b;
    }
  }

  /** The value one key takes in `{ ...previous, ...body }`. */
  function Pick<T>(present: Option<T>, previous: T): T
  {
    if present.Some? then present.value else previous
  }

  /** The value an optional key takes in `{ ...previous, ...body }`. */
  function PickOptional<T>(present: Option<T>, previous: Option<T>): Option<T>
  {
    if present.Some? then present else previous
  }

  /** `{ ...movie, ...body }`: every key the body carries replaces the
      record's value, every other key keeps it, and the id is untouched. */
  function Merge(m: Movie, b: Body): (r: Movie)
    ensures r.id == m.id
    ensures b.title.Some? ==> r.title == b.title.value
    ensures b.title.None? ==> r.title == m.title
    ensures b.director.Some? ==> r.director == b.director.value
    ensures b.director.None? ==> r.director == m.director
    ensures b.releaseYear.Some? ==> r.releaseYear == b.releaseYear.value
    ensures b.releaseYear.None? ==> r.releaseYear == m.releaseYear
    ensures b.genre.Some? ==> r.genre == b.genre.value
    ensures b.genre.None? ==> r.genre == m.genre
    ensures b.rating.Some? ==> r.rating == b.rating.value
    ensures b.rating.None? ==> r.rating == m.rating
    ensures b.durationMinutes.Some? ==> r.durationMinutes == b.durationMinutes.value
    ensures b.durationMinutes.None? ==> r.durationMinutes == m.durationMinutes
    ensures b.language.Some? ==> r.language == b.language.value
    ensures b.language.None? ==> r.language == m.language
    ensures r.createdAt == (if b.createdAt.Some? then b.createdAt else m.createdAt)
    ensures r.updatedAt == (if b.updatedAt.Some? then b.updatedAt else m.updatedAt)
    ensures r.ip == (if b.ip.Some? then b.ip else m.ip)
  {
    Movie(m.id, Pick(b.title, m.title), Pick(b.director, m.director),
          Pick(b.releaseYear, m.releaseYear), Pick(b.genre, m.genre),
          Pick(b.rating, m.rating), Pick(b.durationMinutes, m.durationMinutes),
          Pick(b.language, m.language),
          PickOptional(b.createdAt, m.createdAt), PickOptional(b.updatedAt, m.updatedAt),
          PickOptional(b.ip, m.ip))
  }

  /** A body that passed validation carries every business field, so merging
      it keeps nothing of the old record but its id, and its `created_at`
      when the body has none. */
  lemma MergeOfCompleteBody(m: Movie, b: Body)
    requires HasBusinessFields(b) && b.updatedAt.Some? && b.ip.Some?
    ensures Merge(m, b) == WithId(b, m.id).(createdAt := if b.createdAt.Some? then b.createdAt else m.createdAt)
  {
  }

  /** `movies.splice(i, 1)` on a valid index: the record at `i` is taken out,
      the others keep their order. */
  function RemoveAt(ms: seq<Movie>, i: nat): (r: seq<Movie>)
    requires i < |ms|
    ensures |r| == |ms| - 1
    ensures forall k :: 0 <= k < i ==> r[k] == ms[k]
    ensures forall k :: i <= k < |r| ==> r[k] == ms[k + 1]
  {
    ms[..i] + ms[i + 1..]
  }

  /** Removing one record loses exactly that record and no other. */
  lemma RemoveAtMultiset(ms: seq<Movie>, i: nat)
    requires i < |ms|
    ensures multiset(RemoveAt(ms, i)) + multiset{ms[i]} == multiset(ms)
  {
    assert ms == ms[..i] + [ms[i]] + ms[i + 1..];
  }

  /** `a` is `b` with some elements left out, the rest in their order. */
  predicate IsSubsequence<T(==)>(a: seq<T>, b: seq<T>)
    decreases |b|
  {
    a == [] || (b != [] && ((a[0] == b[0] && IsSubsequence(a[1..], b[1..])) || IsSubsequence(a, b[1..])))
  }

  lemma {:induction false} SubsequenceReflexive<T>(s: seq<T>)
    ensures IsSubsequence(s, s)
    decreases |s|
  {
    if s != [] {
      SubsequenceReflexive(s[1..]);
    }
  }

  /** A prefix of a subsequence is again a subsequence. */
  lemma {:induction false} SubsequencePrefix<T>(a: seq<T>, b: seq<T>, k: nat)
    requires IsSubsequence(a, b) && k <= |a|
    ensures IsSubsequence(a[..k], b)
    decreases |b|
  {
    if k > 0 {
      if a[0] == b[0] && IsSubsequence(a[1..], b[1..]) {
        SubsequencePrefix(a[1..], b[1..], k - 1);
        assert a[..k][1..] == a[1..][..k - 1];
      } else {
        SubsequencePrefix(a, b[1..], k);
      }
    }
  }

  /** Removing one record keeps the others in their relative order. */
  lemma {:induction false} RemoveAtIsSubsequence(ms: seq<Movie>, i: nat)
    requires i < |ms|
    ensures IsSubsequence(RemoveAt(ms, i), ms)
    decreases i
  {
    if i == 0 {
      SubsequenceReflexive(ms[1..]);
      assert RemoveAt(ms, 0) == ms[1..];
    } else {
      RemoveAtIsSubsequence(ms[1..], i - 1);
      var r, rest := RemoveAt(ms, i), RemoveAt(ms[1..], i - 1);
      assert r[0] == ms[0];
      assert r[1..] == rest by {
        assert ms[1..][..i - 1] == ms[1..i] && ms[1..][i..] == ms[i + 1..];
      }
    }
  }

  /** The list filter's test: the lowered genre contains the lowered filter. */
  predicate GenreMatches(m: Movie, filter: string): (matches: bool)
    ensures matches <==> exists i: nat :: OccursAt(ToLower(m.genre), ToLower(filter), i)
  {
    GenreOccurs(m, filter);
    Includes(ToLower(m.genre), ToLower(filter))
  }

  /** `IncludesIffOccurs` for a record's lowered genre and a lowered filter. */
  lemma GenreOccurs(m: Movie, filter: string)
    ensures Includes(ToLower(m.genre), ToLower(filter))
        <==> exists i: nat :: OccursAt(ToLower(m.genre), ToLower(filter), i)
  {
    IncludesIffOccurs(ToLower(m.genre), ToLower(filter));
  }

  /** `movies.filter(m => m.genre.toLowerCase().includes(filter.toLowerCase()))`. */
  function FilterByGenre(ms: seq<Movie>, filter: string): (r: seq<Movie>)
    ensures IsSubsequence(r, ms)
    ensures forall m :: m in r ==> GenreMatches(m, filter)
    ensures forall m :: m in ms && GenreMatches(m, filter) ==> m in r
    ensures forall m :: multiset(r)[m] == if GenreMatches(m, filter) then multiset(ms)[m] else 0
  {
    if ms == [] then []
    else
      var rest := FilterByGenre(ms[1..], filter);
      assert ms == [ms[0]] + ms[1..];
      if GenreMatches(ms[0], filter) then
        assert ([ms[0]] + rest)[1..] == rest;
        [ms[0]] + rest
      else
        rest
  }

  /** The empty filter keeps every record, since every genre includes "". */
  lemma {:induction false} FilterByEmptyKeepsAll(ms: seq<Movie>)
    ensures FilterByGenre(ms, "") == ms
  {
    if ms != [] {
      assert GenreMatches(ms[0], "");
      FilterByEmptyKeepsAll(ms[1..]);
    }
  }

  /** The filter ignores the case of the query: `COM` and `com` select the
      same records. */
  lemma {:induction false} FilterIgnoresCase(ms: seq<Movie>, f: string, g: string)
    requires ToLower(f) == ToLower(g)
    ensures FilterByGenre(ms, f) == FilterByGenre(ms, g)
  {
    if ms != [] {
      FilterIgnoresCase(ms[1..], f, g);
    }
  }

  /** The index at which `slice(0, end)` stops on a sequence of length `len`:
      a negative end counts back from the length. */
  function SliceEnd(len: nat, end: int): (k: nat)
    ensures k <= len
  {
    if end < 0 then (if len + end > 0 then len + end else 0)
    else if end < len then end
    else len
  }

  /** `movies.slice(0, end)`. */
  function SliceTo(ms: seq<Movie>, end: int): (r: seq<Movie>)
    ensures |r| <= |ms| && r == ms[..|r|]
    ensures end >= 0 ==> |r| == if end < |ms| then end else |ms|
    ensures end < 0 ==> |r| == if |ms| + end > 0 then |ms| + end else 0
  {
    ms[..SliceEnd(|ms|, end)]
  }

  /** `movies.map(m => ({ ...m, language, updated_at: now }))`. */
  function WithLanguage(ms: seq<Movie>, language: string, now: string): (r: seq<Movie>)
    ensures |r| == |ms|
    ensures forall k :: 0 <= k < |ms| ==> r[k] == ms[k].(language := language, updatedAt := Some(now))
  {
    if ms == [] then []
    else [ms[0].(language := language, updatedAt := Some(now))] + WithLanguage(ms[1..], language, now)
  }

  /** The bulk update touches only `language` and `updated_at`: every
      record keeps its id and its place. */
  lemma WithLanguageKeepsIds(ms: seq<Movie>, language: string, now: string, id: int)
    ensures FindIndex(WithLanguage(ms, language, now), id) == FindIndex(ms, id)
  {
    var r := WithLanguage(ms, language, now);
    var i := FindIndex(ms, id);
    var j := FindIndex(r, id);
    assert forall k :: 0 <= k < |ms| ==> r[k].id == ms[k].id;
    if i >= 0 && j >= 0 {
      assert !(i < j) && !(j < i);
    }
  }

  /** No two records share an id. */
  predicate UniqueIds(ms: seq<Movie>)
  {
    forall i, j :: 0 <= i < j < |ms| ==> ms[i].id != ms[j].id
  }

  /** The ids are 1, 2, ..., n in order: the state a store reaches by creates
      alone, starting from empty. */
  predicate DenseIds(ms: seq<Movie>)
  {
    forall i :: 0 <= i < |ms| ==> ms[i].id == i + 1
  }

  lemma DenseIdsAreUnique(ms: seq<Movie>)
    requires DenseIds(ms)
    ensures UniqueIds(ms)
  {
  }

  /** Appending a record with id `length + 1` keeps the ids dense. */
  lemma AppendNextIdKeepsDense(ms: seq<Movie>, m: Movie)
    requires DenseIds(ms) && m.id == |ms| + 1
    ensures DenseIds(ms + [m])
  {
  }

  /** Appending keeps the ids unique exactly when the new id is not taken. */
  lemma AppendKeepsUniqueIff(ms: seq<Movie>, m: Movie)
    requires UniqueIds(ms)
    ensures UniqueIds(ms + [m]) <==> Find(ms, m.id).None?
  {
    var r := ms + [m];
    if UniqueIds(r) {
      forall k | 0 <= k < |ms|
        ensures ms[k].id != m.id
      {
        assert r[k] == ms[k] && r[|ms|] == m;
      }
    }
  }

  /** A created record is found under its id when that id was free. */
  lemma CreateThenFind(ms: seq<Movie>, m: Movie)
    requires Find(ms, m.id).None?
    ensures Find(ms + [m], m.id) == Some(m)
  {
    FindInConcat(ms, [m], m.id);
  }

  /** When the id of a created record is already taken, a lookup of that id
      still yields the older record: the new one is shadowed. */
  lemma CreateUnderTakenIdIsShadowed(ms: seq<Movie>, m: Movie)
    requires Find(ms, m.id).Some?
    ensures Find(ms + [m], m.id) == Find(ms, m.id)
  {
    FindInConcat(ms, [m], m.id);
  }

  /** After deleting any record but the last from a store whose ids are
      1..n, the id the next create assigns (length + 1) is the id of the
      record that is now last: the ids collide. */
  lemma DeleteThenNextIdCollides(ms: seq<Movie>, id: int)
    requires DenseIds(ms) && 1 <= id < |ms|
    ensures FindIndex(ms, id) == id - 1
    ensures var r := RemoveAt(ms, id - 1);
      r[|r| - 1].id == |r| + 1 && Find(r, |r| + 1).Some?
  {
    assert ms[id - 1].id == id;
    var r := RemoveAt(ms, id - 1);
    assert r[|r| - 1] == ms[|ms| - 1];
  }

  /** Replacing the first record with an id by one with the same id makes a
      lookup of that id yield the replacement. */
  lemma {:induction false} ReplaceFirstThenFind(ms: seq<Movie>, id: int, x: Movie)
    requires FindIndex(ms, id) >= 0 && x.id == id
    ensures Find(ms[FindIndex(ms, id) := x], id) == Some(x)
  {
    var i := FindIndex(ms, id);
    if ms[0].id != id {
      var tail := ms[1..];
      assert FindIndex(tail, id) == i - 1;
      ReplaceFirstThenFind(tail, id, x);
      assert ms[i := x][1..] == tail[i - 1 := x];
    }
  }

  /** An update is seen by the next lookup of the same id. */
  lemma UpdateThenFind(ms: seq<Movie>, id: int, b: Body)
    requires FindIndex(ms, id) >= 0
    ensures var i := FindIndex(ms, id);
      Find(ms[i := Merge(ms[i], b)], id) == Some(Merge(ms[i], b))
  {
    var i := FindIndex(ms, id);
    ReplaceFirstThenFind(ms, id, Merge(ms[i], b));
  }

  /** After removing the first record with an id, a lookup of that id finds
      the next record with it, if any. */
  lemma DeleteThenFind(ms: seq<Movie>, id: int)
    requires FindIndex(ms, id) >= 0
    ensures var i := FindIndex(ms, id);
      Find(RemoveAt(ms, i), id) == Find(ms[i + 1..], id)
  {
    var i := FindIndex(ms, id);
    assert RemoveAt(ms, i) == ms[..i] + ms[i + 1..];
    FindInConcat(ms[..i], ms[i + 1..], id);
  }

  /** With unique ids, a deleted id is gone. */
  lemma DeleteUniqueThenNotFound(ms: seq<Movie>, id: int)
    requires UniqueIds(ms) && FindIndex(ms, id) >= 0
    ensures Find(RemoveAt(ms, FindIndex(ms, id)), id).None?
  {
    var i := FindIndex(ms, id);
    DeleteThenFind(ms, id);
    var rest := ms[i + 1..];
    forall k | 0 <= k < |rest|
      ensures rest[k].id != id
    {
      assert rest[k] == ms[i + 1 + k];
    }
  }
}
