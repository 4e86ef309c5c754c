/** The handlers of the movie router: the `FechaIP` middleware, and the GET,
    POST, PUT, DELETE, PDF and bulk-language routes over the store's
    collection. */
module MovieRouter {
  import opened Wrappers
  import opened Text
  import opened MovieSchema
  import opened MovieCollection

  /** The IPv6 loopback address, and the fixed address recorded in its place. */
  const Loopback: string := "::1"
  const LoopbackStandIn: string := "192.168.20.123"

  /** The client address `FechaIP` records: the loopback address is replaced
      by the stand-in, any other address is kept. */
  function RecordedAddress(address: string): (r: string)
    ensures address == Loopback ==> r == LoopbackStandIn
    ensures address != Loopback ==> r == address
    ensures r != Loopback
  {
    if address == Loopback then LoopbackStandIn else address
  }

  /** `FechaIP(isUpdate)` applied to a body: an update gets `updated_at`, a
      creation gets `created_at`, both get `ip`, and no other key changes. */
  function Enriched(b: Body, isUpdate: bool, now: string, address: string): (r: Body)
    ensures r.ip == Some(RecordedAddress(address))
    ensures isUpdate ==> r.updatedAt == Some(now) && r.createdAt == b.createdAt
    ensures !isUpdate ==> r.createdAt == Some(now) && r.updatedAt == b.updatedAt
    ensures r.(createdAt := b.createdAt, updatedAt := b.updatedAt, ip := b.ip) == b
  {
    var stamped := if isUpdate then b.(updatedAt := Some(now)) else b.(createdAt := Some(now));
    stamped.(ip := Some(RecordedAddress(address)))
  }

  /** The keys the client itself supplied that the middleware leaves alone:
      the body with the stamped keys taken out. */
  function ClientPart(b: Body, isUpdate: bool): Body
  {
    if isUpdate then b.(updatedAt := None, ip := None) else b.(createdAt := None, ip := None)
  }

  /** With a non-empty timestamp and address, an enriched body passes
      validation exactly when what the client supplied, apart from the
      stamped keys, conforms to the schema. */
  lemma EnrichedValidation(b: Body, isUpdate: bool, now: string, address: string, currentYear: int)
    requires now != "" && address != ""
    ensures Validate(Enriched(b, isUpdate, now, address), currentYear).Accepted?
        <==> Conforms(ClientPart(b, isUpdate), currentYear)
  {
    ValidateAcceptsConforming(Enriched(b, isUpdate, now, address), currentYear);
    assert RecordedAddress(address) != "";
  }

  /** An incoming request: its JSON body, which middleware may change in
      place, and the address Express reports for the caller
      (`req.ip || req.connection.remoteAddress`). */
  class Request {
    var body: Body
    const clientAddress: string

    constructor (body: Body, clientAddress: string)
      ensures this.body == body && this.clientAddress == clientAddress
    {
      this.body := body;
      this.clientAddress := clientAddress;
    }

    /** The `FechaIP(isUpdate)` middleware: stamps the body in place. */
    method StampDateAndAddress(isUpdate: bool, now: string)
      modifies this
      ensures body == Enriched(old(body), isUpdate, now, clientAddress)
    {
      if isUpdate {
        body := body.(updatedAt := Some(now));
      } else {
        body := body.(createdAt := Some(now));
      }
      body := body.(ip := Some(RecordedAddress(clientAddress)));
    }
  }

  /** Why a handler answered with an error. */
  datatype Failure = Invalid(error: ValidationError) | NotFound | InvalidLanguage
  {
    /** The HTTP status the handler sends with the failure. */
    function Status(): (code: int)
      ensures code == 400 || code == 404
      ensures code == 404 <==> this.NotFound?
    {
      match this
      case Invalid(_) => 400
      case NotFound => 404
      case InvalidLanguage => 400
    }
  }

  /** A handler's answer: the JSON it sends on success, or the failure. */
  datatype Reply<T> = Success(value: T) | Failed(failure: Failure)

  /** The `language` key of a bulk-update body. */
  datatype LanguageParam = Absent | NotAString | Str(value: string)

  /** The bulk handler's guard, `typeof language === 'string'` and
      `language.trim().length >= 2` (the empty string fails both length and
      truthiness): it accepts exactly the strings with two non-space
      characters. */
  predicate LanguageAccepted(language: LanguageParam): (accepted: bool)
    ensures accepted <==> language.Str? && HasTwoNonSpace(language.value)
  {
    if language.Str? then
      TrimmedLengthAtLeastTwo(language.value);
      |Trim(language.value)| >= 2
    else false
  }

  /** The success answer of the bulk handler. */
  datatype LanguageUpdate = LanguageUpdate(message: string, updatedCount: nat)

  const LanguageUpdatedMessage: string := "Idioma actualizado en todas las películas."

  /** The file name of a record's PDF download, `movie_<id>.pdf`: `movie_`,
      the canonical numeral of the id (no leading zero, no `-0`), and `.pdf`;
      the numeral reads back as the id. */
  function PdfFileName(id: int): (name: string)
    ensures |name| > 10 && name[..6] == "movie_" && name[|name| - 4..] == ".pdf"
    ensures IsNumeral(name[6..|name| - 4]) && NumeralValue(name[6..|name| - 4]) == id
    ensures name[6] == '0' ==> id == 0 && name == "movie_0.pdf"
    ensures name[6] == '-' ==> name[7] != '0'
  {
    var digits := IntToDecimal(id);
    IntDecimalRoundTrip(id);
    var name := "movie_" + digits + ".pdf";
    assert name[6..|name| - 4] == digits;
    name
  }

  /** Different ids give different PDF file names. */
  lemma PdfFileNameInjective(a: int, b: int)
    requires PdfFileName(a) == PdfFileName(b)
    ensures a == b
  {
  }

  /** The headers and record of a PDF download; the document's rendering is
      not part of this model. */
  datatype PdfDownload = PdfDownload(movie: Movie, contentType: string, contentDisposition: string)

  /** The PDF headers for a record. */
  function PdfHeaders(m: Movie): (d: PdfDownload)
    ensures d.movie == m && d.contentType == "application/pdf"
    ensures d.contentDisposition == "attachment; filename=" + PdfFileName(m.id)
  {
    PdfDownload(m, "application/pdf", "attachment; filename=" + PdfFileName(m.id))
  }

  /** What `filter` keeps: with a non-empty filter, the records whose genre
      matches; otherwise all of them. */
  function GenreSelection(ms: seq<Movie>, filter: Option<string>): (r: seq<Movie>)
    ensures IsSubsequence(r, ms)
    ensures filter.Some? ==> r == FilterByGenre(ms, filter.value)
    ensures filter.None? ==> r == ms
  {
    if filter.Some? && filter.value != "" then FilterByGenre(ms, filter.value)
    else
      SubsequenceReflexive(ms);
      if filter.Some? then FilterByEmptyKeepsAll(ms); ms else ms
  }

  /** The collection behind the router: `read()` returns it and `write(...)`
      replaces it. */
  class MovieStore {
    var movies: seq<Movie>

    constructor (initial: seq<Movie>)
      ensures movies == initial
    {
      movies := initial;
    }

    /** GET /:id: the first record with the id, or not found. */
    method GetById(id: int) returns (r: Reply<Movie>)
      ensures FindIndex(movies, id) == -1 ==> r == Failed(NotFound)
      ensures FindIndex(movies, id) >= 0 ==> r == Success(movies[FindIndex(movies, id)])
    {
      var found := Find(movies, id);
      FindIsAtFindIndex(movies, id);
      if found.Some? {
        r := Success(found.value);
      } else {
        r := Failed(NotFound);
      }
    }

    /** POST /: stamp the body with `created_at` and `ip`, validate it, and
        append it with id `length + 1`. */
    method Create(req: Request, now: string, currentYear: int) returns (r: Reply<Movie>)
      modifies this, req
      ensures req.body == Enriched(old(req.body), false, now, req.clientAddress)
      ensures Validate(req.body, currentYear).Rejected? ==>
        r == Failed(Invalid(Validate(req.body, currentYear).error)) && movies == old(movies)
      ensures Validate(req.body, currentYear).Accepted? ==>
        HasBusinessFields(req.body)
        && r == Success(WithId(req.body, |old(movies)| + 1))
        && movies == old(movies) + [r.value]
    {
      req.StampDateAndAddress(false, now);
      var verdict := Validate(req.body, currentYear);
      if verdict.Rejected? {
        return Failed(Invalid(verdict.error));
      }
      ValidateAcceptsConforming(req.body, currentYear);
      var movie := WithId(req.body, |movies| + 1);
      movies := movies + [movie];
      r := Success(movie);
    }

    /** PUT /:id: stamp the body with `updated_at` and `ip`, validate it, and
        replace the first record with the id by its merge with the body. */
    method Update(req: Request, id: int, now: string, currentYear: int) returns (r: Reply<Movie>)
      modifies this, req
      ensures req.body == Enriched(old(req.body), true, now, req.clientAddress)
      ensures Validate(req.body, currentYear).Rejected? ==>
        r == Failed(Invalid(Validate(req.body, currentYear).error)) && movies == old(movies)
      ensures Validate(req.body, currentYear).Accepted? && FindIndex(old(movies), id) == -1 ==>
        r == Failed(NotFound) && movies == old(movies)
      ensures Validate(req.body, currentYear).Accepted? && FindIndex(old(movies), id) >= 0 ==>
        var i := FindIndex(old(movies), id);
        r == Success(Merge(old(movies)[i], req.body)) && movies == old(movies)[i := r.value]
    {
      req.StampDateAndAddress(true, now);
      var verdict := Validate(req.body, currentYear);
      if verdict.Rejected? {
        return Failed(Invalid(verdict.error));
      }
      var found := Find(movies, id);
      FindIsAtFindIndex(movies, id);
      if found.None? {
        return Failed(NotFound);
      }
      var merged := Merge(found.value, req.body);
      var i := FindIndex(movies, id);
      movies := movies[i := merged];
      r := Success(merged);
    }

    /** DELETE /:id: splice out the first record with the id and answer
        with it. */
    method Delete(id: int) returns (r: Reply<Movie>)
      modifies this
      ensures FindIndex(old(movies), id) == -1 ==> r == Failed(NotFound) && movies == old(movies)
      ensures FindIndex(old(movies), id) >= 0 ==>
        var i := FindIndex(old(movies), id);
        r == Success(old(movies)[i]) && movies == RemoveAt(old(movies), i)
    {
      var found := Find(movies, id);
      FindIsAtFindIndex(movies, id);
      if found.None? {
        return Failed(NotFound);
      }
      var i := FindIndex(movies, id);
      movies := RemoveAt(movies, i);
      r := Success(found.value);
    }

    /** GET /?filter=&limit=: keep the records whose genre matches a
        non-empty filter, then the first `limit` of them. `limit` is the
        parsed number when the query has a numeric one, and `None` otherwise. */
    method List(filter: Option<string>, limit: Option<int>) returns (r: seq<Movie>)
      ensures IsSubsequence(r, movies)
      ensures filter.Some? ==> forall m :: m in r ==> GenreMatches(m, filter.value)
      ensures limit.None? ==> r == GenreSelection(movies, filter)
      ensures limit.Some? ==>
        |r| <= |GenreSelection(movies, filter)| && r == GenreSelection(movies, filter)[..|r|]
      ensures limit.Some? && limit.value >= 0 ==>
        |r| == if limit.value < |GenreSelection(movies, filter)| then limit.value
               else |GenreSelection(movies, filter)|
      ensures limit.Some? && limit.value < 0 ==>
        |r| == if |GenreSelection(movies, filter)| + limit.value > 0
               then |GenreSelection(movies, filter)| + limit.value else 0
    {
      var selected := movies;
      if filter.Some? && filter.value != "" {
        selected := FilterByGenre(selected, filter.value);
      }
      assert selected == GenreSelection(movies, filter);
      r := selected;
      if limit.Some? {
        r := SliceTo(selected, limit.value);
        SubsequencePrefix(selected, movies, |r|);
        assert forall m :: m in r ==> m in selected;
      }
    }

    /** GET /:id/pdf: the record to render and the download headers, or not
        found. */
    method ExportPdf(id: int) returns (r: Reply<PdfDownload>)
      ensures FindIndex(movies, id) == -1 ==> r == Failed(NotFound)
      ensures FindIndex(movies, id) >= 0 ==>
        r.Success? && r.value.movie == movies[FindIndex(movies, id)]
        && r.value.contentType == "application/pdf"
        && r.value.contentDisposition == "attachment; filename=" + PdfFileName(id)
    {
      var found := Find(movies, id);
      FindIsAtFindIndex(movies, id);
      if found.None? {
        return Failed(NotFound);
      }
      r := Success(PdfHeaders(found.value));
    }

    /** PUT /update-language: reject a missing, non-string or too short
        language; otherwise set it, untrimmed, and a fresh `updated_at` on
        every record. */
    method UpdateLanguage(language: LanguageParam, now: string) returns (r: Reply<LanguageUpdate>)
      modifies this
      ensures !LanguageAccepted(language) ==> r == Failed(InvalidLanguage) && movies == old(movies)
      ensures LanguageAccepted(language) ==>
        movies == WithLanguage(old(movies), language.value, now)
        && r == Success(LanguageUpdate(LanguageUpdatedMessage, |old(movies)|))
    {
      if !LanguageAccepted(language) {
        return Failed(InvalidLanguage);
      }
      var updated := WithLanguage(movies, language.value, now);
      movies := updated;
      r := Success(LanguageUpdate(LanguageUpdatedMessage, |updated|));
    }
  }

  /** A body whose business fields are all valid. */
  function SampleBody(): Body
  {
    Body(Some("X"), Some("Dir"), Some(2000.0), Some("Drama"), Some(7.0), Some(100.0), Some("en"),
         None, None, None)
  }

  /** Empty store, two creates, a delete of id 1, then a lookup of id 1:
      ids 1 and 2 are assigned, and id 1 is gone. */
  method CreateDeleteScenario()
  {
    var store := new MovieStore([]);
    EnrichedValidation(SampleBody(), false, "10:00 01-01-2024", "::1", 2024);
    var first := new Request(SampleBody(), "::1");
    var a := store.Create(first, "10:00 01-01-2024", 2024);
    assert a.Success? && a.value.id == 1 && a.value.ip == Some(LoopbackStandIn);
    var second := new Request(SampleBody(), "::1");
    var b := store.Create(second, "10:00 01-01-2024", 2024);
    assert b.Success? && b.value.id == 2;
    var d := store.Delete(1);
    assert d == Success(a.value);
    var g := store.GetById(1);
    assert g == Failed(NotFound);
  }

  /** A store holding ids 1, 2, 3; a delete of id 1 and one create: the new
      record gets id 3, which the old third record still holds, so a lookup
      of id 3 answers with the old record. */
  method IdCollisionScenario(m1: Movie, m2: Movie, m3: Movie)
    requires m1.id == 1 && m2.id == 2 && m3.id == 3
  {
    var store := new MovieStore([m1, m2, m3]);
    var d := store.Delete(1);
    assert d == Success(m1) && store.movies == [m2, m3];
    var now := "10:00 01-01-2024";
    EnrichedValidation(SampleBody(), false, now, "10.0.0.7", 2024);
    var req := new Request(SampleBody(), "10.0.0.7");
    var e := store.Create(req, now, 2024);
    assert e.Success? && e.value.id == 3 && store.movies == [m2, m3, e.value];
    assert store.movies[1..] == [m3, e.value];
    assert FindIndex(store.movies, 3) == 1;
    var g := store.GetById(3);
    assert g == Success(m3);
  }
}
