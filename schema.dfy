/** The movie record, the JSON body of a write request, and the Joi schema
    that `validateMovie` applies to that body. */
module MovieSchema {
  import opened Wrappers

  /** A stored movie: the schema's fields as the body carried them, plus the
      `id` the store assigned. JSON numbers are reals, as JavaScript numbers
      carry fractions. */
  datatype Movie = Movie(
    id: int,
    title: string,
    director: string,
    releaseYear: real,
    genre: string,
    rating: real,
    durationMinutes: real,
    language: string,
    createdAt: Option<string>,
    updatedAt: Option<string>,
    ip: Option<string>)

  /** The JSON body of a write request, restricted to the schema's keys;
      `None` is a key the body does not carry. */
  datatype Body = Body(
    title: Option<string>,
    director: Option<string>,
    releaseYear: Option<real>,
    genre: Option<string>,
    rating: Option<real>,
    durationMinutes: Option<real>,
    language: Option<string>,
    createdAt: Option<string>,
    updatedAt: Option<string>,
    ip: Option<string>)

  /** The schema's keys, in the order the schema declares them. */
  datatype Field =
    Title | Director | ReleaseYear | Genre | Rating | DurationMinutes | Language
    | CreatedAt | UpdatedAt | Ip

  const SchemaOrder: seq<Field> :=
    [Title, Director, ReleaseYear, Genre, Rating, DurationMinutes, Language, CreatedAt, UpdatedAt, Ip]

  /** The year of the first film, the lower bound on `release_year`. */
  const FirstFilmYear: int := 1888

  /** The Joi rule a value breaks: a missing required key, the empty string
      (which a Joi string refuses unless allowed), a length bound, the
      integer rule, or a numeric bound. */
  datatype Rule =
    Required | EmptyString | MinLength(min: nat) | MaxLength(max: nat)
    | NotInteger | BelowMin(lower: real) | AboveMax(upper: real)

  datatype ValidationError = ValidationError(field: Field, rule: Rule)

  /** The outcome of `schema.validate`: no error, or the first error found. */
  datatype Verdict = Accepted | Rejected(error: ValidationError)

  /** `Joi.string().min(min).max(max).required()` on one value. */
  function CheckRequiredString(v: Option<string>, min: nat, max: nat): Option<Rule>
  {
    match v
    case None => Some(Required)
    case Some(s) =>
      if s == "" then Some(EmptyString)
      else if |s| < min then Some(MinLength(min))
      else if |s| > max then Some(MaxLength(max))
      else None
  }

  /** `Joi.string().optional()` on one value. */
  function CheckOptionalString(v: Option<string>): Option<Rule>
  {
    if v == Some("") then Some(EmptyString) else None
  }

  predicate IsInteger(x: real)
  {
    x.Floor as real == x
  }

  /** `Joi.number()`, then `.integer()` when `integer` holds, `.min(lower)`,
      `.max(upper)` when there is one, and `.required()`, on one value. */
  function CheckRequiredNumber(v: Option<real>, integer: bool, lower: real, upper: Option<real>): Option<Rule>
  {
    match v
    case None => Some(Required)
    case Some(x) =>
      if integer && !IsInteger(x) then Some(NotInteger)
      else if x < lower then Some(BelowMin(lower))
      else if upper.Some? && x > upper.value then Some(AboveMax(upper.value))
      else None
  }

  /** The first rule the body's value for field `f` breaks, if any. The
      current year bounds `release_year`. */
  function Check(b: Body, f: Field, currentYear: int): Option<Rule>
  {
    match f
    case Title => CheckRequiredString(b.title, 1, 255)
    case Director => CheckRequiredString(b.director, 3, 255)
    case ReleaseYear =>
      CheckRequiredNumber(b.releaseYear, true, FirstFilmYear as real, Some(currentYear as real))
    case Genre => CheckRequiredString(b.genre, 3, 50)
    case Rating => CheckRequiredNumber(b.rating, false, 0.0, Some(10.0))
    case DurationMinutes => CheckRequiredNumber(b.durationMinutes, true, 1.0, None)
    case Language => CheckRequiredString(b.language, 2, 50)
    case CreatedAt => CheckOptionalString(b.createdAt)
    case UpdatedAt => CheckOptionalString(b.updatedAt)
    case Ip => CheckOptionalString(b.ip)
  }

  /** Checks the fields in order and stops at the first one that fails, as
      Joi does by default. */
  function FirstViolation(b: Body, fields: seq<Field>, currentYear: int): (r: Verdict)
    ensures r.Accepted? <==> forall k :: 0 <= k < |fields| ==> Check(b, fields[k], currentYear).None?
    ensures r.Rejected? ==>
      exists k :: 0 <= k < |fields| && fields[k] == r.error.field
        && Check(b, fields[k], currentYear) == Some(r.error.rule)
        && forall j :: 0 <= j < k ==> Check(b, fields[j], currentYear).None?
  {
    if fields == [] then Accepted
    else
      match Check(b, fields[0], currentYear)
      case Some(rule) => Rejected(ValidationError(fields[0], rule))
      case None =>
        var r := FirstViolation(b, fields[1..], currentYear);
        assert r.Rejected? ==>
          exists k :: (0 <= k < |fields[1..]| && fields[1..][k] == r.error.field
            && Check(b, fields[1..][k], currentYear) == Some(r.error.rule)
            && (forall j :: 0 <= j < k ==> Check(b, fields[1..][j], currentYear).None?)
            && (forall j :: 0 <= j < k + 1 ==> Check(b, fields[j], currentYear).None?));
        r
  }

  /** `validateMovie(movie)`: the schema applied to a body. */
  function Validate(b: Body, currentYear: int): (r: Verdict)
    ensures r.Accepted? <==> forall f :: Check(b, f, currentYear).None?
    ensures r.Rejected? ==> Check(b, r.error.field, currentYear) == Some(r.error.rule)
  {
    EveryKeyInOrder(b, currentYear);
    FirstViolation(b, SchemaOrder, currentYear)
  }

  /** The schema in plain terms: every business field present and within its
      bounds, and each audit field absent or a non-empty string. */
  predicate Conforms(b: Body, currentYear: int)
  {
    && b.title.Some? && 1 <= |b.title.value| <= 255
    && b.director.Some? && 3 <= |b.director.value| <= 255
    && b.releaseYear.Some? && IsInteger(b.releaseYear.value)
    && FirstFilmYear as real <= b.releaseYear.value <= currentYear as real
    && b.genre.Some? && 3 <= |b.genre.value| <= 50
    && b.rating.Some? && 0.0 <= b.rating.value <= 10.0
    && b.durationMinutes.Some? && IsInteger(b.durationMinutes.value) && b.durationMinutes.value >= 1.0
    && b.language.Some? && 2 <= |b.language.value| <= 50
    && b.createdAt != Some("") && b.updatedAt != Some("") && b.ip != Some("")
  }

  /** Validation accepts exactly the bodies that conform to the schema. */
  lemma ValidateAcceptsConforming(b: Body, currentYear: int)
    ensures Validate(b, currentYear).Accepted? <==> Conforms(b, currentYear)
  {
    var fs := SchemaOrder;
    assert (forall k :: 0 <= k < |fs| ==> Check(b, fs[k], currentYear).None?) <==>
      (&& Check(b, Title, currentYear).None? && Check(b, Director, currentYear).None?
       && Check(b, ReleaseYear, currentYear).None? && Check(b, Genre, currentYear).None?
       && Check(b, Rating, currentYear).None? && Check(b, DurationMinutes, currentYear).None?
       && Check(b, Language, currentYear).None? && Check(b, CreatedAt, currentYear).None?
       && Check(b, UpdatedAt, currentYear).None? && Check(b, Ip, currentYear).None?)
    by {
      assert fs[0] == Title && fs[1] == Director && fs[2] == ReleaseYear && fs[3] == Genre
        && fs[4] == Rating && fs[5] == DurationMinutes && fs[6] == Language && fs[7] == CreatedAt
        && fs[8] == UpdatedAt && fs[9] == Ip;
    }
  }

  /** The position of a field in the schema. */
  function Position(f: Field): (p: nat)
    ensures p < |SchemaOrder| && SchemaOrder[p] == f
  {
    match f
    case Title => 0
    case Director => 1
    case ReleaseYear => 2
    case Genre => 3
    case Rating => 4
    case DurationMinutes => 5
    case Language => 6
    case CreatedAt => 7
    case UpdatedAt => 8
    case Ip => 9
  }

  /** Every key passes in schema order exactly when every key passes. */
  lemma EveryKeyInOrder(b: Body, currentYear: int)
    ensures (forall k :: 0 <= k < |SchemaOrder| ==> Check(b, SchemaOrder[k], currentYear).None?)
      <==> forall f :: Check(b, f, currentYear).None?
  {
    if forall k :: 0 <= k < |SchemaOrder| ==> Check(b, SchemaOrder[k], currentYear).None? {
      forall f
        ensures Check(b, f, currentYear).None?
      {
        var p := Position(f);
        assert SchemaOrder[p] == f;
      }
    }
  }

  /** A rejection names a rule the named field breaks, and every field the
      schema declares before it passes. */
  lemma RejectionIsFirstViolation(b: Body, currentYear: int)
    requires Validate(b, currentYear).Rejected?
    ensures var e := Validate(b, currentYear).error;
      Check(b, e.field, currentYear) == Some(e.rule)
      && forall f :: Position(f) < Position(e.field) ==> Check(b, f, currentYear).None?
  {
    var e := Validate(b, currentYear).error;
    var k :| 0 <= k < |SchemaOrder| && SchemaOrder[k] == e.field
      && Check(b, SchemaOrder[k], currentYear) == Some(e.rule)
      && forall j :: 0 <= j < k ==> Check(b, SchemaOrder[j], currentYear).None?;
    assert SchemaOrder[Position(e.field)] == e.field;
    assert k == Position(e.field);
    forall f | Position(f) < Position(e.field)
      ensures Check(b, f, currentYear).None?
    {
      assert SchemaOrder[Position(f)] == f;
    }
  }

  /** A body without `title` is refused for that key before anything else. */
  lemma MissingTitleRejected(b: Body, currentYear: int)
    requires b.title.None?
    ensures Validate(b, currentYear) == Rejected(ValidationError(Title, Required))
  {
    ValidateAcceptsConforming(b, currentYear);
    RejectionIsFirstViolation(b, currentYear);
  }

  /** A whole-number release year before 1888, after a valid title and
      director, is refused by the lower bound. */
  lemma EarlyReleaseYearRejected(b: Body, currentYear: int)
    requires Check(b, Title, currentYear).None? && Check(b, Director, currentYear).None?
    requires b.releaseYear.Some? && IsInteger(b.releaseYear.value) && b.releaseYear.value < 1888.0
    ensures Validate(b, currentYear) == Rejected(ValidationError(ReleaseYear, BelowMin(1888.0)))
  {
    assert Check(b, ReleaseYear, currentYear) == Some(BelowMin(1888.0));
    ValidateAcceptsConforming(b, currentYear);
    RejectionIsFirstViolation(b, currentYear);
  }

  /** A rating above 10, with every earlier field valid, is refused by the
      upper bound. */
  lemma HighRatingRejected(b: Body, currentYear: int)
    requires forall f :: Position(f) < Position(Rating) ==> Check(b, f, currentYear).None?
    requires b.rating.Some? && b.rating.value > 10.0
    ensures Validate(b, currentYear) == Rejected(ValidationError(Rating, AboveMax(10.0)))
  {
    ValidateAcceptsConforming(b, currentYear);
    RejectionIsFirstViolation(b, currentYear);
  }

  /** A conforming body carries every business field. */
  predicate HasBusinessFields(b: Body)
  {
    b.title.Some? && b.director.Some? && b.releaseYear.Some? && b.genre.Some?
    && b.rating.Some? && b.durationMinutes.Some? && b.language.Some?
  }

  /** The keys of a record other than its id, as a body carrying all of them. */
  function BodyOf(m: Movie): Body
  {
    Body(Some(m.title), Some(m.director), Some(m.releaseYear), Some(m.genre), Some(m.rating),
         Some(m.durationMinutes), Some(m.language), m.createdAt, m.updatedAt, m.ip)
  }

  /** `{ ...body, id }`: the record a body becomes under a given id. It
      carries the id and exactly the body's keys. */
  function WithId(b: Body, id: int): (m: Movie)
    requires HasBusinessFields(b)
    ensures m.id == id && BodyOf(m) == b
  {
    Movie(id, b.title.value, b.director.value, b.releaseYear.value, b.genre.value,
          b.rating.value, b.durationMinutes.value, b.language.value,
          b.createdAt, b.updatedAt, b.ip)
  }
}
