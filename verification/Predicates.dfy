/** Rule predicates over a picture: the typed tree, its evaluation, and what well-typed means. */
module Predicates {
  import opened Integers
  import opened Wrappers

  // -- Fields and values ------------------------------------------------------

  datatype BaseType = IntType | FloatType | StrType | DateType | BoolType

  datatype QueryField =
    | CapturedAt | IngestedAt | UpdatedAt | GpsLat | GpsLng | GpsAlt | IsoSpeed | FNumber | FocalLengthMm
    | ExposureTime | Orientation | CameraBrand | CameraModel | Filename | MimeType | FileSize | Width | Height
    | IsOwned | Owner | Creator

  function TypeOf(f: QueryField): BaseType {
    match f
    case CapturedAt | IngestedAt | UpdatedAt => DateType
    case GpsLat | GpsLng | FNumber | FocalLengthMm | ExposureTime => FloatType
    case GpsAlt | IsoSpeed | Orientation | FileSize | Width | Height => IntType
    case CameraBrand | CameraModel | Filename | MimeType | Owner | Creator => StrType
    case IsOwned => BoolType
  }

  /** Owner and creator are meant to resolve always, so no rule may ask for their presence. An owner
      does; a creator is absent when the owner of the picture cannot be resolved. */
  predicate Nullable(f: QueryField) {
    !f.Owner? && !f.Creator?
  }

  const NANOS_PER_SECOND := 1_000_000_000
  const NANOS_PER_DAY := 86_400 * NANOS_PER_SECOND

  type TimeOfDay = t: int | 0 <= t < NANOS_PER_DAY

  /** A local timestamp with nanoseconds. */
  datatype DateTime = DateTime(year: int, month: int, day: int, time: TimeOfDay)

  predicate NotAfter(a: DateTime, b: DateTime) {
    a.year < b.year || (a.year == b.year && (a.month < b.month || (a.month == b.month &&
      (a.day < b.day || (a.day == b.day && a.time <= b.time)))))
  }

  /** The columns of a picture that rules can query. */
  datatype Input = Input(
    capturedAt: Option<DateTime>, ingestedAt: Option<DateTime>, updatedAt: Option<DateTime>,
    gpsLat: Option<real>, gpsLng: Option<real>, gpsAlt: Option<int>, isoSpeed: Option<int>, fNumber: Option<real>,
    focalLength: Option<real>, exposureTime: Option<real>, orientation: Option<int>, cameraBrand: Option<string>,
    cameraModel: Option<string>, filename: Option<string>, mimeType: Option<string>, fileSize: Option<int>,
    width: Option<int>, height: Option<int>, isOwned: bool, owner: string, creator: Option<string>)

  datatype FieldValue =
    | IntValue(whole: Option<int>) | FloatValue(fraction: Option<real>) | StrValue(str: Option<string>)
    | DateValue(date: Option<DateTime>) | BoolValue(b: bool)

  function ValueOf(f: QueryField, input: Input): FieldValue {
    match f
    case CapturedAt => DateValue(input.capturedAt)
    case IngestedAt => DateValue(input.ingestedAt)
    case UpdatedAt => DateValue(input.updatedAt)
    case GpsLat => FloatValue(input.gpsLat)
    case GpsLng => FloatValue(input.gpsLng)
    case GpsAlt => IntValue(input.gpsAlt)
    case IsoSpeed => IntValue(input.isoSpeed)
    case FNumber => FloatValue(input.fNumber)
    case FocalLengthMm => FloatValue(input.focalLength)
    case ExposureTime => FloatValue(input.exposureTime)
    case Orientation => IntValue(input.orientation)
    case CameraBrand => StrValue(input.cameraBrand)
    case CameraModel => StrValue(input.cameraModel)
    case Filename => StrValue(input.filename)
    case MimeType => StrValue(input.mimeType)
    case FileSize => IntValue(input.fileSize)
    case Width => IntValue(input.width)
    case Height => IntValue(input.height)
    case IsOwned => BoolValue(input.isOwned)
    case Owner => StrValue(Some(input.owner))
    case Creator => StrValue(input.creator)
  }

  predicate IsPresent(v: FieldValue) {
    match v
    case IntValue(o) => o.Some?
    case FloatValue(o) => o.Some?
    case StrValue(o) => o.Some?
    case DateValue(o) => o.Some?
    case BoolValue(_) => true
  }

  function AsReal(v: FieldValue): Option<real> {
    match v
    case IntValue(Some(n)) => Some(n as real)
    case FloatValue(o) => o
    case _ => None
  }

  // -- Conditions and trees ---------------------------------------------------

  datatype Season = Spring | Summer | Autumn | Winter

  predicate ContainsMonth(s: Season, month: int) {
    match s
    case Spring => 3 <= month <= 5
    case Summer => 6 <= month <= 8
    case Autumn => 9 <= month <= 11
    case Winter => month == 12 || month == 1 || month == 2
  }

  /** A compiled pattern; matching it is a library's business. */
  datatype Regex = Regex(pattern: string, ignoreCase: bool)

  datatype Condition =
    | Present(want: bool)
    | NumEq(n: real) | NumMin(n: real) | NumMax(n: real)
    | StrEq(s: string, ignoreCase: bool) | StrContains(s: string, ignoreCase: bool)
    | StrStartsWith(s: string, ignoreCase: bool) | StrEndsWith(s: string, ignoreCase: bool) | StrRegex(re: Regex)
    | Year(year: i32) | Month(month: int) | InSeason(season: Season)
    | DateRange(since: DateTime, until: DateTime) | TimeRange(start: TimeOfDay, end: TimeOfDay)
    | BoolEq(b: bool)

  datatype Predicate =
    | And(children: seq<Predicate>) | Or(children: seq<Predicate>) | Not(child: Predicate)
    | GpsBbox(latMin: real, latMax: real, lonMin: real, lonMax: real)
    | GpsRadius(lat: real, lng: real, km: real)
    | OnField(field: QueryField, conds: seq<Condition>)

  /** Foreign operations: calendar and regex parsing, case folding, great-circle distance. */
  datatype Library = Library(
    parseDateTime: string -> Option<DateTime>,
    parseDate: string -> Option<(int, int, int)>,
    parseTime: string -> Option<TimeOfDay>,
    compiles: Regex -> bool,
    isMatch: (Regex, string) -> bool,
    lowercase: string -> string,
    distanceKm: (real, real, real, real) -> real)

  // -- Evaluation -------------------------------------------------------------

  datatype StrOp = Equals | Contains | Starts | Ends

  predicate Occurs(needle: string, s: string) {
    exists i :: 0 <= i <= |s| && needle <= s[i..]
  }

  predicate StrMatches(lib: Library, s: string, needle: string, ignoreCase: bool, op: StrOp) {
    var (v, n) := if ignoreCase then (lib.lowercase(s), lib.lowercase(needle)) else (s, needle);
    match op
    case Equals => v == n
    case Contains => Occurs(n, v)
    case Starts => n <= v
    case Ends => |n| <= |v| && v[|v| - |n|..] == n
  }

  predicate InTimeRange(start: TimeOfDay, end: TimeOfDay, t: TimeOfDay) {
    if start <= end then start <= t && t <= end else start <= t || t <= end
  }

  /** One condition on one value; a condition of the wrong type matches nothing. */
  predicate CondMatches(lib: Library, c: Condition, v: FieldValue) {
    if c.Present? then IsPresent(v) == c.want
    else IsPresent(v) && match c
      case NumEq(n) => AsReal(v).Some? && AsReal(v).value == n
      case NumMin(n) => AsReal(v).Some? && AsReal(v).value >= n
      case NumMax(n) => AsReal(v).Some? && AsReal(v).value <= n
      case StrEq(s, ic) => v.StrValue? && StrMatches(lib, v.str.value, s, ic, Equals)
      case StrContains(s, ic) => v.StrValue? && StrMatches(lib, v.str.value, s, ic, Contains)
      case StrStartsWith(s, ic) => v.StrValue? && StrMatches(lib, v.str.value, s, ic, Starts)
      case StrEndsWith(s, ic) => v.StrValue? && StrMatches(lib, v.str.value, s, ic, Ends)
      case StrRegex(re) => v.StrValue? && lib.isMatch(re, v.str.value)
      case Year(y) => v.DateValue? && v.date.value.year == y
      case Month(m) => v.DateValue? && v.date.value.month == m
      case InSeason(s) => v.DateValue? && ContainsMonth(s, v.date.value.month)
      case DateRange(since, until) => v.DateValue? && NotAfter(since, v.date.value) && NotAfter(v.date.value, until)
      case TimeRange(start, end) => v.DateValue? && InTimeRange(start, end, v.date.value.time)
      case BoolEq(b) => v.BoolValue? && v.b == b
      case Present(_) => false
  }

  predicate Matches(lib: Library, p: Predicate, input: Input) {
    match p
    case And(children) => forall i :: 0 <= i < |children| ==> Matches(lib, children[i], input)
    case Or(children) => exists i :: 0 <= i < |children| && Matches(lib, children[i], input)
    case Not(child) => !Matches(lib, child, input)
    case GpsBbox(latMin, latMax, lonMin, lonMax) =>
      input.gpsLat.Some? && input.gpsLng.Some?
      && latMin <= input.gpsLat.value <= latMax && lonMin <= input.gpsLng.value <= lonMax
    case GpsRadius(lat, lng, km) =>
      input.gpsLat.Some? && input.gpsLng.Some? && lib.distanceKm(lat, lng, input.gpsLat.value, input.gpsLng.value) <= km
    case OnField(field, conds) => forall i :: 0 <= i < |conds| ==> CondMatches(lib, conds[i], ValueOf(field, input))
  }

  // -- Typing -----------------------------------------------------------------

  predicate Fits(bt: BaseType, c: Condition) {
    match c
    case Present(_) => true
    case NumEq(_) | NumMin(_) | NumMax(_) => bt.IntType? || bt.FloatType?
    case StrEq(_, _) | StrContains(_, _) | StrStartsWith(_, _) | StrEndsWith(_, _) | StrRegex(_) => bt.StrType?
    case Year(_) | Month(_) | InSeason(_) | DateRange(_, _) | TimeRange(_, _) => bt.DateType?
    case BoolEq(_) => bt.BoolType?
  }

  /** Bounds are ordered and constants are in range. */
  predicate Bounded(c: Condition) {
    && (c.DateRange? ==> NotAfter(c.since, c.until))
    && (c.Month? ==> 1 <= c.month <= 12)
  }

  predicate CondOk(field: QueryField, c: Condition) {
    Fits(TypeOf(field), c) && Bounded(c) && (c.Present? ==> Nullable(field))
  }

  predicate WellFormed(p: Predicate) {
    match p
    case And(children) => forall i :: 0 <= i < |children| ==> WellFormed(children[i])
    case Or(children) => forall i :: 0 <= i < |children| ==> WellFormed(children[i])
    case Not(child) => WellFormed(child)
    case GpsBbox(latMin, latMax, lonMin, lonMax) => latMin <= latMax && lonMin <= lonMax
    case GpsRadius(_, _, km) => km >= 0.0
    case OnField(field, conds) => conds != [] && forall i :: 0 <= i < |conds| ==> CondOk(field, conds[i])
  }

  /** The logical nesting above any leaf is at most `n`. */
  predicate NestedAtMost(p: Predicate, n: int) {
    0 <= n && match p
    case And(children) => forall i :: 0 <= i < |children| ==> NestedAtMost(children[i], n - 1)
    case Or(children) => forall i :: 0 <= i < |children| ==> NestedAtMost(children[i], n - 1)
    case Not(child) => NestedAtMost(child, n - 1)
    case _ => true
  }

  /** What a condition means where its type matches the value's; None where evaluation would fall
      into a type-mismatch arm. */
  function Meaning(lib: Library, c: Condition, v: FieldValue): Option<bool> {
    match (c, v)
    case (Present(want), _) => Some(IsPresent(v) == want)
    case (NumEq(n), IntValue(o)) => Some(o.Some? && o.value as real == n)
    case (NumMin(n), IntValue(o)) => Some(o.Some? && o.value as real >= n)
    case (NumMax(n), IntValue(o)) => Some(o.Some? && o.value as real <= n)
    case (NumEq(n), FloatValue(o)) => Some(o == Some(n))
    case (NumMin(n), FloatValue(o)) => Some(o.Some? && o.value >= n)
    case (NumMax(n), FloatValue(o)) => Some(o.Some? && o.value <= n)
    case (StrEq(s, ic), StrValue(o)) => Some(o.Some? && StrMatches(lib, o.value, s, ic, Equals))
    case (StrContains(s, ic), StrValue(o)) => Some(o.Some? && StrMatches(lib, o.value, s, ic, Contains))
    case (StrStartsWith(s, ic), StrValue(o)) => Some(o.Some? && StrMatches(lib, o.value, s, ic, Starts))
    case (StrEndsWith(s, ic), StrValue(o)) => Some(o.Some? && StrMatches(lib, o.value, s, ic, Ends))
    case (StrRegex(re), StrValue(o)) => Some(o.Some? && lib.isMatch(re, o.value))
    case (Year(y), DateValue(o)) => Some(o.Some? && o.value.year == y)
    case (Month(m), DateValue(o)) => Some(o.Some? && o.value.month == m)
    case (InSeason(s), DateValue(o)) => Some(o.Some? && ContainsMonth(s, o.value.month))
    case (DateRange(since, until), DateValue(o)) =>
      Some(o.Some? && NotAfter(since, o.value) && NotAfter(o.value, until))
    case (TimeRange(start, end), DateValue(o)) => Some(o.Some? && InTimeRange(start, end, o.value.time))
    case (BoolEq(b), BoolValue(x)) => Some(x == b)
    case _ => None
  }

  /** A condition that fits the field's type is never evaluated against a value of another type. */
  lemma FittingConditionsHaveMeaning(lib: Library, field: QueryField, c: Condition, input: Input)
    ensures Meaning(lib, c, ValueOf(field, input)).Some? <==> Fits(TypeOf(field), c)
    ensures Fits(TypeOf(field), c) ==>
      Meaning(lib, c, ValueOf(field, input)) == Some(CondMatches(lib, c, ValueOf(field, input)))
  {}

  /** Type mismatches anywhere in the tree, in the order-free reading that evaluates every child. */
  ghost predicate NoMismatch(lib: Library, p: Predicate, input: Input) {
    match p
    case And(children) => forall i :: 0 <= i < |children| ==> NoMismatch(lib, children[i], input)
    case Or(children) => forall i :: 0 <= i < |children| ==> NoMismatch(lib, children[i], input)
    case Not(child) => NoMismatch(lib, child, input)
    case OnField(field, conds) =>
      forall i :: 0 <= i < |conds| ==>
        Meaning(lib, conds[i], ValueOf(field, input)) == Some(CondMatches(lib, conds[i], ValueOf(field, input)))
    case _ => true
  }

  /** Soundness: evaluating a well-formed tree on any picture never reaches a mismatch arm. */
  lemma {:induction false} WellFormedNeverMismatches(lib: Library, p: Predicate, input: Input)
    requires WellFormed(p)
    ensures NoMismatch(lib, p, input)
  {
    match p
    case And(children) =>
      forall i | 0 <= i < |children| ensures NoMismatch(lib, children[i], input) {
        WellFormedNeverMismatches(lib, children[i], input);
      }
    case Or(children) =>
      forall i | 0 <= i < |children| ensures NoMismatch(lib, children[i], input) {
        WellFormedNeverMismatches(lib, children[i], input);
      }
    case Not(child) => WellFormedNeverMismatches(lib, child, input);
    case OnField(field, conds) =>
      forall i | 0 <= i < |conds|
        ensures Meaning(lib, conds[i], ValueOf(field, input)) == Some(CondMatches(lib, conds[i], ValueOf(field, input)))
      {
        assert CondOk(field, conds[i]);
        FittingConditionsHaveMeaning(lib, field, conds[i], input);
      }
    case _ =>
  }

  /** An absent value satisfies nothing but the request that it be absent. */
  lemma AbsentSatisfiesOnlyAbsence(lib: Library, c: Condition, v: FieldValue)
    requires !IsPresent(v)
    ensures CondMatches(lib, c, v) <==> c == Present(false)
  {}

  /** A picture without a creator satisfies no condition that a rule may put on the creator. */
  lemma AbsentCreatorMatchesNothing(lib: Library, conds: seq<Condition>, input: Input)
    requires WellFormed(OnField(Creator, conds)) && input.creator.None?
    ensures !Matches(lib, OnField(Creator, conds), input)
  {
    assert CondOk(Creator, conds[0]);
    AbsentSatisfiesOnlyAbsence(lib, conds[0], ValueOf(Creator, input));
  }

  /** A time range is the cyclic interval from start to end, past midnight or not. */
  lemma TimeRangeIsCyclic(start: TimeOfDay, end: TimeOfDay, t: TimeOfDay)
    ensures InTimeRange(start, end, t) <==> (t - start) % NANOS_PER_DAY <= (end - start) % NANOS_PER_DAY
  {}

  /** Whatever the range, every moment is in it or in the gap from its end back to its start. */
  lemma TimeRangeComplement(start: TimeOfDay, end: TimeOfDay, t: TimeOfDay)
    requires start != end && t != start && t != end
    ensures InTimeRange(start, end, t) <==> !InTimeRange(end, start, t)
  {}

  /** The order in which a field's conditions are listed does not matter. */
  lemma ConditionOrderIsIrrelevant(lib: Library, field: QueryField, a: seq<Condition>, b: seq<Condition>, input: Input)
    requires multiset(a) == multiset(b)
    ensures Matches(lib, OnField(field, a), input) == Matches(lib, OnField(field, b), input)
  {
    if Matches(lib, OnField(field, a), input) { AllOf(lib, field, a, b, input); }
    if Matches(lib, OnField(field, b), input) { AllOf(lib, field, b, a, input); }
  }

  lemma AllOf(lib: Library, field: QueryField, a: seq<Condition>, b: seq<Condition>, input: Input)
    requires multiset(a) == multiset(b) && Matches(lib, OnField(field, a), input)
    ensures Matches(lib, OnField(field, b), input)
  {
    forall i | 0 <= i < |b| ensures CondMatches(lib, b[i], ValueOf(field, input)) {
      assert b[i] in multiset(b);
      assert b[i] in a;
    }
  }

  /** A conjunction of conditions on one field is the same as the conjunction of its one-condition
      fields. */
  lemma ConditionsConjoin(lib: Library, field: QueryField, conds: seq<Condition>, input: Input)
    ensures Matches(lib, OnField(field, conds), input) <==>
      Matches(lib, And(seq(|conds|, i requires 0 <= i < |conds| => OnField(field, [conds[i]]))), input)
  {
    var children := seq(|conds|, i requires 0 <= i < |conds| => OnField(field, [conds[i]]));
    forall i | 0 <= i < |conds|
      ensures Matches(lib, children[i], input) <==> CondMatches(lib, conds[i], ValueOf(field, input))
    {
      assert children[i].conds[0] == conds[i];
    }
  }

  // -- Laws of the tree -------------------------------------------------------

  /** An empty conjunction matches every picture, an empty disjunction none. */
  lemma EmptyNodes(lib: Library, input: Input)
    ensures Matches(lib, And([]), input) && !Matches(lib, Or([]), input)
  {}

  function Negations(ps: seq<Predicate>): seq<Predicate> {
    seq(|ps|, i requires 0 <= i < |ps| => Not(ps[i]))
  }

  /** Negation turns a conjunction into a disjunction of negations... */
  lemma NotAll(lib: Library, ps: seq<Predicate>, input: Input)
    ensures Matches(lib, Not(And(ps)), input) <==> Matches(lib, Or(Negations(ps)), input)
  {
    var ns := Negations(ps);
    forall i | 0 <= i < |ps| ensures Matches(lib, ns[i], input) <==> !Matches(lib, ps[i], input) {}
    assert Matches(lib, And(ps), input) <==> forall i :: 0 <= i < |ps| ==> Matches(lib, ps[i], input);
    if Matches(lib, Not(And(ps)), input) {
      var i :| 0 <= i < |ps| && !Matches(lib, ps[i], input);
      assert Matches(lib, ns[i], input);
    }
  }

  /** ...and a disjunction into a conjunction of negations. */
  lemma NotAny(lib: Library, ps: seq<Predicate>, input: Input)
    ensures Matches(lib, Not(Or(ps)), input) <==> Matches(lib, And(Negations(ps)), input)
  {
    var ns := Negations(ps);
    forall i | 0 <= i < |ps| ensures Matches(lib, ns[i], input) <==> !Matches(lib, ps[i], input) {}
    assert Matches(lib, Or(ps), input) <==> exists i :: 0 <= i < |ps| && Matches(lib, ps[i], input);
    if Matches(lib, Or(ps), input) {
      var i :| 0 <= i < |ps| && Matches(lib, ps[i], input);
      assert !Matches(lib, ns[i], input);
    }
  }

  /** A bounding box is the conjunction of a minimum and a maximum on each coordinate. */
  lemma BoxIsFourConditions(lib: Library, latMin: real, latMax: real, lonMin: real, lonMax: real, input: Input)
    ensures Matches(lib, GpsBbox(latMin, latMax, lonMin, lonMax), input) <==>
      && Matches(lib, OnField(GpsLat, [NumMin(latMin), NumMax(latMax)]), input)
      && Matches(lib, OnField(GpsLng, [NumMin(lonMin), NumMax(lonMax)]), input)
  {
    BothConditions(lib, GpsLat, NumMin(latMin), NumMax(latMax), input);
    BothConditions(lib, GpsLng, NumMin(lonMin), NumMax(lonMax), input);
  }

  lemma BothConditions(lib: Library, field: QueryField, a: Condition, b: Condition, input: Input)
    ensures Matches(lib, OnField(field, [a, b]), input) <==>
      CondMatches(lib, a, ValueOf(field, input)) && CondMatches(lib, b, ValueOf(field, input))
  {
    var conds := [a, b];
    assert conds[0] == a && conds[1] == b;
  }
}
