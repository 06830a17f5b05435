/** Parsing and validating a rule predicate from JSON, with error paths. */
module PredicateParsing {
  import opened Integers
  import opened Wrappers
  import opened Predicates

  const MAX_PREDICATE_DEPTH := 10

  /** A ready-parsed JSON value; an object lists its entries in iteration order. */
  datatype Json =
    | JNull | JBool(b: bool) | JInt(i: int) | JFloat(r: real) | JText(s: string)
    | JArray(items: seq<Json>) | JObject(entries: seq<(string, Json)>)

  // -- Errors -----------------------------------------------------------------

  datatype Step = Key(key: string) | Item(key: string, index: nat)

  datatype Problem =
    | TooDeep | NotAnObject | NotAnArray(key: string) | UnexpectedKey(key: string) | Unrecognised
    | BadNumber(key: string) | BadText(key: string) | BadInteger(key: string) | BadBool(key: string)
    | UnorderedBounds(key: string) | NegativeRadius | FieldNotText | UnknownField(name: string) | NoCondition
    | Unsupported(key: string) | AlwaysPresent | BadRegex | BadMonth | BadSeason | BadBound(key: string)

  datatype Error = Error(path: seq<Step>, problem: Problem)

  // -- JSON access ------------------------------------------------------------

  function Find(entries: seq<(string, Json)>, key: string): Option<Json> {
    if entries == [] then None else if entries[0].0 == key then Some(entries[0].1) else Find(entries[1..], key)
  }

  function Member(v: Json, key: string): Option<Json> {
    if v.JObject? then Find(v.entries, key) else None
  }

  /** The node an error path names. */
  function Follow(v: Json, path: seq<Step>): Option<Json>
    decreases |path|
  {
    if path == [] then Some(v)
    else match path[0]
      case Key(k) => (match Member(v, k) case Some(w) => Follow(w, path[1..]) case None => None)
      case Item(k, i) => (match Member(v, k)
        case Some(JArray(items)) => if i < |items| then Follow(items[i], path[1..]) else None
        case _ => None)
  }

  function NumberOf(v: Json): Option<real> {
    match v case JInt(i) => Some(i as real) case JFloat(r) => Some(r) case _ => None
  }

  function Number(v: Json, key: string, path: seq<Step>): Result<real, Error> {
    if NumberOf(v).Some? then Ok(NumberOf(v).value) else Err(Error(path, BadNumber(key)))
  }

  function NumberAt(v: Json, key: string, path: seq<Step>): Result<real, Error> {
    match Member(v, key)
    case Some(w) => Number(w, key, path)
    case None => Err(Error(path, BadNumber(key)))
  }

  function Integer(v: Json, key: string, path: seq<Step>): Result<int, Error> {
    if v.JInt? && -0x8000_0000_0000_0000 <= v.i < 0x8000_0000_0000_0000 then Ok(v.i)
    else Err(Error(path, BadInteger(key)))
  }

  function Text(v: Json, key: string, path: seq<Step>): Result<string, Error> {
    if v.JText? then Ok(v.s) else Err(Error(path, BadText(key)))
  }

  function FromTo(v: Json, path: seq<Step>): Result<(string, string), Error> {
    if !v.JObject? then Err(Error(path, NotAnObject))
    else match (Member(v, "from"), Member(v, "to"))
      case (Some(JText(a)), Some(JText(b))) => Ok((a, b))
      case (Some(JText(_)), _) => Err(Error(path, BadText("to")))
      case _ => Err(Error(path, BadText("from")))
  }

  // -- Conditions -------------------------------------------------------------

  function FieldNamed(name: string): Option<QueryField> {
    match name
    case "captured_at" => Some(CapturedAt)
    case "ingested_at" => Some(IngestedAt)
    case "updated_at" => Some(UpdatedAt)
    case "gps_lat" => Some(GpsLat)
    case "gps_lng" => Some(GpsLng)
    case "gps_alt" => Some(GpsAlt)
    case "iso_speed" => Some(IsoSpeed)
    case "f_number" => Some(FNumber)
    case "focal_length_mm" => Some(FocalLengthMm)
    case "exposure_time" => Some(ExposureTime)
    case "orientation" => Some(Orientation)
    case "camera_brand" => Some(CameraBrand)
    case "camera_model" => Some(CameraModel)
    case "filename" => Some(Filename)
    case "mime_type" => Some(MimeType)
    case "file_size" => Some(FileSize)
    case "width" => Some(Width)
    case "height" => Some(Height)
    case "is_owned" => Some(IsOwned)
    case "owner" => Some(Owner)
    case "creator" => Some(Creator)
    case _ => None
  }

  function SeasonNamed(name: string): Option<Season> {
    match name
    case "spring" => Some(Spring)
    case "summer" => Some(Summer)
    case "autumn" => Some(Autumn)
    case "winter" => Some(Winter)
    case _ => None
  }

  /** A full timestamp, or a date widened to the first or last second of its day. */
  function DateBound(lib: Library, s: string, isEnd: bool): Option<DateTime> {
    if lib.parseDateTime(s).Some? then lib.parseDateTime(s)
    else match lib.parseDate(s)
      case Some((y, m, d)) => Some(DateTime(y, m, d, if isEnd then 86_399 * NANOS_PER_SECOND else 0))
      case None => None
  }

  function ParseDateRange(lib: Library, v: Json, path: seq<Step>): Result<Condition, Error> {
    match FromTo(v, path)
    case Err(e) => Err(e)
    case Ok((a, b)) =>
      match (DateBound(lib, a, false), DateBound(lib, b, true))
      case (None, _) => Err(Error(path, BadBound("from")))
      case (_, None) => Err(Error(path, BadBound("to")))
      case (Some(since), Some(until)) =>
        if NotAfter(since, until) then Ok(DateRange(since, until)) else Err(Error(path, UnorderedBounds("date_range")))
  }

  const LAST_SECOND: TimeOfDay := 86_399 * NANOS_PER_SECOND

  /** A range given by two dates is meant as whole days. It matches exactly the timestamps of those
      days, but for the fractions after the last second of the final day. */
  lemma DateOnlyRangeExact(
      lib: Library, a: string, b: string, first: (int, int, int), last: (int, int, int), d: DateTime)
    requires lib.parseDateTime(a).None? && lib.parseDate(a) == Some(first)
    requires lib.parseDateTime(b).None? && lib.parseDate(b) == Some(last)
    ensures var since, until := DateBound(lib, a, false).value, DateBound(lib, b, true).value;
            CondMatches(lib, DateRange(since, until), DateValue(Some(d))) <==>
      && NotAfter(DateTime(first.0, first.1, first.2, 0), d.(time := 0))
      && NotAfter(d.(time := 0), DateTime(last.0, last.1, last.2, 0))
      && !((d.year, d.month, d.day) == last && d.time > LAST_SECOND)
  {}

  /** Half a second before midnight of 1 May 2024 is not within the range from that day to that day. */
  lemma LastHalfSecondIsMissed(lib: Library)
    requires lib.parseDateTime("2024-05-01").None? && lib.parseDate("2024-05-01") == Some((2024, 5, 1))
    ensures var bound := (isEnd: bool) => DateBound(lib, "2024-05-01", isEnd).value;
            var late := DateTime(2024, 5, 1, NANOS_PER_DAY - 500_000_000);
            !CondMatches(lib, DateRange(bound(false), bound(true)), DateValue(Some(late)))
  {
    var late := DateTime(2024, 5, 1, NANOS_PER_DAY - 500_000_000);
    DateOnlyRangeExact(lib, "2024-05-01", "2024-05-01", (2024, 5, 1), (2024, 5, 1), late);
  }

  function ParseTimeRange(lib: Library, v: Json, path: seq<Step>): Result<Condition, Error> {
    match FromTo(v, path)
    case Err(e) => Err(e)
    case Ok((a, b)) =>
      match (lib.parseTime(a), lib.parseTime(b))
      case (None, _) => Err(Error(path, BadBound("from")))
      case (_, None) => Err(Error(path, BadBound("to")))
      case (Some(start), Some(end)) => Ok(TimeRange(start, end))
  }

  function MapOk<A, B>(r: Result<A, Error>, f: A -> B): Result<B, Error> {
    match r case Ok(a) => Ok(f(a)) case Err(e) => Err(e)
  }

  function ParseText(lib: Library, key: string, v: Json, path: seq<Step>, ignoreCase: bool): Result<Condition, Error> {
    match key
    case "eq" => MapOk(Text(v, key, path), s => StrEq(s, ignoreCase))
    case "contains" => MapOk(Text(v, key, path), s => StrContains(s, ignoreCase))
    case "starts_with" => MapOk(Text(v, key, path), s => StrStartsWith(s, ignoreCase))
    case "ends_with" => MapOk(Text(v, key, path), s => StrEndsWith(s, ignoreCase))
    case "regex" =>
      (match Text(v, key, path)
       case Ok(pattern) =>
         if lib.compiles(Regex(pattern, ignoreCase)) then Ok(StrRegex(Regex(pattern, ignoreCase)))
         else Err(Error(path, BadRegex))
       case Err(e) => Err(e))
    case _ => Err(Error(path, Unsupported(key)))
  }

  function ParseDate(lib: Library, key: string, v: Json, path: seq<Step>): Result<Condition, Error> {
    match key
    case "year" => MapOk(Integer(v, key, path), y => Year(WrapI32(y)))
    case "month" =>
      (match Integer(v, key, path)
       case Ok(m) => if 1 <= m <= 12 then Ok(Month(m)) else Err(Error(path, BadMonth))
       case Err(e) => Err(e))
    case "season" =>
      (match Text(v, key, path)
       case Ok(s) => if SeasonNamed(s).Some? then Ok(InSeason(SeasonNamed(s).value)) else Err(Error(path, BadSeason))
       case Err(e) => Err(e))
    case "date_range" => ParseDateRange(lib, v, path)
    case "time_range" => ParseTimeRange(lib, v, path)
    case _ => Err(Error(path, Unsupported(key)))
  }

  function ParseNumber(key: string, v: Json, path: seq<Step>): Result<Condition, Error> {
    match key
    case "eq" => MapOk(Number(v, key, path), n => NumEq(n))
    case "min" => MapOk(Number(v, key, path), n => NumMin(n))
    case "max" => MapOk(Number(v, key, path), n => NumMax(n))
    case _ => Err(Error(path, Unsupported(key)))
  }

  /** Which keys a field accepts is decided by its base type, except for the presence check. */
  function ParseCondition(lib: Library, field: QueryField, key: string, v: Json, path: seq<Step>, ignoreCase: bool)
    : (r: Result<Condition, Error>)
  {
    if key == "is_present" then
      if !Nullable(field) then Err(Error(path, AlwaysPresent))
      else if v.JBool? then Ok(Present(v.b)) else Err(Error(path, BadBool("is_present")))
    else match TypeOf(field)
      case BoolType =>
        if key != "eq" then Err(Error(path, Unsupported(key)))
        else if v.JBool? then Ok(BoolEq(v.b)) else Err(Error(path, BadBool("eq")))
      case IntType | FloatType => ParseNumber(key, v, path)
      case StrType => ParseText(lib, key, v, path, ignoreCase)
      case DateType => ParseDate(lib, key, v, path)
  }

  /** A sub-parser yields only conditions that fit `bt`, with ordered, in-range constants. */
  ghost predicate Sound(r: Result<Condition, Error>, bt: BaseType, path: seq<Step>) {
    match r
    case Ok(c) => Fits(bt, c) && Bounded(c) && !c.Present?
    case Err(e) => e.path == path && e.problem != TooDeep
  }

  lemma TextIsSound(lib: Library, key: string, v: Json, path: seq<Step>, ignoreCase: bool)
    ensures Sound(ParseText(lib, key, v, path, ignoreCase), StrType, path)
  {}

  lemma DateIsSound(lib: Library, key: string, v: Json, path: seq<Step>)
    ensures Sound(ParseDate(lib, key, v, path), DateType, path)
  {}

  lemma NumberIsSound(key: string, v: Json, path: seq<Step>)
    ensures Sound(ParseNumber(key, v, path), IntType, path) && Sound(ParseNumber(key, v, path), FloatType, path)
  {}

  /** An accepted condition fits its field and has ordered, in-range constants; a refused one is
      reported at its node. */
  lemma AcceptedConditionIsOk(lib: Library, field: QueryField, key: string, v: Json, path: seq<Step>, ignoreCase: bool)
    ensures match ParseCondition(lib, field, key, v, path, ignoreCase)
            case Ok(c) => CondOk(field, c)
            case Err(e) => e.path == path && e.problem != TooDeep
  {
    if key != "is_present" {
      match TypeOf(field)
      case BoolType =>
      case IntType | FloatType => NumberIsSound(key, v, path);
      case StrType => TextIsSound(lib, key, v, path, ignoreCase);
      case DateType => DateIsSound(lib, key, v, path);
    }
  }

  // -- Fields -----------------------------------------------------------------

  predicate IsFlag(key: string) {
    key == "field" || key == "ignore_case"
  }

  /** The conditions of the entries, in order; the first offending entry decides the error. */
  function ParseConditions(
      lib: Library, field: QueryField, entries: seq<(string, Json)>, path: seq<Step>, ignoreCase: bool)
    : (r: Result<seq<Condition>, Error>)
    ensures r.Ok? ==> forall i :: 0 <= i < |r.value| ==> CondOk(field, r.value[i])
    ensures r.Err? ==> r.error.path == path && r.error.problem != TooDeep
  {
    if entries == [] then Ok([])
    else
      var last := |entries| - 1;
      match ParseConditions(lib, field, entries[..last], path, ignoreCase)
      case Err(e) => Err(e)
      case Ok(conds) =>
        var (key, v) := entries[last];
        if IsFlag(key) then Ok(conds)
        else
          AcceptedConditionIsOk(lib, field, key, v, path, ignoreCase);
          match ParseCondition(lib, field, key, v, path, ignoreCase)
          case Ok(c) => Ok(conds + [c])
          case Err(e) => Err(e)
  }

  function IgnoreCase(entries: seq<(string, Json)>, path: seq<Step>): Result<bool, Error> {
    match Find(entries, "ignore_case")
    case None => Ok(false)
    case Some(JBool(b)) => Ok(b)
    case Some(_) => Err(Error(path, BadBool("ignore_case")))
  }

  function ParseField(lib: Library, entries: seq<(string, Json)>, fieldVal: Json, path: seq<Step>)
    : (r: Result<Predicate, Error>)
    ensures r.Ok? ==> r.value.OnField? && WellFormed(r.value)
    ensures r.Err? ==> r.error.path == path && r.error.problem != TooDeep
  {
    if !fieldVal.JText? then Err(Error(path, FieldNotText))
    else if FieldNamed(fieldVal.s).None? then Err(Error(path, UnknownField(fieldVal.s)))
    else
      var field := FieldNamed(fieldVal.s).value;
      match IgnoreCase(entries, path)
      case Err(e) => Err(e)
      case Ok(ignoreCase) =>
        match ParseConditions(lib, field, entries, path, ignoreCase)
        case Err(e) => Err(e)
        case Ok(conds) => if conds == [] then Err(Error(path, NoCondition)) else Ok(OnField(field, conds))
  }

  /** The loop that collects a field's conditions. */
  method CollectConditions(
      lib: Library, field: QueryField, entries: seq<(string, Json)>, path: seq<Step>, ignoreCase: bool)
    returns (r: Result<seq<Condition>, Error>)
    ensures r == ParseConditions(lib, field, entries, path, ignoreCase)
  {
    var conds := [];
    for i := 0 to |entries|
      invariant ParseConditions(lib, field, entries[..i], path, ignoreCase) == Ok(conds)
    {
      assert entries[..i + 1][..i] == entries[..i];
      var (key, v) := entries[i];
      if !IsFlag(key) {
        match ParseCondition(lib, field, key, v, path, ignoreCase) {
          case Ok(c) => conds := conds + [c];
          case Err(e) =>
            FirstErrorWins(lib, field, entries, i + 1, path, ignoreCase);
            return Err(e);
        }
      }
    }
    assert entries[..|entries|] == entries;
    r := Ok(conds);
  }

  lemma {:induction false} FirstErrorWins(lib: Library, field: QueryField, entries: seq<(string, Json)>, n: nat,
                                          path: seq<Step>, ignoreCase: bool)
    requires n <= |entries| && ParseConditions(lib, field, entries[..n], path, ignoreCase).Err?
    ensures ParseConditions(lib, field, entries, path, ignoreCase)
         == ParseConditions(lib, field, entries[..n], path, ignoreCase)
  {
    if n == |entries| {
      assert entries[..n] == entries;
    } else {
      var shorter := entries[..|entries| - 1];
      assert shorter[..n] == entries[..n];
      FirstErrorWins(lib, field, shorter, n, path, ignoreCase);
    }
  }

  // -- Nodes ------------------------------------------------------------------

  function ParseBbox(v: Json, path: seq<Step>): (r: Result<Predicate, Error>)
    ensures r.Ok? ==> WellFormed(r.value) && r.value.GpsBbox?
    ensures r.Err? ==> r.error.path == path && r.error.problem != TooDeep
  {
    match NumberAt(v, "lat_min", path) case Err(e) => Err(e) case Ok(latMin) =>
    match NumberAt(v, "lat_max", path) case Err(e) => Err(e) case Ok(latMax) =>
    match NumberAt(v, "lon_min", path) case Err(e) => Err(e) case Ok(lonMin) =>
    match NumberAt(v, "lon_max", path) case Err(e) => Err(e) case Ok(lonMax) =>
    if latMin > latMax then Err(Error(path, UnorderedBounds("lat")))
    else if lonMin > lonMax then Err(Error(path, UnorderedBounds("lon")))
    else Ok(GpsBbox(latMin, latMax, lonMin, lonMax))
  }

  function ParseRadius(v: Json, path: seq<Step>): (r: Result<Predicate, Error>)
    ensures r.Ok? ==> WellFormed(r.value) && r.value.GpsRadius?
    ensures r.Err? ==> r.error.path == path && r.error.problem != TooDeep
  {
    match NumberAt(v, "lat", path) case Err(e) => Err(e) case Ok(lat) =>
    match NumberAt(v, "lng", path) case Err(e) => Err(e) case Ok(lng) =>
    match NumberAt(v, "km", path) case Err(e) => Err(e) case Ok(km) =>
    if km < 0.0 then Err(Error(path, NegativeRadius)) else Ok(GpsRadius(lat, lng, km))
  }

  function ExtraKey(entries: seq<(string, Json)>, allowed: string): Option<string> {
    if entries == [] then None
    else if entries[0].0 != allowed then Some(entries[0].0)
    else ExtraKey(entries[1..], allowed)
  }

  function ParseNode(lib: Library, v: Json, path: seq<Step>, depth: nat): Result<Predicate, Error>
    requires depth <= MAX_PREDICATE_DEPTH + 1
    decreases MAX_PREDICATE_DEPTH + 1 - depth, 0
  {
    if depth > MAX_PREDICATE_DEPTH then Err(Error(path, TooDeep))
    else if !v.JObject? then Err(Error(path, NotAnObject))
    else if Find(v.entries, "and").Some? then
      if ExtraKey(v.entries, "and").Some? then Err(Error(path, UnexpectedKey(ExtraKey(v.entries, "and").value)))
      else MapOk(ParseChildren(lib, Find(v.entries, "and").value, "and", path, depth), c => And(c))
    else if Find(v.entries, "or").Some? then
      if ExtraKey(v.entries, "or").Some? then Err(Error(path, UnexpectedKey(ExtraKey(v.entries, "or").value)))
      else MapOk(ParseChildren(lib, Find(v.entries, "or").value, "or", path, depth), c => Or(c))
    else if Find(v.entries, "not").Some? then
      if ExtraKey(v.entries, "not").Some? then Err(Error(path, UnexpectedKey(ExtraKey(v.entries, "not").value)))
      else MapOk(ParseNode(lib, Find(v.entries, "not").value, path + [Key("not")], depth + 1), c => Not(c))
    else if Find(v.entries, "gps_bbox").Some? then
      if ExtraKey(v.entries, "gps_bbox").Some? then
        Err(Error(path, UnexpectedKey(ExtraKey(v.entries, "gps_bbox").value)))
      else ParseBbox(Find(v.entries, "gps_bbox").value, path + [Key("gps_bbox")])
    else if Find(v.entries, "gps_radius").Some? then
      if ExtraKey(v.entries, "gps_radius").Some? then
        Err(Error(path, UnexpectedKey(ExtraKey(v.entries, "gps_radius").value)))
      else ParseRadius(Find(v.entries, "gps_radius").value, path + [Key("gps_radius")])
    else if Find(v.entries, "field").Some? then ParseField(lib, v.entries, Find(v.entries, "field").value, path)
    else Err(Error(path, Unrecognised))
  }

  function ParseChildren(lib: Library, v: Json, key: string, path: seq<Step>, depth: nat): Result<seq<Predicate>, Error>
    requires depth <= MAX_PREDICATE_DEPTH
    decreases MAX_PREDICATE_DEPTH - depth, if v.JArray? then |v.items| + 1 else 1
  {
    if !v.JArray? then Err(Error(path, NotAnArray(key)))
    else if v.items == [] then Ok([])
    else
      var last := |v.items| - 1;
      match ParseChildren(lib, JArray(v.items[..last]), key, path, depth)
      case Err(e) => Err(e)
      case Ok(children) =>
        match ParseNode(lib, v.items[last], path + [Item(key, last)], depth + 1)
        case Err(e) => Err(e)
        case Ok(child) => Ok(children + [child])
  }

  function Parse(lib: Library, v: Json): Result<Predicate, Error> {
    ParseNode(lib, v, [], 0)
  }

  // -- What is accepted -------------------------------------------------------

  lemma {:induction false} AcceptedNode(lib: Library, v: Json, path: seq<Step>, depth: nat)
    requires depth <= MAX_PREDICATE_DEPTH + 1 && ParseNode(lib, v, path, depth).Ok?
    ensures var p := ParseNode(lib, v, path, depth).value; WellFormed(p) && NestedAtMost(p, MAX_PREDICATE_DEPTH - depth)
    decreases MAX_PREDICATE_DEPTH + 1 - depth, 0
  {
    if Find(v.entries, "and").Some? {
      AcceptedChildren(lib, Find(v.entries, "and").value, "and", path, depth);
    } else if Find(v.entries, "or").Some? {
      AcceptedChildren(lib, Find(v.entries, "or").value, "or", path, depth);
    } else if Find(v.entries, "not").Some? {
      AcceptedNode(lib, Find(v.entries, "not").value, path + [Key("not")], depth + 1);
    }
  }

  lemma {:induction false} AcceptedChildren(lib: Library, v: Json, key: string, path: seq<Step>, depth: nat)
    requires depth <= MAX_PREDICATE_DEPTH && ParseChildren(lib, v, key, path, depth).Ok?
    ensures var ps := ParseChildren(lib, v, key, path, depth).value;
            forall i :: 0 <= i < |ps| ==> WellFormed(ps[i]) && NestedAtMost(ps[i], MAX_PREDICATE_DEPTH - depth - 1)
    decreases MAX_PREDICATE_DEPTH - depth, if v.JArray? then |v.items| + 1 else 1
  {
    if v.items != [] {
      var last := |v.items| - 1;
      AcceptedChildren(lib, JArray(v.items[..last]), key, path, depth);
      AcceptedNode(lib, v.items[last], path + [Item(key, last)], depth + 1);
    }
  }

  /** Type soundness: an accepted tree is nested at most ten deep, lists conditions on every field,
      orders its bounds, and evaluating it on any picture never compares values of different types. */
  lemma AcceptedTreesAreSound(lib: Library, v: Json, input: Input)
    requires Parse(lib, v).Ok?
    ensures WellFormed(Parse(lib, v).value) && NestedAtMost(Parse(lib, v).value, MAX_PREDICATE_DEPTH)
    ensures NoMismatch(lib, Parse(lib, v).value, input)
  {
    AcceptedNode(lib, v, [], 0);
    WellFormedNeverMismatches(lib, Parse(lib, v).value, input);
  }

  /** `v` under `n` negations. */
  function Negated(v: Json, n: nat): Json {
    if n == 0 then v else JObject([("not", Negated(v, n - 1))])
  }

  /** The limit is exact: an acceptable leaf under `n` negations is accepted up to ten of them. */
  lemma {:induction false} DepthLimitIsExact(lib: Library, leaf: Json, n: nat, path: seq<Step>, depth: nat)
    requires depth <= MAX_PREDICATE_DEPTH + 1
    requires forall p: seq<Step>, d: nat :: d <= MAX_PREDICATE_DEPTH ==> ParseNode(lib, leaf, p, d).Ok?
    ensures ParseNode(lib, Negated(leaf, n), path, depth).Ok? <==> n + depth <= MAX_PREDICATE_DEPTH
    decreases n
  {
    if n > 0 && depth <= MAX_PREDICATE_DEPTH {
      var entries := Negated(leaf, n).entries;
      assert entries == [("not", Negated(leaf, n - 1))];
      assert Find(entries, "not") == Some(Negated(leaf, n - 1));
      assert ExtraKey(entries[1..], "not").None? && Find(entries[1..], "and").None? && Find(entries[1..], "or").None?;
      assert Find(entries, "and").None? && Find(entries, "or").None?;
      DepthLimitIsExact(lib, leaf, n - 1, path + [Key("not")], depth + 1);
    }
  }

  // -- Error paths ------------------------------------------------------------

  lemma {:induction false} FollowStep(root: Json, path: seq<Step>, v: Json, step: Step)
    requires Follow(root, path) == Some(v)
    ensures Follow(root, path + [step]) == Follow(v, [step])
    decreases |path|
  {
    if path == [] {
      assert root == v && path + [step] == [step];
    } else {
      assert (path + [step])[1..] == path[1..] + [step];
      match path[0]
      case Key(k) => FollowStep(Member(root, k).value, path[1..], v, step);
      case Item(k, i) => FollowStep(Member(root, k).value.items[i], path[1..], v, step);
    }
  }

  /** Where an error of a node parsed at `path` points, and how deep it is. */
  ghost predicate PointsInto(root: Json, e: Error) {
    Follow(root, e.path).Some? && (e.problem == TooDeep ==> |e.path| == MAX_PREDICATE_DEPTH + 1)
  }

  lemma {:induction false} NodeErrorPath(lib: Library, root: Json, v: Json, path: seq<Step>, depth: nat)
    requires depth <= MAX_PREDICATE_DEPTH + 1 && |path| == depth && Follow(root, path) == Some(v)
    requires ParseNode(lib, v, path, depth).Err?
    ensures PointsInto(root, ParseNode(lib, v, path, depth).error)
    decreases MAX_PREDICATE_DEPTH + 1 - depth, 0
  {
    if depth <= MAX_PREDICATE_DEPTH && v.JObject? {
      if Find(v.entries, "and").Some? {
        if ExtraKey(v.entries, "and").None? {
          ChildrenErrorPath(lib, root, v, Find(v.entries, "and").value, "and", path, depth);
        }
      } else if Find(v.entries, "or").Some? {
        if ExtraKey(v.entries, "or").None? {
          ChildrenErrorPath(lib, root, v, Find(v.entries, "or").value, "or", path, depth);
        }
      } else if Find(v.entries, "not").Some? {
        FollowStep(root, path, v, Key("not"));
        if ExtraKey(v.entries, "not").None? {
          NodeErrorPath(lib, root, Find(v.entries, "not").value, path + [Key("not")], depth + 1);
        }
      } else {
        FollowStep(root, path, v, Key("gps_bbox"));
        FollowStep(root, path, v, Key("gps_radius"));
      }
    }
  }

  lemma {:induction false} ChildrenErrorPath(
      lib: Library, root: Json, node: Json, v: Json, key: string, path: seq<Step>, depth: nat)
    requires depth <= MAX_PREDICATE_DEPTH && |path| == depth && Follow(root, path) == Some(node)
    requires exists whole :: Member(node, key) == Some(whole)
               && (v == whole || (v.JArray? && whole.JArray? && v.items <= whole.items))
    requires ParseChildren(lib, v, key, path, depth).Err?
    ensures PointsInto(root, ParseChildren(lib, v, key, path, depth).error)
    decreases MAX_PREDICATE_DEPTH - depth, if v.JArray? then |v.items| + 1 else 1
  {
    if v.JArray? && v.items != [] {
      var last := |v.items| - 1;
      if ParseChildren(lib, JArray(v.items[..last]), key, path, depth).Err? {
        ChildrenErrorPath(lib, root, node, JArray(v.items[..last]), key, path, depth);
      } else {
        FollowStep(root, path, node, Item(key, last));
        NodeErrorPath(lib, root, v.items[last], path + [Item(key, last)], depth + 1);
      }
    }
  }

  /** Every rejection names a node that is there, and nesting is refused at depth eleven only. */
  lemma RejectionNamesANode(lib: Library, v: Json)
    requires Parse(lib, v).Err?
    ensures PointsInto(v, Parse(lib, v).error)
  {
    NodeErrorPath(lib, v, v, [], 0);
  }
}
