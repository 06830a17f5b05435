/** What a rule says, read off its JSON: which trees are rules, and which pictures they match, told by
    the keys and the values alone. */
module PredicateMeaning {
  import opened Integers
  import opened Wrappers
  import opened Predicates
  import opened PredicateParsing

  // -- Columns and keys -------------------------------------------------------

  const NUMBERS := {"gps_lat", "gps_lng", "gps_alt", "iso_speed", "f_number", "focal_length_mm", "exposure_time",
                    "orientation", "file_size", "width", "height"}
  const TEXTS := {"camera_brand", "camera_model", "filename", "mime_type", "owner", "creator"}
  const DATES := {"captured_at", "ingested_at", "updated_at"}
  const FLAGS := {"is_owned"}

  /** What the picture holds under a name of NUMBERS. */
  function NumberIn(name: string, input: Input): Option<real> {
    var whole := (n: Option<int>) => if n.Some? then Some(n.value as real) else None;
    match name
    case "gps_lat" => input.gpsLat
    case "gps_lng" => input.gpsLng
    case "gps_alt" => whole(input.gpsAlt)
    case "iso_speed" => whole(input.isoSpeed)
    case "f_number" => input.fNumber
    case "focal_length_mm" => input.focalLength
    case "exposure_time" => input.exposureTime
    case "orientation" => whole(input.orientation)
    case "file_size" => whole(input.fileSize)
    case "width" => whole(input.width)
    case "height" => whole(input.height)
    case _ => None
  }

  function TextIn(name: string, input: Input): Option<string> {
    match name
    case "camera_brand" => input.cameraBrand
    case "camera_model" => input.cameraModel
    case "filename" => input.filename
    case "mime_type" => input.mimeType
    case "owner" => Some(input.owner)
    case "creator" => input.creator
    case _ => None
  }

  function DateIn(name: string, input: Input): Option<DateTime> {
    match name
    case "captured_at" => input.capturedAt
    case "ingested_at" => input.ingestedAt
    case "updated_at" => input.updatedAt
    case _ => None
  }

  predicate Has(name: string, input: Input) {
    name in FLAGS || NumberIn(name, input).Some? || TextIn(name, input).Some? || DateIn(name, input).Some?
  }

  const SEASONS := map["spring" := {3, 4, 5}, "summer" := {6, 7, 8}, "autumn" := {9, 10, 11}, "winter" := {12, 1, 2}]

  /** A bound of a date range: a timestamp as it is, or the first or last second of a day. */
  predicate Bounds(lib: Library, s: string, lastSecond: bool, at: DateTime) {
    match lib.parseDateTime(s)
    case Some(full) => at == full
    case None =>
      lib.parseDate(s) == Some((at.year, at.month, at.day))
      && at.time == if lastSecond then 86_399 * NANOS_PER_SECOND else 0
  }

  /** The texts under "from" and "to". */
  predicate Ends(v: Json, a: string, b: string) {
    Member(v, "from") == Some(JText(a)) && Member(v, "to") == Some(JText(b))
  }

  // -- Which keys a field takes -----------------------------------------------

  ghost predicate IsNumberRule(key: string, v: Json) {
    key in {"eq", "min", "max"} && NumberOf(v).Some?
  }

  ghost predicate IsTextRule(lib: Library, key: string, v: Json, ignoreCase: bool) {
    key in {"eq", "contains", "starts_with", "ends_with", "regex"} && v.JText?
    && (key == "regex" ==> lib.compiles(Regex(v.s, ignoreCase)))
  }

  ghost predicate IsDateRule(lib: Library, key: string, v: Json) {
    match key
    case "year" => v.JInt? && -0x8000_0000_0000_0000 <= v.i < 0x8000_0000_0000_0000
    case "month" => v.JInt? && 1 <= v.i <= 12
    case "season" => v.JText? && v.s in SEASONS
    case "date_range" =>
      exists a, b, x, y :: Ends(v, a, b) && Bounds(lib, a, false, x) && Bounds(lib, b, true, y) && NotAfter(x, y)
    case "time_range" => exists a, b :: Ends(v, a, b) && lib.parseTime(a).Some? && lib.parseTime(b).Some?
    case _ => false
  }

  ghost predicate IsKeyRule(lib: Library, name: string, key: string, v: Json, ignoreCase: bool) {
    if key == "is_present" then v.JBool? && name !in {"owner", "creator"}
    else if name in NUMBERS then IsNumberRule(key, v)
    else if name in TEXTS then IsTextRule(lib, key, v, ignoreCase)
    else if name in DATES then IsDateRule(lib, key, v)
    else key == "eq" && v.JBool?
  }

  // -- What a key asks --------------------------------------------------------

  predicate NumberAnswers(key: string, asked: real, x: real) {
    match key case "eq" => x == asked case "min" => asked <= x case _ => x <= asked
  }

  predicate OccursAt(s: string, n: string, i: int) {
    0 <= i <= |s| - |n| && s[i..i + |n|] == n
  }

  ghost predicate OccursIn(s: string, n: string) {
    exists i :: OccursAt(s, n, i)
  }

  ghost predicate Compares(key: string, s: string, n: string) {
    match key
    case "eq" => s == n
    case "contains" => OccursIn(s, n)
    case "starts_with" => |n| <= |s| && s[..|n|] == n
    case _ => |n| <= |s| && s[|s| - |n|..] == n
  }

  ghost predicate TextAnswers(lib: Library, key: string, asked: string, ignoreCase: bool, x: string) {
    if key == "regex" then lib.isMatch(Regex(asked, ignoreCase), x)
    else if ignoreCase then Compares(key, lib.lowercase(x), lib.lowercase(asked))
    else Compares(key, x, asked)
  }

  /** From one time of day to another, past midnight when they are not in order. */
  predicate DuringDay(start: TimeOfDay, end: TimeOfDay, t: TimeOfDay) {
    (t - start) % NANOS_PER_DAY <= (end - start) % NANOS_PER_DAY
  }

  ghost predicate DateAnswers(lib: Library, key: string, v: Json, d: DateTime) {
    match key
    case "year" => v.JInt? && d.year == WrapI32(v.i)
    case "month" => v == JInt(d.month)
    case "season" => v.JText? && v.s in SEASONS && d.month in SEASONS[v.s]
    case "date_range" =>
      exists a, b, x, y ::
        Ends(v, a, b) && Bounds(lib, a, false, x) && Bounds(lib, b, true, y) && NotAfter(x, d) && NotAfter(d, y)
    case _ =>
      exists a, b :: Ends(v, a, b) && lib.parseTime(a).Some? && lib.parseTime(b).Some?
                     && DuringDay(lib.parseTime(a).value, lib.parseTime(b).value, d.time)
  }

  /** The picture answers what one key of a field rule asks; an absent value answers only the question
      whether it is there. */
  ghost predicate KeyHolds(lib: Library, name: string, key: string, v: Json, ignoreCase: bool, input: Input) {
    if key == "is_present" then v == JBool(Has(name, input))
    else if name in NUMBERS then
      NumberIn(name, input).Some? && NumberOf(v).Some?
      && NumberAnswers(key, NumberOf(v).value, NumberIn(name, input).value)
    else if name in TEXTS then
      TextIn(name, input).Some? && v.JText? && TextAnswers(lib, key, v.s, ignoreCase, TextIn(name, input).value)
    else if name in DATES then DateIn(name, input).Some? && DateAnswers(lib, key, v, DateIn(name, input).value)
    else v == JBool(input.isOwned)
  }

  // -- Which trees are rules --------------------------------------------------

  predicate OnlyKey(entries: seq<(string, Json)>, key: string) {
    forall i :: 0 <= i < |entries| ==> entries[i].0 == key
  }

  function NumberUnder(v: Json, key: string): Option<real> {
    if Member(v, key).Some? then NumberOf(Member(v, key).value) else None
  }

  predicate IsBox(v: Json) {
    var (a, b, c, d) := (NumberUnder(v, "lat_min"), NumberUnder(v, "lat_max"), NumberUnder(v, "lon_min"),
                         NumberUnder(v, "lon_max"));
    a.Some? && b.Some? && c.Some? && d.Some? && a.value <= b.value && c.value <= d.value
  }

  predicate IsCircle(v: Json) {
    NumberUnder(v, "lat").Some? && NumberUnder(v, "lng").Some?
    && NumberUnder(v, "km").Some? && NumberUnder(v, "km").value >= 0.0
  }

  /** Whether texts are compared regardless of case; off unless said. */
  function Caseless(entries: seq<(string, Json)>): bool {
    Find(entries, "ignore_case") == Some(JBool(true))
  }

  /** A known field under at least one key that it takes. */
  ghost predicate IsFieldRule(lib: Library, entries: seq<(string, Json)>, field: Json) {
    && field.JText? && field.s in NUMBERS + TEXTS + DATES + FLAGS
    && (Find(entries, "ignore_case").Some? ==> Find(entries, "ignore_case").value.JBool?)
    && (exists i :: 0 <= i < |entries| && !IsFlag(entries[i].0))
    && forall i :: 0 <= i < |entries| && !IsFlag(entries[i].0) ==>
         IsKeyRule(lib, field.s, entries[i].0, entries[i].1, Caseless(entries))
  }

  /** A tree that is accepted where `levels` more levels may follow. */
  ghost predicate IsRule(lib: Library, v: Json, levels: nat)
    decreases levels
  {
    v.JObject? &&
    var under := (key: string) => Find(v.entries, key);
    if under("and").Some? then OnlyKey(v.entries, "and") && AreRules(lib, under("and").value, levels)
    else if under("or").Some? then OnlyKey(v.entries, "or") && AreRules(lib, under("or").value, levels)
    else if under("not").Some? then
      OnlyKey(v.entries, "not") && levels > 0 && IsRule(lib, under("not").value, levels - 1)
    else if under("gps_bbox").Some? then OnlyKey(v.entries, "gps_bbox") && IsBox(under("gps_bbox").value)
    else if under("gps_radius").Some? then OnlyKey(v.entries, "gps_radius") && IsCircle(under("gps_radius").value)
    else under("field").Some? && IsFieldRule(lib, v.entries, under("field").value)
  }

  ghost predicate AreRules(lib: Library, v: Json, levels: nat)
    decreases levels, 0
  {
    v.JArray? && forall i :: 0 <= i < |v.items| ==> levels > 0 && IsRule(lib, v.items[i], levels - 1)
  }

  // -- What a tree says -------------------------------------------------------

  datatype Question =
    | All(items: seq<Json>) | Any(items: seq<Json>) | NoneOf(child: Json) | InBox(box: Json) | InCircle(circle: Json)
    | Keys(name: string) | Nothing

  /** Which question an object asks; the first discriminating key decides. */
  function Asked(entries: seq<(string, Json)>): Question {
    var under := (key: string) => Find(entries, key);
    if under("and").Some? then (if under("and").value.JArray? then All(under("and").value.items) else Nothing)
    else if under("or").Some? then (if under("or").value.JArray? then Any(under("or").value.items) else Nothing)
    else if under("not").Some? then NoneOf(under("not").value)
    else if under("gps_bbox").Some? then InBox(under("gps_bbox").value)
    else if under("gps_radius").Some? then InCircle(under("gps_radius").value)
    else if under("field").Some? && under("field").value.JText? then Keys(under("field").value.s)
    else Nothing
  }

  lemma {:induction false} FoundInside(entries: seq<(string, Json)>, key: string)
    ensures Find(entries, key).Some? ==> exists i :: 0 <= i < |entries| && entries[i].1 == Find(entries, key).value
  {
    if entries != [] && entries[0].0 != key {
      FoundInside(entries[1..], key);
      if Find(entries, key).Some? {
        var i :| 0 <= i < |entries[1..]| && entries[1..][i].1 == Find(entries, key).value;
        assert entries[i + 1].1 == Find(entries, key).value;
      }
    }
  }

  lemma UnderIsSmaller(v: Json, key: string)
    requires v.JObject? && Find(v.entries, key).Some?
    ensures Find(v.entries, key).value < v
  {
    FoundInside(v.entries, key);
    var i :| 0 <= i < |v.entries| && v.entries[i].1 == Find(v.entries, key).value;
    assert v.entries[i] < v;
  }

  /** Whatever is asked about is part of the tree. */
  lemma AskedIsInside(v: Json)
    requires v.JObject?
    ensures match Asked(v.entries)
            case All(items) => forall i :: 0 <= i < |items| ==> items[i] < v
            case Any(items) => forall i :: 0 <= i < |items| ==> items[i] < v
            case NoneOf(child) => child < v
            case _ => true
  {
    if Find(v.entries, "and").Some? {
      UnderIsSmaller(v, "and");
    } else if Find(v.entries, "or").Some? {
      UnderIsSmaller(v, "or");
    } else if Find(v.entries, "not").Some? {
      UnderIsSmaller(v, "not");
    }
  }

  /** The picture matches the tree: all of "and", some of "or", the opposite of "not", inside the box or
      the circle, or every key of the field. */
  ghost predicate Says(lib: Library, v: Json, input: Input)
    decreases v
  {
    v.JObject? && (AskedIsInside(v); match Asked(v.entries)
    case All(items) => forall i :: 0 <= i < |items| ==> Says(lib, items[i], input)
    case Any(items) => exists i :: 0 <= i < |items| && Says(lib, items[i], input)
    case NoneOf(child) => !Says(lib, child, input)
    case InBox(box) =>
      input.gpsLat.Some? && input.gpsLng.Some? && IsBox(box)
      && NumberUnder(box, "lat_min").value <= input.gpsLat.value <= NumberUnder(box, "lat_max").value
      && NumberUnder(box, "lon_min").value <= input.gpsLng.value <= NumberUnder(box, "lon_max").value
    case InCircle(circle) =>
      input.gpsLat.Some? && input.gpsLng.Some? && IsCircle(circle)
      && lib.distanceKm(NumberUnder(circle, "lat").value, NumberUnder(circle, "lng").value,
                        input.gpsLat.value, input.gpsLng.value) <= NumberUnder(circle, "km").value
    case Keys(name) =>
      forall i :: 0 <= i < |v.entries| && !IsFlag(v.entries[i].0) ==>
        KeyHolds(lib, name, v.entries[i].0, v.entries[i].1, Caseless(v.entries), input)
    case Nothing => false)
  }

  // -- The parser reads keys as they are meant --------------------------------

  const NAMES := NUMBERS + TEXTS + DATES + FLAGS

  lemma NamesAreFields(name: string)
    ensures FieldNamed(name).Some? <==> name in NAMES
  {}

  /** The number columns, and what the picture holds there. */
  lemma NumberColumn(name: string, input: Input)
    requires name in NUMBERS
    ensures FieldNamed(name).Some?
    ensures var f := FieldNamed(name).value;
            && (TypeOf(f).IntType? || TypeOf(f).FloatType?) && Nullable(f)
            && (IsPresent(ValueOf(f, input)) <==> NumberIn(name, input).Some?)
            && (NumberIn(name, input).Some? ==> AsReal(ValueOf(f, input)) == NumberIn(name, input))
  {}

  lemma TextColumn(name: string, input: Input)
    requires name in TEXTS
    ensures FieldNamed(name).Some?
    ensures var f := FieldNamed(name).value;
            && TypeOf(f).StrType? && (Nullable(f) <==> name !in {"owner", "creator"})
            && ValueOf(f, input) == StrValue(TextIn(name, input))
  {}

  lemma DateColumn(name: string, input: Input)
    requires name in DATES
    ensures FieldNamed(name).Some?
    ensures var f := FieldNamed(name).value;
            TypeOf(f).DateType? && Nullable(f) && ValueOf(f, input) == DateValue(DateIn(name, input))
  {}

  lemma FlagColumn(name: string, input: Input)
    requires name in FLAGS
    ensures FieldNamed(name).Some?
    ensures var f := FieldNamed(name).value;
            TypeOf(f).BoolType? && Nullable(f) && ValueOf(f, input) == BoolValue(input.isOwned)
  {}

  lemma SeasonTable(name: string, month: int)
    ensures SeasonNamed(name).Some? <==> name in SEASONS
    ensures name in SEASONS ==> (ContainsMonth(SeasonNamed(name).value, month) <==> month in SEASONS[name])
  {}

  /** A sub-parser accepts exactly the rules of its type, and what it yields asks what the key asks. */
  lemma NumberKey(lib: Library, key: string, v: Json, path: seq<Step>, value: FieldValue, x: Option<real>)
    requires IsPresent(value) <==> x.Some?
    requires x.Some? ==> AsReal(value) == x
    ensures ParseNumber(key, v, path).Ok? <==> IsNumberRule(key, v)
    ensures IsNumberRule(key, v) ==>
      (CondMatches(lib, ParseNumber(key, v, path).value, value)
       <==> x.Some? && NumberAnswers(key, NumberOf(v).value, x.value))
  {}

  lemma OccursExactly(needle: string, s: string)
    ensures Occurs(needle, s) <==> OccursIn(s, needle)
  {
    if Occurs(needle, s) {
      var i :| 0 <= i <= |s| && needle <= s[i..];
      assert s[i..][..|needle|] == s[i..i + |needle|];
      assert OccursAt(s, needle, i);
    }
    if OccursIn(s, needle) {
      var i :| OccursAt(s, needle, i);
      assert s[i..][..|needle|] == s[i..i + |needle|];
      assert 0 <= i <= |s| && needle <= s[i..];
    }
  }

  lemma TextIsCompared(lib: Library, key: string, asked: string, ignoreCase: bool, x: string)
    ensures StrMatches(lib, x, asked, ignoreCase, Equals) <==> TextAnswers(lib, "eq", asked, ignoreCase, x)
    ensures StrMatches(lib, x, asked, ignoreCase, Contains) <==> TextAnswers(lib, "contains", asked, ignoreCase, x)
    ensures StrMatches(lib, x, asked, ignoreCase, Starts) <==> TextAnswers(lib, "starts_with", asked, ignoreCase, x)
    ensures StrMatches(lib, x, asked, ignoreCase, StrOp.Ends) <==> TextAnswers(lib, "ends_with", asked, ignoreCase, x)
  {
    var (s, n) := if ignoreCase then (lib.lowercase(x), lib.lowercase(asked)) else (x, asked);
    OccursExactly(n, s);
    PrefixExactly(n, s);
  }

  lemma PrefixExactly(needle: string, s: string)
    ensures needle <= s <==> |needle| <= |s| && s[..|needle|] == needle
  {}

  /** What a text key accepts. */
  lemma TextIsAccepted(lib: Library, key: string, v: Json, path: seq<Step>, ignoreCase: bool)
    ensures ParseText(lib, key, v, path, ignoreCase).Ok? <==> IsTextRule(lib, key, v, ignoreCase)
  {}

  lemma RegexIsRead(lib: Library, v: Json, path: seq<Step>, ignoreCase: bool, x: Option<string>)
    requires IsTextRule(lib, "regex", v, ignoreCase)
    ensures ParseText(lib, "regex", v, path, ignoreCase) == Ok(StrRegex(Regex(v.s, ignoreCase)))
    ensures CondMatches(lib, StrRegex(Regex(v.s, ignoreCase)), StrValue(x))
      <==> x.Some? && TextAnswers(lib, "regex", v.s, ignoreCase, x.value)
  {}

  lemma ComparisonIsRead(
      lib: Library, key: string, v: Json, path: seq<Step>, ignoreCase: bool, x: Option<string>)
    requires IsTextRule(lib, key, v, ignoreCase) && key != "regex"
    ensures ParseText(lib, key, v, path, ignoreCase).Ok?
    ensures CondMatches(lib, ParseText(lib, key, v, path, ignoreCase).value, StrValue(x))
      <==> x.Some? && TextAnswers(lib, key, v.s, ignoreCase, x.value)
  {
    var r := ParseText(lib, key, v, path, ignoreCase);
    if x.Some? { TextIsCompared(lib, key, v.s, ignoreCase, x.value); }
    if key == "eq" {
      assert r == Ok(StrEq(v.s, ignoreCase));
    } else if key == "contains" {
      assert r == Ok(StrContains(v.s, ignoreCase));
    } else if key == "starts_with" {
      assert r == Ok(StrStartsWith(v.s, ignoreCase));
    } else {
      assert r == Ok(StrEndsWith(v.s, ignoreCase));
    }
  }

  lemma TextKey(lib: Library, key: string, v: Json, path: seq<Step>, ignoreCase: bool, x: Option<string>)
    ensures ParseText(lib, key, v, path, ignoreCase).Ok? <==> IsTextRule(lib, key, v, ignoreCase)
    ensures IsTextRule(lib, key, v, ignoreCase) ==>
      (CondMatches(lib, ParseText(lib, key, v, path, ignoreCase).value, StrValue(x))
       <==> x.Some? && TextAnswers(lib, key, v.s, ignoreCase, x.value))
  {
    TextIsAccepted(lib, key, v, path, ignoreCase);
    if IsTextRule(lib, key, v, ignoreCase) {
      if key == "regex" { RegexIsRead(lib, v, path, ignoreCase, x); }
      else { ComparisonIsRead(lib, key, v, path, ignoreCase, x); }
    }
  }

  lemma BoundIsRead(lib: Library, s: string, lastSecond: bool)
    ensures DateBound(lib, s, lastSecond).Some? ==> Bounds(lib, s, lastSecond, DateBound(lib, s, lastSecond).value)
    ensures forall at :: Bounds(lib, s, lastSecond, at) ==> DateBound(lib, s, lastSecond) == Some(at)
  {}

  lemma EndsAreRead(v: Json, path: seq<Step>)
    ensures FromTo(v, path).Ok? ==> Ends(v, FromTo(v, path).value.0, FromTo(v, path).value.1)
    ensures forall a, b :: Ends(v, a, b) ==> FromTo(v, path) == Ok((a, b))
  {}

  lemma RangeKey(lib: Library, v: Json, path: seq<Step>, x: Option<DateTime>)
    ensures ParseDateRange(lib, v, path).Ok? <==> IsDateRule(lib, "date_range", v)
    ensures IsDateRule(lib, "date_range", v) ==>
      (CondMatches(lib, ParseDateRange(lib, v, path).value, DateValue(x))
       <==> x.Some? && DateAnswers(lib, "date_range", v, x.value))
  {
    EndsAreRead(v, path);
    if FromTo(v, path).Ok? {
      var (a, b) := FromTo(v, path).value;
      BoundIsRead(lib, a, false);
      BoundIsRead(lib, b, true);
      if ParseDateRange(lib, v, path).Ok? { RangeIsRule(lib, v, path, a, b); }
    }
  }

  lemma RangeIsRule(lib: Library, v: Json, path: seq<Step>, a: string, b: string)
    requires Ends(v, a, b) && DateBound(lib, a, false).Some? && DateBound(lib, b, true).Some?
    requires NotAfter(DateBound(lib, a, false).value, DateBound(lib, b, true).value)
    ensures IsDateRule(lib, "date_range", v)
  {
    var x, y := DateBound(lib, a, false).value, DateBound(lib, b, true).value;
    BoundIsRead(lib, a, false);
    BoundIsRead(lib, b, true);
    assert Ends(v, a, b) && Bounds(lib, a, false, x) && Bounds(lib, b, true, y) && NotAfter(x, y);
  }

  lemma TimesKey(lib: Library, v: Json, path: seq<Step>, x: Option<DateTime>)
    ensures ParseTimeRange(lib, v, path).Ok? <==> IsDateRule(lib, "time_range", v)
    ensures IsDateRule(lib, "time_range", v) ==>
      (CondMatches(lib, ParseTimeRange(lib, v, path).value, DateValue(x))
       <==> x.Some? && DateAnswers(lib, "time_range", v, x.value))
  {
    EndsAreRead(v, path);
    if ParseTimeRange(lib, v, path).Ok? && x.Some? {
      var (a, b) := FromTo(v, path).value;
      TimeRangeIsCyclic(lib.parseTime(a).value, lib.parseTime(b).value, x.value.time);
      assert Ends(v, a, b);
    }
  }

  lemma DateKey(lib: Library, key: string, v: Json, path: seq<Step>, x: Option<DateTime>)
    ensures ParseDate(lib, key, v, path).Ok? <==> IsDateRule(lib, key, v)
    ensures IsDateRule(lib, key, v) ==>
      (CondMatches(lib, ParseDate(lib, key, v, path).value, DateValue(x))
       <==> x.Some? && DateAnswers(lib, key, v, x.value))
  {
    if key == "date_range" {
      RangeKey(lib, v, path, x);
    } else if key == "time_range" {
      TimesKey(lib, v, path, x);
    } else if key == "season" && v.JText? {
      SeasonTable(v.s, if x.Some? then x.value.month else 0);
    }
  }

  lemma HasOnlyItsColumn(name: string, input: Input)
    ensures name in NUMBERS ==> (Has(name, input) <==> NumberIn(name, input).Some?)
    ensures name in TEXTS ==> (Has(name, input) <==> TextIn(name, input).Some?)
    ensures name in DATES ==> (Has(name, input) <==> DateIn(name, input).Some?)
  {}

  ghost predicate IsKeyRead(
      lib: Library, r: Result<Condition, Error>, name: string, key: string, v: Json, ignoreCase: bool,
      value: FieldValue, input: Input)
  {
    && (r.Ok? <==> IsKeyRule(lib, name, key, v, ignoreCase))
    && (r.Ok? ==> (CondMatches(lib, r.value, value) <==> KeyHolds(lib, name, key, v, ignoreCase, input)))
  }

  lemma NumberNameIsRead(
      lib: Library, name: string, key: string, v: Json, path: seq<Step>, ignoreCase: bool, input: Input)
    requires name in NUMBERS && FieldNamed(name).Some?
    ensures var f := FieldNamed(name).value;
      IsKeyRead(lib, ParseCondition(lib, f, key, v, path, ignoreCase), name, key, v, ignoreCase, ValueOf(f, input),
                input)
  {
    NumberColumn(name, input);
    NumberKey(lib, key, v, path, ValueOf(FieldNamed(name).value, input), NumberIn(name, input));
    HasOnlyItsColumn(name, input);
  }

  lemma TextNameIsRead(
      lib: Library, name: string, key: string, v: Json, path: seq<Step>, ignoreCase: bool, input: Input)
    requires name in TEXTS && FieldNamed(name).Some?
    ensures var f := FieldNamed(name).value;
      IsKeyRead(lib, ParseCondition(lib, f, key, v, path, ignoreCase), name, key, v, ignoreCase, ValueOf(f, input),
                input)
  {
    TextColumn(name, input);
    TextKey(lib, key, v, path, ignoreCase, TextIn(name, input));
    HasOnlyItsColumn(name, input);
  }

  lemma DateNameIsRead(
      lib: Library, name: string, key: string, v: Json, path: seq<Step>, ignoreCase: bool, input: Input)
    requires name in DATES && FieldNamed(name).Some?
    ensures var f := FieldNamed(name).value;
      IsKeyRead(lib, ParseCondition(lib, f, key, v, path, ignoreCase), name, key, v, ignoreCase, ValueOf(f, input),
                input)
  {
    DateColumn(name, input);
    DateKey(lib, key, v, path, DateIn(name, input));
    HasOnlyItsColumn(name, input);
  }

  lemma FlagNameIsRead(
      lib: Library, name: string, key: string, v: Json, path: seq<Step>, ignoreCase: bool, input: Input)
    requires name in FLAGS && FieldNamed(name).Some?
    ensures var f := FieldNamed(name).value;
      IsKeyRead(lib, ParseCondition(lib, f, key, v, path, ignoreCase), name, key, v, ignoreCase, ValueOf(f, input),
                input)
  {
    FlagColumn(name, input);
  }

  /** The parser accepts exactly the keys that the named field takes, and reads each as what it asks. */
  lemma KeyIsRead(lib: Library, name: string, key: string, v: Json, path: seq<Step>, ignoreCase: bool, input: Input)
    requires name in NAMES && FieldNamed(name).Some?
    ensures var f := FieldNamed(name).value;
      IsKeyRead(lib, ParseCondition(lib, f, key, v, path, ignoreCase), name, key, v, ignoreCase, ValueOf(f, input),
                input)
  {
    if name in NUMBERS {
      NumberNameIsRead(lib, name, key, v, path, ignoreCase, input);
    } else if name in TEXTS {
      TextNameIsRead(lib, name, key, v, path, ignoreCase, input);
    } else if name in DATES {
      DateNameIsRead(lib, name, key, v, path, ignoreCase, input);
    } else {
      FlagNameIsRead(lib, name, key, v, path, ignoreCase, input);
    }
  }

  // -- The parser reads trees as they are meant -------------------------------

  lemma {:induction false} ExtraKeyExactly(entries: seq<(string, Json)>, key: string)
    ensures ExtraKey(entries, key).None? <==> OnlyKey(entries, key)
  {
    if entries != [] {
      ExtraKeyExactly(entries[1..], key);
      if OnlyKey(entries, key) {
        forall i | 0 <= i < |entries[1..]| ensures entries[1..][i].0 == key { assert entries[i + 1].0 == key; }
      }
      if entries[0].0 == key && OnlyKey(entries[1..], key) {
        forall i | 0 <= i < |entries| ensures entries[i].0 == key {
          if i > 0 { assert entries[i] == entries[1..][i - 1]; }
        }
      }
    }
  }

  /** Every key is one the field takes, and some key is a condition. */
  ghost predicate KeysOk(lib: Library, name: string, entries: seq<(string, Json)>, ignoreCase: bool) {
    forall i :: 0 <= i < |entries| && !IsFlag(entries[i].0) ==>
      IsKeyRule(lib, name, entries[i].0, entries[i].1, ignoreCase)
  }

  ghost predicate KeysHold(lib: Library, name: string, entries: seq<(string, Json)>, ignoreCase: bool, input: Input) {
    forall i :: 0 <= i < |entries| && !IsFlag(entries[i].0) ==>
      KeyHolds(lib, name, entries[i].0, entries[i].1, ignoreCase, input)
  }

  lemma {:induction false} KeysAreRead(
      lib: Library, name: string, entries: seq<(string, Json)>, path: seq<Step>, ignoreCase: bool, input: Input)
    requires name in NAMES && FieldNamed(name).Some?
    ensures var f := FieldNamed(name).value;
            var r := ParseConditions(lib, f, entries, path, ignoreCase);
            && (r.Ok? <==> KeysOk(lib, name, entries, ignoreCase))
            && (r.Ok? ==> (r.value == [] <==> AllFlags(entries)))
            && (r.Ok? ==> (Matches(lib, OnField(f, r.value), input)
                           <==> KeysHold(lib, name, entries, ignoreCase, input)))
  {
    if entries != [] {
      var last := |entries| - 1;
      KeysAreRead(lib, name, entries[..last], path, ignoreCase, input);
      KeyIsRead(lib, name, entries[last].0, entries[last].1, path, ignoreCase, input);
      OneMoreKey(lib, name, entries, ignoreCase, input);
      if KeysOk(lib, name, entries, ignoreCase) {
        OneMoreCondition(lib, FieldNamed(name).value, entries, path, ignoreCase, input);
      }
    }
  }

  lemma OneMoreKey(lib: Library, name: string, entries: seq<(string, Json)>, ignoreCase: bool, input: Input)
    requires entries != []
    ensures var last := |entries| - 1;
            var (key, v) := entries[last];
            && (KeysOk(lib, name, entries, ignoreCase) <==>
                  && KeysOk(lib, name, entries[..last], ignoreCase)
                  && (IsFlag(key) || IsKeyRule(lib, name, key, v, ignoreCase)))
            && (KeysHold(lib, name, entries, ignoreCase, input) <==>
                  && KeysHold(lib, name, entries[..last], ignoreCase, input)
                  && (IsFlag(key) || KeyHolds(lib, name, key, v, ignoreCase, input)))
            && (AllFlags(entries) <==> AllFlags(entries[..last]) && IsFlag(key))
  {
    assert entries == entries[..|entries| - 1] + [entries[|entries| - 1]];
  }

  predicate AllFlags(entries: seq<(string, Json)>) {
    forall i :: 0 <= i < |entries| ==> IsFlag(entries[i].0)
  }

  lemma OneMoreCondition(lib: Library, field: QueryField, entries: seq<(string, Json)>, path: seq<Step>,
                         ignoreCase: bool, input: Input)
    requires entries != [] && ParseConditions(lib, field, entries, path, ignoreCase).Ok?
    ensures var last := |entries| - 1;
            var (key, v) := entries[last];
            var r := ParseConditions(lib, field, entries, path, ignoreCase).value;
            var rest := ParseConditions(lib, field, entries[..last], path, ignoreCase);
            && rest.Ok? && (r == [] <==> rest.value == [] && IsFlag(key))
            && (Matches(lib, OnField(field, r), input) <==>
                  && Matches(lib, OnField(field, rest.value), input)
                  && (IsFlag(key) || CondMatches(lib, ParseCondition(lib, field, key, v, path, ignoreCase).value,
                                                 ValueOf(field, input))))
  {
    var last := |entries| - 1;
    var (key, v) := entries[last];
    var rest := ParseConditions(lib, field, entries[..last], path, ignoreCase).value;
    if !IsFlag(key) {
      LastCondition(lib, field, rest, ParseCondition(lib, field, key, v, path, ignoreCase).value, input);
    }
  }

  lemma LastCondition(lib: Library, field: QueryField, conds: seq<Condition>, c: Condition, input: Input)
    ensures Matches(lib, OnField(field, conds + [c]), input)
      <==> Matches(lib, OnField(field, conds), input) && CondMatches(lib, c, ValueOf(field, input))
  {
    var all := conds + [c];
    assert all[|conds|] == c && forall i :: 0 <= i < |conds| ==> all[i] == conds[i];
  }

  lemma FieldIsRead(lib: Library, entries: seq<(string, Json)>, field: Json, path: seq<Step>, input: Input)
    ensures var r := ParseField(lib, entries, field, path);
            && (r.Ok? <==> IsFieldRule(lib, entries, field))
            && (r.Ok? ==> (Matches(lib, r.value, input)
                           <==> KeysHold(lib, field.s, entries, Caseless(entries), input)))
  {
    if field.JText? {
      NamesAreFields(field.s);
      if field.s in NAMES { KeysAreRead(lib, field.s, entries, path, Caseless(entries), input); }
    }
  }

  lemma BoxIsRead(lib: Library, v: Json, path: seq<Step>, input: Input)
    ensures ParseBbox(v, path).Ok? <==> IsBox(v)
    ensures IsBox(v) ==>
      (Matches(lib, ParseBbox(v, path).value, input) <==>
        && input.gpsLat.Some? && input.gpsLng.Some?
        && NumberUnder(v, "lat_min").value <= input.gpsLat.value <= NumberUnder(v, "lat_max").value
        && NumberUnder(v, "lon_min").value <= input.gpsLng.value <= NumberUnder(v, "lon_max").value)
  {}

  lemma CircleIsRead(lib: Library, v: Json, path: seq<Step>, input: Input)
    ensures ParseRadius(v, path).Ok? <==> IsCircle(v)
    ensures IsCircle(v) ==>
      (Matches(lib, ParseRadius(v, path).value, input) <==>
        && input.gpsLat.Some? && input.gpsLng.Some?
        && lib.distanceKm(NumberUnder(v, "lat").value, NumberUnder(v, "lng").value,
                          input.gpsLat.value, input.gpsLng.value) <= NumberUnder(v, "km").value)
  {}

  /** A node is accepted exactly when it is a rule, and then matches what it says. */
  ghost predicate IsRead(lib: Library, r: Result<Predicate, Error>, v: Json, levels: nat, input: Input) {
    (r.Ok? <==> IsRule(lib, v, levels)) && (r.Ok? ==> (Matches(lib, r.value, input) <==> Says(lib, v, input)))
  }

  /** All children are accepted exactly when all are rules, and each then matches what it says. */
  ghost predicate AreRead(lib: Library, r: Result<seq<Predicate>, Error>, v: Json, levels: nat, input: Input) {
    && (r.Ok? <==> AreRules(lib, v, levels))
    && (r.Ok? ==> |r.value| == |v.items|)
    && (r.Ok? ==> forall i :: 0 <= i < |r.value| ==>
                    (Matches(lib, r.value[i], input) <==> Says(lib, v.items[i], input)))
  }

  lemma InitAndLast(items: seq<Json>, p: Json -> bool)
    requires items != []
    ensures var last := |items| - 1;
      (forall i :: 0 <= i < |items| ==> p(items[i]))
      <==> (forall i :: 0 <= i < last ==> p(items[..last][i])) && p(items[last])
  {
    var last := |items| - 1;
    if (forall i :: 0 <= i < last ==> p(items[..last][i])) && p(items[last]) {
      forall i | 0 <= i < |items| ensures p(items[i]) {
        if i < last { assert items[..last][i] == items[i]; }
      }
    }
  }

  ghost function RuleBelow(lib: Library, levels: nat): Json -> bool {
    v => levels > 0 && IsRule(lib, v, levels - 1)
  }

  lemma RulesBelow(lib: Library, items: seq<Json>, levels: nat)
    ensures AreRules(lib, JArray(items), levels)
      <==> forall i :: 0 <= i < |items| ==> RuleBelow(lib, levels)(items[i])
  {}

  lemma LastRule(lib: Library, v: Json, levels: nat)
    requires v.JArray? && v.items != []
    ensures var last := |v.items| - 1;
      AreRules(lib, v, levels)
      <==> AreRules(lib, JArray(v.items[..last]), levels) && levels > 0 && IsRule(lib, v.items[last], levels - 1)
  {
    RulesBelow(lib, v.items, levels);
    RulesBelow(lib, v.items[..|v.items| - 1], levels);
    InitAndLast(v.items, RuleBelow(lib, levels));
  }

  lemma LastIsRead(lib: Library, children: seq<Predicate>, child: Predicate, items: seq<Json>, input: Input)
    requires items != [] && |children| == |items| - 1
    requires Matches(lib, child, input) <==> Says(lib, items[|items| - 1], input)
    requires forall i :: 0 <= i < |children| ==>
      (Matches(lib, children[i], input) <==> Says(lib, items[..|items| - 1][i], input))
    ensures forall i :: 0 <= i < |items| ==>
      (Matches(lib, (children + [child])[i], input) <==> Says(lib, items[i], input))
  {}

  lemma AllIsRead(lib: Library, v: Json, path: seq<Step>, depth: nat, input: Input)
    requires depth <= MAX_PREDICATE_DEPTH && v.JObject? && Find(v.entries, "and").Some?
    requires var items := Find(v.entries, "and").value;
      AreRead(lib, ParseChildren(lib, items, "and", path, depth), items, MAX_PREDICATE_DEPTH - depth, input)
    ensures IsRead(lib, ParseNode(lib, v, path, depth), v, MAX_PREDICATE_DEPTH - depth, input)
  {
    ExtraKeyExactly(v.entries, "and");
  }

  lemma AnyIsRead(lib: Library, v: Json, path: seq<Step>, depth: nat, input: Input)
    requires depth <= MAX_PREDICATE_DEPTH && v.JObject? && Find(v.entries, "and").None?
    requires Find(v.entries, "or").Some?
    requires var items := Find(v.entries, "or").value;
      AreRead(lib, ParseChildren(lib, items, "or", path, depth), items, MAX_PREDICATE_DEPTH - depth, input)
    ensures IsRead(lib, ParseNode(lib, v, path, depth), v, MAX_PREDICATE_DEPTH - depth, input)
  {
    ExtraKeyExactly(v.entries, "or");
  }

  lemma NegationIsRead(lib: Library, v: Json, path: seq<Step>, depth: nat, input: Input)
    requires depth <= MAX_PREDICATE_DEPTH && v.JObject? && Find(v.entries, "and").None?
    requires Find(v.entries, "or").None? && Find(v.entries, "not").Some?
    requires var child := Find(v.entries, "not").value;
      depth < MAX_PREDICATE_DEPTH ==>
        IsRead(lib, ParseNode(lib, child, path + [Key("not")], depth + 1), child,
               MAX_PREDICATE_DEPTH - depth - 1, input)
    ensures IsRead(lib, ParseNode(lib, v, path, depth), v, MAX_PREDICATE_DEPTH - depth, input)
  {
    ExtraKeyExactly(v.entries, "not");
  }

  predicate IsLeaf(entries: seq<(string, Json)>) {
    Find(entries, "and").None? && Find(entries, "or").None? && Find(entries, "not").None?
  }

  lemma LeafIsRead(lib: Library, v: Json, path: seq<Step>, depth: nat, input: Input)
    requires depth <= MAX_PREDICATE_DEPTH && v.JObject? && IsLeaf(v.entries)
    ensures IsRead(lib, ParseNode(lib, v, path, depth), v, MAX_PREDICATE_DEPTH - depth, input)
  {
    if Find(v.entries, "gps_bbox").Some? {
      ExtraKeyExactly(v.entries, "gps_bbox");
      BoxIsRead(lib, Find(v.entries, "gps_bbox").value, path + [Key("gps_bbox")], input);
    } else if Find(v.entries, "gps_radius").Some? {
      ExtraKeyExactly(v.entries, "gps_radius");
      CircleIsRead(lib, Find(v.entries, "gps_radius").value, path + [Key("gps_radius")], input);
    } else if Find(v.entries, "field").Some? {
      FieldIsRead(lib, v.entries, Find(v.entries, "field").value, path, input);
    }
  }

  lemma {:induction false} NodeIsRead(lib: Library, v: Json, path: seq<Step>, depth: nat, input: Input)
    requires depth <= MAX_PREDICATE_DEPTH
    ensures IsRead(lib, ParseNode(lib, v, path, depth), v, MAX_PREDICATE_DEPTH - depth, input)
    decreases MAX_PREDICATE_DEPTH + 1 - depth, 0
  {
    if v.JObject? {
      if Find(v.entries, "and").Some? {
        ChildrenAreRead(lib, Find(v.entries, "and").value, "and", path, depth, input);
        AllIsRead(lib, v, path, depth, input);
      } else if Find(v.entries, "or").Some? {
        ChildrenAreRead(lib, Find(v.entries, "or").value, "or", path, depth, input);
        AnyIsRead(lib, v, path, depth, input);
      } else if Find(v.entries, "not").Some? {
        if depth < MAX_PREDICATE_DEPTH {
          NodeIsRead(lib, Find(v.entries, "not").value, path + [Key("not")], depth + 1, input);
        }
        NegationIsRead(lib, v, path, depth, input);
      } else {
        LeafIsRead(lib, v, path, depth, input);
      }
    }
  }

  /** One more child, read after those before it. */
  lemma NextChildIsRead(lib: Library, v: Json, key: string, path: seq<Step>, depth: nat, input: Input)
    requires depth <= MAX_PREDICATE_DEPTH && v.JArray? && v.items != []
    requires var init := JArray(v.items[..|v.items| - 1]);
      AreRead(lib, ParseChildren(lib, init, key, path, depth), init, MAX_PREDICATE_DEPTH - depth, input)
    requires var last := |v.items| - 1;
      depth < MAX_PREDICATE_DEPTH ==>
        IsRead(lib, ParseNode(lib, v.items[last], path + [Item(key, last)], depth + 1), v.items[last],
               MAX_PREDICATE_DEPTH - depth - 1, input)
    ensures AreRead(lib, ParseChildren(lib, v, key, path, depth), v, MAX_PREDICATE_DEPTH - depth, input)
  {
    var last := |v.items| - 1;
    var init := ParseChildren(lib, JArray(v.items[..last]), key, path, depth);
    var child := ParseNode(lib, v.items[last], path + [Item(key, last)], depth + 1);
    LastRule(lib, v, MAX_PREDICATE_DEPTH - depth);
    if init.Ok? && child.Ok? { LastIsRead(lib, init.value, child.value, v.items, input); }
  }

  lemma {:induction false} ChildrenAreRead(
      lib: Library, v: Json, key: string, path: seq<Step>, depth: nat, input: Input)
    requires depth <= MAX_PREDICATE_DEPTH
    ensures AreRead(lib, ParseChildren(lib, v, key, path, depth), v, MAX_PREDICATE_DEPTH - depth, input)
    decreases MAX_PREDICATE_DEPTH - depth, if v.JArray? then |v.items| + 1 else 1
  {
    if v.JArray? && v.items != [] {
      var last := |v.items| - 1;
      ChildrenAreRead(lib, JArray(v.items[..last]), key, path, depth, input);
      if depth < MAX_PREDICATE_DEPTH { NodeIsRead(lib, v.items[last], path + [Item(key, last)], depth + 1, input); }
      NextChildIsRead(lib, v, key, path, depth, input);
    }
  }

  /** The parser accepts exactly the rules nested at most ten deep, and the tree it yields matches
      exactly the pictures that the rule says: all of "and", some of "or", the opposite of "not", inside
      the box or the circle, or every key of the field as its name and its value read. */
  lemma ParsedTreeSaysTheRule(lib: Library, v: Json, input: Input)
    ensures Parse(lib, v).Ok? <==> IsRule(lib, v, MAX_PREDICATE_DEPTH)
    ensures Parse(lib, v).Ok? ==> (Matches(lib, Parse(lib, v).value, input) <==> Says(lib, v, input))
  {
    NodeIsRead(lib, v, [], 0, input);
  }
}
