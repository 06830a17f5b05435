/** The editable EXIF of a picture as a typed struct: merge, clear, diff and edit validation. */
module Exif {
  import opened Doubles
  import opened Integers
  import opened Wrappers

  datatype ExifField =
    | CapturedAt | GpsLat | GpsLng | GpsAlt | GpsAccuracyM | Orientation
    | CameraBrand | CameraModel | FocalLengthMm | FNumber | IsoSpeed | ExposureTimeNum | ExposureTimeDen

  /** Camera and lens fields; the last four are technical metadata that no edit touches. */
  datatype CameraExif = CameraExif(
    brand: Option<string>, model: Option<string>, focalLength: Option<real>, fNumber: Option<real>,
    isoSpeed: Option<i32>, exposureNum: Option<i32>, exposureDen: Option<i32>,
    duration: Option<real>, videoCodec: Option<string>, audioCodec: Option<string>, frameRate: Option<real>)

  datatype FullExif = FullExif(
    capturedAt: Option<int>, gpsLat: Option<real>, gpsLng: Option<real>, gpsAlt: Option<i32>,
    gpsAccuracy: Option<real>, orientation: Option<i16>, camera: CameraExif)

  const NO_CAMERA := CameraExif(None, None, None, None, None, None, None, None, None, None, None)
  const EMPTY := FullExif(None, None, None, None, None, None, NO_CAMERA)

  // -- Reading by field -------------------------------------------------------

  datatype Value = Real(r: real) | Int(i: int) | Text(s: string) | Time(t: int)

  function FromReal(o: Option<real>): Option<Value> { if o.Some? then Some(Real(o.value)) else None }
  function FromInt(o: Option<int>): Option<Value> { if o.Some? then Some(Int(o.value)) else None }
  function FromText(o: Option<string>): Option<Value> { if o.Some? then Some(Text(o.value)) else None }
  function FromTime(o: Option<int>): Option<Value> { if o.Some? then Some(Time(o.value)) else None }

  /** The value of one editable field. */
  function Get(e: FullExif, f: ExifField): Option<Value> {
    match f
    case CapturedAt => FromTime(e.capturedAt)
    case GpsLat => FromReal(e.gpsLat)
    case GpsLng => FromReal(e.gpsLng)
    case GpsAlt => FromInt(e.gpsAlt)
    case GpsAccuracyM => FromReal(e.gpsAccuracy)
    case Orientation => FromInt(e.orientation)
    case CameraBrand => FromText(e.camera.brand)
    case CameraModel => FromText(e.camera.model)
    case FocalLengthMm => FromReal(e.camera.focalLength)
    case FNumber => FromReal(e.camera.fNumber)
    case IsoSpeed => FromInt(e.camera.isoSpeed)
    case ExposureTimeNum => FromInt(e.camera.exposureNum)
    case ExposureTimeDen => FromInt(e.camera.exposureDen)
  }

  predicate SameEditable(a: FullExif, b: FullExif) {
    forall f: ExifField :: Get(a, f) == Get(b, f)
  }

  predicate SameTechnical(a: FullExif, b: FullExif) {
    a.camera.duration == b.camera.duration && a.camera.videoCodec == b.camera.videoCodec
    && a.camera.audioCodec == b.camera.audioCodec && a.camera.frameRate == b.camera.frameRate
  }

  lemma CameraDetermines(a: FullExif, b: FullExif)
    requires SameEditable(a, b) && SameTechnical(a, b)
    ensures a.camera == b.camera
  {
    assert Get(a, CameraBrand) == Get(b, CameraBrand) && Get(a, CameraModel) == Get(b, CameraModel);
    assert Get(a, FocalLengthMm) == Get(b, FocalLengthMm) && Get(a, FNumber) == Get(b, FNumber);
    assert Get(a, IsoSpeed) == Get(b, IsoSpeed) && Get(a, ExposureTimeNum) == Get(b, ExposureTimeNum);
    assert Get(a, ExposureTimeDen) == Get(b, ExposureTimeDen);
  }

  /** The thirteen fields and the technical metadata are all there is. */
  lemma FieldsDetermine(a: FullExif, b: FullExif)
    requires SameEditable(a, b) && SameTechnical(a, b)
    ensures a == b
  {
    CameraDetermines(a, b);
    assert Get(a, CapturedAt) == Get(b, CapturedAt) && Get(a, Orientation) == Get(b, Orientation);
    assert Get(a, GpsLat) == Get(b, GpsLat) && Get(a, GpsLng) == Get(b, GpsLng);
    assert Get(a, GpsAlt) == Get(b, GpsAlt) && Get(a, GpsAccuracyM) == Get(b, GpsAccuracyM);
  }

  // -- Merge, clear, apply ----------------------------------------------------

  /** `after` is `before` with every field of `set` written over it and `clear` nulled afterwards:
      a field both set and cleared ends up cleared. */
  ghost predicate IsApplied(before: FullExif, set_: FullExif, clear: seq<ExifField>, after: FullExif) {
    && (forall f: ExifField :: Get(after, f) ==
          if f in clear then None else if Get(set_, f).Some? then Get(set_, f) else Get(before, f))
    && SameTechnical(after, before)
  }

  function Over<T>(set_: Option<T>, self: Option<T>): Option<T> {
    if set_.Some? then set_ else self
  }

  function CameraOver(self: CameraExif, s: CameraExif): CameraExif {
    CameraExif(
      Over(s.brand, self.brand), Over(s.model, self.model), Over(s.focalLength, self.focalLength),
      Over(s.fNumber, self.fNumber), Over(s.isoSpeed, self.isoSpeed), Over(s.exposureNum, self.exposureNum),
      Over(s.exposureDen, self.exposureDen), self.duration, self.videoCodec, self.audioCodec, self.frameRate)
  }

  function FullOver(self: FullExif, s: FullExif): FullExif {
    FullExif(
      Over(s.capturedAt, self.capturedAt), Over(s.gpsLat, self.gpsLat), Over(s.gpsLng, self.gpsLng),
      Over(s.gpsAlt, self.gpsAlt), Over(s.gpsAccuracy, self.gpsAccuracy), Over(s.orientation, self.orientation),
      CameraOver(self.camera, s.camera))
  }

  lemma OverIsApplied(self: FullExif, set_: FullExif)
    ensures IsApplied(self, set_, [], FullOver(self, set_))
  {}

  /** Overwrite each field that is present in `set`, one after the other. */
  method ApplySet(self: FullExif, set_: FullExif) returns (e: FullExif)
    ensures e == FullOver(self, set_)
    ensures IsApplied(self, set_, [], e)
  {
    e := self;
    if set_.capturedAt.Some? { e := e.(capturedAt := set_.capturedAt); }
    if set_.gpsLat.Some? { e := e.(gpsLat := set_.gpsLat); }
    if set_.gpsLng.Some? { e := e.(gpsLng := set_.gpsLng); }
    if set_.gpsAlt.Some? { e := e.(gpsAlt := set_.gpsAlt); }
    if set_.gpsAccuracy.Some? { e := e.(gpsAccuracy := set_.gpsAccuracy); }
    if set_.orientation.Some? { e := e.(orientation := set_.orientation); }
    var camera := ApplyCamera(e.camera, set_.camera);
    e := e.(camera := camera);
    OverIsApplied(self, set_);
  }

  /** The camera half of the same sequence of overwrites. */
  method ApplyCamera(self: CameraExif, s: CameraExif) returns (c: CameraExif)
    ensures c == CameraOver(self, s)
  {
    c := self;
    if s.brand.Some? { c := c.(brand := s.brand); }
    if s.model.Some? { c := c.(model := s.model); }
    if s.focalLength.Some? { c := c.(focalLength := s.focalLength); }
    if s.fNumber.Some? { c := c.(fNumber := s.fNumber); }
    if s.isoSpeed.Some? { c := c.(isoSpeed := s.isoSpeed); }
    if s.exposureNum.Some? { c := c.(exposureNum := s.exposureNum); }
    if s.exposureDen.Some? { c := c.(exposureDen := s.exposureDen); }
  }

  function ClearField(e: FullExif, f: ExifField): FullExif {
    match f
    case CapturedAt => e.(capturedAt := None)
    case GpsLat => e.(gpsLat := None)
    case GpsLng => e.(gpsLng := None)
    case GpsAlt => e.(gpsAlt := None)
    case GpsAccuracyM => e.(gpsAccuracy := None)
    case Orientation => e.(orientation := None)
    case CameraBrand => e.(camera := e.camera.(brand := None))
    case CameraModel => e.(camera := e.camera.(model := None))
    case FocalLengthMm => e.(camera := e.camera.(focalLength := None))
    case FNumber => e.(camera := e.camera.(fNumber := None))
    case IsoSpeed => e.(camera := e.camera.(isoSpeed := None))
    case ExposureTimeNum => e.(camera := e.camera.(exposureNum := None))
    case ExposureTimeDen => e.(camera := e.camera.(exposureDen := None))
  }

  lemma ClearFieldExact(e: FullExif, f: ExifField)
    ensures forall g: ExifField :: Get(ClearField(e, f), g) == if g == f then None else Get(e, g)
    ensures SameTechnical(ClearField(e, f), e)
  {}

  /** The state an edit reaches: `set` first, then `clear`. */
  method Applied(self: FullExif, set_: FullExif, clear: seq<ExifField>) returns (e: FullExif)
    ensures IsApplied(self, set_, clear, e)
  {
    e := ApplySet(self, set_);
    ghost var merged := e;
    for i := 0 to |clear|
      invariant SameTechnical(e, merged)
      invariant forall f: ExifField :: Get(e, f) == if f in clear[..i] then None else Get(merged, f)
    {
      ClearFieldExact(e, clear[i]);
      assert clear[..i + 1] == clear[..i] + [clear[i]];
      e := ClearField(e, clear[i]);
    }
    assert clear[..|clear|] == clear;
  }

  /** An edit has one outcome. */
  lemma AppliedIsUnique(before: FullExif, set_: FullExif, clear: seq<ExifField>, a: FullExif, b: FullExif)
    requires IsApplied(before, set_, clear, a) && IsApplied(before, set_, clear, b)
    ensures a == b
  {
    forall f: ExifField ensures Get(a, f) == Get(b, f) {}
    FieldsDetermine(a, b);
  }

  // -- Diff -------------------------------------------------------------------

  /** One field of a difference: what to set, and whether to clear. */
  function DiffOne<T(==)>(mine: Option<T>, target: Option<T>): (Option<T>, bool) {
    if mine == target then (None, false) else if target.Some? then (target, false) else (None, true)
  }

  ghost predicate IsDiff(self: FullExif, target: FullExif, set_: FullExif, clear: seq<ExifField>) {
    && SameTechnical(set_, EMPTY)
    && forall f: ExifField ::
         && Get(set_, f) == (if Get(self, f) != Get(target, f) then Get(target, f) else None)
         && (f in clear <==> Get(self, f) != Get(target, f) && Get(target, f).None?)
  }

  ghost predicate IsPromotedDiff(self: FullExif, target: FullExif, set_: FullExif, clear: seq<ExifField>) {
    && set_ == FullExif(
      DiffOne(self.capturedAt, target.capturedAt).0, DiffOne(self.gpsLat, target.gpsLat).0,
      DiffOne(self.gpsLng, target.gpsLng).0, DiffOne(self.gpsAlt, target.gpsAlt).0,
      DiffOne(self.gpsAccuracy, target.gpsAccuracy).0, DiffOne(self.orientation, target.orientation).0, NO_CAMERA)
    && forall f :: f in clear <==>
      || (f.CapturedAt? && DiffOne(self.capturedAt, target.capturedAt).1)
      || (f.GpsLat? && DiffOne(self.gpsLat, target.gpsLat).1) || (f.GpsLng? && DiffOne(self.gpsLng, target.gpsLng).1)
      || (f.GpsAlt? && DiffOne(self.gpsAlt, target.gpsAlt).1)
      || (f.GpsAccuracyM? && DiffOne(self.gpsAccuracy, target.gpsAccuracy).1)
      || (f.Orientation? && DiffOne(self.orientation, target.orientation).1)
  }

  ghost predicate IsCameraDiff(self: CameraExif, target: CameraExif, set_: CameraExif, clear: seq<ExifField>) {
    && set_ == CameraExif(
      DiffOne(self.brand, target.brand).0, DiffOne(self.model, target.model).0,
      DiffOne(self.focalLength, target.focalLength).0, DiffOne(self.fNumber, target.fNumber).0,
      DiffOne(self.isoSpeed, target.isoSpeed).0, DiffOne(self.exposureNum, target.exposureNum).0,
      DiffOne(self.exposureDen, target.exposureDen).0, None, None, None, None)
    && forall f :: f in clear <==>
      || (f.CameraBrand? && DiffOne(self.brand, target.brand).1)
      || (f.CameraModel? && DiffOne(self.model, target.model).1)
      || (f.FocalLengthMm? && DiffOne(self.focalLength, target.focalLength).1)
      || (f.FNumber? && DiffOne(self.fNumber, target.fNumber).1)
      || (f.IsoSpeed? && DiffOne(self.isoSpeed, target.isoSpeed).1)
      || (f.ExposureTimeNum? && DiffOne(self.exposureNum, target.exposureNum).1)
      || (f.ExposureTimeDen? && DiffOne(self.exposureDen, target.exposureDen).1)
  }

  lemma SetHalves(self: FullExif, target: FullExif, set1: FullExif, clear1: seq<ExifField>,
                  set2: CameraExif, clear2: seq<ExifField>, f: ExifField)
    requires IsPromotedDiff(self, target, set1, clear1) && IsCameraDiff(self.camera, target.camera, set2, clear2)
    ensures Get(set1.(camera := set2), f) == (if Get(self, f) != Get(target, f) then Get(target, f) else None)
  {}

  lemma ClearHalves(self: FullExif, target: FullExif, set1: FullExif, clear1: seq<ExifField>,
                    set2: CameraExif, clear2: seq<ExifField>, f: ExifField)
    requires IsPromotedDiff(self, target, set1, clear1) && IsCameraDiff(self.camera, target.camera, set2, clear2)
    ensures f in clear1 || f in clear2 <==> Get(self, f) != Get(target, f) && Get(target, f).None?
  {}

  lemma HalvesAreTheDiff(self: FullExif, target: FullExif, set1: FullExif, clear1: seq<ExifField>,
                         set2: CameraExif, clear2: seq<ExifField>)
    requires IsPromotedDiff(self, target, set1, clear1)
    requires IsCameraDiff(self.camera, target.camera, set2, clear2)
    ensures IsDiff(self, target, set1.(camera := set2), clear1 + clear2)
  {
    var set_, clear := set1.(camera := set2), clear1 + clear2;
    assert SameTechnical(set_, EMPTY);
    forall f: ExifField
      ensures Get(set_, f) == (if Get(self, f) != Get(target, f) then Get(target, f) else None)
      ensures f in clear <==> Get(self, f) != Get(target, f) && Get(target, f).None?
    {
      SetHalves(self, target, set1, clear1, set2, clear2, f);
      ClearHalves(self, target, set1, clear1, set2, clear2, f);
    }
  }

  /** The set and clear lists that turn `self` into `target`, field by field. */
  method DiffTo(self: FullExif, target: FullExif) returns (set_: FullExif, clear: seq<ExifField>)
    ensures IsDiff(self, target, set_, clear)
  {
    var set1, clear1 := DiffPromoted(self, target);
    var set2, clear2 := DiffCamera(self.camera, target.camera);
    HalvesAreTheDiff(self, target, set1, clear1, set2, clear2);
    set_, clear := set1.(camera := set2), clear1 + clear2;
  }

  method DiffPromoted(self: FullExif, target: FullExif) returns (set_: FullExif, clear: seq<ExifField>)
    ensures IsPromotedDiff(self, target, set_, clear)
  {
    set_, clear := EMPTY, [];
    var (capturedAt, c1) := DiffOne(self.capturedAt, target.capturedAt);
    set_ := set_.(capturedAt := capturedAt); if c1 { clear := clear + [CapturedAt]; }
    var (gpsLat, c2) := DiffOne(self.gpsLat, target.gpsLat);
    set_ := set_.(gpsLat := gpsLat); if c2 { clear := clear + [GpsLat]; }
    var (gpsLng, c3) := DiffOne(self.gpsLng, target.gpsLng);
    set_ := set_.(gpsLng := gpsLng); if c3 { clear := clear + [GpsLng]; }
    var (gpsAlt, c4) := DiffOne(self.gpsAlt, target.gpsAlt);
    set_ := set_.(gpsAlt := gpsAlt); if c4 { clear := clear + [GpsAlt]; }
    var (gpsAccuracy, c5) := DiffOne(self.gpsAccuracy, target.gpsAccuracy);
    set_ := set_.(gpsAccuracy := gpsAccuracy); if c5 { clear := clear + [GpsAccuracyM]; }
    var (orientation, c6) := DiffOne(self.orientation, target.orientation);
    set_ := set_.(orientation := orientation); if c6 { clear := clear + [Orientation]; }
  }

  method DiffCamera(self: CameraExif, target: CameraExif) returns (set_: CameraExif, clear: seq<ExifField>)
    ensures IsCameraDiff(self, target, set_, clear)
  {
    set_, clear := NO_CAMERA, [];
    var (brand, c1) := DiffOne(self.brand, target.brand);
    set_ := set_.(brand := brand); if c1 { clear := clear + [CameraBrand]; }
    var (model, c2) := DiffOne(self.model, target.model);
    set_ := set_.(model := model); if c2 { clear := clear + [CameraModel]; }
    var (focalLength, c3) := DiffOne(self.focalLength, target.focalLength);
    set_ := set_.(focalLength := focalLength); if c3 { clear := clear + [FocalLengthMm]; }
    var (fNumber, c4) := DiffOne(self.fNumber, target.fNumber);
    set_ := set_.(fNumber := fNumber); if c4 { clear := clear + [FNumber]; }
    var (isoSpeed, c5) := DiffOne(self.isoSpeed, target.isoSpeed);
    set_ := set_.(isoSpeed := isoSpeed); if c5 { clear := clear + [IsoSpeed]; }
    var (exposureNum, c6) := DiffOne(self.exposureNum, target.exposureNum);
    set_ := set_.(exposureNum := exposureNum); if c6 { clear := clear + [ExposureTimeNum]; }
    var (exposureDen, c7) := DiffOne(self.exposureDen, target.exposureDen);
    set_ := set_.(exposureDen := exposureDen); if c7 { clear := clear + [ExposureTimeDen]; }
  }

  /** Applying a difference reaches the target on every editable field, sets nothing it clears, and
      is empty when there is nothing to do. */
  lemma DiffReachesTarget(self: FullExif, target: FullExif, set_: FullExif, clear: seq<ExifField>, after: FullExif)
    requires IsDiff(self, target, set_, clear) && IsApplied(self, set_, clear, after)
    ensures SameEditable(after, target) && SameTechnical(after, self)
    ensures forall f :: f in clear ==> Get(set_, f).None?
    ensures SameEditable(self, target) <==> set_ == EMPTY && clear == []
  {
    if SameEditable(self, target) {
      forall f: ExifField ensures Get(set_, f) == Get(EMPTY, f) { assert Get(self, f) == Get(target, f); }
      FieldsDetermine(set_, EMPTY);
      EmptyWithoutMembers(clear);
    }
    if set_ == EMPTY && clear == [] {
      forall f: ExifField ensures Get(self, f) == Get(target, f) { assert Get(EMPTY, f) == None; }
    }
  }

  lemma EmptyWithoutMembers(clear: seq<ExifField>)
    ensures (forall f :: f !in clear) ==> clear == []
  {
    assert clear != [] ==> clear[0] in clear;
  }

  // -- Validating an edit -----------------------------------------------------

  function MapReal(o: Option<real>, f: real -> real): Option<real> {
    if o.Some? then Some(f(o.value)) else None
  }

  /** Round each field to what its EXIF tag holds; `fl` rounds the results of double arithmetic. */
  function Normalize(fl: real -> real, e: FullExif): FullExif {
    e.(gpsAccuracy := MapReal(e.gpsAccuracy, x => Cents(fl, x)),
       camera := e.camera.(focalLength := MapReal(e.camera.focalLength, x => Round(x) as real),
                           fNumber := MapReal(e.camera.fNumber, x => Cents(fl, x))))
  }

  /** Absent, or a double below the first one that two decimals do not settle. */
  ghost predicate IsSettled(fl: real -> real, o: Option<real>) {
    o.Some? ==> IsDouble(fl, o.value) && Abs(o.value) < FIRST_UNSTABLE
  }

  lemma RoundOfWhole(n: int)
    ensures Round(n as real) == n
  {}

  lemma SettledCents(fl: real -> real, o: Option<real>)
    requires IsRounding(fl) && IsSettled(fl, o)
    ensures MapReal(MapReal(o, x => Cents(fl, x)), x => Cents(fl, x)) == MapReal(o, x => Cents(fl, x))
  {
    if o.Some? { StableBelow(fl, o.value); }
  }

  /** Normalising keeps which fields are present and the accuracy in its range, and an edit it has
      rounded reads back unchanged as long as the accuracy and the f-number are below 2^45 + 1/64. */
  lemma NormalizeExact(fl: real -> real, e: FullExif)
    requires IsRounding(fl)
    ensures forall f: ExifField :: Get(Normalize(fl, e), f).Some? <==> Get(e, f).Some?
    ensures e.gpsAccuracy.Some? && 0.0 <= e.gpsAccuracy.value <= MAX_GPS_ACCURACY_M
      ==> 0.0 <= Normalize(fl, e).gpsAccuracy.value <= MAX_GPS_ACCURACY_M
    ensures IsSettled(fl, e.gpsAccuracy) && IsSettled(fl, e.camera.fNumber)
      ==> Normalize(fl, Normalize(fl, e)) == Normalize(fl, e)
  {
    if e.gpsAccuracy.Some? && 0.0 <= e.gpsAccuracy.value <= MAX_GPS_ACCURACY_M {
      CentsInRange(fl, e.gpsAccuracy.value);
    }
    if e.camera.focalLength.Some? { RoundOfWhole(Round(e.camera.focalLength.value)); }
    if IsSettled(fl, e.gpsAccuracy) && IsSettled(fl, e.camera.fNumber) {
      SettledCents(fl, e.gpsAccuracy);
      SettledCents(fl, e.camera.fNumber);
    }
  }

  /** The nearest whole number, the one farther from zero of two. */
  predicate IsNearestWhole(n: int, x: real) {
    Abs(n as real - x) <= 0.5 && (Abs(n as real - x) == 0.5 ==> Abs(n as real) > Abs(x))
  }

  ghost predicate IsNearestWholeOf(r: Option<real>, x: real) {
    exists n: int :: r == Some(n as real) && IsNearestWhole(n, x)
  }

  lemma RoundIsNearest(x: real)
    ensures IsNearestWhole(Round(x), x)
  {}

  /** Each field has its own rounding: the focal length goes to the nearest whole number, the accuracy
      and the f-number, up to twenty million, to the double of the nearest hundredth, and every other field
      stays as it is. */
  lemma NormalizeRounds(fl: real -> real, e: FullExif)
    requires IsRounding(fl)
    ensures var c, r := e.camera, Normalize(fl, e);
      && (c.focalLength.Some? ==> IsNearestWholeOf(r.camera.focalLength, c.focalLength.value))
      && (e.gpsAccuracy.Some? && Abs(e.gpsAccuracy.value) <= MAX_GPS_ACCURACY_M
          ==> r.gpsAccuracy.Some? && IsHundredthOf(fl, r.gpsAccuracy.value, e.gpsAccuracy.value))
      && (c.fNumber.Some? && Abs(c.fNumber.value) <= MAX_GPS_ACCURACY_M
          ==> r.camera.fNumber.Some? && IsHundredthOf(fl, r.camera.fNumber.value, c.fNumber.value))
      && SameTechnical(r, e)
      && forall f :: f !in [FocalLengthMm, FNumber, GpsAccuracyM] ==> Get(r, f) == Get(e, f)
  {
    if e.camera.focalLength.Some? {
      var x := e.camera.focalLength.value;
      RoundIsNearest(x);
      assert Normalize(fl, e).camera.focalLength == Some(Round(x) as real);
    }
    if e.gpsAccuracy.Some? && Abs(e.gpsAccuracy.value) <= MAX_GPS_ACCURACY_M {
      CentsAreHundredths(fl, e.gpsAccuracy.value);
    }
    if e.camera.fNumber.Some? && Abs(e.camera.fNumber.value) <= MAX_GPS_ACCURACY_M {
      CentsAreHundredths(fl, e.camera.fNumber.value);
    }
  }

  predicate IsCoordinate(f: ExifField) {
    f.GpsLat? || f.GpsLng? || f.GpsAlt?
  }

  const GPS_GROUP := [GpsLat, GpsLng, GpsAlt, GpsAccuracyM]

  /** Any coordinate pulls in the whole group; the accuracy alone does not. */
  method CoupleGps(fields: seq<ExifField>) returns (coupled: seq<ExifField>)
    ensures fields <= coupled
    ensures forall f :: f in coupled <==> f in fields || (f in GPS_GROUP && exists g :: g in fields && IsCoordinate(g))
    ensures coupled == Coupled(fields)
  {
    coupled := fields;
    if exists i :: 0 <= i < |fields| && IsCoordinate(fields[i]) {
      var i :| 0 <= i < |fields| && IsCoordinate(fields[i]);
      assert fields[i] in fields;
      for n := 0 to |GPS_GROUP|
        invariant coupled == fields + Missing(fields, GPS_GROUP[..n])
        invariant forall f :: f in coupled <==> f in fields || f in GPS_GROUP[..n]
      {
        assert GPS_GROUP[..n + 1] == GPS_GROUP[..n] + [GPS_GROUP[n]];
        assert GPS_GROUP[..n + 1][..n] == GPS_GROUP[..n];
        assert GPS_GROUP[n] !in GPS_GROUP[..n];
        if GPS_GROUP[n] !in coupled { coupled := coupled + [GPS_GROUP[n]]; }
      }
      assert GPS_GROUP[..|GPS_GROUP|] == GPS_GROUP;
    } else {
      assert forall g :: g in fields ==> !IsCoordinate(g);
    }
  }

  /** The members of `group` that are not in `fields`, in order. */
  function Missing(fields: seq<ExifField>, group: seq<ExifField>): seq<ExifField> {
    if group == [] then []
    else
      var last := |group| - 1;
      Missing(fields, group[..last]) + (if group[last] in fields then [] else [group[last]])
  }

  function Coupled(fields: seq<ExifField>): seq<ExifField> {
    if exists i :: 0 <= i < |fields| && IsCoordinate(fields[i]) then fields + Missing(fields, GPS_GROUP) else fields
  }

  predicate InRange(o: Option<real>, lo: real, hi: real) {
    o.Some? ==> lo <= o.value <= hi
  }

  datatype EditError = SetAndRemoved(field: ExifField) | OutOfRange | NullIsland

  predicate RangesOk(set_: FullExif) {
    && InRange(set_.gpsLat, -90.0, 90.0) && InRange(set_.gpsLng, -180.0, 180.0)
    && InRange(set_.gpsAccuracy, 0.0, MAX_GPS_ACCURACY_M)
    && (set_.orientation.Some? ==> 1 <= set_.orientation.value <= 8)
  }

  predicate AtNullIsland(set_: FullExif) {
    set_.gpsLat == Some(0.0) && set_.gpsLng == Some(0.0)
  }

  method ValidateExifEdit(fl: real -> real, set_: FullExif, empty: seq<ExifField>, clear: seq<ExifField>)
    returns (r: Result<(FullExif, seq<ExifField>, seq<ExifField>), EditError>)
    ensures r.Ok? <==>
      && (forall f :: f in Coupled(empty) || f in Coupled(clear) ==> Get(set_, f).None?)
      && RangesOk(set_) && !AtNullIsland(set_)
    ensures r.Ok? ==> r.value == (Normalize(fl, set_), Coupled(empty), Coupled(clear))
    ensures r.Err? && r.error.SetAndRemoved? ==>
      Get(set_, r.error.field).Some? && r.error.field in Coupled(empty) + Coupled(clear)
  {
    var empty' := CoupleGps(empty);
    var clear' := CoupleGps(clear);
    var removed := empty' + clear';
    for i := 0 to |removed|
      invariant forall j :: 0 <= j < i ==> Get(set_, removed[j]).None?
    {
      if Get(set_, removed[i]).Some? { assert removed[i] in removed; return Err(SetAndRemoved(removed[i])); }
    }
    forall f | f in empty' || f in clear' ensures Get(set_, f).None? {
      assert f in removed;
      var j :| 0 <= j < |removed| && removed[j] == f;
    }
    if set_.gpsLat.Some? && !(-90.0 <= set_.gpsLat.value <= 90.0) { return Err(OutOfRange); }
    if set_.gpsLng.Some? && !(-180.0 <= set_.gpsLng.value <= 180.0) { return Err(OutOfRange); }
    if set_.gpsLat == Some(0.0) && set_.gpsLng == Some(0.0) { return Err(NullIsland); }
    if set_.gpsAccuracy.Some? && !(0.0 <= set_.gpsAccuracy.value <= MAX_GPS_ACCURACY_M) { return Err(OutOfRange); }
    if set_.orientation.Some? && !(1 <= set_.orientation.value <= 8) { return Err(OutOfRange); }
    r := Ok((Normalize(fl, set_), empty', clear'));
  }

  /** A set and a removal list never claim the same field. */
  ghost predicate Disjoint(set_: FullExif, clear: seq<ExifField>) {
    forall f :: f in clear ==> Get(set_, f).None?
  }
}
