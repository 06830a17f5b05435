/** The same EXIF merge as JSON objects and as the row updates the database runs: the owner's row,
    and the recipient's row with its sticky overrides. */
module ExifRows {
  import opened Wrappers
  import opened Exif
  import opened Integers

  // -- JSON objects -----------------------------------------------------------

  /** A ready-parsed JSON value. `JTime` is a string that reads as a timestamp. */
  datatype Json = JNull | JBool(b: bool) | JInt(i: int) | JReal(r: real) | JText(s: string) | JTime(t: int) | JOther

  datatype Technical = DurationS | VideoCodec | AudioCodec | FrameRate

  /** An object key: the canonical key of an editable field, of a technical field, or any other. */
  datatype Key = Field(field: ExifField) | Technical(technical: Technical) | Unknown(name: string)

  type Object = map<Key, Json>

  const EMPTY_OBJECT: Object := map[]

  /** The canonical keys: one per editable field, one per technical field. */
  const KEYS: set<Key> := (set f: ExifField {:trigger Field(f)} | true :: Field(f))
                        + (set t: Technical {:trigger Technical(t)} | true :: Technical(t))

  const CAMERA_FIELDS := [CameraBrand, CameraModel, FocalLengthMm, FNumber, IsoSpeed, ExposureTimeNum, ExposureTimeDen]

  /** What a reader sees under `k`: an absent key reads as null. */
  function Lookup(m: Object, k: Key): Json {
    if k in m then m[k] else JNull
  }

  function FromValue(o: Option<Value>): Json {
    match o
    case None => JNull
    case Some(Real(r)) => JReal(r)
    case Some(Int(i)) => JInt(i)
    case Some(Text(s)) => JText(s)
    case Some(Time(t)) => JTime(t)
  }

  function ToValue(v: Json): Option<Value> {
    match v
    case JReal(r) => Some(Real(r))
    case JInt(i) => Some(Int(i))
    case JText(s) => Some(Text(s))
    case JTime(t) => Some(Time(t))
    case _ => None
  }

  function GetTechnical(c: CameraExif, t: Technical): Option<Value> {
    match t
    case DurationS => FromReal(c.duration)
    case VideoCodec => FromText(c.videoCodec)
    case AudioCodec => FromText(c.audioCodec)
    case FrameRate => FromReal(c.frameRate)
  }

  function Entry(e: FullExif, k: Key): Option<Value> {
    match k
    case Field(f) => Get(e, f)
    case Technical(t) => GetTechnical(e.camera, t)
    case Unknown(_) => None
  }

  /** The sparse object a typed value serialises to: one key per field that is present. */
  function ToJson(e: FullExif): (m: Object)
    ensures forall k :: Lookup(m, k) == FromValue(Entry(e, k))
    ensures forall k :: k in m ==> m[k] != JNull
  {
    map k | k in KEYS && Entry(e, k).Some? :: FromValue(Entry(e, k))
  }

  /** The key holds a value of its field's type, in its integer width, or null. */
  predicate Fits(k: Key, v: Json) {
    v.JNull? || match k
    case Field(CapturedAt) => v.JTime?
    case Field(GpsAlt) | Field(IsoSpeed) | Field(ExposureTimeNum) | Field(ExposureTimeDen) =>
      v.JInt? && -0x8000_0000 <= v.i < 0x8000_0000
    case Field(Orientation) => v.JInt? && -0x8000 <= v.i < 0x8000
    case Field(CameraBrand) | Field(CameraModel) | Technical(VideoCodec) | Technical(AudioCodec) => v.JText?
    case Field(_) | Technical(_) => v.JReal?
    case Unknown(_) => true
  }

  ghost predicate Typed(m: Object) {
    forall k | k in m :: Fits(k, m[k])
  }

  lemma ToJsonIsTyped(e: FullExif)
    ensures Typed(ToJson(e))
  {}

  // -- Reading an object back -------------------------------------------------

  function AsReal(v: Json): Option<real> {
    match v case JReal(r) => Some(r) case JInt(i) => Some(i as real) case _ => None
  }

  function AsText(v: Json): Option<string> {
    match v case JText(s) => Some(s) case _ => None
  }

  function AsTime(v: Json): Option<int> {
    match v case JTime(t) => Some(t) case _ => None
  }

  /** A 64-bit integer. */
  function AsInt(v: Json): Option<int> {
    match v
    case JInt(i) => if -0x8000_0000_0000_0000 <= i < 0x8000_0000_0000_0000 then Some(i) else None
    case _ => None
  }

  function AsI32(v: Json): Option<i32> {
    var n := AsInt(v); if n.Some? then Some(WrapI32(n.value)) else None
  }

  function AsI16(v: Json): Option<i16> {
    var n := AsInt(v); if n.Some? then Some(WrapI16(n.value)) else None
  }

  predicate IsCameraKey(k: Key) {
    (k.Field? && k.field in CAMERA_FIELDS) || k.Technical?
  }

  /** Deserialising a key of the camera struct succeeds: an integer also reads as a float. */
  predicate Deserialises(k: Key, v: Json) {
    Fits(k, v) || (v.JInt? && Fits(k, JReal(0.0)))
  }

  /** The camera struct an object reads as: one ill-typed key and all of it is the default. */
  function CameraOf(m: Object): CameraExif {
    if forall k :: k in m && IsCameraKey(k) ==> Deserialises(k, m[k]) then
      CameraExif(
        AsText(Lookup(m, Field(CameraBrand))), AsText(Lookup(m, Field(CameraModel))),
        AsReal(Lookup(m, Field(FocalLengthMm))), AsReal(Lookup(m, Field(FNumber))),
        AsI32(Lookup(m, Field(IsoSpeed))),
        AsI32(Lookup(m, Field(ExposureTimeNum))), AsI32(Lookup(m, Field(ExposureTimeDen))),
        AsReal(Lookup(m, Technical(DurationS))), AsText(Lookup(m, Technical(VideoCodec))),
        AsText(Lookup(m, Technical(AudioCodec))), AsReal(Lookup(m, Technical(FrameRate))))
    else NO_CAMERA
  }

  /** Every field an object reads as, before the no-fix sentinel is dropped. */
  function Effective(m: Object): FullExif {
    FullExif(
      AsTime(Lookup(m, Field(CapturedAt))), AsReal(Lookup(m, Field(GpsLat))), AsReal(Lookup(m, Field(GpsLng))),
      AsI32(Lookup(m, Field(GpsAlt))), AsReal(Lookup(m, Field(GpsAccuracyM))), AsI16(Lookup(m, Field(Orientation))),
      CameraOf(m))
  }

  /** A key of the camera struct holds what cannot be read into its field. */
  predicate IsSpoiled(k: Key, v: Json) {
    match k
    case Field(CameraBrand) | Field(CameraModel) | Technical(VideoCodec) | Technical(AudioCodec) =>
      !v.JNull? && !v.JText?
    case Field(IsoSpeed) | Field(ExposureTimeNum) | Field(ExposureTimeDen) =>
      !v.JNull? && !(v.JInt? && -0x8000_0000 <= v.i < 0x8000_0000)
    case Field(FocalLengthMm) | Field(FNumber) | Technical(_) => !v.JNull? && !v.JInt? && !v.JReal?
    case _ => false
  }

  /** A number as a float. */
  function Number(v: Json): Option<Value> {
    match v case JReal(r) => Some(Real(r)) case JInt(i) => Some(Real(i as real)) case _ => None
  }

  /** What reads as `n` in a column of `size` values, half of them negative: a 64-bit integer wraps around,
      and anything else reads as nothing. */
  predicate WrapsTo(v: Json, n: Option<int>, size: int)
    requires size > 0
  {
    if v.JInt? && -0x8000_0000_0000_0000 <= v.i < 0x8000_0000_0000_0000
    then n.Some? && -size <= 2 * n.value < size && (v.i - n.value) % size == 0
    else n.None?
  }

  lemma WrappedIsCongruent(n: int)
    ensures (n - WrapI32(n)) % 0x1_0000_0000 == 0 && (n - WrapI16(n)) % 0x1_0000 == 0
  {
    assert n - WrapI32(n) == 0x1_0000_0000 * ((n + 0x8000_0000) / 0x1_0000_0000);
    assert n - WrapI16(n) == 0x1_0000 * ((n + 0x8000) / 0x1_0000);
  }

  /** Each column of any object, well-typed or not, reads by its own key. */
  lemma ColumnsRead(m: Object)
    ensures var e := Effective(m);
      && (forall f :: f in [GpsLat, GpsLng, GpsAccuracyM] ==> Get(e, f) == Number(Lookup(m, Field(f))))
      && WrapsTo(Lookup(m, Field(GpsAlt)), e.gpsAlt, 0x1_0000_0000)
      && WrapsTo(Lookup(m, Field(Orientation)), e.orientation, 0x1_0000)
      && (e.capturedAt.Some? <==> Lookup(m, Field(CapturedAt)).JTime?)
      && (e.capturedAt.Some? ==> Lookup(m, Field(CapturedAt)) == JTime(e.capturedAt.value))
  {
    var alt, orientation := Lookup(m, Field(GpsAlt)), Lookup(m, Field(Orientation));
    if alt.JInt? { WrappedIsCongruent(alt.i); }
    if orientation.JInt? { WrappedIsCongruent(orientation.i); }
  }

  lemma SpoiledExactly(k: Key, v: Json)
    ensures IsSpoiled(k, v) <==> IsCameraKey(k) && !Deserialises(k, v)
  {}

  ghost predicate IsClean(m: Object) {
    forall k :: k in m ==> !IsSpoiled(k, m[k])
  }

  lemma CleanKey(m: Object, k: Key)
    requires IsClean(m) && IsCameraKey(k)
    ensures Deserialises(k, Lookup(m, k)) && forall n :: n in m && IsCameraKey(n) ==> Deserialises(n, m[n])
  {
    SpoiledExactly(k, Lookup(m, k));
    forall n | n in m && IsCameraKey(n) ensures Deserialises(n, m[n]) { SpoiledExactly(n, m[n]); }
  }

  /** Without a spoiled key each field of the camera struct reads by its own key, an integer also as a
      float. */
  lemma CameraReads(m: Object, f: ExifField)
    requires IsClean(m) && f in CAMERA_FIELDS
    ensures Get(Effective(m), f) ==
      if f in [FocalLengthMm, FNumber] then Number(Lookup(m, Field(f))) else ToValue(Lookup(m, Field(f)))
  {
    CleanKey(m, Field(f));
  }

  lemma TechnicalReads(m: Object, t: Technical)
    requires IsClean(m)
    ensures GetTechnical(Effective(m).camera, t) ==
      if t in [DurationS, FrameRate] then Number(Lookup(m, Technical(t))) else ToValue(Lookup(m, Technical(t)))
  {
    CleanKey(m, Technical(t));
  }

  /** One spoiled key empties the whole struct. */
  lemma SpoiledCamera(m: Object)
    requires !IsClean(m)
    ensures Effective(m).camera == NO_CAMERA
  {
    var k :| k in m && IsSpoiled(k, m[k]);
    SpoiledExactly(k, m[k]);
  }

  lemma TypedLookup(m: Object, k: Key)
    requires Typed(m)
    ensures Fits(k, Lookup(m, k))
  {}

  lemma EffectiveOfTyped(m: Object, f: ExifField)
    requires Typed(m)
    ensures Get(Effective(m), f) == ToValue(Lookup(m, Field(f)))
  {
    TypedLookup(m, Field(f));
  }

  lemma TechnicalOfTyped(m: Object, t: Technical)
    requires Typed(m)
    ensures GetTechnical(Effective(m).camera, t) == ToValue(Lookup(m, Technical(t)))
  {}

  /** Technical metadata is determined by its four keys. */
  lemma TechnicalDetermine(a: FullExif, b: FullExif)
    requires forall t :: GetTechnical(a.camera, t) == GetTechnical(b.camera, t)
    ensures SameTechnical(a, b)
  {
    assert GetTechnical(a.camera, DurationS) == GetTechnical(b.camera, DurationS);
    assert GetTechnical(a.camera, VideoCodec) == GetTechnical(b.camera, VideoCodec);
    assert GetTechnical(a.camera, AudioCodec) == GetTechnical(b.camera, AudioCodec);
    assert GetTechnical(a.camera, FrameRate) == GetTechnical(b.camera, FrameRate);
  }

  lemma ValueRoundTrip(o: Option<Value>)
    ensures ToValue(FromValue(o)) == o
  {}

  /** An object that holds `e`'s entries reads as `e`. */
  lemma ReadsAs(m: Object, e: FullExif)
    requires Typed(m) && forall k: Key :: !k.Unknown? ==> Lookup(m, k) == FromValue(Entry(e, k))
    ensures Effective(m) == e
  {
    var back := Effective(m);
    forall f: ExifField ensures Get(back, f) == Get(e, f) {
      EffectiveOfTyped(m, f);
      ValueRoundTrip(Entry(e, Field(f)));
    }
    forall t ensures GetTechnical(back.camera, t) == GetTechnical(e.camera, t) {
      TechnicalOfTyped(m, t);
      ValueRoundTrip(Entry(e, Technical(t)));
    }
    TechnicalDetermine(back, e);
    FieldsDetermine(back, e);
  }

  /** Reading undoes writing. */
  lemma JsonRoundTrip(e: FullExif)
    ensures Effective(ToJson(e)) == e
  {
    ToJsonIsTyped(e);
    ReadsAs(ToJson(e), e);
  }
}
