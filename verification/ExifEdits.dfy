/** The owner's row update for an EXIF edit, and the edits on which every encoding agrees. */
module ExifEdits {
  import opened Wrappers
  import opened Doubles
  import opened Exif
  import opened ExifRows
  import opened ExifOverrides

  function Assign<T>(set_: Option<T>, cleared: bool, stored: Option<T>): Option<T> {
    if set_.Some? then set_ else if cleared then None else stored
  }

  function CameraPatch(camera: CameraExif): Object {
    ToJson(EMPTY.(camera := camera))
  }

  function CameraKeys(clear: seq<ExifField>): set<Key> {
    set f | f in clear && f in CAMERA_FIELDS :: Field(f)
  }

  /** The assignments of an owned-row edit: in the columns a set value beats a clear, in the JSON the
      patch is laid over after the cleared keys are dropped. */
  function OwnedRow(row: Row, set_: FullExif, clear: seq<ExifField>): Row {
    Row(Assign(set_.capturedAt, CapturedAt in clear, row.capturedAt),
        Assign(set_.gpsLat, GpsLat in clear, row.gpsLat),
        Assign(set_.gpsLng, GpsLng in clear, row.gpsLng),
        Assign(set_.gpsAlt, GpsAlt in clear, row.gpsAlt),
        Assign(set_.gpsAccuracy, GpsAccuracyM in clear, row.gpsAccuracy),
        Assign(set_.orientation, Orientation in clear, row.orientation),
        (row.exifData - CameraKeys(clear)) + CameraPatch(set_.camera))
  }

  /** Build and run the assignments; the JSON column is left out of the statement when it has
      nothing to drop and nothing to add. */
  method UpdateOwned(row: Row, set_: FullExif, clear: seq<ExifField>) returns (r: Row)
    ensures r == OwnedRow(row, set_, clear)
  {
    var capturedAt := AssignColumn(set_.capturedAt, CapturedAt in clear, row.capturedAt);
    var gpsLat := AssignColumn(set_.gpsLat, GpsLat in clear, row.gpsLat);
    var gpsLng := AssignColumn(set_.gpsLng, GpsLng in clear, row.gpsLng);
    var gpsAlt := AssignColumn(set_.gpsAlt, GpsAlt in clear, row.gpsAlt);
    var gpsAccuracy := AssignColumn(set_.gpsAccuracy, GpsAccuracyM in clear, row.gpsAccuracy);
    var orientation := AssignColumn(set_.orientation, Orientation in clear, row.orientation);
    var exifData := UpdateJson(row.exifData, set_.camera, clear);
    r := Row(capturedAt, gpsLat, gpsLng, gpsAlt, gpsAccuracy, orientation, exifData);
  }

  /** One promoted column: assigned the set value, else nulled when cleared, else left out. */
  method AssignColumn<T>(set_: Option<T>, cleared: bool, stored: Option<T>) returns (column: Option<T>)
    ensures column == Assign(set_, cleared, stored)
  {
    column := stored;
    if set_.Some? { column := set_; }
    else if cleared { column := None; }
  }

  method UpdateJson(exifData: Object, camera: CameraExif, clear: seq<ExifField>) returns (r: Object)
    ensures r == (exifData - CameraKeys(clear)) + CameraPatch(camera)
  {
    var dropped: set<Key> := {};
    for i := 0 to |CAMERA_FIELDS|
      invariant forall k :: k in dropped <==> k.Field? && k.field in clear && k.field in CAMERA_FIELDS[..i]
    {
      assert CAMERA_FIELDS[..i + 1] == CAMERA_FIELDS[..i] + [CAMERA_FIELDS[i]];
      if CAMERA_FIELDS[i] in clear { dropped := dropped + {Field(CAMERA_FIELDS[i])}; }
    }
    assert CAMERA_FIELDS[..|CAMERA_FIELDS|] == CAMERA_FIELDS;
    assert dropped == CameraKeys(clear);
    var patch := CameraPatch(camera);
    r := exifData;
    if dropped != {} || patch != map[] {
      r := (exifData - dropped) + patch;
    }
  }

  // -- Reading the row back ---------------------------------------------------

  lemma OwnedJsonLookup(exifData: Object, camera: CameraExif, clear: seq<ExifField>, k: Key)
    requires IsCameraKey(k)
    ensures Lookup((exifData - CameraKeys(clear)) + CameraPatch(camera), k) ==
      var written := Entry(EMPTY.(camera := camera), k);
      if written.Some? then FromValue(written)
      else if k.Field? && k.field in clear then JNull else Lookup(exifData, k)
  {}

  /** On the row, a field that is both set and cleared ends up set: the opposite of `Applied`. */
  lemma OwnedFieldExact(row: Row, set_: FullExif, clear: seq<ExifField>, f: ExifField)
    requires Typed(row.exifData)
    ensures Get(Read(OwnedRow(row, set_, clear)), f) ==
      if Get(set_, f).Some? then Get(set_, f) else if f in clear then None else Get(Read(row), f)
  {
    if f in CAMERA_FIELDS {
      ToJsonIsTyped(EMPTY.(camera := set_.camera));
      TypedIsKept(row.exifData, CameraPatch(set_.camera), CameraKeys(clear));
      TypedIsKept(row.exifData - CameraKeys(clear), CameraPatch(set_.camera), {});
      CameraFieldOfTyped(row, f);
      CameraFieldOfTyped(OwnedRow(row, set_, clear), f);
      OwnedJsonLookup(row.exifData, set_.camera, clear, Field(f));
      ValueRoundTrip(Get(set_, f));
    }
  }

  lemma CameraFieldOfTyped(row: Row, f: ExifField)
    requires Typed(row.exifData) && f in CAMERA_FIELDS
    ensures Get(Read(row), f) == ToValue(Lookup(row.exifData, Field(f)))
  {}

  /** The row update and the typed edit reach the same thirteen fields exactly when nothing is both
      set and cleared (a field that is, and whose value was set, ends up with the set value on the
      row and without one in the typed edit). */
  lemma OwnedUpdateIsAppliedExactly(row: Row, set_: FullExif, clear: seq<ExifField>, after: FullExif)
    requires Typed(row.exifData) && IsApplied(Read(row), set_, clear, after)
    ensures SameEditable(Read(OwnedRow(row, set_, clear)), after) <==> Disjoint(set_, clear)
  {
    var written := Read(OwnedRow(row, set_, clear));
    forall f: ExifField
      ensures Get(written, f) == Get(after, f) <==> !(f in clear && Get(set_, f).Some?)
    {
      OwnedFieldExact(row, set_, clear, f);
    }
    if Disjoint(set_, clear) {
      forall f: ExifField ensures Get(written, f) == Get(after, f) {}
    } else {
      var f :| f in clear && Get(set_, f).Some?;
      assert Get(written, f) != Get(after, f);
    }
  }

  /** Technical metadata that the edit carries is merged into the row, while the typed edit never
      touches it. */
  lemma OwnedTechnicalExact(row: Row, set_: FullExif, clear: seq<ExifField>, t: Technical)
    requires Typed(row.exifData)
    ensures GetTechnical(Read(OwnedRow(row, set_, clear)).camera, t) ==
      if GetTechnical(set_.camera, t).Some? then GetTechnical(set_.camera, t) else GetTechnical(Read(row).camera, t)
  {
    ToJsonIsTyped(EMPTY.(camera := set_.camera));
    TypedIsKept(row.exifData, CameraPatch(set_.camera), CameraKeys(clear));
    TypedIsKept(row.exifData - CameraKeys(clear), CameraPatch(set_.camera), {});
    TechnicalOfTyped(row.exifData, t);
    TechnicalOfTyped(OwnedRow(row, set_, clear).exifData, t);
    OwnedJsonLookup(row.exifData, set_.camera, clear, Technical(t));
    ValueRoundTrip(GetTechnical(set_.camera, t));
  }

  // -- Accepted edits ---------------------------------------------------------

  /** What the edit validation demands. */
  ghost predicate Accepted(set_: FullExif, empty: seq<ExifField>, clear: seq<ExifField>) {
    && (forall f :: f in Coupled(empty) || f in Coupled(clear) ==> Get(set_, f).None?)
    && RangesOk(set_) && !AtNullIsland(set_)
  }

  /** An accepted edit, as normalised by the validation, has one meaning in all three encodings: the
      typed edit, the owner's row update, and the recipient's patch over the owner's JSON. */
  lemma AcceptedEditsAgree(
      fl: real -> real, row: Row, owner: FullExif, set_: FullExif, empty: seq<ExifField>, clear: seq<ExifField>,
      typed: FullExif, received: FullExif)
    requires IsRounding(fl)
    requires Accepted(set_, empty, clear) && Typed(row.exifData)
    requires IsApplied(Read(row), Normalize(fl, set_), Coupled(clear), typed)
    requires IsApplied(owner, Normalize(fl, set_), Coupled(empty), received)
    ensures SameEditable(Read(OwnedRow(row, Normalize(fl, set_), Coupled(clear))), typed)
    ensures SameEditable(Effective(ToJson(owner) + Patch(Normalize(fl, set_), Coupled(empty))), received)
    ensures Disjoint(Normalize(fl, set_), Coupled(clear)) && Disjoint(Normalize(fl, set_), Coupled(empty))
  {
    NormalizeExact(fl, set_);
    OwnedUpdateIsAppliedExactly(row, Normalize(fl, set_), Coupled(clear), typed);
    JsonMergeIsApplied(owner, Normalize(fl, set_), Coupled(empty), received);
  }

  /** Reverting through a difference: the owner's row reaches the target on every editable field. */
  lemma DiffOnTheRowReachesTarget(row: Row, target: FullExif, set_: FullExif, clear: seq<ExifField>, after: FullExif)
    requires Typed(row.exifData) && IsDiff(Read(row), target, set_, clear)
    requires IsApplied(Read(row), set_, clear, after)
    ensures SameEditable(Read(OwnedRow(row, set_, clear)), target)
  {
    DiffReachesTarget(Read(row), target, set_, clear, after);
    OwnedUpdateIsAppliedExactly(row, set_, clear, after);
    forall f: ExifField ensures Get(Read(OwnedRow(row, set_, clear)), f) == Get(target, f) {
      assert Get(after, f) == Get(target, f);
    }
  }

  /** An edit on which the encodings differ: the orientation set to 1 and cleared at once. */
  lemma SetAndClearedDiffers(row: Row, after: FullExif)
    requires IsApplied(Read(row), EMPTY.(orientation := Some(1)), [Orientation], after)
    ensures OwnedRow(row, EMPTY.(orientation := Some(1)), [Orientation]).orientation == Some(1)
    ensures after.orientation == None
  {
    assert Orientation in [Orientation];
    assert Get(after, Orientation) == None;
  }
}
