/** The two row updates an EXIF edit denotes, owned and received, and how they meet the typed merge. */
module ExifOverrides {
  import opened Wrappers
  import opened Exif
  import opened ExifRows
  import opened Integers

  // -- Override patches -------------------------------------------------------

  function KeySet(fields: seq<ExifField>): (s: set<Key>)
    ensures forall k :: k in s <==> k.Field? && k.field in fields
  {
    set f | f in fields :: Field(f)
  }

  /** `set` as values, then `empty` as explicit nulls over them. */
  function Patch(set_: FullExif, empty: seq<ExifField>): (p: Object)
    ensures forall k :: Lookup(p, k) == if k.Field? && k.field in empty then JNull else FromValue(Entry(set_, k))
    ensures Typed(p)
  {
    ToJsonIsTyped(set_);
    ToJson(set_) + map k | k in KeySet(empty) :: JNull
  }

  lemma OneMoreKey(fields: seq<ExifField>, i: nat)
    requires i < |fields|
    ensures KeySet(fields[..i + 1]) == KeySet(fields[..i]) + {Field(fields[i])}
  {
    assert fields[..i + 1] == fields[..i] + [fields[i]];
  }

  lemma OneMoreNull(base: Object, nulls: set<Key>, k: Key)
    ensures (base + map n | n in nulls :: JNull)[k := JNull] == base + map n | n in nulls + {k} :: JNull
  {}

  /** The JSON inputs of an override write: the patch object and the keys whose claim is dropped. */
  method OverridePatch(set_: FullExif, empty: seq<ExifField>, clear: seq<ExifField>)
    returns (patch: Object, clearKeys: seq<Key>)
    ensures patch == Patch(set_, empty)
    ensures |clearKeys| == |clear| && forall i :: 0 <= i < |clear| ==> clearKeys[i] == Field(clear[i])
  {
    patch := ToJson(set_);
    for i := 0 to |empty|
      invariant patch == ToJson(set_) + map k | k in KeySet(empty[..i]) :: JNull
    {
      OneMoreKey(empty, i);
      OneMoreNull(ToJson(set_), KeySet(empty[..i]), Field(empty[i]));
      patch := patch[Field(empty[i]) := JNull];
    }
    assert empty[..|empty|] == empty;
    clearKeys := seq(|clear|, i requires 0 <= i < |clear| => Field(clear[i]));
  }

  // -- The override store -----------------------------------------------------

  /** Keys dropped, then the patch laid over. */
  function NewOverrides(overrides: Object, patch: Object, dropped: set<Key>): Object {
    (overrides - dropped) + patch
  }

  /** Equality of JSON values: numbers compare by value, not by notation. */
  predicate SameJson(a: Json, b: Json) {
    a == b || (AsReal(a).Some? && AsReal(a) == AsReal(b))
  }

  /** Patch keys that only repeat what the owner has; an absent owner key counts as null. */
  function Redundant(remote: Object, patch: Object): set<Key> {
    set k | k in patch && SameJson(Lookup(remote, k), patch[k])
  }

  /** What is stored: the new overrides without the redundant patch keys. */
  function PrunedOverrides(overrides: Object, remote: Object, patch: Object, dropped: set<Key>): Object {
    NewOverrides(overrides, patch, dropped) - Redundant(remote, patch)
  }

  lemma TypedIsKept(a: Object, b: Object, s: set<Key>)
    requires Typed(a) && Typed(b)
    ensures Typed(a + b) && Typed(a - s)
  {}

  /** Against any later owner snapshot: a patched key sticks exactly when it said something new, a
      claim that was neither patched nor dropped sticks whatever the owner does, and every other key
      follows the owner. */
  lemma OverridesStickExactly(
      overrides: Object, remote: Object, patch: Object, dropped: set<Key>, later: Object, k: Key)
    ensures Lookup(later + PrunedOverrides(overrides, remote, patch, dropped), k) ==
      if k in patch then (if SameJson(Lookup(remote, k), patch[k]) then Lookup(later, k) else patch[k])
      else if k in overrides && k !in dropped then overrides[k]
      else Lookup(later, k)
  {}

  lemma TypedSameIsEqual(remote: Object, patch: Object, k: Key)
    requires Typed(remote) && Typed(patch) && !k.Unknown? && k in patch
    ensures SameJson(Lookup(remote, k), patch[k]) <==> Lookup(remote, k) == patch[k]
  {}

  /** Dropping the redundant keys changes no value anybody reads against the same owner snapshot... */
  lemma PruningIsInvisible(overrides: Object, remote: Object, patch: Object, dropped: set<Key>, k: Key)
    requires Typed(remote) && Typed(patch) && !k.Unknown?
    ensures Lookup(remote + PrunedOverrides(overrides, remote, patch, dropped), k)
         == Lookup(remote + NewOverrides(overrides, patch, dropped), k)
  {}

  /** ...but the merged objects themselves agree exactly when no field was claimed empty that the
      owner does not carry either. */
  lemma PruningKeepsTheObjectExactly(overrides: Object, remote: Object, patch: Object, dropped: set<Key>)
    requires Typed(remote) && Typed(patch) && forall k: Key :: k in patch ==> !k.Unknown?
    ensures remote + PrunedOverrides(overrides, remote, patch, dropped)
         == remote + NewOverrides(overrides, patch, dropped)
       <==> forall k | k in patch :: patch[k] == JNull ==> k in remote
  {
    var stored := remote + PrunedOverrides(overrides, remote, patch, dropped);
    var full := remote + NewOverrides(overrides, patch, dropped);
    forall k | k in patch
      ensures k in full && (k !in stored <==> patch[k] == JNull && k !in remote)
    {
      TypedSameIsEqual(remote, patch, k);
      assert k in Redundant(remote, patch) <==> SameJson(Lookup(remote, k), patch[k]);
    }
    forall k ensures Lookup(stored, k) == Lookup(full, k) {
      if k.Unknown? { assert k !in patch; } else { PruningIsInvisible(overrides, remote, patch, dropped, k); }
    }
    if forall k | k in patch :: patch[k] == JNull ==> k in remote {
      forall k ensures k in stored <==> k in full {
        assert k !in patch ==> k !in Redundant(remote, patch);
      }
      assert stored == full by {
        forall k | k in stored ensures stored[k] == full[k] { assert Lookup(stored, k) == Lookup(full, k); }
      }
    }
  }

  // -- Materialising a received row -------------------------------------------

  /** The promoted columns and the JSON column of a picture row. */
  datatype Row = Row(
    capturedAt: Option<int>, gpsLat: Option<real>, gpsLng: Option<real>, gpsAlt: Option<i32>,
    gpsAccuracy: Option<real>, orientation: Option<i16>, exifData: Object)

  /** The EXIF a row reads as: its columns and the camera part of its JSON. */
  function Read(row: Row): FullExif {
    FullExif(row.capturedAt, row.gpsLat, row.gpsLng, row.gpsAlt, row.gpsAccuracy, row.orientation,
             CameraOf(row.exifData))
  }

  /** (0, 0) means "no fix": the whole GPS group goes. */
  function DropNullIsland(e: FullExif): FullExif {
    if AtNullIsland(e) then e.(gpsLat := None, gpsLng := None, gpsAlt := None, gpsAccuracy := None) else e
  }

  predicate InGpsGroup(f: ExifField) {
    f.GpsLat? || f.GpsLng? || f.GpsAlt? || f.GpsAccuracyM?
  }

  /** At (0, 0) the coordinates, the altitude and the accuracy all go, and nothing else does; anywhere else
      everything stays. */
  lemma NullIslandDropsTheGroup(e: FullExif, f: ExifField)
    ensures SameTechnical(DropNullIsland(e), e)
    ensures e.gpsLat == Some(0.0) && e.gpsLng == Some(0.0) && InGpsGroup(f) ==> Get(DropNullIsland(e), f) == None
    ensures e.gpsLat != Some(0.0) || e.gpsLng != Some(0.0) || !InGpsGroup(f) ==> Get(DropNullIsland(e), f) == Get(e, f)
  {}

  function OrEmpty(m: Option<Object>): Object {
    if m.Some? then m.value else EMPTY_OBJECT
  }

  /** Insert every override key over the owner's object, in any order. */
  method MergeInto(remote: Object, overrides: Object) returns (merged: Object)
    ensures merged == remote + overrides
  {
    merged := remote;
    var rest := overrides.Keys;
    while rest != {}
      invariant rest <= overrides.Keys
      invariant merged == remote + (overrides - rest)
      decreases |rest|
    {
      var k :| k in rest;
      merged, rest := merged[k := overrides[k]], rest - {k};
    }
    assert overrides - {} == overrides;
  }

  /** Merge and project out the promoted columns. An input that is absent or not an object is the
      empty object. */
  method Materialize(remote: Option<Object>, overrides: Option<Object>) returns (row: Row)
    ensures row.exifData == OrEmpty(remote) + OrEmpty(overrides)
    ensures Read(row) == DropNullIsland(Effective(row.exifData))
  {
    var merged := OrEmpty(remote);
    if overrides.Some? {
      merged := MergeInto(merged, overrides.value);
    } else {
      assert merged == merged + EMPTY_OBJECT;
    }
    var lat, lng := AsReal(Lookup(merged, Field(GpsLat))), AsReal(Lookup(merged, Field(GpsLng)));
    var alt, accuracy := AsI32(Lookup(merged, Field(GpsAlt))), AsReal(Lookup(merged, Field(GpsAccuracyM)));
    if lat == Some(0.0) && lng == Some(0.0) {
      lat, lng, alt, accuracy := None, None, None, None;
    }
    row := Row(AsTime(Lookup(merged, Field(CapturedAt))), lat, lng, alt, accuracy,
               AsI16(Lookup(merged, Field(Orientation))), merged);
  }

  const PROMOTED := {Field(CapturedAt), Field(GpsLat), Field(GpsLng), Field(GpsAlt), Field(GpsAccuracyM),
                     Field(Orientation)}

  /** The one-statement override write: the pruned store, and columns projected from the unpruned
      merge. Rows only hold typed objects, so no cast in the projection fails. */
  function ReceivedRow(overrides: Option<Object>, remote: Option<Object>, patch: Object, dropped: set<Key>)
    : (Object, Row)
  {
    var merged := OrEmpty(remote) + NewOverrides(OrEmpty(overrides), patch, dropped);
    var e := Effective(merged);
    (PrunedOverrides(OrEmpty(overrides), OrEmpty(remote), patch, dropped),
     Row(e.capturedAt, e.gpsLat, e.gpsLng, e.gpsAlt, e.gpsAccuracy, e.orientation, merged - PROMOTED))
  }

  lemma EffectiveByLookup(a: Object, b: Object)
    requires Typed(a) && Typed(b) && forall k: Key :: !k.Unknown? ==> Lookup(a, k) == Lookup(b, k)
    ensures Effective(a) == Effective(b)
  {}

  lemma CameraIgnoresPromoted(m: Object)
    requires Typed(m)
    ensures CameraOf(m - PROMOTED) == CameraOf(m)
  {
    var rest := m - PROMOTED;
    TypedIsKept(m, m, PROMOTED);
    forall f | f in CAMERA_FIELDS ensures Lookup(rest, Field(f)) == Lookup(m, Field(f)) { NotPromoted(m, Field(f)); }
    forall t ensures Lookup(rest, Technical(t)) == Lookup(m, Technical(t)) { NotPromoted(m, Technical(t)); }
    assert forall k :: k in m && IsCameraKey(k) ==> Deserialises(k, m[k]);
    assert forall k :: k in rest && IsCameraKey(k) ==> Deserialises(k, rest[k]);
  }

  lemma NotPromoted(m: Object, k: Key)
    requires IsCameraKey(k)
    ensures Lookup(m - PROMOTED, k) == Lookup(m, k)
  {}

  /** For typed objects, the row the statement writes and the row the next announcement of the same
      owner snapshot materialises from the pruned store read alike exactly when the merge is not at
      (0, 0). */
  lemma TypedRowsAgreeExactly(
      overrides: Option<Object>, remote: Option<Object>, patch: Object, dropped: set<Key>, again: Row)
    requires Typed(OrEmpty(overrides)) && Typed(OrEmpty(remote)) && Typed(patch)
    requires var stored := ReceivedRow(overrides, remote, patch, dropped).0;
             again.exifData == OrEmpty(remote) + stored && Read(again) == DropNullIsland(Effective(again.exifData))
    ensures var written := ReceivedRow(overrides, remote, patch, dropped).1;
            Read(written) == Read(again) <==> !AtNullIsland(Read(written))
  {
    var owner, ov := OrEmpty(remote), OrEmpty(overrides);
    var full, pruned := NewOverrides(ov, patch, dropped), PrunedOverrides(ov, owner, patch, dropped);
    WriteKeepsTypes(overrides, remote, patch, dropped);
    TypedIsKept(owner, full, {});
    TypedIsKept(owner, pruned, {});
    forall k: Key | !k.Unknown? ensures Lookup(owner + pruned, k) == Lookup(owner + full, k) {
      PruningIsInvisible(ov, owner, patch, dropped, k);
    }
    EffectiveByLookup(owner + pruned, owner + full);
    CameraIgnoresPromoted(owner + full);
    assert Read(ReceivedRow(overrides, remote, patch, dropped).1) == Effective(owner + full);
  }

  lemma WriteKeepsTypes(overrides: Option<Object>, remote: Option<Object>, patch: Object, dropped: set<Key>)
    requires Typed(OrEmpty(overrides)) && Typed(OrEmpty(remote)) && Typed(patch)
    ensures Typed(NewOverrides(OrEmpty(overrides), patch, dropped))
    ensures Typed(ReceivedRow(overrides, remote, patch, dropped).0)
  {
    var owner, ov := OrEmpty(remote), OrEmpty(overrides);
    TypedIsKept(ov, patch, dropped);
    TypedIsKept(ov - dropped, patch, {});
    TypedIsKept(NewOverrides(ov, patch, dropped), patch, Redundant(owner, patch));
  }

  // -- Every row that is ever written -----------------------------------------

  /** What a received picture stores: the owner's snapshot and the recipient's overrides. */
  datatype Store = Store(remote: Option<Object>, overrides: Option<Object>)

  /** Both kinds of write serialise a typed struct: an announcement replaces the snapshot, an edit
      goes through the override statement. */
  datatype Write =
    | Announce(snapshot: FullExif)
    | Edit(set_: FullExif, empty: seq<ExifField>, clear: seq<ExifField>)

  function Wrote(s: Store, w: Write): Store {
    match w
    case Announce(snapshot) => s.(remote := Some(ToJson(snapshot)))
    case Edit(set_, empty, clear) =>
      s.(overrides := Some(ReceivedRow(s.overrides, s.remote, Patch(set_, empty), KeySet(clear)).0))
  }

  /** The store after some writes, the last one last. */
  function Stored(writes: seq<Write>): Store {
    if writes == [] then Store(None, None) else Wrote(Stored(writes[..|writes| - 1]), writes[|writes| - 1])
  }

  lemma {:induction false} StoredIsTyped(writes: seq<Write>)
    ensures Typed(OrEmpty(Stored(writes).remote)) && Typed(OrEmpty(Stored(writes).overrides))
  {
    if writes != [] {
      var s, w := Stored(writes[..|writes| - 1]), writes[|writes| - 1];
      StoredIsTyped(writes[..|writes| - 1]);
      if w.Announce? {
        ToJsonIsTyped(w.snapshot);
      } else {
        WriteKeepsTypes(s.overrides, s.remote, Patch(w.set_, w.empty), KeySet(w.clear));
      }
    }
  }

  /** After any announcements and edits, the row the next edit's statement writes and the row the next
      announcement of the same snapshot materialises from what it stored read alike exactly when the
      merge is not at (0, 0): only the announcement path drops the sentinel. */
  lemma StatementAndAnnouncementAgreeExactly(
      writes: seq<Write>, set_: FullExif, empty: seq<ExifField>, clear: seq<ExifField>, again: Row)
    requires var s, next := Stored(writes), Stored(writes + [Edit(set_, empty, clear)]);
             again.exifData == OrEmpty(s.remote) + OrEmpty(next.overrides)
             && Read(again) == DropNullIsland(Effective(again.exifData))
    ensures var s := Stored(writes);
            var written := ReceivedRow(s.overrides, s.remote, Patch(set_, empty), KeySet(clear)).1;
            Read(written) == Read(again) <==> !AtNullIsland(Read(written))
  {
    var s, edits := Stored(writes), writes + [Edit(set_, empty, clear)];
    assert edits[..|edits| - 1] == writes;
    StoredIsTyped(writes);
    TypedRowsAgreeExactly(s.overrides, s.remote, Patch(set_, empty), KeySet(clear), again);
  }

  /** A patch laid over the owner's object reads as the typed edit of the owner's struct, with the
      fields claimed empty as its removals. */
  lemma JsonMergeIsApplied(owner: FullExif, set_: FullExif, empty: seq<ExifField>, after: FullExif)
    requires IsApplied(owner, set_, empty, after)
    ensures SameEditable(Effective(ToJson(owner) + Patch(set_, empty)), after)
  {
    var merged := ToJson(owner) + Patch(set_, empty);
    ToJsonIsTyped(owner);
    TypedIsKept(ToJson(owner), Patch(set_, empty), {});
    forall f: ExifField ensures Get(Effective(merged), f) == Get(after, f) {
      EffectiveOfTyped(merged, f);
      MergedLookup(owner, set_, empty, f);
      ValueRoundTrip(Get(after, f));
    }
  }

  lemma MergedLookup(owner: FullExif, set_: FullExif, empty: seq<ExifField>, f: ExifField)
    ensures Lookup(ToJson(owner) + Patch(set_, empty), Field(f)) ==
      FromValue(if f in empty then None else if Get(set_, f).Some? then Get(set_, f) else Get(owner, f))
  {}

  /** An owner snapshot for which they differ: an announced (0, 0) survives an empty override write. */
  lemma SentinelSurvivesTheStatement()
    ensures var remote: Object := map[Field(GpsLat) := JReal(0.0), Field(GpsLng) := JReal(0.0)];
            var written := ReceivedRow(None, Some(remote), EMPTY_OBJECT, {}).1;
            Typed(remote) && written.gpsLat == Some(0.0) && DropNullIsland(Effective(remote)).gpsLat == None
  {
    var remote: Object := map[Field(GpsLat) := JReal(0.0), Field(GpsLng) := JReal(0.0)];
    assert remote + NewOverrides(EMPTY_OBJECT, EMPTY_OBJECT, {}) == remote;
  }
}
