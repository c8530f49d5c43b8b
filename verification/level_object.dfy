/** `LevelObject` (ef19-core/src/models/object/mod.rs): one placed object of a level,
    decoded from the key/value map of its text form. Three fields are required and
    make decoding fail when missing or unparseable; every other field has a default
    or is optional, and every key not claimed by a field is kept in `otherData`. */
module LevelObjects {
  import opened Wrappers
  import opened Scalars
  import opened Extract
  import opened Colors
  import opened GdFormat

  datatype LevelObject = LevelObject(
    id: U16,                   // key "1"
    xPos: F32,                 // key "2"
    yPos: F32,                 // key "3"
    flipX: bool,               // key "4"
    flipY: bool,               // key "5"
    rotation: F32,             // key "6"
    color: Option<Color>,      // key "19", or key "22" when "19" is absent or 0
    zLayer: Option<I8>,        // key "24"
    zOrder: Option<I32>,       // key "25"
    baseHsv: Option<string>,   // also key "25", read after it is gone
    otherData: map<string, string>)

  /** Every key a field of `LevelObject` reads. */
  const FieldKeys: set<string> := {"1", "2", "3", "4", "5", "6", "19", "22", "24", "25"}

  /** The legacy colour id that decides the colour: key "19" read as a `u8`, when it
      is there, parses and is not 0. */
  function LegacyColorId(m: map<string, string>): Option<U8> {
    if "19" in m && ParseU8(m["19"]).Some? && ParseU8(m["19"]).value != 0
    then ParseU8(m["19"])
    else None
  }

  /** The colour rule: a non-zero legacy id names the colour through the legacy table
      and leaves key "22" alone; otherwise key "22" is read as a `u16` through the
      new table, and removed. */
  function ReadColor(m: map<string, string>): (r: Taken<Option<Color>>)
    ensures LegacyColorId(m).Some? ==> r == Taken(FromOldId(LegacyColorId(m).value), m - {"19"})
    ensures LegacyColorId(m).None? ==> r.rest == m - {"19", "22"}
    ensures LegacyColorId(m).None? ==>
      (r.value.Some? <==> "22" in m && ParseU16(m["22"]).Some? && IsNewId(ParseU16(m["22"]).value))
    ensures LegacyColorId(m).None? && r.value.Some? ==> r.value == FromNewId(ParseU16(m["22"]).value)
  {
    var legacy := OptionalValue(m, "19", ParseU8);
    if legacy.value.Some? && legacy.value.value != 0 then
      Taken(FromOldId(legacy.value.value), legacy.rest)
    else
      var current := OptionalValue(legacy.rest, "22", ParseU16);
      assert legacy.rest - {"22"} == m - {"19", "22"};
      Taken(if current.value.Some? then FromNewId(current.value.value) else None, current.rest)
  }

  /** The required fields: "1" as a `u16`, then "2" and "3" as `f32`s; `None` is the
      early return of the first one missing or unparseable. */
  function ReadRequired(m: map<string, string>, parseReal: string -> Option<F32>)
    : (r: Option<Taken<(U16, F32, F32)>>)
    ensures r.Some? <==>
      && "1" in m && ParseU16(m["1"]).Some?
      && "2" in m && parseReal(m["2"]).Some?
      && "3" in m && parseReal(m["3"]).Some?
    ensures r.Some? ==>
      && Some(r.value.value.0) == ParseU16(m["1"])
      && Some(r.value.value.1) == parseReal(m["2"])
      && Some(r.value.value.2) == parseReal(m["3"])
      && r.value.rest == m - {"1", "2", "3"}
  {
    var id :- RequiredValue(m, "1", ParseU16);
    var x :- RequiredValue(id.rest, "2", parseReal);
    var y :- RequiredValue(x.rest, "3", parseReal);
    assert y.rest == m - {"1", "2", "3"};
    Some(Taken((id.value, x.value, y.value), y.rest))
  }

  /** The defaulted fields: the flips "4" and "5" are true only when their text spells
      true, and the rotation "6" is 0 unless it parses. */
  function ReadDefaulted(m: map<string, string>, parseReal: string -> Option<F32>)
    : (r: Taken<(bool, bool, F32)>)
    ensures r.value.0 == ("4" in m && FlagText(m["4"], true))
    ensures r.value.1 == ("5" in m && FlagText(m["5"], true))
    ensures r.value.2 == (if "6" in m && parseReal(m["6"]).Some? then parseReal(m["6"]).value else ZeroF32)
    ensures r.rest == m - {"4", "5", "6"}
  {
    var flipX := DefaultedBool(m, "4", false);
    var flipY := DefaultedBool(flipX.rest, "5", false);
    var rotation := DefaultedValue(flipY.rest, "6", parseReal, ZeroF32);
    assert Unread(m, flipX.rest, "5") && Unread(m, flipY.rest, "6");
    assert rotation.rest == m - {"4", "5", "6"};
    Taken((flipX.value, flipY.value, rotation.value), rotation.rest)
  }

  /** The optional fields: "24" as an `i8` and "25" as an `i32`, `None` when absent or
      unparseable; the base HSV string reads "25" again once it is gone, so it is
      always `None`. */
  function ReadOptional(m: map<string, string>): (r: Taken<(Option<I8>, Option<I32>, Option<string>)>)
    ensures r.value.0 == (if "24" in m then ParseI8(m["24"]) else None)
    ensures r.value.1 == (if "25" in m then ParseI32(m["25"]) else None)
    ensures r.value.2 == None
    ensures r.rest == m - {"24", "25"}
  {
    var zLayer := OptionalValue(m, "24", ParseI8);
    var zOrder := OptionalValue(zLayer.rest, "25", ParseI32);
    var baseHsv := OptionalString(zOrder.rest, "25");
    assert Unread(m, zLayer.rest, "25");
    assert baseHsv.rest == m - {"24", "25"};
    Taken((zLayer.value, zOrder.value, baseHsv.value), baseHsv.rest)
  }

  /** Removing two key sets one after the other removes their union. */
  lemma MinusMinus(m: map<string, string>, a: set<string>, b: set<string>)
    ensures m - a - b == m - (a + b)
  {
  }

  /** Key `k` has the same entry in `rest` as in `m`. */
  predicate Unread(m: map<string, string>, rest: map<string, string>, k: string) {
    && (k in rest <==> k in m)
    && (k in m ==> rest[k] == m[k])
  }

  /** `LevelObject::from_map`: `None` exactly when one of the required keys "1" (a
      `u16`), "2" and "3" (`f32`s) is missing or does not parse; otherwise every field
      is what its rule reads, and `otherData` is the map without the keys the rules
      consumed. */
  function FromMap(m: map<string, string>, parseReal: string -> Option<F32>): (r: Option<LevelObject>)
    ensures r.Some? <==>
      && "1" in m && ParseU16(m["1"]).Some?
      && "2" in m && parseReal(m["2"]).Some?
      && "3" in m && parseReal(m["3"]).Some?
    ensures r.Some? ==>
      && Some(r.value.id) == ParseU16(m["1"])
      && Some(r.value.xPos) == parseReal(m["2"])
      && Some(r.value.yPos) == parseReal(m["3"])
    ensures r.Some? ==>
      && r.value.flipX == ("4" in m && FlagText(m["4"], true))
      && r.value.flipY == ("5" in m && FlagText(m["5"], true))
      && r.value.rotation == (if "6" in m && parseReal(m["6"]).Some? then parseReal(m["6"]).value else ZeroF32)
    ensures r.Some? ==>
      && r.value.zLayer == (if "24" in m then ParseI8(m["24"]) else None)
      && r.value.zOrder == (if "25" in m then ParseI32(m["25"]) else None)
      && r.value.baseHsv == None
      && r.value.color == ReadColor(m).value
    ensures r.Some? ==>
      r.value.otherData == m - (if LegacyColorId(m).Some? then FieldKeys - {"22"} else FieldKeys)
  {
    var required :- ReadRequired(m, parseReal);
    var defaulted := ReadDefaulted(required.rest, parseReal);
    var optional := ReadOptional(defaulted.rest);
    var color := ReadColor(optional.rest);
    DefaultedStage(m, parseReal);
    OptionalStage(m, parseReal);
    ColorStage(m, parseReal);
    Some(LevelObject(required.value.0, required.value.1, required.value.2,
                     defaulted.value.0, defaulted.value.1, defaulted.value.2,
                     color.value, optional.value.0, optional.value.1, optional.value.2,
                     color.rest))
  }

  /** The map each stage of `FromMap` starts from: `m` without the keys of the stages
      before it. */
  function AfterRequired(m: map<string, string>): map<string, string> {
    m - {"1", "2", "3"}
  }

  function AfterDefaulted(m: map<string, string>): map<string, string> {
    m - {"1", "2", "3", "4", "5", "6"}
  }

  function AfterOptional(m: map<string, string>): map<string, string> {
    m - {"1", "2", "3", "4", "5", "6", "24", "25"}
  }

  /** The defaulted stage reads the keys of `m` itself. */
  lemma DefaultedStage(m: map<string, string>, parseReal: string -> Option<F32>)
    ensures var d := ReadDefaulted(AfterRequired(m), parseReal);
            && d.value.0 == ("4" in m && FlagText(m["4"], true))
            && d.value.1 == ("5" in m && FlagText(m["5"], true))
            && d.value.2 == (if "6" in m && parseReal(m["6"]).Some? then parseReal(m["6"]).value else ZeroF32)
            && d.rest == AfterDefaulted(m)
  {
    var rest := AfterRequired(m);
    assert Unread(m, rest, "4") && Unread(m, rest, "5") && Unread(m, rest, "6");
    MinusMinus(m, {"1", "2", "3"}, {"4", "5", "6"});
    assert {"1", "2", "3"} + {"4", "5", "6"} == {"1", "2", "3", "4", "5", "6"};
  }

  /** The optional stage reads the keys of `m` itself. */
  lemma OptionalStage(m: map<string, string>, parseReal: string -> Option<F32>)
    ensures var o := ReadOptional(AfterDefaulted(m));
            && o.value.0 == (if "24" in m then ParseI8(m["24"]) else None)
            && o.value.1 == (if "25" in m then ParseI32(m["25"]) else None)
            && o.value.2 == None
            && o.rest == AfterOptional(m)
  {
    var rest := AfterDefaulted(m);
    assert Unread(m, rest, "24") && Unread(m, rest, "25");
    MinusMinus(m, {"1", "2", "3", "4", "5", "6"}, {"24", "25"});
    assert {"1", "2", "3", "4", "5", "6"} + {"24", "25"} == {"1", "2", "3", "4", "5", "6", "24", "25"};
  }

  /** The colour stage reads the keys of `m` itself, and what it leaves is `m` without
      every key read, "22" excepted when the legacy id decided. */
  lemma ColorStage(m: map<string, string>, parseReal: string -> Option<F32>)
    ensures var c := ReadColor(AfterOptional(m));
            && c.value == ReadColor(m).value
            && c.rest == m - (if LegacyColorId(m).Some? then FieldKeys - {"22"} else FieldKeys)
  {
    var rest := AfterOptional(m);
    assert LegacyColorId(rest) == LegacyColorId(m);
    assert Unread(m, rest, "22");
    var last: set<string> := if LegacyColorId(m).Some? then {"19"} else {"19", "22"};
    MinusMinus(m, {"1", "2", "3", "4", "5", "6", "24", "25"}, last);
    assert {"1", "2", "3", "4", "5", "6", "24", "25"} + last
        == (if LegacyColorId(m).Some? then FieldKeys - {"22"} else FieldKeys);
  }

  /** `LevelObject::from_str`: a stub that decodes nothing. */
  function FromStr(s: string): (r: Option<LevelObject>)
    ensures r.None?
  {
    None
  }

  /** An object written back as a key/value map with `gd_format`: the fields over the
      other data, the colour under its legacy key, absent optional fields left out.
      The repository has no such writer yet; this one is the reference `FromMap` is
      checked against. */
  function ToMap(o: LevelObject, formatReal: F32 -> string): map<string, string> {
    var fields := WithFields(o, formatReal);
    var color := if o.color.Some? then fields["19" := FormatColor(o.color.value)] else fields;
    var zLayer := if o.zLayer.Some? then color["24" := FormatInteger(o.zLayer.value)] else color;
    if o.zOrder.Some? then zLayer["25" := FormatInteger(o.zOrder.value)] else zLayer
  }

  /** `m` holds the formatted required and defaulted fields of `o` under their keys. */
  predicate HoldsFields(m: map<string, string>, o: LevelObject, formatReal: F32 -> string) {
    && "1" in m && m["1"] == FormatInteger(o.id)
    && "2" in m && m["2"] == formatReal(o.xPos)
    && "3" in m && m["3"] == formatReal(o.yPos)
    && "4" in m && m["4"] == FormatBool(o.flipX)
    && "5" in m && m["5"] == FormatBool(o.flipY)
    && "6" in m && m["6"] == formatReal(o.rotation)
  }

  /** `m` holds the formatted optional fields of `o`, and no key for an absent one;
      the colour is under its legacy key. */
  predicate HoldsOptions(m: map<string, string>, o: LevelObject) {
    && ("19" in m <==> o.color.Some?) && (o.color.Some? ==> m["19"] == FormatColor(o.color.value))
    && "22" !in m
    && ("24" in m <==> o.zLayer.Some?) && (o.zLayer.Some? ==> m["24"] == FormatInteger(o.zLayer.value))
    && ("25" in m <==> o.zOrder.Some?) && (o.zOrder.Some? ==> m["25"] == FormatInteger(o.zOrder.value))
  }

  /** The other data of `o` with its required and defaulted fields written over it. */
  function WithFields(o: LevelObject, formatReal: F32 -> string): (m: map<string, string>)
    ensures HoldsFields(m, o, formatReal)
  {
    o.otherData
      ["1" := FormatInteger(o.id)]
      ["2" := formatReal(o.xPos)]
      ["3" := formatReal(o.yPos)]
      ["4" := FormatBool(o.flipX)]
      ["5" := FormatBool(o.flipY)]
      ["6" := formatReal(o.rotation)]
  }

  lemma ToMapFields(o: LevelObject, formatReal: F32 -> string)
    ensures HoldsFields(ToMap(o, formatReal), o, formatReal)
  {
  }

  lemma ToMapOptions(o: LevelObject, formatReal: F32 -> string)
    requires forall k :: k in o.otherData ==> k !in FieldKeys
    ensures HoldsOptions(ToMap(o, formatReal), o)
  {
    assert "19" !in o.otherData && "22" !in o.otherData;
    assert "24" !in o.otherData && "25" !in o.otherData;
  }

  /** Every key `ToMap` writes besides the fields is other data. */
  lemma ToMapOtherData(o: LevelObject, formatReal: F32 -> string)
    requires forall k :: k in o.otherData ==> k !in FieldKeys
    ensures ToMap(o, formatReal) - FieldKeys == o.otherData
  {
    var m := ToMap(o, formatReal);
    forall k | k in o.otherData ensures k in m - FieldKeys && m[k] == o.otherData[k] {
      assert k !in FieldKeys;
    }
    forall k | k in m - FieldKeys ensures k in o.otherData {
    }
  }

  /** A colour written under its legacy key, with no new-scheme key beside it, reads
      back as itself; no colour and neither key reads back as none. */
  lemma ColorFormatted(m: map<string, string>, o: LevelObject)
    requires HoldsOptions(m, o)
    ensures ReadColor(m).value == o.color
    ensures LegacyColorId(m).Some? <==> o.color.Some?
  {
    if o.color.Some? {
      ColorRoundTrip(o.color.value);
    }
  }

  /** Any map holding the formatted fields of `o` under their keys, and its other data
      besides, decodes to `o`. */
  lemma FromMapFormatted(m: map<string, string>, o: LevelObject, parseReal: string -> Option<F32>,
                         formatReal: F32 -> string)
    requires parseReal(formatReal(o.xPos)) == Some(o.xPos)
    requires parseReal(formatReal(o.yPos)) == Some(o.yPos)
    requires parseReal(formatReal(o.rotation)) == Some(o.rotation)
    requires o.baseHsv == None
    requires HoldsFields(m, o, formatReal) && HoldsOptions(m, o)
    requires m - FieldKeys == o.otherData
    ensures FromMap(m, parseReal) == Some(o)
  {
    FormattedFields(m, o, parseReal, formatReal);
    FormattedOptions(m, o);
    assert m - (if LegacyColorId(m).Some? then FieldKeys - {"22"} else FieldKeys) == m - FieldKeys;
    var x := FromMap(m, parseReal).value;
    assert x.id == o.id && x.xPos == o.xPos && x.yPos == o.yPos;
    assert x.flipX == o.flipX && x.flipY == o.flipY && x.rotation == o.rotation;
    assert x.zLayer == o.zLayer && x.zOrder == o.zOrder && x.baseHsv == o.baseHsv;
    assert x.color == o.color && x.otherData == o.otherData;
  }

  /** Each formatted required and defaulted field reads back under its own rule. */
  lemma FormattedFields(m: map<string, string>, o: LevelObject, parseReal: string -> Option<F32>,
                        formatReal: F32 -> string)
    requires parseReal(formatReal(o.xPos)) == Some(o.xPos)
    requires parseReal(formatReal(o.yPos)) == Some(o.yPos)
    requires parseReal(formatReal(o.rotation)) == Some(o.rotation)
    requires HoldsFields(m, o, formatReal)
    ensures ParseU16(m["1"]) == Some(o.id)
    ensures parseReal(m["2"]) == Some(o.xPos) && parseReal(m["3"]) == Some(o.yPos)
    ensures FlagText(m["4"], true) == o.flipX && FlagText(m["5"], true) == o.flipY
    ensures parseReal(m["6"]) == Some(o.rotation)
  {
    IntegerRoundTrip(o.id, U16);
    BoolRoundTrip(o.flipX);
    BoolRoundTrip(o.flipY);
  }

  /** Each formatted optional field reads back under its own rule, and an absent one
      has no key. */
  lemma FormattedOptions(m: map<string, string>, o: LevelObject)
    requires HoldsOptions(m, o)
    ensures (if "24" in m then ParseI8(m["24"]) else None) == o.zLayer
    ensures (if "25" in m then ParseI32(m["25"]) else None) == o.zOrder
    ensures ReadColor(m).value == o.color
    ensures LegacyColorId(m).Some? <==> o.color.Some?
  {
    ColorFormatted(m, o);
    if o.zLayer.Some? {
      IntegerRoundTrip(o.zLayer.value, I8);
    }
    if o.zOrder.Some? {
      IntegerRoundTrip(o.zOrder.value, I32);
    }
  }

  /** Decoding what `ToMap` wrote gives the object back, when the `f32` renderer and
      parser agree on its three real fields, its other data claims no field key, and
      its base HSV is `None` (the only value `FromMap` ever produces). */
  lemma FromMapToMap(o: LevelObject, parseReal: string -> Option<F32>, formatReal: F32 -> string)
    requires parseReal(formatReal(o.xPos)) == Some(o.xPos)
    requires parseReal(formatReal(o.yPos)) == Some(o.yPos)
    requires parseReal(formatReal(o.rotation)) == Some(o.rotation)
    requires o.baseHsv == None
    requires forall k :: k in o.otherData ==> k !in FieldKeys
    ensures FromMap(ToMap(o, formatReal), parseReal) == Some(o)
  {
    ToMapFields(o, formatReal);
    ToMapOptions(o, formatReal);
    ToMapOtherData(o, formatReal);
    FromMapFormatted(ToMap(o, formatReal), o, parseReal, formatReal);
  }

  /** The legacy key wins whenever it is a non-zero `u8`, even when it names no colour
      and the new key would; 0 or an absent legacy key defers to the new key. */
  lemma ColorPrecedence()
    ensures ReadColor(map["19" := "3", "22" := "3"]) == Taken(Some(Col1), map["22" := "3"])
    ensures ReadColor(map["19" := "0", "22" := "3"]) == Taken(Some(Col3), map[])
    ensures ReadColor(map["22" := "1003"]) == Taken(Some(DLine), map[])
    ensures ReadColor(map["19" := "9", "22" := "1"]).value == None
  {
    assert ParseInt("3", U8) == Some(3) && ParseInt("3", U16) == Some(3);
    assert ParseInt("0", U8) == Some(0);
    assert ParseInt("9", U8) == Some(9);
    assert ParseInt("1003", U16) == Some(1003) by {
      assert DigitsValue("1003") == 10 * DigitsValue("100") + 3 by {
        assert "1003"[..3] == "100";
      }
      assert DigitsValue("100") == 10 * DigitsValue("10") by {
        assert "100"[..2] == "10";
      }
      assert DigitsValue("10") == 10 by {
        assert "10"[..1] == "1";
      }
    }
    assert map["19" := "3", "22" := "3"] - {"19"} == map["22" := "3"];
  }

  /** The smallest map that decodes: the three required keys. An id of 0 is accepted,
      the flips are false, the rotation 0, and nothing else is set. */
  lemma MinimalObject(parseReal: string -> Option<F32>, a: string, b: string, x: F32, y: F32)
    requires parseReal(a) == Some(x) && parseReal(b) == Some(y)
    ensures FromMap(map["1" := "0", "2" := a, "3" := b], parseReal)
         == Some(LevelObject(0, x, y, false, false, ZeroF32, None, None, None, None, map[]))
  {
    var m := map["1" := "0", "2" := a, "3" := b];
    assert ParseInt("0", U16) == Some(0);
    assert m.Keys == {"1", "2", "3"};
    assert "19" !in m && "22" !in m;
  }
}
