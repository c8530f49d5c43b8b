# Extra Fancy 1.9 reuploader: the codec core in Dafny

This project models the decoding core of the Extra Fancy 1.9 reuploader, a tool that reads and re-encodes
the level and save data of a 2D platformer. It covers four layers:

- **The key/value micro-format.** `deserialise_kv` and `serialise_kv` turn text such as
  `1:2:3:4` into a map and back. The map's iteration order is not fixed, so the writer takes it as an
  explicit input.
- **Field extraction.** These are the nine arms of `attr_from_map!`, each removing one key from the map and
  reading it in one of three modes:
  - Optional: absent or unparseable is `None`;
  - Required: absent or unparseable makes the enclosing function return `None`;
  - Defaulted: absent or unparseable gives the default.
- **Level objects.** `LevelObject::from_map` reads three required fields, three defaulted ones and the
  optional ones. It resolves the colour from a legacy id and a new-scheme id, and keeps every unclaimed key
  in `other_data`. `LevelObject::from_str` is a stub. The canonical text form of a field, the `GdFormat`
  trait, sits beside it.
- **The GMD value tree.** This is a plist-style XML document of `dict`, `k`, `s`, `i`, `r`, `t` and `f`
  elements. `gmd_from_bytes` reads it by recursive descent over the XML reader's events, and
  `gmd_to_bytes` writes it by walking the tree. Both directions are modelled over the reader's event
  sequence rather than over bytes. `AsRead` states what the reader delivers for what the writer
  wrote.

The `f32` type is opaque: an `F32` is its bit pattern. Parsing and rendering a float are function
parameters (`parseReal`, `formatReal`). Each lemma that needs them to agree says so in its requirement.

Modules, one per concern:

| module | file | what it holds |
|---|---|---|
| `Wrappers` | wrappers.dfy | `Option` and `Result`, with the failure-propagation interface |
| `Scalars` | scalars.dfy | Rust's `str::parse` and `to_string` for the fixed-width integers, and the opaque `F32` |
| `MapOrder` | map_order.dfy | the assumption about `HashMap::iter`: every key once, in an unspecified order |
| `KeyValue` | key_value.dfy | `deserialise_kv` and `serialise_kv`, `str::split`, itertools' `tuples` and `join` |
| `Extract` | extract.dfy | the `attr_from_map!` arms |
| `Colors` | colors.dfy | the colour enum and its two id tables |
| `GdFormat` | gd_format.dfy | `gd_format` for booleans, integers, colours, strings and the `f32` trimming |
| `LevelObjects` | level_object.dfy | `LevelObject`, `from_map`, `from_str`, and a reference writer `ToMap` |
| `GdShare` | gdshare.dfy | the GMD events, values and errors, the reader, the writer, and the read-back proof |
| `GdShareLaws` | gdshare_laws.dfy | the reader's behaviour on each kind of event, and the sample document of the codec's test |

All files form one program. Verify them together with

```
dafny verify --resource-limit 2000000 --verification-time-limit 0 --warn-contradictory-assumptions *.dfy
```

## Model

| member | source | states |
|---|---|---|
| Scalars.ParseInt | ef19-core/src/models/macros.rs:31-33 | a parsed integer lies in the target type's range, and the text is an optional sign followed by ASCII digits only |
| Scalars.NatDigits | ef19-core/src/codec/format.rs:37-51 | the decimal spelling is non-empty, made of digits, worth the number, and has no leading zero |
| Scalars.FormatInt | ef19-core/src/codec/format.rs:37-51 | `to_string` is a `-` followed by the digits of the absolute value for a negative number, and only digits worth the number otherwise |
| Scalars.ParseFormatInt | ef19-core/src/codec/format.rs:37-51 | a formatted in-range integer parses back as itself in its own type |
| Scalars.ParseIntLenient | ef19-core/src/models/macros.rs:31-33 | `str::parse` accepts a leading `+`, leading zeros, and `-0` for a signed type |
| Scalars.ParseIntRefusesShape | ef19-core/src/models/macros.rs:31-33 | a lone sign, `-` on an unsigned type, the empty text and a non-digit are refused |
| Scalars.ParseIntRange | ef19-core/src/models/object/mod.rs:40-44 | the range check is the type's own: `i8` takes -128 but not 128, and `u8` refuses 256 |
| KeyValue.Join | ef19-core/src/codec/mod.rs:18-20 | has no contract of its own: it is itertools' `join`, the items with the separator between consecutive ones and none trailing. `Split` shows that joining the pieces of a split gives the text back, `SplitJoin` that splitting undoes joining for tokens free of the separator's first character, and `EntriesJoin` that joining the joined pairs equals joining the flat token list |
| KeyValue.SplitOn | ef19-core/src/codec/mod.rs:8 | splitting on a non-empty separator gives at least one piece, and joining the pieces with it gives the text back |
| KeyValue.Split | ef19-core/src/codec/mod.rs:8 | `str::split` gives at least one piece, and joining the pieces with the separator gives the text back, for the empty separator too |
| KeyValue.Chars | ef19-core/src/codec/mod.rs:8 | the empty separator's pieces: one string per character, in order |
| KeyValue.JoinChars | ef19-core/src/codec/mod.rs:8 | an empty piece, every character on its own and another empty piece, joined with nothing, are the text again |
| KeyValue.SplitPiecesFree | ef19-core/src/codec/mod.rs:8 | no piece of a split contains the separator anywhere, so a separator in a value cannot be escaped |
| KeyValue.SplitPiece | ef19-core/src/codec/mod.rs:8 | a leading token free of the separator's first character is cut off whole |
| KeyValue.SplitPlain | ef19-core/src/codec/mod.rs:8 | text free of the separator's first character is one piece |
| KeyValue.SplitJoin | ef19-core/src/codec/mod.rs:8 | splitting undoes joining whenever no token holds the separator's first character |
| KeyValue.Pairs | ef19-core/src/codec/mod.rs:8 | `tuples()` gives half as many pairs as tokens, the i-th pair being tokens 2i and 2i+1, so an odd last token is dropped |
| KeyValue.InsertAll | ef19-core/src/codec/mod.rs:7-13 | has no contract of its own. `InsertAllKeys`, `InsertAllValues` and `InsertAllLastWins` state which keys end up present and which value each keeps |
| KeyValue.InsertAllValues | ef19-core/src/codec/mod.rs:7-13 | every entry present after the insertions was put there by one of the pairs |
| KeyValue.InsertAllEntries | ef19-core/src/codec/mod.rs:7-13 | the keys inserted are exactly the pairs' keys, every entry is one of the pairs, and a pair whose key no later pair repeats is an entry |
| KeyValue.InsertAllKeys | ef19-core/src/codec/mod.rs:7-13 | after inserting every pair, a key is present iff some pair carries it |
| KeyValue.InsertAllLastWins | ef19-core/src/codec/mod.rs:7-13 | a pair whose key no later pair repeats survives with its value, so the last pair of a key wins |
| KeyValue.Deserialise | ef19-core/src/codec/mod.rs:6-15 | has no contract of its own. `DeserialiseEntries` says what it reads in terms of the split input, and `RoundTrip` shows it inverts `Serialise` |
| KeyValue.DeserialiseEntries | ef19-core/src/codec/mod.rs:6-15 | the keys read are exactly the first tokens of the consecutive pairs of the split input; every entry is one of those pairs; a pair whose key no later pair repeats is an entry |
| KeyValue.Entries | ef19-core/src/codec/mod.rs:18 | there is one entry per key of the order, and the i-th is the i-th key, the separator and that key's value |
| KeyValue.Tokens | ef19-core/src/codec/mod.rs:17-21 | the flat token list has key i at position 2i and its value at 2i+1 |
| KeyValue.Serialise | ef19-core/src/codec/mod.rs:17-21 | joining the `k sep v` entries by `sep` is the same text as joining the flat token list, and an empty map writes the empty text |
| KeyValue.EntriesJoin | ef19-core/src/codec/mod.rs:17-21 | joining entries that are themselves joined pairs equals joining the flattened tokens |
| KeyValue.InsertKeyOrder | ef19-core/src/codec/mod.rs:6-21 | inserting the pairs written in any key order rebuilds the original map |
| KeyValue.RoundTrip | ef19-core/src/codec/mod.rs:6-21 | deserialising the serialised map gives the map back, for any iteration order and any non-empty separator whose first character is in no key or value |
| KeyValue.DeserialiseJoin | ef19-core/src/codec/mod.rs:6-15 | deserialising joined tokens that are free of the separator inserts their pairs in order |
| KeyValue.DeserialiseFourPairs | ef19-core/src/codec/mod.rs:6-15 | four separator-free pairs written flat deserialise to the map of those four pairs, the later one winning on a repeated key |
| KeyValue.DeserialiseExample | ef19-core/src/codec/mod.rs:49-57 | the codec test's text `1:2:3:4:5:6:8:shit` reads as 1→2, 3→4, 5→6, 8→shit |
| KeyValue.DeserialiseOddToken | ef19-core/src/codec/mod.rs:8 | an odd trailing token is dropped silently: `k sep v sep extra` reads as `k := v` alone |
| KeyValue.DeserialiseRepeatedKey | ef19-core/src/codec/mod.rs:9-12 | a key written twice keeps its second value |
| KeyValue.DeserialiseEmptyText | ef19-core/src/codec/mod.rs:6-15 | the empty text reads as the empty map under a non-empty separator, and as `"" := ""` under the empty separator |
| Extract.ParseFlag | ef19-core/src/models/macros.rs:4-8 | has no contract of its own. `ParseFlagText` states exactly which texts it reads as true and which as false |
| Extract.ParseFlagText | ef19-core/src/models/macros.rs:2-11 | the boolean rule accepts exactly an optional `+` and then zeros ending in `1` (true) or in `0` (false) |
| Extract.FlagDigits | ef19-core/src/models/macros.rs:2-11 | a digit string is worth 1 iff it is zeros then `1`, and worth 0 iff it is zeros then `0` |
| Extract.OptionalBool | ef19-core/src/models/macros.rs:2-11 | the key is removed, and the value is `Some(b)` exactly when the key is present and its text spells `b` |
| Extract.OptionalString | ef19-core/src/models/macros.rs:12-14 | the key is removed, and the value is the removed text, present iff the key was |
| Extract.OptionalValue | ef19-core/src/models/macros.rs:15-20 | the key is removed, and the value is present iff the key is present and parses, in which case it is the parse |
| Extract.RequiredBool | ef19-core/src/models/macros.rs:21-27 | the arm succeeds iff the key is present and spells a boolean; it then yields that boolean and the map without the key |
| Extract.RequiredString | ef19-core/src/models/macros.rs:28-30 | the arm succeeds iff the key is present; it then yields its text and the map without the key |
| Extract.RequiredValue | ef19-core/src/models/macros.rs:31-33 | the arm succeeds iff the key is present and parses; it then yields the parse and the map without the key |
| Extract.DefaultedBool | ef19-core/src/models/macros.rs:34-43 | the key is removed, and the value differs from the default only when the text spells the other boolean |
| Extract.DefaultedString | ef19-core/src/models/macros.rs:44-49 | the key is removed, and the value is its text if present, else the default |
| Extract.DefaultedValue | ef19-core/src/models/macros.rs:50-58 | the key is removed, and the value is the parse when the key is present and parses, else the default |
| Extract.ModesAgree | ef19-core/src/models/macros.rs:15-58 | Required succeeds exactly when Optional finds a value, with the same value and residue, and Defaulted is Optional with the default filled in |
| Extract.BoolModesAgree | ef19-core/src/models/macros.rs:2-43 | the same agreement among the three boolean arms |
| Extract.FlagExamples | ef19-core/src/models/macros.rs:34-43 | "+1" and "01" are true, "000" is false, "2" and "true" are not booleans, and a defaulted flag reading "2" takes its default |
| Colors.Discriminant | src/models/object/color.rs:1-10 | every colour's discriminant is between 1 and 8 |
| Colors.FromOldId | src/models/object/color.rs:12-24 | the legacy table is defined exactly on 1 to 8 and inverts the discriminant |
| Colors.FromNewId | src/models/object/color.rs:25-38 | the new table is defined exactly on 1 to 5, 1003 and 1005 to 1007 |
| Colors.OldIdInvertsDiscriminant | src/models/object/color.rs:12-24 | reading a colour's discriminant through the legacy table gives the colour back |
| Colors.NewIdNotInjective | src/models/object/color.rs:31-32 | 5 and 1003 both name the 3D-line colour in the new table |
| Colors.NewIdOf | src/models/object/color.rs:25-38 | every colour has a new-scheme id that maps back to it |
| Colors.SchemesDisagree | src/models/object/color.rs:12-38 | on every id from 1 to 5 both tables name a colour, and the two colours differ |
| GdFormat.FormatBool | ef19-core/src/codec/format.rs:7-11 | has no contract of its own. `BoolRoundTrip` and `BoolReadBack` show the boolean rule and every boolean arm read it back |
| GdFormat.FormatInteger | ef19-core/src/codec/format.rs:37-51 | has no contract of its own. `IntegerRoundTrip` shows `str::parse` in the same type reads it back |
| GdFormat.FormatColor | ef19-core/src/codec/format.rs:25-29 | has no contract of its own. `ColorRoundTrip` shows it is a non-zero `u8` that the legacy table maps back to the colour |
| GdFormat.FormatString | ef19-core/src/codec/format.rs:31-35 | has no contract of its own. `StringRoundTrip` shows every string arm reads it back as the string |
| GdFormat.BoolRoundTrip | ef19-core/src/codec/format.rs:7-11 | a formatted boolean reads back as itself under the boolean rule and does not spell the other boolean |
| GdFormat.BoolReadBack | ef19-core/src/codec/format.rs:7-11 | every boolean arm of the extraction macro reads a formatted boolean back as itself |
| GdFormat.IntegerRoundTrip | ef19-core/src/codec/format.rs:37-51 | a formatted integer of any of the integer types parses back as itself |
| GdFormat.ColorRoundTrip | ef19-core/src/codec/format.rs:25-29 | a formatted colour parses as a `u8`, is never 0, and reads back through the legacy table as itself |
| GdFormat.StringRoundTrip | ef19-core/src/codec/format.rs:31-35 | a formatted string reads back as itself under the optional, required and defaulted string arms |
| GdFormat.TrimZeros | ef19-core/src/codec/format.rs:16 | `trim_end_matches("0")` keeps a prefix that does not end in `0`, and everything cut off is `0` |
| GdFormat.TrimFloat | ef19-core/src/codec/format.rs:13-23 | the trimmed rendering is a prefix of the `{:.4}` rendering |
| GdFormat.TrimZerosAppend | ef19-core/src/codec/format.rs:16 | trimming a concatenation trims the tail, and reaches the head only when the tail was all zeros |
| GdFormat.TrimFixedPointValue | ef19-core/src/codec/format.rs:13-23 | on a fixed-point rendering only the fraction's trailing zeros go, and the point goes with them when no digit of the fraction remains |
| GdFormat.PointDropped | ef19-core/src/codec/format.rs:16-21 | an all-zero fraction is removed with its point |
| GdFormat.PointKept | ef19-core/src/codec/format.rs:16-21 | a fraction with a non-zero digit keeps its point and its digits up to the last non-zero one |
| GdFormat.IntegerPart | ef19-core/src/codec/format.rs:13-23 | a sign and a digit run hold no point and end in a digit |
| GdFormat.TrimFixedPoint | ef19-core/src/codec/format.rs:13-23 | the integer part is never touched, the result never ends in `.`, and it never ends in `0` once it holds a `.` |
| GdFormat.TrimFloatKeepsFraction | ef19-core/src/codec/format.rs:13-23 | "44.3000" becomes "44.3" and "-0.5000" becomes "-0.5" |
| GdFormat.TrimFloatDropsFraction | ef19-core/src/codec/format.rs:13-23 | "0.0000" becomes "0" and "10.0000" becomes "10": the zeros of the integer part stay |
| LevelObjects.ReadColor | ef19-core/src/models/object/mod.rs:44-50 | a non-zero legacy `u8` id decides through the legacy table and leaves key "22" alone; otherwise key "22" is read as a `u16` through the new table, and both keys are removed |
| LevelObjects.ReadRequired | ef19-core/src/models/object/mod.rs:32-34 | the required stage succeeds iff "1" is a `u16` and "2" and "3" parse as reals; it yields them and removes the three keys |
| LevelObjects.ReadDefaulted | ef19-core/src/models/object/mod.rs:36-38 | a flip is true only when its text spells true, the rotation is 0 unless it parses, and the three keys are removed |
| LevelObjects.ReadOptional | ef19-core/src/models/object/mod.rs:40-42 | the z layer is "24" as an `i8` and the z order is "25" as an `i32`; the base HSV reads "25" after it is gone, so it is always `None` |
| LevelObjects.DefaultedStage | ef19-core/src/models/object/mod.rs:36-38 | after the required keys are gone, the defaulted stage still reads the original map's entries |
| LevelObjects.OptionalStage | ef19-core/src/models/object/mod.rs:40-42 | after the earlier stages, the optional stage still reads the original map's entries |
| LevelObjects.ColorStage | ef19-core/src/models/object/mod.rs:44-50 | after the earlier stages, the colour is the one the original map decides, and the leftover map is the original without every key read |
| LevelObjects.FromMap | ef19-core/src/models/object/mod.rs:30-64 | decoding fails exactly when a required key is missing or unparseable; otherwise each field is what its rule reads from the map, and `other_data` is the map without the keys consumed ("22" survives when the legacy id decided) |
| LevelObjects.FromStr | ef19-core/src/models/object/mod.rs:25-28 | the text constructor decodes nothing: it always returns `None` |
| LevelObjects.WithFields | ef19-core/src/models/object/mod.rs:32-50 | the reference writer (see `LevelObjects.ToMap` under Left out) puts each required and defaulted field, formatted, under the key `from_map` reads it from |
| LevelObjects.ToMapFields | ef19-core/src/models/object/mod.rs:32-50 | the reference writer's map holds every required and defaulted field under the key `from_map` reads it from |
| LevelObjects.ToMapOptions | ef19-core/src/models/object/mod.rs:32-50 | the reference writer's map holds each present optional field under the key `from_map` reads it from, and no key for an absent one |
| LevelObjects.ToMapOtherData | ef19-core/src/models/object/mod.rs:32-50 | outside the keys `from_map` reads, the reference writer's map is exactly the object's other data |
| LevelObjects.ToMap | ef19-core/src/models/object/mod.rs:30-64 | has no contract of its own; it is the reference writer admitted under Left out. `FromMapToMap` shows `from_map` inverts it |
| LevelObjects.ColorFormatted | ef19-core/src/models/object/mod.rs:44-50 | a colour written under its legacy key reads back as itself, and no colour reads back as none |
| LevelObjects.FromMapFormatted | ef19-core/src/models/object/mod.rs:30-64 | any map holding an object's formatted fields and its other data decodes to that object |
| LevelObjects.FormattedFields | ef19-core/src/models/object/mod.rs:32-38 | the formatted id, positions, flips and rotation each read back under their own rule |
| LevelObjects.FormattedOptions | ef19-core/src/models/object/mod.rs:40-50 | the formatted layer, order and colour read back, and an absent one reads as `None` |
| LevelObjects.FromMapToMap | ef19-core/src/models/object/mod.rs:30-64 | decoding the written map gives the object back when its reals survive rendering and parsing and its other data claims no field key |
| LevelObjects.ColorPrecedence | ef19-core/src/models/object/mod.rs:44-50 | the legacy key wins when non-zero, even when it names no colour; 0 or an absent legacy key defers to the new key |
| LevelObjects.MinimalObject | ef19-core/src/models/object/mod.rs:30-64 | the three required keys alone decode, with id 0 accepted, the flips false, the rotation 0 and nothing else set |
| GdShare.Excerpt | ef19-core/src/codec/gdshare.rs:56-63 | unexpected text under 20 characters is kept whole; longer text becomes its first 17 characters and "..." |
| GdShare.EventError | ef19-core/src/codec/gdshare.rs:50-70 | has no contract of its own. `EventErrorIdentifies` states what the error tells about the event |
| GdShare.EventErrorIdentifies | ef19-core/src/codec/gdshare.rs:50-70 | equal errors come from events of the same kind with the same name; an end tag, a text under 20 characters, CDATA, a processing instruction or the end of input is recovered whole |
| GdShare.NextEvent | ef19-core/src/codec/gdshare.rs:253-271 | only Start, End, Empty, Text or Eof are handed on, and the only errors are CDATA and processing instructions |
| GdShare.NextEventSuffix | ef19-core/src/codec/gdshare.rs:253-271 | what is handed on is a suffix of the input, and the delivered event sits right before it |
| GdShare.ReadText | ef19-core/src/codec/gdshare.rs:198-215 | reading text consumes at least one event, and any failure is the reader's own failure on that tag |
| GdShare.ParseValue | ef19-core/src/codec/gdshare.rs:198-220 | a value never reads past its input. `TextValueByTag`, `EmptyTextByTag` and `FlagAndUnknownTags` give its result for each kind of tag, and `ReadWriteValue` shows it reads back every written value |
| GdShare.ParseNextValue | ef19-core/src/codec/gdshare.rs:242-248 | a value read in a dict consumes at least its opening event |
| GdShare.ParseDict | ef19-core/src/codec/gdshare.rs:222-251 | a dict read consumes at least its closing event |
| GdShare.ParseDocument | ef19-core/src/codec/gdshare.rs:180-196 | has no contract of its own. `DocumentPrologue`, `DocumentValue`, `DocumentRoot` and `DocumentIgnoresTrailing` state what it does at the root and that it never looks past the first value, and `ReadWriteDocument` shows it reads back every written document |
| GdShare.WriteValue | ef19-core/src/codec/gdshare.rs:140-160 | has no contract of its own. `ReadWriteValue` shows `ParseNextValue` inverts it, and `WrittenOpening` states how it begins |
| GdShare.WriteEntries | ef19-core/src/codec/gdshare.rs:162-172 | has no contract of its own. `ReadWriteEntries` shows the dict loop reads its entries back |
| GdShare.WriteDocument | ef19-core/src/codec/gdshare.rs:125-138 | has no contract of its own. `ReadWriteDocument` shows `ParseDocument` inverts it |
| GdShare.AsRead | ef19-core/src/codec/gdshare.rs:140-172 | has no contract of its own. `AsReadAppend` shows it works event by event, and `ReadName` and `Escape` state what it does to names and to text |
| GdShare.AsReadAppend | ef19-core/src/codec/gdshare.rs:140-172 | the read view of written events one after another is the read views one after another |
| GdShare.Escape | ef19-core/src/codec/gdshare.rs:146 | has no contract of its own. `EscapeUnescaped`, `EscapeChanges` and `EscapeLength` state what `BytesText::new` does to text |
| GdShare.EscapeCharCases | ef19-core/src/codec/gdshare.rs:146 | a character outside `& < > ' "` is written as itself, and each of those five as an entity reference beginning with `&` |
| GdShare.EscapeUnescaped | ef19-core/src/codec/gdshare.rs:146 | text holding none of `& < > ' "` is written as it is |
| GdShare.EscapeChanges | ef19-core/src/codec/gdshare.rs:146 | escaping changes a text exactly when it holds one of `& < > ' "` |
| GdShare.EscapeLength | ef19-core/src/codec/gdshare.rs:146 | escaped text is never shorter than the text, and is empty only when the text is |
| GdShare.ReadStrEscaped | ef19-core/src/codec/gdshare.rs:198-201 | `read_text` does not undo the escaping, so the string "a&b" is written and then read back as "a&amp;b" |
| GdShare.IntegerUnescaped | ef19-core/src/codec/gdshare.rs:148-151 | a rendered integer holds nothing that escaping changes |
| GdShare.PlainTextElement | ef19-core/src/codec/gdshare.rs:144-147 | a non-empty text element with nothing to escape reaches the reader as it was written |
| GdShare.ReadName | ef19-core/src/codec/gdshare.rs:142-143 | the name the reader reports is the written name up to its first XML white space |
| GdShare.ReadTextElement | ef19-core/src/codec/gdshare.rs:198-215 | a written text element, empty text included, is read back by `read_text` as its escaped text, with what followed it |
| GdShare.ReadFlagNames | ef19-core/src/codec/gdshare.rs:142-143 | the written boolean names "t " and "f " are reported as "t" and "f" |
| GdShare.ReadWriteBool | ef19-core/src/codec/gdshare.rs:142-143 | a written boolean reads back as itself |
| GdShare.ReadTextValue | ef19-core/src/codec/gdshare.rs:144-155 | an `s`, `i` or `r` element opens with its tag, and its text is read back escaped |
| GdShare.ReadWriteStr | ef19-core/src/codec/gdshare.rs:144-147 | a written string holding none of `& < > ' "` reads back as itself |
| GdShare.ReadWriteInt | ef19-core/src/codec/gdshare.rs:148-151 | a written `i32` reads back as itself |
| GdShare.ReadIntText | ef19-core/src/codec/gdshare.rs:202-208 | an `i` element whose text has nothing to escape and parses as an `i32` reads as that integer |
| GdShare.ReadWriteReal | ef19-core/src/codec/gdshare.rs:152-155 | a written real reads back as itself when its rendering parses back and holds nothing to escape |
| GdShare.ReadDictFrame | ef19-core/src/codec/gdshare.rs:162-172 | a written `dict` element reads as its entries read into an empty dict |
| GdShare.ReadEntry | ef19-core/src/codec/gdshare.rs:226-249 | a written key element without escapable characters, followed by a value that reads as `x`, adds `k := x` to the dict being read |
| GdShare.ReadWriteEntries | ef19-core/src/codec/gdshare.rs:162-172 | the written entries for a list of keys read back as the dict restricted to those keys |
| GdShare.ReadWriteDict | ef19-core/src/codec/gdshare.rs:162-172 | a written dict reads back as itself |
| GdShare.ReadWriteValue | ef19-core/src/codec/gdshare.rs:140-160 | every written value that escaping leaves alone reads back as itself, with whatever came after it, whatever key order each dict at each path was written in |
| GdShare.WrittenOpening | ef19-core/src/codec/gdshare.rs:140-160 | a written value opens with a Start element other than `plist`, or with an Empty element |
| GdShare.DocumentValue | ef19-core/src/codec/gdshare.rs:180-196 | below `plist`, the document's value is read exactly as a dict entry's value is, errors included |
| GdShare.DocumentPrologue | ef19-core/src/codec/gdshare.rs:180-190 | the XML declaration is skipped and `plist` is stepped into |
| GdShare.ReadWriteDocument | ef19-core/src/codec/gdshare.rs:125-196 | at the level of XML events, `gmd_from_bytes` reads back what `gmd_to_bytes` wrote. This holds for every value with no `& < > ' "` in its strings, keys or rendered reals and whose reals survive rendering and parsing. Each dict may be written in its own key order, chosen by its path from the root and its contents. It holds whatever follows the document |
| GdShareLaws.NextEventSkips | ef19-core/src/codec/gdshare.rs:253-271 | comments, declarations and doctypes are passed over, and the next event is handed on with exactly what follows it |
| GdShareLaws.NextEventAtEnd | ef19-core/src/codec/gdshare.rs:253-271 | after only skippable events the reader reports the end of input |
| GdShareLaws.NextEventRefuses | ef19-core/src/codec/gdshare.rs:264-266 | CDATA and processing instructions are refused, even after skippable events |
| GdShareLaws.TextValueByTag | ef19-core/src/codec/gdshare.rs:198-215 | a string is its text; an integer is its text as an `i32`, or `InvalidInt` with the text; a real is its text parsed, or `InvalidReal` |
| GdShareLaws.EmptyTextByTag | ef19-core/src/codec/gdshare.rs:201 | a string element with no text reads as the empty string |
| GdShareLaws.FlagAndUnknownTags | ef19-core/src/codec/gdshare.rs:198-219 | `t` and `f` read nothing after their opening, `dict` goes into the dict loop, and a name outside the table is an unexpected element |
| GdShareLaws.WrittenFlagNamesUnknown | ef19-core/src/codec/gdshare.rs:142-143 | "t " is not in the tag table, so the writer's names round-trip only because the reader cuts them at the space |
| GdShareLaws.DictCloses | ef19-core/src/codec/gdshare.rs:238 | any closing tag ends a dict, whatever its name, with the entries read so far |
| GdShareLaws.DictRefuses | ef19-core/src/codec/gdshare.rs:228-240 | where a key is due, a non-key element, an empty element, text or the end of input is an error naming that event |
| GdShareLaws.ValueRefuses | ef19-core/src/codec/gdshare.rs:242-248 | where a value is due, a closing tag, text or the end of input is an error naming that event |
| GdShareLaws.DictEntryStep | ef19-core/src/codec/gdshare.rs:226-249 | a `k` or `key` element followed by a value adds that entry and goes on reading |
| GdShareLaws.FlagValue | ef19-core/src/codec/gdshare.rs:242-248 | an empty `t`/`true` or `f`/`false` element in value position is that boolean |
| GdShareLaws.FlagEntryStep | ef19-core/src/codec/gdshare.rs:226-249 | a key element followed by a boolean element adds that boolean under the key |
| GdShareLaws.DuplicateKeyOverwrites | ef19-core/src/codec/gdshare.rs:249 | a key read twice keeps its later value |
| GdShareLaws.SelfClosingDict | ef19-core/src/codec/gdshare.rs:244-245 | a self-closing `dict` is not empty to the reader: it reads the following events as entries and ends at the enclosing closing tag |
| GdShareLaws.DocumentRoot | ef19-core/src/codec/gdshare.rs:180-196 | at the root `plist` is stepped into, and a closing tag, text or the end of input is an error naming it |
| GdShareLaws.NextEventAppend | ef19-core/src/codec/gdshare.rs:253-271 | an event the reader hands on, other than the end of input, is handed on the same way with anything appended, and the appended events follow its rest |
| GdShareLaws.ReadTextAppend | ef19-core/src/codec/gdshare.rs:198-215 | text read successfully is read the same with anything appended, which follows its rest |
| GdShareLaws.ParseValueAppend | ef19-core/src/codec/gdshare.rs:198-220 | a value read successfully is read the same with anything appended, and the appended events are handed back untouched after it |
| GdShareLaws.ParseNextValueAppend | ef19-core/src/codec/gdshare.rs:242-248 | the same for a value in entry position, its opening tag included |
| GdShareLaws.ParseDictAppend | ef19-core/src/codec/gdshare.rs:222-251 | the same for the rest of a dict, with the entries read so far |
| GdShareLaws.DocumentIgnoresTrailing | ef19-core/src/codec/gdshare.rs:180-196 | for every document that reads successfully, appending any events, even text or stray closing tags, leaves the result unchanged: only the first value is read |
| GdShareLaws.TrueRootIgnoresTrailing | ef19-core/src/codec/gdshare.rs:180-196 | an instance: a root `t` element reads as true whatever follows it |
| GdShareLaws.SampleDocument | ef19-core/src/codec/gdshare.rs:276-287 | the test's document reads as its dict (awawa→68, auaua→true, avava→false, ayaya→":]"), and writing that dict in the document's order gives the same events again |

## Left out

- Bytes and the XML library. The GMD reader and writer work on the event sequence, not on bytes, and quick_xml is not modelled. Left out are:
  - the escaping of names and excerpts in error values (`escaped_string`, `escaped_string_quotes`);
  - attribute syntax;
  - malformed XML;
  - counting the text excerpt in bytes rather than in characters.

  `AsRead` states the three things the reader delivers differently from what was written. A written name is cut at its first white space, which is how `t ` becomes `t`. Written text arrives as `BytesText::new` escaped it (`Escape`), because `read_text` does not unescape. An empty text element delivers no text event.
- GdShare.ReadText: quick_xml's `read_text` returns any nested markup as raw text. The model accepts only optional text followed by the matching closing tag, and treats every other shape as the reader's failure `Xml(tag)`.
- GdShare.EventError: the panic of `FormatError::from` on comment, declaration and doctype events is a precondition. No caller can reach it, because those events never get past `NextEvent`.
- The `println!` calls of the reader and of the codec's test, the `Display` impls, `std::error::Error::source`, the `Io` error and writer failures (`gmd_to_bytes` returning `None`). These are output or foreign I/O with no logic to model.
- `f32` parsing and rendering: `str::parse::<f32>`, `{:.4}` and `f32::to_string` are function parameters. Every round trip that involves a real requires the two to agree.
- GdFormat.TrimFixedPoint: the lemma is proved for any rendering shaped as `sign digits . digits`. That `{:.4}` produces such a shape, with exactly four decimals, is not modelled, because the rendering itself is a parameter.
- `attr_from_gmd!` (macros.rs:61-68): both arms only panic with "Not implemented", and no core function uses them.
- Colour ids are `u32` in the source and `nat` here. The tables are small constants, so the width changes nothing.
- LevelObjects.ToMap: the repository has no writer for level objects yet. `ToMap` is a reference writer built from `gd_format`, so that `FromMap` has an inverse to be proved against.
- Behaviours the code does not have, although the unused `KeyError { Missing, Invalid }` of errors.rs and the field comment `41 enabled, 43 string` in object/mod.rs suggest some of them. The model follows the code in each case:
  - an object with id 0 is not rejected (`MinimalObject` decodes one);
  - a missing or invalid required key gives `None`, not a key error naming the key;
  - the base HSV is read from key "25" after that key has been removed, so it is always `None`, and keys "41" and "43" stay in `other_data`;
  - `from_str` is a stub returning `None`.
- Compression and framing (gzip, base64), object lists, the level aggregate (`level.rs`), `errors.rs`, `variants.rs` and `src/models/object/mod.rs`. None of them is part of this core.
- KeyValue.RoundTrip: the round trip is proved for a non-empty separator whose first character occurs in no key or value. A separator inside a value makes the format ambiguous, and `SplitPiecesFree` shows a piece can never hold one.
- `gmd_from_bytes` and `gmd_to_bytes` as byte functions. `ReadWriteDocument` relates `ParseDocument` and `WriteDocument` through `AsRead` instead, and an arbitrary tail after the document stands for any trailing bytes.
- GdShare.ReadWriteDocument: the round trip holds at the level of events, not bytes. It is promised only for values with no `& < > ' "` in any string, key or rendered real. The writer escapes those characters and the reader hands the text back still escaped (`ReadStrEscaped`), so such values do not read back as themselves. The key order is a function of each dict's path from the root and its contents. Two equal dicts at different paths may therefore be written in different orders, as with a hasher per `HashMap`. The order of one dict is fixed for the whole write, which holds because `write_dict` iterates each map once.
