/** What the GMD reader does with each kind of event, beyond reading back the writer's
    documents: skipping, the tag table, the error paths of the dict loop and of the
    document root, and the sample document of the codec's own tests. */
module GdShareLaws {
  import opened Wrappers
  import opened Scalars
  import opened GdShare

  // ---- Skipping ----

  /** Comments, declarations and doctypes before an event are passed over, and the
      event is handed on with exactly what follows it. */
  lemma {:induction false} NextEventSkips(skipped: seq<Event>, e: Event, tail: seq<Event>)
    requires forall i :: 0 <= i < |skipped| ==> Ignorable(skipped[i])
    requires Delivered(e) && !e.Eof?
    ensures NextEvent(skipped + [e] + tail) == Ok(Parsed(e, tail))
    decreases |skipped|
  {
    var evs := skipped + [e] + tail;
    if |skipped| == 0 {
      assert evs == [e] + tail;
      assert evs[1..] == tail;
    } else {
      assert evs[1..] == skipped[1..] + [e] + tail;
      NextEventSkips(skipped[1..], e, tail);
    }
  }

  /** After only skippable events the reader reports the end of input. */
  lemma {:induction false} NextEventAtEnd(skipped: seq<Event>)
    requires forall i :: 0 <= i < |skipped| ==> Ignorable(skipped[i])
    ensures NextEvent(skipped) == Ok(Parsed(Eof, []))
    decreases |skipped|
  {
    if |skipped| > 0 {
      NextEventAtEnd(skipped[1..]);
    }
  }

  /** CDATA and processing instructions are refused wherever they come, even after
      skippable events. */
  lemma {:induction false} NextEventRefuses(skipped: seq<Event>, e: Event, tail: seq<Event>)
    requires forall i :: 0 <= i < |skipped| ==> Ignorable(skipped[i])
    requires e.CData? || e.PI?
    ensures NextEvent(skipped + [e] + tail) == Err(Format(if e.CData? then UnexpectedCData else UnexpectedPI))
    decreases |skipped|
  {
    var evs := skipped + [e] + tail;
    if |skipped| == 0 {
      assert evs[0] == e;
    } else {
      assert evs[1..] == skipped[1..] + [e] + tail;
      NextEventRefuses(skipped[1..], e, tail);
    }
  }

  // ---- The tag table ----

  /** A text element's value by its tag: a string is the text itself; an integer is
      the text read as an `i32`, or `InvalidInt` carrying the text; a real is the text
      read by `parseReal`, or `InvalidReal`. */
  lemma TextValueByTag(tag: string, s: string, tail: seq<Event>, parseReal: string -> Option<F32>)
    ensures var r := ParseValue([Text(s), End(tag)] + tail, tag, parseReal);
            && (tag in StringTags ==> r == Ok(Parsed(Str(s), tail)))
            && (tag in IntegerTags && ParseInt(s, I32).Some? ==> r == Ok(Parsed(Int(ParseInt(s, I32).value), tail)))
            && (tag in IntegerTags && ParseInt(s, I32).None? ==> r == Err(InvalidInt(s)))
            && (tag in RealTags && parseReal(s).Some? ==> r == Ok(Parsed(Real(parseReal(s).value), tail)))
            && (tag in RealTags && parseReal(s).None? ==> r == Err(InvalidReal(s)))
  {
    var evs := [Text(s), End(tag)] + tail;
    assert evs[2..] == tail;
    assert ReadText(evs, tag) == Ok(Parsed(s, tail));
  }

  /** An element with no text reads as the empty string. */
  lemma EmptyTextByTag(tag: string, tail: seq<Event>, parseReal: string -> Option<F32>)
    requires tag in StringTags
    ensures ParseValue([End(tag)] + tail, tag, parseReal) == Ok(Parsed(Str(""), tail))
  {
    assert ([End(tag)] + tail)[1..] == tail;
  }

  /** Booleans are the tag alone: nothing after the opening event is read. A name
      outside the table is refused as an unexpected element. */
  lemma FlagAndUnknownTags(evs: seq<Event>, tag: string, parseReal: string -> Option<F32>)
    ensures tag in TrueTags ==> ParseValue(evs, tag, parseReal) == Ok(Parsed(Bool(true), evs))
    ensures tag in FalseTags ==> ParseValue(evs, tag, parseReal) == Ok(Parsed(Bool(false), evs))
    ensures tag in DictTags ==> ParseValue(evs, tag, parseReal) == ParseDict(evs, map[], parseReal)
    ensures tag !in DictTags + StringTags + IntegerTags + RealTags + TrueTags + FalseTags ==>
      ParseValue(evs, tag, parseReal) == Err(Format(UnexpectedStart(tag)))
  {
  }

  /** The writer's `t ` is not a name of the table: a boolean whose element name the
      reader kept whole would be refused. */
  lemma WrittenFlagNamesUnknown()
    ensures TrueName !in TrueTags && FalseName !in FalseTags
    ensures forall evs: seq<Event>, parseReal: string -> Option<F32> ::
      ParseValue(evs, TrueName, parseReal) == Err(Format(UnexpectedStart(TrueName)))
  {
  }

  // ---- The dict loop ----

  /** A dict ends at any closing tag, whatever its name, with the entries read so far. */
  lemma DictCloses(n: string, acc: map<string, GmdValue>, tail: seq<Event>, parseReal: string -> Option<F32>)
    ensures ParseDict([End(n)] + tail, acc, parseReal) == Ok(Parsed(Dict(acc), tail))
  {
    assert ([End(n)] + tail)[1..] == tail;
  }

  /** Where a key is due, anything but a `k`/`key` element or a closing tag is an
      error naming it, and so is the end of input. */
  lemma DictRefuses(e: Event, acc: map<string, GmdValue>, tail: seq<Event>, parseReal: string -> Option<F32>)
    requires (e.Start? && e.name !in KeyTags) || e.Empty? || e.Text?
    ensures ParseDict([e] + tail, acc, parseReal) == Err(Format(EventError(e)))
    ensures ParseDict([], acc, parseReal) == Err(Format(UnexpectedEof))
  {
    assert ([e] + tail)[1..] == tail;
  }

  /** A value position holding a closing tag, text or the end of input is an error
      naming that event. */
  lemma ValueRefuses(e: Event, tail: seq<Event>, parseReal: string -> Option<F32>)
    requires e.End? || e.Text?
    ensures ParseNextValue([e] + tail, parseReal) == Err(Format(EventError(e)))
    ensures ParseNextValue([], parseReal) == Err(Format(UnexpectedEof))
  {
    assert ([e] + tail)[1..] == tail;
  }

  /** One `k`/`key` element and a value read into the dict being built. */
  lemma DictEntryStep(keyTag: string, k: string, value: seq<Event>, rest: seq<Event>, x: GmdValue,
                      acc: map<string, GmdValue>, parseReal: string -> Option<F32>)
    requires keyTag in KeyTags
    requires ParseNextValue(value + rest, parseReal) == Ok(Parsed(x, rest))
    ensures ParseDict(KeyElement(keyTag, k) + value + rest, acc, parseReal)
         == ParseDict(rest, acc[k := x], parseReal)
  {
    var after := value + rest;
    var inner := [Text(k), End(keyTag)] + after;
    var evs := KeyElement(keyTag, k) + value + rest;
    assert evs == [Start(keyTag, [])] + inner;
    assert NextEvent(evs) == Ok(Parsed(Start(keyTag, []), inner)) by {
      assert evs[1..] == inner;
    }
    assert ReadText(inner, keyTag) == Ok(Parsed(k, after)) by {
      assert inner[2..] == after;
    }
  }

  /** A flag element as a value. */
  lemma FlagValue(name: string, rest: seq<Event>, parseReal: string -> Option<F32>)
    requires name in TrueTags + FalseTags
    ensures ParseNextValue([Empty(name, [])] + rest, parseReal) == Ok(Parsed(Bool(name in TrueTags), rest))
  {
    assert ([Empty(name, [])] + rest)[1..] == rest;
  }

  /** A key element `<tag>k</tag>`. */
  function KeyElement(tag: string, k: string): seq<Event> {
    [Start(tag, []), Text(k), End(tag)]
  }

  /** A key element and a flag element read into the dict being built. */
  lemma FlagEntryStep(keyTag: string, k: string, name: string, rest: seq<Event>,
                      acc: map<string, GmdValue>, parseReal: string -> Option<F32>)
    requires keyTag in KeyTags && name in TrueTags + FalseTags
    ensures ParseDict(KeyElement(keyTag, k) + [Empty(name, [])] + rest, acc, parseReal)
         == ParseDict(rest, acc[k := Bool(name in TrueTags)], parseReal)
  {
    FlagValue(name, rest, parseReal);
    DictEntryStep(keyTag, k, [Empty(name, [])], rest, Bool(name in TrueTags), acc, parseReal);
  }

  /** A key read twice keeps its later value: `k` first names `t`, then `f`, and the
      dict holds `f`. */
  lemma DuplicateKeyOverwrites(k: string, tail: seq<Event>, parseReal: string -> Option<F32>)
    ensures ParseDict(KeyElement("k", k) + [Empty("t", [])]
                      + (KeyElement("key", k) + [Empty("f", [])] + ([End("dict")] + tail)), map[], parseReal)
         == Ok(Parsed(Dict(map[k := Bool(false)]), tail))
  {
    var close := [End("dict")] + tail;
    FlagEntryStep("k", k, "t", KeyElement("key", k) + [Empty("f", [])] + close, map[], parseReal);
    FlagEntryStep("key", k, "f", close, map[k := Bool(true)], parseReal);
    assert map[k := Bool(true)][k := Bool(false)] == map[k := Bool(false)];
    DictCloses("dict", map[k := Bool(false)], tail, parseReal);
  }

  /** A self-closing `dict` is not empty to the reader: it goes on to read the events
      after it as its entries, and ends at the enclosing element's closing tag. */
  lemma SelfClosingDict(n: string, tail: seq<Event>, parseReal: string -> Option<F32>)
    ensures ParseNextValue([Empty("dict", []), End(n)] + tail, parseReal) == Ok(Parsed(Dict(map[]), tail))
  {
    var evs := [Empty("dict", []), End(n)] + tail;
    assert evs[1..] == [End(n)] + tail;
    DictCloses(n, map[], tail, parseReal);
  }

  // ---- The document root ----

  /** At the root, `plist` is stepped into and any other element is the value;
      a closing tag, text or the end of input is an error naming it. */
  lemma DocumentRoot(e: Event, tail: seq<Event>, parseReal: string -> Option<F32>)
    requires e.End? || e.Text?
    ensures ParseDocument([e] + tail, parseReal) == Err(Format(EventError(e)))
    ensures ParseDocument([], parseReal) == Err(Format(UnexpectedEof))
    ensures ParseDocument([Start("plist", [])] + tail, parseReal) == ParseDocument(tail, parseReal)
  {
    assert ([e] + tail)[1..] == tail;
    assert ([Start("plist", [])] + tail)[1..] == tail;
  }

  // ---- Reading stops where the value ends ----

  /** An event the reader hands on, other than the end of input, is handed on in
      the same way whatever follows the events it looked at. */
  lemma {:induction false} NextEventAppend(evs: seq<Event>, tail: seq<Event>)
    requires NextEvent(evs).Ok? && !NextEvent(evs).value.value.Eof?
    ensures NextEvent(evs + tail) == Ok(Parsed(NextEvent(evs).value.value, NextEvent(evs).value.rest + tail))
    decreases |evs|
  {
    assert (evs + tail)[0] == evs[0];
    assert (evs + tail)[1..] == evs[1..] + tail;
    if Ignorable(evs[0]) {
      NextEventAppend(evs[1..], tail);
    }
  }

  /** Text read successfully is read the same whatever follows it. */
  lemma ReadTextAppend(evs: seq<Event>, tag: string, tail: seq<Event>)
    requires ReadText(evs, tag).Ok?
    ensures ReadText(evs + tail, tag) == Ok(Parsed(ReadText(evs, tag).value.value, ReadText(evs, tag).value.rest + tail))
  {
    if |evs| >= 2 && evs[0].Text? && evs[1] == End(tag) {
      assert (evs + tail)[2..] == evs[2..] + tail;
    } else {
      assert (evs + tail)[1..] == evs[1..] + tail;
    }
  }

  /** A value read successfully is read the same whatever follows it, and what
      follows is handed back untouched. */
  lemma {:induction false} ParseValueAppend(evs: seq<Event>, tag: string, parseReal: string -> Option<F32>,
                                            tail: seq<Event>)
    requires ParseValue(evs, tag, parseReal).Ok?
    ensures var r := ParseValue(evs, tag, parseReal).value;
            ParseValue(evs + tail, tag, parseReal) == Ok(Parsed(r.value, r.rest + tail))
    decreases |evs|, 1
  {
    if tag in DictTags {
      ParseDictAppend(evs, map[], parseReal, tail);
    } else if tag in StringTags || tag in IntegerTags || tag in RealTags {
      ReadTextAppend(evs, tag, tail);
    }
  }

  /** The same for a value in entry position, opening tag included. */
  lemma {:induction false} ParseNextValueAppend(evs: seq<Event>, parseReal: string -> Option<F32>, tail: seq<Event>)
    requires ParseNextValue(evs, parseReal).Ok?
    ensures var r := ParseNextValue(evs, parseReal).value;
            ParseNextValue(evs + tail, parseReal) == Ok(Parsed(r.value, r.rest + tail))
    decreases |evs|, 2
  {
    var e := NextEvent(evs).value;
    NextEventAppend(evs, tail);
    ParseValueAppend(e.rest, e.value.name, parseReal, tail);
  }

  /** The same for the rest of a dict, entries read so far included. */
  lemma {:induction false} ParseDictAppend(evs: seq<Event>, acc: map<string, GmdValue>,
                                           parseReal: string -> Option<F32>, tail: seq<Event>)
    requires ParseDict(evs, acc, parseReal).Ok?
    ensures var r := ParseDict(evs, acc, parseReal).value;
            ParseDict(evs + tail, acc, parseReal) == Ok(Parsed(r.value, r.rest + tail))
    decreases |evs|, 0
  {
    var e := NextEvent(evs).value;
    NextEventAppend(evs, tail);
    if e.value.Start? {
      var key := ReadText(e.rest, e.value.name).value;
      ReadTextAppend(e.rest, e.value.name, tail);
      var value := ParseNextValue(key.rest, parseReal).value;
      ParseNextValueAppend(key.rest, parseReal, tail);
      ParseDictAppend(value.rest, acc[key.value := value.value], parseReal, tail);
    }
  }

  /** Only the first value is read: once a document has been read successfully,
      whatever follows it, even text or stray closing tags, is not looked at. */
  lemma {:induction false} DocumentIgnoresTrailing(evs: seq<Event>, tail: seq<Event>, parseReal: string -> Option<F32>)
    requires ParseDocument(evs, parseReal).Ok?
    ensures ParseDocument(evs + tail, parseReal) == ParseDocument(evs, parseReal)
    decreases |evs|
  {
    var e := NextEvent(evs).value;
    NextEventAppend(evs, tail);
    if e.value.Start? && e.value.name == "plist" {
      DocumentIgnoresTrailing(e.rest, tail, parseReal);
    } else {
      ParseValueAppend(e.rest, e.value.name, parseReal, tail);
    }
  }

  /** For instance, a root `t` element reads as true whatever follows it. */
  lemma TrueRootIgnoresTrailing(tail: seq<Event>, parseReal: string -> Option<F32>)
    ensures ParseDocument([Empty("t", [])] + tail, parseReal) == Ok(Bool(true))
  {
    assert ParseDocument([Empty("t", [])], parseReal) == Ok(Bool(true));
    DocumentIgnoresTrailing([Empty("t", [])], tail, parseReal);
  }

  // ---- The sample document ----

  /** The dict of the sample document. */
  const SampleEntries: map<string, GmdValue> :=
    map["awawa" := Int(68), "auaua" := Bool(true), "avava" := Bool(false), "ayaya" := Str(":]")]

  /** The keys of the sample document, in the order they appear. */
  const SampleKeys: seq<string> := ["awawa", "auaua", "avava", "ayaya"]

  /** The entry order of the sample document: the sample keys for the sample dict at
      the root. */
  function SampleOrder(path: seq<string>, d: map<string, GmdValue>): (ks: seq<string>)
    ensures forall k :: k in ks ==> k in d
  {
    if path == [] && d == SampleEntries then SampleKeys else []
  }

  /** The events of each entry of the sample document as the reader delivers them. */
  const SampleAwawa: seq<Event> := [Start("k", []), Text("awawa"), End("k"), Start("i", []), Text("68"), End("i")]
  const SampleAuaua: seq<Event> := [Start("k", []), Text("auaua"), End("k"), Empty("t", [])]
  const SampleAvava: seq<Event> := [Start("k", []), Text("avava"), End("k"), Empty("f", [])]
  const SampleAyaya: seq<Event> := [Start("k", []), Text("ayaya"), End("k"), Start("s", []), Text(":]"), End("s")]

  /** The events of the sample document as the reader delivers them: the declaration,
      `plist`, and a `dict` of the four entries above. */
  const SampleEvents: seq<Event> :=
    [Decl, Start("plist", PlistAttrs)]
    + ([Start("dict", [])] + (SampleAwawa + (SampleAuaua + (SampleAvava + SampleAyaya))) + [End("dict")])
    + [End("plist")]

  lemma SampleOrderListsOwnKeys()
    ensures ListsOwnKeys(SampleOrder)
  {
  }

  /** The sample document reads as its dict, and writing that dict in the sample's
      order gives, as the reader sees it, the sample document again. */
  lemma SampleDocument(parseReal: string -> Option<F32>, formatReal: F32 -> string)
    ensures ListsOwnKeys(SampleOrder)
    ensures AsRead(WriteDocument(Dict(SampleEntries), SampleOrder, formatReal)) == SampleEvents
    ensures ParseDocument(SampleEvents, parseReal) == Ok(Dict(SampleEntries))
  {
    SampleOrderListsOwnKeys();
    SampleWritten(formatReal);
    SampleReadable(parseReal, formatReal);
    ReadWriteDocument(Dict(SampleEntries), SampleOrder, parseReal, formatReal, []);
    assert AsRead(WriteDocument(Dict(SampleEntries), SampleOrder, formatReal)) + [] == SampleEvents;
  }

  lemma SampleReadable(parseReal: string -> Option<F32>, formatReal: F32 -> string)
    ensures ListsOwnKeys(SampleOrder)
    ensures Readable(Dict(SampleEntries), [], SampleOrder, parseReal, formatReal)
  {
    SampleOrderListsOwnKeys();
    assert SampleOrder([], SampleEntries) == SampleKeys;
    assert Unescaped(":]");
  }

  lemma SampleWritten(formatReal: F32 -> string)
    ensures ListsOwnKeys(SampleOrder)
    ensures AsRead(WriteDocument(Dict(SampleEntries), SampleOrder, formatReal)) == SampleEvents
  {
    SampleOrderListsOwnKeys();
    var entries := WriteEntries(SampleEntries, SampleKeys, [], SampleOrder, formatReal);
    var written := WriteValue(Dict(SampleEntries), [], SampleOrder, formatReal);
    assert written == [Start("dict", [])] + entries + [End("dict")] by {
      assert SampleOrder([], SampleEntries) == SampleKeys;
    }
    SampleEntriesRead(formatReal);
    AsReadDict(entries);
    AsReadDocument(written);
  }

  /** The entries of the sample dict, written in the sample's order, as the reader
      sees them. */
  lemma SampleEntriesRead(formatReal: F32 -> string)
    ensures ListsOwnKeys(SampleOrder)
    ensures AsRead(WriteEntries(SampleEntries, SampleKeys, [], SampleOrder, formatReal))
         == SampleAwawa + (SampleAuaua + (SampleAvava + SampleAyaya))
  {
    SampleOrderListsOwnKeys();
    var d := SampleEntries;
    assert SampleKeys[1..][1..] == SampleKeys[2..] && SampleKeys[2..][1..] == SampleKeys[3..];
    assert SampleKeys[3..][1..] == [];
    SampleEntryAwawa(formatReal);
    SampleEntryAuaua(formatReal);
    SampleEntryAvava(formatReal);
    SampleEntryAyaya(formatReal);
    assert AsRead([]) == [];
    assert SampleAyaya + [] == SampleAyaya;
  }

  lemma SampleEntryAwawa(formatReal: F32 -> string)
    ensures ListsOwnKeys(SampleOrder)
    ensures AsRead(WriteEntries(SampleEntries, SampleKeys, [], SampleOrder, formatReal))
         == SampleAwawa + AsRead(WriteEntries(SampleEntries, SampleKeys[1..], [], SampleOrder, formatReal))
  {
    SampleOrderListsOwnKeys();
    var more := WriteEntries(SampleEntries, SampleKeys[1..], [], SampleOrder, formatReal);
    FormatSixtyEight();
    WriteEntriesFirst(SampleEntries, SampleKeys, formatReal);
    TextEntryRead("awawa", "i", "68", more);
  }

  lemma SampleEntryAuaua(formatReal: F32 -> string)
    ensures ListsOwnKeys(SampleOrder)
    ensures AsRead(WriteEntries(SampleEntries, SampleKeys[1..], [], SampleOrder, formatReal))
         == SampleAuaua + AsRead(WriteEntries(SampleEntries, SampleKeys[2..], [], SampleOrder, formatReal))
  {
    SampleOrderListsOwnKeys();
    var more := WriteEntries(SampleEntries, SampleKeys[2..], [], SampleOrder, formatReal);
    assert SampleKeys[1..][1..] == SampleKeys[2..];
    WriteEntriesFirst(SampleEntries, SampleKeys[1..], formatReal);
    FlagEntryRead("auaua", true, more);
  }

  lemma SampleEntryAvava(formatReal: F32 -> string)
    ensures ListsOwnKeys(SampleOrder)
    ensures AsRead(WriteEntries(SampleEntries, SampleKeys[2..], [], SampleOrder, formatReal))
         == SampleAvava + AsRead(WriteEntries(SampleEntries, SampleKeys[3..], [], SampleOrder, formatReal))
  {
    SampleOrderListsOwnKeys();
    var more := WriteEntries(SampleEntries, SampleKeys[3..], [], SampleOrder, formatReal);
    assert SampleKeys[2..][1..] == SampleKeys[3..];
    WriteEntriesFirst(SampleEntries, SampleKeys[2..], formatReal);
    FlagEntryRead("avava", false, more);
  }

  lemma SampleEntryAyaya(formatReal: F32 -> string)
    ensures ListsOwnKeys(SampleOrder)
    ensures AsRead(WriteEntries(SampleEntries, SampleKeys[3..], [], SampleOrder, formatReal)) == SampleAyaya
  {
    SampleOrderListsOwnKeys();
    assert SampleKeys[3..][1..] == [];
    WriteEntriesFirst(SampleEntries, SampleKeys[3..], formatReal);
    TextEntryRead("ayaya", "s", ":]", []);
    assert AsRead([]) == [];
    assert SampleAyaya + [] == SampleAyaya;
  }

  lemma FormatSixtyEight()
    ensures FormatInt(68) == "68"
  {
    assert NatDigits(68) == NatDigits(6) + [DigitChar(8)];
  }

  /** The read view of a key element and a value, from the read views of each. */
  lemma EntryRead(key: seq<Event>, value: seq<Event>, more: seq<Event>, readKey: seq<Event>, readValue: seq<Event>)
    requires AsRead(key) == readKey && AsRead(value) == readValue
    ensures AsRead(key + value + more) == readKey + readValue + AsRead(more)
  {
    AsReadAppend(key + value, more);
    AsReadAppend(key, value);
  }

  /** The read view of a key element followed by a non-empty text element, neither
      with anything to escape. */
  lemma TextEntryRead(k: string, tag: string, text: string, more: seq<Event>)
    requires k != "" && text != "" && tag in {"s", "i", "r"}
    requires Unescaped(k) && Unescaped(text)
    ensures AsRead([Start("k", []), Text(k), End("k")] + [Start(tag, []), Text(text), End(tag)] + more)
         == [Start("k", []), Text(k), End("k"), Start(tag, []), Text(text), End(tag)] + AsRead(more)
  {
    var key := [Start("k", []), Text(k), End("k")];
    var value := [Start(tag, []), Text(text), End(tag)];
    PlainTextElement("k", k);
    PlainTextElement(tag, text);
    EntryRead(key, value, more, key, value);
  }

  /** The read view of a written boolean on its own. */
  lemma FlagRead(b: bool)
    ensures AsRead([Empty(if b then TrueName else FalseName, [])]) == [Empty(if b then "t" else "f", [])]
  {
    ReadFlagNames();
    assert [Empty(if b then TrueName else FalseName, [])][1..] == [];
  }

  /** The read view of a key element followed by a written boolean. */
  lemma FlagEntryRead(k: string, b: bool, more: seq<Event>)
    requires k != "" && Unescaped(k)
    ensures AsRead([Start("k", []), Text(k), End("k")] + [Empty(if b then TrueName else FalseName, [])] + more)
         == [Start("k", []), Text(k), End("k"), Empty(if b then "t" else "f", [])] + AsRead(more)
  {
    var key := [Start("k", []), Text(k), End("k")];
    var read := [Empty(if b then "t" else "f", [])];
    PlainTextElement("k", k);
    FlagRead(b);
    EntryRead(key, [Empty(if b then TrueName else FalseName, [])], more, key, read);
    assert key + read == [Start("k", []), Text(k), End("k"), Empty(if b then "t" else "f", [])];
  }

  /** The first entry `WriteEntries` writes, and the rest. */
  lemma WriteEntriesFirst(d: map<string, GmdValue>, ks: seq<string>, formatReal: F32 -> string)
    requires ListsOwnKeys(SampleOrder)
    requires |ks| > 0 && forall k :: k in ks ==> k in d
    ensures WriteEntries(d, ks, [], SampleOrder, formatReal)
         == [Start("k", []), Text(ks[0]), End("k")] + WriteValue(d[ks[0]], [ks[0]], SampleOrder, formatReal)
            + WriteEntries(d, ks[1..], [], SampleOrder, formatReal)
  {
    assert [] + [ks[0]] == [ks[0]];
  }
}
