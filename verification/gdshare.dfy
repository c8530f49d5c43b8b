/** The GMD value-tree codec (ef19-core/src/codec/gdshare.rs): a plist-style XML
    document of `dict`, `k`, `s`, `i`, `r`, `t` and `f` elements, read by recursive
    descent over the XML reader's events and written by walking the tree. Bytes are
    not modelled: both directions work on the event sequence the XML library reads
    or writes. */
module GdShare {
  import opened Wrappers
  import opened Scalars

  // ---- Events ----

  /** An XML event. Element names are as the reader reports them: the name of `<t />`
      is "t". Attributes are carried but never read. */
  datatype Event =
    | Start(name: string, attrs: seq<(string, string)>)
    | End(name: string)
    | Empty(name: string, attrs: seq<(string, string)>)
    | Text(content: string)
    | Comment
    | Decl
    | DocType
    | CData
    | PI
    | Eof

  /** The events the format skips wherever they appear. */
  predicate Ignorable(e: Event) {
    e.Comment? || e.Decl? || e.DocType?
  }

  /** The events `next_gmd_event` hands on to the parser. */
  predicate Delivered(e: Event) {
    e.Start? || e.End? || e.Empty? || e.Text? || e.Eof?
  }

  // ---- Values and errors ----

  /** `GmdValue`: a tree of booleans, strings, `i32`s, `f32`s and string-keyed dicts. */
  datatype GmdValue =
    | Bool(flag: bool)
    | Str(text: string)
    | Int(integer: I32)
    | Real(single: F32)
    | Dict(entries: map<string, GmdValue>)

  /** `FormatError`: an event where the format does not allow it. */
  datatype FormatError =
    | UnexpectedStart(name: string)
    | UnexpectedEnd(name: string)
    | UnexpectedEmpty(name: string)
    | UnexpectedText(excerpt: string)
    | UnexpectedCData
    | UnexpectedPI
    | UnexpectedEof

  /** `GmdError`. `Xml(tag)` stands for the XML reader's own failure while reading the
      text content of element `tag`. */
  datatype GmdError =
    | Xml(tag: string)
    | Format(format: FormatError)
    | InvalidInt(intText: string)
    | InvalidReal(realText: string)

  /** A parse result with the events left after it. */
  datatype Parsed<T> = Parsed(value: T, rest: seq<Event>)

  /** The excerpt of unexpected text an error carries: text under 20 characters
      whole, longer text cut to its first 17 characters and "...". */
  function Excerpt(s: string): (r: string)
    ensures |r| <= 20
    ensures |s| < 20 ==> r == s
    ensures |s| >= 20 ==> |r| == 20 && r[..17] == s[..17] && r[17..] == "..."
  {
    if |s| < 20 then s else s[..17] + "..."
  }

  /** `FormatError::from(event)`. It panics on the skipped events, which never reach
      it: the requirement says so. */
  function EventError(e: Event): FormatError
    requires !Ignorable(e)
  {
    match e
    case Start(name, _) => UnexpectedStart(name)
    case End(name) => UnexpectedEnd(name)
    case Empty(name, _) => UnexpectedEmpty(name)
    case Text(content) => UnexpectedText(Excerpt(content))
    case CData => UnexpectedCData
    case PI => UnexpectedPI
    case Eof => UnexpectedEof
  }

  /** The error tells which event it was made from: equal errors come from events of
      the same kind with the same name, and an end tag, a text under 20 characters or
      a CDATA, PI or end of input is recovered whole. */
  lemma EventErrorIdentifies(a: Event, b: Event)
    requires !Ignorable(a) && !Ignorable(b)
    requires EventError(a) == EventError(b)
    ensures a.Start? == b.Start? && a.End? == b.End? && a.Empty? == b.Empty? && a.Text? == b.Text?
    ensures (a.Start? || a.End? || a.Empty?) ==> a.name == b.name
    ensures a.Text? && |a.content| < 20 ==> a == b
    ensures !(a.Start? || a.Empty? || a.Text?) ==> a == b
  {
  }

  // ---- Reading ----

  /** `next_gmd_event`: skips comments, declarations and doctypes, refuses CDATA and
      processing instructions, and hands on anything else with the events after it.
      Past the last event the reader reports `Eof`. */
  function NextEvent(evs: seq<Event>): (r: Result<Parsed<Event>, GmdError>)
    ensures r.Ok? ==> Delivered(r.value.value) && |r.value.rest| <= |evs|
    ensures r.Ok? && !r.value.value.Eof? ==> |r.value.rest| < |evs|
    ensures r.Err? ==> r.error == Format(UnexpectedCData) || r.error == Format(UnexpectedPI)
    decreases |evs|
  {
    if |evs| == 0 then Ok(Parsed(Eof, []))
    else
      match evs[0]
      case Comment => NextEvent(evs[1..])
      case Decl => NextEvent(evs[1..])
      case DocType => NextEvent(evs[1..])
      case CData => Err(Format(UnexpectedCData))
      case PI => Err(Format(UnexpectedPI))
      case _ => Ok(Parsed(evs[0], evs[1..]))
  }

  /** What `NextEvent` hands on is a suffix of its input, and the event it delivers,
      unless it is the end of input, sits just before that suffix. */
  lemma {:induction false} NextEventSuffix(evs: seq<Event>)
    ensures var r := NextEvent(evs);
            r.Ok? ==> && r.value.rest == evs[|evs| - |r.value.rest|..]
                      && (!r.value.value.Eof? ==> evs[|evs| - |r.value.rest| - 1] == r.value.value)
    decreases |evs|
  {
    if |evs| > 0 && Ignorable(evs[0]) {
      NextEventSuffix(evs[1..]);
      var r := NextEvent(evs[1..]);
      assert NextEvent(evs) == r;
      if r.Ok? {
        var n := |r.value.rest|;
        assert evs[1..][|evs| - 1 - n..] == evs[|evs| - n..];
        if !r.value.value.Eof? {
          assert evs[1..][|evs| - 1 - n - 1] == evs[|evs| - n - 1];
        }
      }
    } else if |evs| > 0 && !evs[0].CData? && !evs[0].PI? {
      assert NextEvent(evs) == Ok(Parsed(evs[0], evs[1..]));
      assert evs[1..] == evs[|evs| - (|evs| - 1)..];
    }
  }

  /** `read_text(tag)`: the text up to the closing tag of `tag`, which may be absent
      when the element is empty. Any other shape is a reader failure. */
  function ReadText(evs: seq<Event>, tag: string): (r: Result<Parsed<string>, GmdError>)
    ensures r.Ok? ==> |r.value.rest| < |evs|
    ensures r.Err? ==> r.error == Xml(tag)
  {
    if |evs| >= 2 && evs[0].Text? && evs[1] == End(tag) then Ok(Parsed(evs[0].content, evs[2..]))
    else if |evs| >= 1 && evs[0] == End(tag) then Ok(Parsed("", evs[1..]))
    else Err(Xml(tag))
  }

  /** The element names of each kind of value. */
  const DictTags: set<string> := {"dictionary", "dict", "d"}
  const StringTags: set<string> := {"string", "s"}
  const IntegerTags: set<string> := {"integer", "i"}
  const RealTags: set<string> := {"real", "r"}
  const TrueTags: set<string> := {"true", "t"}
  const FalseTags: set<string> := {"false", "f"}
  const KeyTags: set<string> := {"k", "key"}

  /** `parse_value`: the value of the element `tag` whose opening event was just read. */
  function ParseValue(evs: seq<Event>, tag: string, parseReal: string -> Option<F32>)
    : (r: Result<Parsed<GmdValue>, GmdError>)
    ensures r.Ok? ==> |r.value.rest| <= |evs|
    decreases |evs|, 1
  {
    if tag in DictTags then ParseDict(evs, map[], parseReal)
    else if tag in StringTags then
      var text :- ReadText(evs, tag);
      Ok(Parsed(Str(text.value), text.rest))
    else if tag in IntegerTags then
      var text :- ReadText(evs, tag);
      match ParseI32(text.value)
      case Some(v) => Ok(Parsed(Int(v), text.rest))
      case None => Err(InvalidInt(text.value))
    else if tag in RealTags then
      var text :- ReadText(evs, tag);
      match parseReal(text.value)
      case Some(v) => Ok(Parsed(Real(v), text.rest))
      case None => Err(InvalidReal(text.value))
    else if tag in TrueTags then Ok(Parsed(Bool(true), evs))
    else if tag in FalseTags then Ok(Parsed(Bool(false), evs))
    else Err(Format(UnexpectedStart(tag)))
  }

  /** The value position of a dict entry: a Start or Empty element, parsed. */
  function ParseNextValue(evs: seq<Event>, parseReal: string -> Option<F32>)
    : (r: Result<Parsed<GmdValue>, GmdError>)
    ensures r.Ok? ==> |r.value.rest| < |evs|
    decreases |evs|, 2
  {
    var e :- NextEvent(evs);
    match e.value
    case Start(name, _) => ParseValue(e.rest, name, parseReal)
    case Empty(name, _) => ParseValue(e.rest, name, parseReal)
    case End(_) | Text(_) | Eof => Err(Format(EventError(e.value)))
    case _ => assert false; Err(Format(UnexpectedEof))
  }

  /** `parse_dict`, its loop as recursion over the entries read so far: a `k`/`key`
      element then a value adds an entry, overwriting an earlier one of the same key;
      any closing tag ends the dict. */
  function ParseDict(evs: seq<Event>, acc: map<string, GmdValue>, parseReal: string -> Option<F32>)
    : (r: Result<Parsed<GmdValue>, GmdError>)
    ensures r.Ok? ==> |r.value.rest| < |evs|
    decreases |evs|, 0
  {
    var e :- NextEvent(evs);
    match e.value
    case Start(name, _) =>
      if name in KeyTags then
        var key :- ReadText(e.rest, name);
        var value :- ParseNextValue(key.rest, parseReal);
        ParseDict(value.rest, acc[key.value := value.value], parseReal)
      else Err(Format(EventError(e.value)))
    case End(_) => Ok(Parsed(Dict(acc), e.rest))
    case Empty(_, _) | Text(_) | Eof => Err(Format(EventError(e.value)))
    case _ => assert false; Err(Format(UnexpectedEof))
  }

  /** `gmd_from_xml_reader`: a `plist` start tag is stepped into, the first other
      Start or Empty element is the document's value, anything else is an error. What
      follows the value is not looked at. */
  function ParseDocument(evs: seq<Event>, parseReal: string -> Option<F32>): (r: Result<GmdValue, GmdError>)
    decreases |evs|
  {
    var e :- NextEvent(evs);
    match e.value
    case Start(name, _) =>
      if name == "plist" then ParseDocument(e.rest, parseReal)
      else
        var v :- ParseValue(e.rest, name, parseReal);
        Ok(v.value)
    case Empty(name, _) =>
      var v :- ParseValue(e.rest, name, parseReal);
      Ok(v.value)
    case End(_) | Text(_) | Eof => Err(Format(EventError(e.value)))
    case _ => assert false; Err(Format(UnexpectedEof))
  }

  // ---- Writing ----

  /** The order a writer visits the entries of each dict in (`HashMap::iter`, which
      the format does not fix). Every dict of a value tree is its own `HashMap` with
      its own hasher, so the order is chosen per dict: by the path of keys that leads
      to it from the root, and by its contents. Two equal dicts at different paths
      may be written in different orders. */
  type KeyOrder = (seq<string>, map<string, GmdValue>) -> seq<string>

  /** The order lists keys of the dict it is asked about and nothing else. */
  ghost predicate ListsOwnKeys(order: KeyOrder) {
    forall path: seq<string>, d: map<string, GmdValue>, k: string :: k in order(path, d) ==> k in d
  }

  /** The writer's `t ` and `f ` element names. */
  const TrueName: string := "t "
  const FalseName: string := "f "

  /** `write_value` of the value found at `path`: a boolean is an empty `t`/`f`
      element, a string, integer or real an `s`/`i`/`r` element around its text, a
      dict a `dict` element around its entries. Reals are rendered by `formatReal`
      (Rust's `f32` `to_string`). */
  function WriteValue(v: GmdValue, path: seq<string>, order: KeyOrder, formatReal: F32 -> string): seq<Event>
    requires ListsOwnKeys(order)
    decreases v, 1
  {
    match v
    case Bool(b) => [Empty(if b then TrueName else FalseName, [])]
    case Str(s) => [Start("s", []), Text(s), End("s")]
    case Int(n) => [Start("i", []), Text(FormatInt(n)), End("i")]
    case Real(x) => [Start("r", []), Text(formatReal(x)), End("r")]
    case Dict(d) => [Start("dict", [])] + WriteEntries(d, order(path, d), path, order, formatReal) + [End("dict")]
  }

  /** `write_dict`'s loop over the dict at `path`: each key as a `k` element, then
      its value, found at the path extended by that key. */
  function WriteEntries(d: map<string, GmdValue>, ks: seq<string>, path: seq<string>, order: KeyOrder,
                        formatReal: F32 -> string): seq<Event>
    requires ListsOwnKeys(order)
    requires forall k :: k in ks ==> k in d
    decreases Dict(d), 0, |ks|
  {
    if |ks| == 0 then []
    else
      [Start("k", []), Text(ks[0]), End("k")] + WriteValue(d[ks[0]], path + [ks[0]], order, formatReal)
        + WriteEntries(d, ks[1..], path, order, formatReal)
  }

  /** The attributes the writer puts on `plist`. */
  const PlistAttrs: seq<(string, string)> := [("version", "1.0"), ("gjver", "2.0")]

  /** `gmd_to_bytes`: the XML declaration, then the root value inside a `plist`
      element. */
  function WriteDocument(v: GmdValue, order: KeyOrder, formatReal: F32 -> string): seq<Event>
    requires ListsOwnKeys(order)
  {
    [Decl, Start("plist", PlistAttrs)] + WriteValue(v, [], order, formatReal) + [End("plist")]
  }

  // ---- From written events to read events ----

  /** The white space XML allows inside a tag. */
  predicate IsXmlSpace(c: char) {
    c == ' ' || c == '\t' || c == '\n' || c == '\r'
  }

  /** The name the reader reports for an element written with name `n`: `n` up to its
      first white space. */
  function ReadName(n: string): (r: string)
    ensures |r| <= |n| && r == n[..|r|]
    ensures forall i :: 0 <= i < |r| ==> !IsXmlSpace(r[i])
    ensures |r| < |n| ==> IsXmlSpace(n[|r|])
    decreases |n|
  {
    if |n| == 0 || IsXmlSpace(n[0]) then ""
    else
      var tail := ReadName(n[1..]);
      assert n[1..][..|tail|] == n[1..|tail| + 1];
      [n[0]] + tail
  }

  /** The characters `BytesText::new` writes as entity references. */
  predicate Escapable(c: char) {
    c == '&' || c == '<' || c == '>' || c == '\'' || c == '"'
  }

  /** Text that escaping leaves unchanged. */
  predicate Unescaped(s: string) {
    forall i :: 0 <= i < |s| ==> !Escapable(s[i])
  }

  /** The entity reference `BytesText::new` writes for each escapable character. */
  const Entities: seq<(char, string)> :=
    [('&', "&amp;"), ('<', "&lt;"), ('>', "&gt;"), ('\'', "&apos;"), ('"', "&quot;")]

  /** The text written for `c`: the entity reference `table` gives it, or `c` itself. */
  function Lookup(table: seq<(char, string)>, c: char): string
    decreases |table|
  {
    if |table| == 0 then [c]
    else if table[0].0 == c then table[0].1
    else Lookup(table[1..], c)
  }

  /** The text written for one character. */
  function EscapeChar(c: char): string {
    Lookup(Entities, c)
  }

  /** A character that escaping leaves alone is written as itself; an escapable one
      becomes an entity reference of more than one character, starting with `&`. */
  lemma EscapeCharCases(c: char)
    ensures !Escapable(c) ==> EscapeChar(c) == [c]
    ensures Escapable(c) ==> |EscapeChar(c)| > 1 && EscapeChar(c)[0] == '&'
  {
    var t := Entities;
    assert t[1..][1..] == t[2..] && t[2..][1..] == t[3..] && t[3..][1..] == t[4..] && t[4..][1..] == [];
  }

  /** The text `BytesText::new` writes for `s`: every escapable character replaced
      by its entity reference. `read_text` returns the text as it stands in the
      document and does not undo this. */
  function Escape(s: string): string
    decreases |s|
  {
    if |s| == 0 then "" else EscapeChar(s[0]) + Escape(s[1..])
  }

  /** Escaping leaves text without escapable characters unchanged. */
  lemma {:induction false} EscapeUnescaped(s: string)
    requires Unescaped(s)
    ensures Escape(s) == s
    decreases |s|
  {
    if |s| > 0 {
      EscapeUnescaped(s[1..]);
      EscapeCharCases(s[0]);
      assert s == [s[0]] + s[1..];
    }
  }

  /** Escaping changes every text that has an escapable character, and only those. */
  lemma {:induction false} EscapeChanges(s: string)
    ensures Escape(s) == s <==> Unescaped(s)
    decreases |s|
  {
    if |s| > 0 {
      EscapeChanges(s[1..]);
      EscapeLength(s[1..]);
      EscapeCharCases(s[0]);
      if Escapable(s[0]) {
        assert |Escape(s)| > |s|;
      } else if Unescaped(s[1..]) {
        assert s == [s[0]] + s[1..];
      } else {
        var i :| 0 <= i < |s[1..]| && Escapable(s[1..][i]);
        assert Escapable(s[i + 1]);
        assert Escape(s)[1..] == Escape(s[1..]);
      }
    }
  }

  /** Escaped text is at least as long as the text, and empty only for empty text. */
  lemma {:induction false} EscapeLength(s: string)
    ensures |Escape(s)| >= |s|
    ensures Escape(s) == "" <==> s == ""
    decreases |s|
  {
    if |s| > 0 {
      EscapeLength(s[1..]);
      EscapeCharCases(s[0]);
    }
  }

  /** What the reader delivers for the bytes written for `evs`: element names as
      `ReadName` cuts them, text as `Escape` writes it, and no text event for
      empty text. */
  function AsRead(evs: seq<Event>): seq<Event>
    decreases |evs|
  {
    if |evs| == 0 then []
    else
      var rest := AsRead(evs[1..]);
      match evs[0]
      case Start(n, a) => [Start(ReadName(n), a)] + rest
      case Empty(n, a) => [Empty(ReadName(n), a)] + rest
      case Text(s) => if s == "" then rest else [Text(Escape(s))] + rest
      case _ => [evs[0]] + rest
  }

  /** Reading is position-wise: the read view of a concatenation is the concatenation
      of the read views. */
  lemma {:induction false} AsReadAppend(a: seq<Event>, b: seq<Event>)
    ensures AsRead(a + b) == AsRead(a) + AsRead(b)
    decreases |a|
  {
    if |a| > 0 {
      assert (a + b)[1..] == a[1..] + b;
      AsReadAppend(a[1..], b);
    } else {
      assert a + b == b;
    }
  }

  /** The text event the reader delivers for written text: none for empty text. */
  function TextEvents(text: string): seq<Event> {
    if text == "" then [] else [Text(Escape(text))]
  }

  /** The element `<tag>text</tag>` as the reader delivers it. */
  lemma AsReadTextElement(tag: string, text: string)
    requires forall i :: 0 <= i < |tag| ==> !IsXmlSpace(tag[i])
    ensures AsRead([Start(tag, []), Text(text), End(tag)])
         == [Start(tag, [])] + TextEvents(text) + [End(tag)]
  {
    assert ReadName(tag) == tag;
    var evs := [Start(tag, []), Text(text), End(tag)];
    assert evs[1..] == [Text(text), End(tag)];
    assert evs[1..][1..] == [End(tag)];
    assert AsRead([End(tag)]) == [End(tag)] by {
      assert [End(tag)][1..] == [];
    }
  }

  /** A non-empty text element with nothing to escape reads as it was written. */
  lemma PlainTextElement(tag: string, text: string)
    requires forall i :: 0 <= i < |tag| ==> !IsXmlSpace(tag[i])
    requires text != "" && Unescaped(text)
    ensures AsRead([Start(tag, []), Text(text), End(tag)]) == [Start(tag, []), Text(text), End(tag)]
  {
    AsReadTextElement(tag, text);
    EscapeUnescaped(text);
  }

  /** A text element written as `<tag>text</tag>` is read back by `read_text` as the
      escaped text, empty text included. */
  lemma ReadTextElement(tag: string, text: string, tail: seq<Event>)
    requires forall i :: 0 <= i < |tag| ==> !IsXmlSpace(tag[i])
    ensures var evs := AsRead([Start(tag, []), Text(text), End(tag)]) + tail;
            && NextEvent(evs) == Ok(Parsed(Start(tag, []), evs[1..]))
            && ReadText(evs[1..], tag) == Ok(Parsed(Escape(text), tail))
  {
    var inner := TextEvents(text) + [End(tag)] + tail;
    var evs := AsRead([Start(tag, []), Text(text), End(tag)]) + tail;
    assert evs == [Start(tag, [])] + inner by {
      AsReadTextElement(tag, text);
    }
    StartThen(tag, inner);
    ReadTextEvents(tag, text, tail);
  }

  /** An opening tag is handed on with exactly the events after it. */
  lemma StartThen(tag: string, inner: seq<Event>)
    ensures NextEvent([Start(tag, [])] + inner) == Ok(Parsed(Start(tag, []), inner))
    ensures ([Start(tag, [])] + inner)[1..] == inner
  {
  }

  /** `read_text` after the opening tag returns the escaped text. */
  lemma ReadTextEvents(tag: string, text: string, tail: seq<Event>)
    ensures ReadText(TextEvents(text) + [End(tag)] + tail, tag) == Ok(Parsed(Escape(text), tail))
  {
    var inner := TextEvents(text) + [End(tag)] + tail;
    EscapeLength(text);
    if text == "" {
      assert inner == [End(tag)] + tail;
      assert inner[1..] == tail;
    } else {
      assert inner == [Text(Escape(text)), End(tag)] + tail;
      assert inner[2..] == tail;
    }
  }

  /** The entries of `d` under the keys `ks`. */
  function Restrict(d: map<string, GmdValue>, ks: seq<string>): map<string, GmdValue> {
    map k | k in d && k in ks :: d[k]
  }

  /** The value `v`, found at `path`, survives being written and read: no string,
      key or rendered real in it has a character that escaping changes, every real
      reads back as itself, and `order` lists every key of every dict in it. */
  ghost predicate Readable(v: GmdValue, path: seq<string>, order: KeyOrder, parseReal: string -> Option<F32>,
                           formatReal: F32 -> string)
    decreases v
  {
    match v
    case Str(s) => Unescaped(s)
    case Real(x) => parseReal(formatReal(x)) == Some(x) && Unescaped(formatReal(x))
    case Dict(d) =>
      && (forall k :: k in d ==> k in order(path, d) && Unescaped(k))
      && (forall k :: k in d ==> Readable(d[k], path + [k], order, parseReal, formatReal))
    case _ => true
  }

  /** The reader cuts the writer's boolean names "t " and "f " to "t" and "f". */
  lemma ReadFlagNames()
    ensures ReadName(TrueName) == "t" && ReadName(FalseName) == "f"
  {
    assert TrueName[1..] == " " && FalseName[1..] == " ";
    assert ReadName(" ") == "";
  }

  /** A written boolean reads back. */
  lemma ReadWriteBool(b: bool, tail: seq<Event>, parseReal: string -> Option<F32>)
    ensures ParseNextValue(AsRead([Empty(if b then TrueName else FalseName, [])]) + tail, parseReal)
         == Ok(Parsed(Bool(b), tail))
  {
    ReadFlagNames();
    var name := if b then TrueName else FalseName;
    var read := if b then "t" else "f";
    var one := [Empty(name, [])];
    assert one[1..] == [];
    assert AsRead(one) == [Empty(read, [])];
    var evs := [Empty(read, [])] + tail;
    assert evs[1..] == tail;
    assert NextEvent(evs) == Ok(Parsed(Empty(read, []), tail));
  }

  /** A text element of a value tag reads back through `parse_value` of that tag. */
  lemma ReadTextValue(tag: string, text: string, tail: seq<Event>, parseReal: string -> Option<F32>)
    requires tag in {"s", "i", "r"}
    ensures var evs := AsRead([Start(tag, []), Text(text), End(tag)]) + tail;
            ParseNextValue(evs, parseReal) == ParseValue(evs[1..], tag, parseReal)
    ensures ReadText(AsRead([Start(tag, []), Text(text), End(tag)])[1..] + tail, tag) == Ok(Parsed(Escape(text), tail))
  {
    ReadTextElement(tag, text, tail);
    var written := AsRead([Start(tag, []), Text(text), End(tag)]);
    assert (written + tail)[1..] == written[1..] + tail;
  }

  lemma ReadWriteStr(s: string, tail: seq<Event>, parseReal: string -> Option<F32>)
    requires Unescaped(s)
    ensures ParseNextValue(AsRead([Start("s", []), Text(s), End("s")]) + tail, parseReal) == Ok(Parsed(Str(s), tail))
  {
    ReadTextValue("s", s, tail, parseReal);
    EscapeUnescaped(s);
  }

  /** A written string with an escapable character reads back escaped: the string
      "a&b" comes back as "a&amp;b". */
  lemma ReadStrEscaped(tail: seq<Event>, parseReal: string -> Option<F32>)
    ensures ParseNextValue(AsRead([Start("s", []), Text("a&b"), End("s")]) + tail, parseReal)
         == Ok(Parsed(Str("a&amp;b"), tail))
  {
    ReadTextValue("s", "a&b", tail, parseReal);
    EscapeAmpersand();
  }

  lemma EscapeAmpersand()
    ensures Escape("a&b") == "a&amp;b"
  {
    var s := "a&b";
    EscapeCharCases('a');
    EscapeCharCases('b');
    assert EscapeChar('&') == "&amp;";
    assert Escape(s[2..]) == "b" by {
      assert s[2..][1..] == "";
    }
    assert Escape(s[1..]) == "&amp;" + Escape(s[2..]) by {
      assert s[1..][1..] == s[2..];
    }
  }

  lemma ReadWriteInt(n: I32, tail: seq<Event>, parseReal: string -> Option<F32>)
    ensures ParseNextValue(AsRead([Start("i", []), Text(FormatInt(n)), End("i")]) + tail, parseReal)
         == Ok(Parsed(Int(n), tail))
  {
    ParseFormatInt(n, I32);
    IntegerUnescaped(n);
    ReadIntText(FormatInt(n), n, tail, parseReal);
  }

  /** An `i` element whose text has nothing to escape and parses as `v` reads as `v`. */
  lemma ReadIntText(text: string, v: I32, tail: seq<Event>, parseReal: string -> Option<F32>)
    requires Unescaped(text) && ParseI32(text) == Some(v)
    ensures ParseNextValue(AsRead([Start("i", []), Text(text), End("i")]) + tail, parseReal)
         == Ok(Parsed(Int(v), tail))
  {
    ReadTextValue("i", text, tail, parseReal);
    EscapeUnescaped(text);
    var evs := AsRead([Start("i", []), Text(text), End("i")]) + tail;
    IntegerElement(evs[1..], text, tail, v, parseReal);
  }

  /** The text of an `i` element that parses as `v` is read as `v`. */
  lemma IntegerElement(evs: seq<Event>, text: string, rest: seq<Event>, v: I32, parseReal: string -> Option<F32>)
    requires ReadText(evs, "i") == Ok(Parsed(text, rest)) && ParseI32(text) == Some(v)
    ensures ParseValue(evs, "i", parseReal) == Ok(Parsed(Int(v), rest))
  {
    assert "i" !in DictTags && "i" !in StringTags && "i" in IntegerTags;
  }

  /** A rendered integer is digits after an optional minus sign: nothing to escape. */
  lemma IntegerUnescaped(n: int)
    ensures Unescaped(FormatInt(n)) && Escape(FormatInt(n)) == FormatInt(n)
  {
    var r := FormatInt(n);
    if n < 0 {
      forall i | 1 <= i < |r| ensures IsDigit(r[i]) {
        assert r[i] == r[1..][i - 1];
      }
    }
    EscapeUnescaped(r);
  }

  lemma ReadWriteReal(x: F32, tail: seq<Event>, parseReal: string -> Option<F32>, formatReal: F32 -> string)
    requires parseReal(formatReal(x)) == Some(x) && Unescaped(formatReal(x))
    ensures ParseNextValue(AsRead([Start("r", []), Text(formatReal(x)), End("r")]) + tail, parseReal)
         == Ok(Parsed(Real(x), tail))
  {
    ReadTextValue("r", formatReal(x), tail, parseReal);
    EscapeUnescaped(formatReal(x));
  }

  /** The read view of a written `dict` element. */
  lemma AsReadDict(entries: seq<Event>)
    ensures AsRead([Start("dict", [])] + entries + [End("dict")])
         == [Start("dict", [])] + AsRead(entries) + [End("dict")]
  {
    var open := [Start("dict", [])];
    AsReadAppend(open + entries, [End("dict")]);
    AsReadAppend(open, entries);
    assert ReadName("dict") == "dict";
    assert open[1..] == [];
    assert [End("dict")][1..] == [];
  }

  /** A `dict` element reads as its entries read into an empty dict. */
  lemma ReadDictFrame(entries: seq<Event>, tail: seq<Event>, parseReal: string -> Option<F32>)
    ensures ParseNextValue(AsRead([Start("dict", [])] + entries + [End("dict")]) + tail, parseReal)
         == ParseDict(AsRead(entries) + [End("dict")] + tail, map[], parseReal)
  {
    AsReadDict(entries);
    var inner := AsRead(entries) + [End("dict")] + tail;
    var evs := [Start("dict", [])] + AsRead(entries) + [End("dict")] + tail;
    assert evs == [Start("dict", [])] + inner;
    assert evs[1..] == inner;
  }

  /** Everything the writer writes reads back as what was written, followed by
      whatever came after it. */
  lemma {:induction false} ReadWriteValue(v: GmdValue, path: seq<string>, order: KeyOrder,
                                          parseReal: string -> Option<F32>, formatReal: F32 -> string,
                                          tail: seq<Event>)
    requires ListsOwnKeys(order)
    requires Readable(v, path, order, parseReal, formatReal)
    ensures ParseNextValue(AsRead(WriteValue(v, path, order, formatReal)) + tail, parseReal) == Ok(Parsed(v, tail))
    decreases v, 2
  {
    match v
    case Bool(b) => ReadWriteBool(b, tail, parseReal);
    case Str(s) => ReadWriteStr(s, tail, parseReal);
    case Int(n) => ReadWriteInt(n, tail, parseReal);
    case Real(x) => ReadWriteReal(x, tail, parseReal, formatReal);
    case Dict(d) => ReadWriteDict(d, path, order, parseReal, formatReal, tail);
  }

  /** A written dict reads back as itself. */
  lemma {:induction false} ReadWriteDict(d: map<string, GmdValue>, path: seq<string>, order: KeyOrder,
                                         parseReal: string -> Option<F32>, formatReal: F32 -> string,
                                         tail: seq<Event>)
    requires ListsOwnKeys(order)
    requires Readable(Dict(d), path, order, parseReal, formatReal)
    ensures ParseNextValue(AsRead(WriteValue(Dict(d), path, order, formatReal)) + tail, parseReal)
         == Ok(Parsed(Dict(d), tail))
    decreases Dict(d), 1
  {
    var ks := order(path, d);
    ReadDictFrame(WriteEntries(d, ks, path, order, formatReal), tail, parseReal);
    ReadWriteEntries(d, ks, path, map[], order, parseReal, formatReal, tail);
    RestrictAll(d, ks);
  }

  /** Restricting a map to a list of all its keys leaves it whole. */
  lemma RestrictAll(d: map<string, GmdValue>, ks: seq<string>)
    requires forall k :: k in d ==> k in ks
    ensures map[] + Restrict(d, ks) == d
  {
  }

  /** One entry: a `k` element and a value that reads as `x` add `k := x`. */
  lemma ReadEntry(k: string, value: seq<Event>, rest: seq<Event>, x: GmdValue,
                  acc: map<string, GmdValue>, parseReal: string -> Option<F32>)
    requires Unescaped(k)
    requires ParseNextValue(value + rest, parseReal) == Ok(Parsed(x, rest))
    ensures ParseDict(AsRead([Start("k", []), Text(k), End("k")]) + (value + rest), acc, parseReal)
         == ParseDict(rest, acc[k := x], parseReal)
  {
    ReadTextElement("k", k, value + rest);
    EscapeUnescaped(k);
  }

  /** The entries written for the keys `ks` read back into the dict being built. */
  lemma {:induction false} ReadWriteEntries(d: map<string, GmdValue>, ks: seq<string>, path: seq<string>,
                                            acc: map<string, GmdValue>, order: KeyOrder,
                                            parseReal: string -> Option<F32>, formatReal: F32 -> string,
                                            tail: seq<Event>)
    requires ListsOwnKeys(order)
    requires forall k :: k in ks ==> k in d
    requires forall k :: k in d ==> Unescaped(k) && Readable(d[k], path + [k], order, parseReal, formatReal)
    ensures ParseDict(AsRead(WriteEntries(d, ks, path, order, formatReal)) + [End("dict")] + tail, acc, parseReal)
         == Ok(Parsed(Dict(acc + Restrict(d, ks)), tail))
    decreases Dict(d), 0, |ks|
  {
    if |ks| == 0 {
      var evs := [End("dict")] + tail;
      assert AsRead(WriteEntries(d, ks, path, order, formatReal)) + [End("dict")] + tail == evs;
      assert evs[1..] == tail;
      assert Restrict(d, ks) == map[];
      assert acc + map[] == acc;
    } else {
      var k := ks[0];
      var head := [Start("k", []), Text(k), End("k")];
      var value := WriteValue(d[k], path + [k], order, formatReal);
      var more := WriteEntries(d, ks[1..], path, order, formatReal);
      var rest := AsRead(more) + [End("dict")] + tail;
      EntriesSplit(head, value, more, tail);
      ReadWriteValue(d[k], path + [k], order, parseReal, formatReal, rest);
      ReadEntry(k, AsRead(value), rest, d[k], acc, parseReal);
      ReadWriteEntries(d, ks[1..], path, acc[k := d[k]], order, parseReal, formatReal, tail);
      RestrictStep(d, ks, acc);
    }
  }

  /** The read view of one written entry and the entries after it, regrouped. */
  lemma EntriesSplit(head: seq<Event>, value: seq<Event>, more: seq<Event>, tail: seq<Event>)
    ensures AsRead(head + value + more) + [End("dict")] + tail
         == AsRead(head) + (AsRead(value) + (AsRead(more) + [End("dict")] + tail))
  {
    AsReadAppend(head + value, more);
    AsReadAppend(head, value);
    Regroup(AsRead(head), AsRead(value), AsRead(more), [End("dict")] + tail);
    assert AsRead(more) + [End("dict")] + tail == AsRead(more) + ([End("dict")] + tail);
  }

  /** Adding the first key's entry, then the entries of the others, adds them all. */
  lemma RestrictStep(d: map<string, GmdValue>, ks: seq<string>, acc: map<string, GmdValue>)
    requires |ks| > 0 && ks[0] in d
    ensures acc[ks[0] := d[ks[0]]] + Restrict(d, ks[1..]) == acc + Restrict(d, ks)
  {
    var l := acc[ks[0] := d[ks[0]]] + Restrict(d, ks[1..]);
    var r := acc + Restrict(d, ks);
    forall k | k in r ensures k in l && l[k] == r[k] {
      if k != ks[0] && k in ks {
        assert k in ks[1..];
      }
    }
    assert forall k :: k in ks[1..] ==> k in ks;
    assert l.Keys == r.Keys;
  }

  /** The first event the reader delivers for a written value opens a value element,
      never `plist`. */
  lemma WrittenOpening(v: GmdValue, path: seq<string>, order: KeyOrder, formatReal: F32 -> string)
    requires ListsOwnKeys(order)
    ensures var evs := AsRead(WriteValue(v, path, order, formatReal));
            && |evs| > 0
            && ((evs[0].Start? && evs[0].name != "plist") || evs[0].Empty?)
  {
    var written := WriteValue(v, path, order, formatReal);
    match v {
      case Bool(b) =>
        ReadFlagNames();
        OpeningRead(written, Empty(if b then "t" else "f", []));
      case Str(_) =>
        PlainName("s");
        OpeningRead(written, Start("s", []));
      case Int(_) =>
        PlainName("i");
        OpeningRead(written, Start("i", []));
      case Real(_) =>
        PlainName("r");
        OpeningRead(written, Start("r", []));
      case Dict(_) =>
        PlainName("dict");
        OpeningRead(written, Start("dict", []));
    }
  }

  /** The read view begins with the read view of the first event. */
  lemma OpeningRead(evs: seq<Event>, r: Event)
    requires |evs| > 0 && (evs[0].Start? || evs[0].Empty?)
    requires evs[0].Start? ==> r == Start(ReadName(evs[0].name), evs[0].attrs)
    requires evs[0].Empty? ==> r == Empty(ReadName(evs[0].name), evs[0].attrs)
    ensures |AsRead(evs)| > 0 && AsRead(evs)[0] == r
  {
  }

  /** Below `plist`, the document's value is read as a dict entry's value is. */
  lemma DocumentValue(evs: seq<Event>, parseReal: string -> Option<F32>)
    requires |evs| > 0
    requires (evs[0].Start? && evs[0].name != "plist") || evs[0].Empty?
    ensures ParseNextValue(evs, parseReal).Ok? ==> ParseDocument(evs, parseReal) == Ok(ParseNextValue(evs, parseReal).value.value)
    ensures ParseNextValue(evs, parseReal).Err? ==> ParseDocument(evs, parseReal) == Err(ParseNextValue(evs, parseReal).error)
  {
    assert NextEvent(evs) == Ok(Parsed(evs[0], evs[1..]));
  }

  /** `gmd_from_bytes` reads back what `gmd_to_bytes` wrote: for every value without
      escapable characters whose reals survive being rendered and parsed, with each
      dict written in any order that lists its keys, whatever follows the document. */
  lemma ReadWriteDocument(v: GmdValue, order: KeyOrder, parseReal: string -> Option<F32>,
                          formatReal: F32 -> string, tail: seq<Event>)
    requires ListsOwnKeys(order)
    requires Readable(v, [], order, parseReal, formatReal)
    ensures ParseDocument(AsRead(WriteDocument(v, order, formatReal)) + tail, parseReal) == Ok(v)
  {
    var written := WriteValue(v, [], order, formatReal);
    var after := [End("plist")] + tail;
    var body := AsRead(written) + after;
    assert AsRead(WriteDocument(v, order, formatReal)) + tail == [Decl, Start("plist", PlistAttrs)] + body by {
      AsReadDocument(written);
      Regroup([Decl, Start("plist", PlistAttrs)], AsRead(written), [End("plist")], tail);
    }
    DocumentPrologue(body, parseReal);
    ReadWriteValue(v, [], order, parseReal, formatReal, after);
    WrittenOpening(v, [], order, formatReal);
    DocumentValue(body, parseReal);
  }

  lemma Regroup<T>(a: seq<T>, b: seq<T>, c: seq<T>, d: seq<T>)
    ensures a + b + c + d == a + (b + (c + d))
  {
  }

  /** The declaration is skipped and `plist` is stepped into. */
  lemma DocumentPrologue(body: seq<Event>, parseReal: string -> Option<F32>)
    ensures ParseDocument([Decl, Start("plist", PlistAttrs)] + body, parseReal) == ParseDocument(body, parseReal)
  {
    var evs := [Decl, Start("plist", PlistAttrs)] + body;
    assert evs[1..] == [Start("plist", PlistAttrs)] + body;
    assert evs[1..][1..] == body;
    assert NextEvent(evs[1..]) == Ok(Parsed(Start("plist", PlistAttrs), body));
    assert NextEvent(evs) == NextEvent(evs[1..]);
  }

  /** The read view of the declaration and the `plist` opening tag. */
  lemma AsReadPrologue()
    ensures AsRead([Decl, Start("plist", PlistAttrs)]) == [Decl, Start("plist", PlistAttrs)]
  {
    assert AsRead([Start("plist", PlistAttrs)]) == [Start("plist", PlistAttrs)] by {
      PlainName("plist");
      assert [Start("plist", PlistAttrs)][1..] == [];
    }
    assert [Decl, Start("plist", PlistAttrs)][1..] == [Start("plist", PlistAttrs)];
  }

  /** A name without white space is reported as written. */
  lemma PlainName(n: string)
    requires forall i :: 0 <= i < |n| ==> !IsXmlSpace(n[i])
    ensures ReadName(n) == n
  {
  }

  /** The read view of a written document. */
  lemma AsReadDocument(written: seq<Event>)
    ensures AsRead([Decl, Start("plist", PlistAttrs)] + written + [End("plist")])
         == [Decl, Start("plist", PlistAttrs)] + AsRead(written) + [End("plist")]
  {
    AsReadAppend([Decl, Start("plist", PlistAttrs)] + written, [End("plist")]);
    AsReadAppend([Decl, Start("plist", PlistAttrs)], written);
    AsReadPrologue();
    assert [End("plist")][1..] == [];
  }
}
