/** The XML entity writer: character escaping, the markup written for each
    kind of entity, and the stack of elements that are still open. */
module XMLWriter {
  import opened Wrappers

  /** The kinds of entity a writer is asked to write. `Unrecognized` stands for any
      value of the entity-kind enumeration other than the four named ones. */
  datatype EntityKind = StartElement | EndElement | CharData | CompleteElement | Unrecognized

  /** One entity: its kind, its element name (or its text, for character data) and
      its attributes as (name, value) pairs in order. */
  datatype Entity = Entity(kind: EntityKind, nameData: string, attributes: seq<(string, string)>)

  // ---------------------------------------------------------------------------
  // Escaping
  // ---------------------------------------------------------------------------

  /** How one character of character data is written. */
  function EscapeTextChar(c: char): string
  {
    if c == '&' then "&amp;"
    else if c == '<' then "&lt;"
    else if c == '>' then "&gt;"
    else [c]
  }

  /** How one character of an attribute value is written. */
  function EscapeAttrChar(c: char): string
  {
    if c == '&' then "&amp;"
    else if c == '<' then "&lt;"
    else if c == '>' then "&gt;"
    else if c == '"' then "&quot;"
    else if c == '\'' then "&apos;"
    else [c]
  }

  /** Character data with `&`, `<` and `>` replaced by their entity references:
      never shorter than `s`, a plain first character is copied and a special one
      opens an entity reference. */
  function EscapeText(s: string): (r: string)
    ensures |r| >= |s|
    ensures s != [] && !TextSpecial(s[0]) ==> r[0] == s[0]
    ensures s != [] && TextSpecial(s[0]) ==> r[0] == '&'
  {
    if s == [] then [] else EscapeTextChar(s[0]) + EscapeText(s[1..])
  }

  /** An attribute value with `&`, `<`, `>`, `"` and `'` replaced by their entity
      references: never shorter than `s`, a plain first character is copied and a
      special one opens an entity reference. */
  function EscapeAttr(s: string): (r: string)
    ensures |r| >= |s|
    ensures s != [] && !AttrSpecial(s[0]) ==> r[0] == s[0]
    ensures s != [] && AttrSpecial(s[0]) ==> r[0] == '&'
  {
    if s == [] then [] else EscapeAttrChar(s[0]) + EscapeAttr(s[1..])
  }

  /** The characters character data may not hold raw. */
  predicate TextSpecial(c: char)
  {
    c == '&' || c == '<' || c == '>'
  }

  /** The characters an attribute value may not hold raw. */
  predicate AttrSpecial(c: char)
  {
    TextSpecial(c) || c == '"' || c == '\''
  }

  /** `t` starts with `p`. */
  predicate StartsWith(t: string, p: string)
  {
    |p| <= |t| && t[..|p|] == p
  }

  /** The decoding an XML reader applies: each of the five predefined entity
      references becomes its character, and every other character is kept. */
  function Unescape(t: string): string
    decreases |t|
  {
    if t == [] then []
    else if t[0] != '&' then [t[0]] + Unescape(t[1..])
    else if StartsWith(t, "&amp;") then "&" + Unescape(t[5..])
    else if StartsWith(t, "&lt;") then "<" + Unescape(t[4..])
    else if StartsWith(t, "&gt;") then ">" + Unescape(t[4..])
    else if StartsWith(t, "&quot;") then "\"" + Unescape(t[6..])
    else if StartsWith(t, "&apos;") then "'" + Unescape(t[6..])
    else "&" + Unescape(t[1..])
  }

  /** Escaping character data distributes over concatenation. */
  lemma {:induction false} EscapeTextAppend(a: string, b: string)
    ensures EscapeText(a + b) == EscapeText(a) + EscapeText(b)
    decreases |a|
  {
    if a == [] {
      assert a + b == b;
    } else {
      assert (a + b)[1..] == a[1..] + b;
      EscapeTextAppend(a[1..], b);
    }
  }

  /** Escaping an attribute value distributes over concatenation. */
  lemma {:induction false} EscapeAttrAppend(a: string, b: string)
    ensures EscapeAttr(a + b) == EscapeAttr(a) + EscapeAttr(b)
    decreases |a|
  {
    if a == [] {
      assert a + b == b;
    } else {
      assert (a + b)[1..] == a[1..] + b;
      EscapeAttrAppend(a[1..], b);
    }
  }

  /** Escaped character data holds no raw `<` or `>`. */
  lemma {:induction false} EscapeTextSafe(s: string)
    ensures forall k :: 0 <= k < |EscapeText(s)| ==> EscapeText(s)[k] != '<' && EscapeText(s)[k] != '>'
    decreases |s|
  {
    if s != [] {
      EscapeTextSafe(s[1..]);
      var head := EscapeTextChar(s[0]);
      var tail := EscapeText(s[1..]);
      assert EscapeText(s) == head + tail;
      forall k | 0 <= k < |head + tail|
        ensures (head + tail)[k] != '<' && (head + tail)[k] != '>'
      {
        if k >= |head| {
          assert (head + tail)[k] == tail[k - |head|];
        }
      }
    }
  }

  /** An escaped attribute value holds no raw `<`, `>`, `"` or `'`, so it cannot
      end the quoted value it is written into. */
  lemma {:induction false} EscapeAttrSafe(s: string)
    ensures forall k :: 0 <= k < |EscapeAttr(s)| ==>
              EscapeAttr(s)[k] != '<' && EscapeAttr(s)[k] != '>' && EscapeAttr(s)[k] != '"' && EscapeAttr(s)[k] != '\''
    decreases |s|
  {
    if s != [] {
      EscapeAttrSafe(s[1..]);
      var head := EscapeAttrChar(s[0]);
      var tail := EscapeAttr(s[1..]);
      assert EscapeAttr(s) == head + tail;
      forall k | 0 <= k < |head + tail|
        ensures (head + tail)[k] != '<' && (head + tail)[k] != '>' && (head + tail)[k] != '"' && (head + tail)[k] != '\''
      {
        if k >= |head| {
          assert (head + tail)[k] == tail[k - |head|];
        }
      }
    }
  }

  /** Escaping never shortens character data, and it keeps its length exactly when
      there is nothing to escape. */
  lemma {:induction false} EscapeTextLength(s: string)
    ensures |EscapeText(s)| >= |s|
    ensures |EscapeText(s)| == |s| <==> forall k :: 0 <= k < |s| ==> !TextSpecial(s[k])
    decreases |s|
  {
    if s != [] {
      EscapeTextLength(s[1..]);
      assert forall k :: 1 <= k < |s| ==> s[k] == s[1..][k - 1];
      assert forall k :: 0 <= k < |s| - 1 ==> s[1..][k] == s[k + 1];
    }
  }

  /** Character data comes out unchanged exactly when it holds no `&`, `<` or `>`. */
  lemma EscapeTextIdentity(s: string)
    ensures EscapeText(s) == s <==> forall k :: 0 <= k < |s| ==> !TextSpecial(s[k])
  {
    EscapeTextLength(s);
    if forall k :: 0 <= k < |s| ==> !TextSpecial(s[k]) {
      EscapeTextPlain(s);
    }
  }

  /** Character data without special characters is copied as it is. */
  lemma {:induction false} EscapeTextPlain(s: string)
    requires forall k :: 0 <= k < |s| ==> !TextSpecial(s[k])
    ensures EscapeText(s) == s
    decreases |s|
  {
    if s != [] {
      assert forall k :: 0 <= k < |s[1..]| ==> s[1..][k] == s[k + 1];
      EscapeTextPlain(s[1..]);
      assert s == [s[0]] + s[1..];
    }
  }

  /** An attribute value without quote characters is escaped exactly as character data is. */
  lemma {:induction false} EscapeAttrAsText(s: string)
    requires forall k :: 0 <= k < |s| ==> s[k] != '"' && s[k] != '\''
    ensures EscapeAttr(s) == EscapeText(s)
    decreases |s|
  {
    if s != [] {
      assert forall k :: 0 <= k < |s[1..]| ==> s[1..][k] == s[k + 1];
      EscapeAttrAsText(s[1..]);
    }
  }

  /** Decoding the entity reference of a special character gives that character,
      whatever follows. */
  lemma UnescapeReference(c: char, rest: string)
    requires AttrSpecial(c)
    ensures Unescape(EscapeAttrChar(c) + rest) == [c] + Unescape(rest)
  {
    var ref := EscapeAttrChar(c);
    var t := ref + rest;
    assert t[..|ref|] == ref;
    assert t[|ref|..] == rest;
    assert t[1] == ref[1] && t[2] == ref[2];
    if c == '&' {
      assert StartsWith(t, "&amp;");
    } else if c == '<' {
      assert !StartsWith(t, "&amp;") && StartsWith(t, "&lt;");
    } else if c == '>' {
      assert !StartsWith(t, "&amp;") && !StartsWith(t, "&lt;") && StartsWith(t, "&gt;");
    } else if c == '"' {
      assert !StartsWith(t, "&amp;") && !StartsWith(t, "&lt;") && !StartsWith(t, "&gt;") && StartsWith(t, "&quot;");
    } else {
      assert !StartsWith(t, "&amp;") && !StartsWith(t, "&lt;") && !StartsWith(t, "&gt;") && !StartsWith(t, "&quot;");
    }
  }

  /** A character other than `&` decodes as itself, whatever follows. */
  lemma UnescapePlain(c: char, rest: string)
    requires c != '&'
    ensures Unescape([c] + rest) == [c] + Unescape(rest)
  {
    var t := [c] + rest;
    assert t[1..] == rest;
  }

  /** Decoding the attribute escape of one character gives that character back,
      whatever follows. */
  lemma UnescapeChar(c: char, rest: string)
    ensures Unescape(EscapeAttrChar(c) + rest) == [c] + Unescape(rest)
  {
    if AttrSpecial(c) {
      UnescapeReference(c, rest);
    } else {
      UnescapePlain(c, rest);
    }
  }

  /** Reading escaped character data back gives the original text. */
  lemma {:induction false} UnescapeText(s: string)
    ensures Unescape(EscapeText(s)) == s
    decreases |s|
  {
    if s != [] {
      UnescapeText(s[1..]);
      if EscapeTextChar(s[0]) != EscapeAttrChar(s[0]) {
        UnescapePlain(s[0], EscapeText(s[1..]));
      } else {
        UnescapeChar(s[0], EscapeText(s[1..]));
      }
      assert s == [s[0]] + s[1..];
    }
  }

  /** Reading an escaped attribute value back gives the original value. */
  lemma {:induction false} UnescapeAttr(s: string)
    ensures Unescape(EscapeAttr(s)) == s
    decreases |s|
  {
    if s != [] {
      UnescapeAttr(s[1..]);
      UnescapeChar(s[0], EscapeAttr(s[1..]));
      assert s == [s[0]] + s[1..];
    }
  }

  /** Distinct texts are written as distinct character data. */
  lemma EscapeTextInjective(a: string, b: string)
    requires EscapeText(a) == EscapeText(b)
    ensures a == b
  {
    UnescapeText(a);
    UnescapeText(b);
  }

  // ---------------------------------------------------------------------------
  // Markup
  // ---------------------------------------------------------------------------

  /** One attribute as written inside a tag: a space, the name, `=` and the escaped
      value in double quotes. */
  function AttributeMarkup(attr: (string, string)): string
  {
    " " + attr.0 + "=\"" + EscapeAttr(attr.1) + "\""
  }

  /** All attributes of a tag, in order. */
  function AttributesMarkup(attrs: seq<(string, string)>): string
  {
    if attrs == [] then [] else AttributesMarkup(attrs[..|attrs| - 1]) + AttributeMarkup(attrs[|attrs| - 1])
  }

  /** The closing tag of element `name`. */
  function EndTag(name: string): string
  {
    "</" + name + ">"
  }

  /** The text a successful write of `e` appends to the sink; none for an entity
      the writer does not recognize. */
  function Markup(e: Entity): Option<string>
  {
    match e.kind
    case StartElement => Some("<" + e.nameData + AttributesMarkup(e.attributes) + ">")
    case EndElement => Some(EndTag(e.nameData))
    case CompleteElement => Some("<" + e.nameData + AttributesMarkup(e.attributes) + "/>")
    case CharData => Some(EscapeText(e.nameData))
    case Unrecognized => None
  }

  /** The stack of open element names after `e` is written successfully: a start
      tag pushes its name, an end tag pops the top only when the top is its own
      name, and every other entity leaves the stack alone. */
  function OpenAfter(openTags: seq<string>, e: Entity): seq<string>
  {
    match e.kind
    case StartElement => openTags + [e.nameData]
    case EndElement =>
      if openTags != [] && openTags[|openTags| - 1] == e.nameData then openTags[..|openTags| - 1] else openTags
    case _ => openTags
  }

  /** The closing tags for the open elements `openTags`, innermost (last pushed) first. */
  function ClosingTags(openTags: seq<string>): string
  {
    if openTags == [] then [] else EndTag(openTags[|openTags| - 1]) + ClosingTags(openTags[..|openTags| - 1])
  }

  /** Closing a stack closes its upper part first, then its lower part: the tags
      come out in the reverse order of opening. */
  lemma {:induction false} ClosingTagsAppend(lower: seq<string>, upper: seq<string>)
    ensures ClosingTags(lower + upper) == ClosingTags(upper) + ClosingTags(lower)
    decreases |upper|
  {
    if upper == [] {
      assert lower + upper == lower;
    } else {
      var top := upper[|upper| - 1];
      var below := upper[..|upper| - 1];
      assert (lower + upper)[..|lower + upper| - 1] == lower + below;
      assert (lower + upper)[|lower + upper| - 1] == top;
      ClosingTagsAppend(lower, below);
    }
  }

  /** Writing a start entity, then character data or a complete element, then the
      matching end entity leaves the stack as it was. */
  lemma StartEndBalanced(openTags: seq<string>, start: Entity, inner: Entity, end: Entity)
    requires start.kind == StartElement && end.kind == EndElement && start.nameData == end.nameData
    requires inner.kind == CharData || inner.kind == CompleteElement
    ensures OpenAfter(OpenAfter(OpenAfter(openTags, start), inner), end) == openTags
  {
    var pushed := openTags + [start.nameData];
    assert pushed[..|pushed| - 1] == openTags;
  }

  /** The stack only ever changes at its top: a write leaves it alone, pushes the
      name of a start entity, or pops the name of an end entity, and an end entity
      pops exactly when its name is on top. */
  lemma StackChangesAtTop(openTags: seq<string>, e: Entity)
    ensures OpenAfter(openTags, e) == openTags
         || (e.kind == StartElement && OpenAfter(openTags, e) == openTags + [e.nameData])
         || (e.kind == EndElement && openTags == OpenAfter(openTags, e) + [e.nameData])
    ensures e.kind == EndElement ==>
              (OpenAfter(openTags, e) != openTags <==> openTags != [] && openTags[|openTags| - 1] == e.nameData)
    ensures e.kind != StartElement && e.kind != EndElement ==> OpenAfter(openTags, e) == openTags
  {
    if e.kind == EndElement && openTags != [] && openTags[|openTags| - 1] == e.nameData {
      assert openTags == openTags[..|openTags| - 1] + [e.nameData];
    }
  }

  /** Written markup of a start entity opens the element the stack records. */
  lemma StartMarkup(openTags: seq<string>, e: Entity)
    requires e.kind == StartElement
    ensures Markup(e).Some? && StartsWith(Markup(e).value, "<" + e.nameData)
    ensures |OpenAfter(openTags, e)| == |openTags| + 1
    ensures OpenAfter(openTags, e)[|openTags|] == e.nameData
  {
    var m := Markup(e).value;
    assert m == "<" + e.nameData + (AttributesMarkup(e.attributes) + ">");
  }

  // ---------------------------------------------------------------------------
  // The writer
  // ---------------------------------------------------------------------------

  /** A writer over a character sink: `output` is everything the sink has accepted,
      `openTags` the names of the elements opened and not yet closed, innermost last. */
  class Writer {
    var output: string
    var openTags: seq<string>

    constructor ()
      ensures output == [] && openTags == []
    {
      output := [];
      openTags := [];
    }

    /** Hands `s` to the sink, which either accepts all of it or refuses it. */
    method WriteString(s: string) returns (ok: bool)
      modifies this
      ensures openTags == old(openTags)
      ensures ok ==> output == old(output) + s
      ensures !ok ==> output == old(output)
    {
      ok :| true;
      if ok {
        output := output + s;
      }
    }

    /** Builds the attribute part of a tag, one attribute at a time. */
    method AttributesText(attrs: seq<(string, string)>) returns (text: string)
      ensures text == AttributesMarkup(attrs)
    {
      text := [];
      for i := 0 to |attrs|
        invariant text == AttributesMarkup(attrs[..i])
      {
        assert attrs[..i + 1][..i] == attrs[..i];
        text := text + AttributeMarkup(attrs[i]);
      }
      assert attrs[..|attrs|] == attrs;
    }

    /** Writes one entity. On success the sink holds the entity's markup and the
        stack follows `OpenAfter`; on failure, or for an unrecognized entity,
        nothing changes. */
    method WriteEntity(e: Entity) returns (ok: bool)
      modifies this
      ensures e.kind == Unrecognized ==> !ok
      ensures ok ==> Markup(e).Some? && output == old(output) + Markup(e).value
      ensures ok ==> openTags == OpenAfter(old(openTags), e)
      ensures !ok ==> output == old(output) && openTags == old(openTags)
    {
      if e.kind == StartElement {
        var attrs := AttributesText(e.attributes);
        var out := "<" + e.nameData + attrs + ">";
        ok := WriteString(out);
        if !ok {
          return false;
        }
        openTags := openTags + [e.nameData];
        return true;
      }
      if e.kind == EndElement {
        var out := "</" + e.nameData + ">";
        ok := WriteString(out);
        if !ok {
          return false;
        }
        if openTags != [] && openTags[|openTags| - 1] == e.nameData {
          openTags := openTags[..|openTags| - 1];
        }
        return true;
      }
      if e.kind == CompleteElement {
        var attrs := AttributesText(e.attributes);
        var out := "<" + e.nameData + attrs + "/>";
        ok := WriteString(out);
        return;
      }
      if e.kind == CharData {
        ok := WriteString(EscapeText(e.nameData));
        return;
      }
      return false;
    }

    /** Closes every still-open element, innermost first. Each name is popped before
        its closing tag is written, so when the sink refuses a tag the stack has
        already lost that name: what remains is a lower part of the old stack, and
        the sink holds the closing tags of everything above the refused one. */
    method Flush() returns (ok: bool)
      modifies this
      ensures ok ==> openTags == [] && output == old(output) + ClosingTags(old(openTags))
      ensures !ok ==> |openTags| < |old(openTags)| && openTags == old(openTags)[..|openTags|]
      ensures !ok ==> output == old(output) + ClosingTags(old(openTags)[|openTags| + 1..])
    {
      ghost var start := openTags;
      ghost var written := output;
      while openTags != []
        invariant |openTags| <= |start| && openTags == start[..|openTags|]
        invariant output == written + ClosingTags(start[|openTags|..])
        decreases |openTags|
      {
        var name := openTags[|openTags| - 1];
        ghost var closed := start[|openTags|..];
        openTags := openTags[..|openTags| - 1];
        assert start[|openTags|..] == [name] + closed;
        ClosingTagsAppend([name], closed);
        assert ClosingTags([name]) == EndTag(name);
        var out := "</" + name + ">";
        var w := WriteString(out);
        if !w {
          return false;
        }
      }
      return true;
    }
  }

  // ---------------------------------------------------------------------------
  // The writer's documented behaviour on two small documents
  // ---------------------------------------------------------------------------

  /** A start entity with one attribute is written as a start tag holding that attribute. */
  lemma StartWithAttribute(name: string, attr: (string, string))
    ensures Markup(Entity(StartElement, name, [attr])) == Some("<" + name + AttributeMarkup(attr) + ">")
  {
    assert [attr][..0] == [];
    assert AttributesMarkup([attr]) == [] + AttributeMarkup(attr);
    assert [] + AttributeMarkup(attr) == AttributeMarkup(attr);
  }

  /** A start entity without attributes is written as a bare start tag. */
  lemma BareStart(name: string)
    ensures Markup(Entity(StartElement, name, [])) == Some("<" + name + ">")
  {
    assert "<" + name + [] == "<" + name;
  }

  /** Flushing a two-element stack closes the inner element, then the outer one. */
  lemma ClosingTwo(outer: string, inner: string)
    ensures ClosingTags([outer, inner]) == EndTag(inner) + EndTag(outer)
  {
    assert [outer, inner][..1] == [outer];
    assert [outer][..0] == [];
    assert ClosingTags([outer]) == EndTag(outer) + [];
    assert EndTag(outer) + [] == EndTag(outer);
    assert ClosingTags([outer, inner]) == EndTag(inner) + ClosingTags([outer]);
  }

  /** The attribute value of the escaping test document. */
  lemma EscapedAttributeValue()
    ensures EscapeAttr("1&2") == "1&amp;2"
  {
  }

  /** Escaping around one character. */
  lemma EscapeAround(a: string, c: char, b: string)
    ensures EscapeText(a + [c] + b) == EscapeText(a) + EscapeTextChar(c) + EscapeText(b)
  {
    EscapeTextAppend(a + [c], b);
    EscapeTextAppend(a, [c]);
    EscapeTextSingle(c);
  }

  /** One character is escaped as that character alone. */
  lemma EscapeTextSingle(c: char)
    ensures EscapeText([c]) == EscapeTextChar(c)
  {
    assert [c][1..] == [];
  }

  lemma PlainPiece(s: string)
    requires s == "x " || s == " y " || s == " z"
    ensures EscapeText(s) == s
  {
    EscapeTextPlain(s);
  }

  lemma CutTail()
    ensures " y & z" == " y " + ['&'] + " z"
  {
  }

  lemma CutWhole()
    ensures "x < y & z" == "x " + ['<'] + " y & z"
  {
  }

  lemma TailPieces()
    ensures EscapeText(" y & z") == " y " + "&amp;" + " z"
  {
    CutTail();
    EscapeAround(" y ", '&', " z");
    PlainPiece(" y ");
    PlainPiece(" z");
  }

  lemma EscapedPieces()
    ensures EscapeText("x < y & z") == "x " + "&lt;" + (" y " + "&amp;" + " z")
  {
    CutWhole();
    EscapeAround("x ", '<', " y & z");
    PlainPiece("x ");
    TailPieces();
  }

  lemma JoinedPieces()
    ensures "x " + "&lt;" + (" y " + "&amp;" + " z") == "x &lt; y &amp; z"
  {
  }

  /** The character data of the escaping test document. */
  lemma EscapedCharacterData()
    ensures EscapeText("x < y & z") == "x &lt; y &amp; z"
  {
    EscapedPieces();
    JoinedPieces();
  }

  /** An element with one attribute holding a child element with text, both closed
      explicitly, then a flush: when every write succeeds the sink holds the
      document with the attribute value and the text escaped, and the flush adds
      nothing. A refused write ends the run, as a failed assertion ends the test
      this mirrors, whose document has root `root` with attribute `a="1&2"` and
      child `child` holding `x < y & z`. */
  method WritesAndEscapes(root: string, attr: (string, string), child: string, data: string)
    returns (ok: bool, text: string)
    ensures ok ==> text == ("<" + root + AttributeMarkup(attr) + ">") + ("<" + child + ">")
                           + EscapeText(data) + EndTag(child) + EndTag(root)
  {
    ok, text := false, [];
    StartWithAttribute(root, attr);
    BareStart(child);
    var w := new Writer();
    ok := w.WriteEntity(Entity(StartElement, root, [attr]));
    if !ok {
      return;
    }
    assert w.output == [] + ("<" + root + AttributeMarkup(attr) + ">");
    assert w.output == "<" + root + AttributeMarkup(attr) + ">";
    ok := w.WriteEntity(Entity(StartElement, child, []));
    if !ok {
      return;
    }
    ok := w.WriteEntity(Entity(CharData, data, []));
    if !ok {
      return;
    }
    ok := w.WriteEntity(Entity(EndElement, child, []));
    if !ok {
      return;
    }
    assert w.openTags == [root];
    ok := w.WriteEntity(Entity(EndElement, root, []));
    if !ok {
      return;
    }
    assert w.openTags == [];
    ghost var written := w.output;
    ok := w.Flush();
    text := w.output;
    assert ok ==> text == written;
  }

  /** Two start tags and a flush: the flush closes the inner element before the
      outer one. The test this mirrors uses `root` and `child`. */
  method FlushClosesOpenTags(outer: string, inner: string) returns (ok: bool, text: string)
    ensures ok ==> text == ("<" + outer + ">") + ("<" + inner + ">") + EndTag(inner) + EndTag(outer)
  {
    ok, text := false, [];
    BareStart(outer);
    BareStart(inner);
    var w := new Writer();
    ok := w.WriteEntity(Entity(StartElement, outer, []));
    if !ok {
      return;
    }
    ok := w.WriteEntity(Entity(StartElement, inner, []));
    if !ok {
      return;
    }
    assert w.openTags == [outer, inner];
    ghost var written := w.output;
    ClosingTwo(outer, inner);
    ok := w.Flush();
    text := w.output;
    assert ok ==> text == written + EndTag(inner) + EndTag(outer);
  }
}
