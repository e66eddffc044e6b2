/** Exactly which texts the JSON reader accepts, and what it makes of them: all that the documents of JsonText leave
    out, such as values that are not there, keys of any kind and strings without an end. */
module JsonGrammar {
  import opened Wrappers
  import opened JsonReader
  import opened JsonText

  datatype Form =
    | Nothing
    | NullWord
    | BoolWord(value: bool)
    | Figures(digits: string)
    | Str(pieces: seq<Piece>, closed: bool)
    | List(blank: string, elements: Elements)
    | Record(blank: string, fields: Fields)

  datatype Elements = NoElement | Element(before: string, value: Form, after: string, next: Elements)

  datatype Fields =
    | NoField
    | Field(before: string, key: Form, afterKey: string, colon: string, value: Form, after: string, next: Fields)

  // How each is written.

  function Shown(f: Form, rest: string): string
    decreases f, 1
  {
    match f
    case Nothing => rest
    case NullWord => "null" + rest
    case BoolWord(value) => (if value then "true" else "false") + rest
    case Figures(digits) => digits + rest
    case Str(pieces, closed) => "\"" + Spelled(pieces, if closed then "\"" + rest else "")
    case List(blank, elements) =>
      "[" + if elements.NoElement? then blank + ("]" + rest) else ShownElements(elements, rest)
    case Record(blank, fields) =>
      "{" + if fields.NoField? then blank + ("}" + rest) else ShownFields(fields, rest)
  }

  function ShownElements(e: Elements, rest: string): string
    requires e.Element?
    decreases e, 1
  {
    e.before + Shown(e.value, ElementTail(e, rest))
  }

  function ElementTail(e: Elements, rest: string): string
    requires e.Element?
    decreases e, 0
  {
    e.after + if e.next.NoElement? then "]" + rest else "," + ShownElements(e.next, rest)
  }

  function ShownFields(m: Fields, rest: string): string
    requires m.Field?
    decreases m, 2
  {
    m.before + Shown(m.key, KeyTail(m, rest))
  }

  function KeyTail(m: Fields, rest: string): string
    requires m.Field?
    decreases m, 1
  {
    m.afterKey + (":" + (m.colon + Shown(m.value, FieldTail(m, rest))))
  }

  function FieldTail(m: Fields, rest: string): string
    requires m.Field?
    decreases m, 0
  {
    m.after + if m.next.NoField? then "}" + rest else "," + ShownFields(m.next, rest)
  }

  // Which of them may stand in front of which text.

  predicate Fits(f: Form, rest: string)
    decreases f, 1
  {
    match f
    case Nothing => !BeginsValue(rest)
    case Figures(digits) => Digits(digits) && (rest == "" || !InNumber(rest[0]))
    case Str(pieces, closed) => Pieces(pieces) && (closed || rest == "")
    case List(blank, elements) =>
      && Blank(blank) && FitElements(elements, rest)
      && (elements.Element? && elements.value.Nothing? ==> elements.next.Element?)
    case Record(blank, fields) => Blank(blank) && FitFields(fields, rest)
    case _ => true
  }

  predicate FitElements(e: Elements, rest: string)
    decreases e, 0
  {
    e.Element? ==>
      && Blank(e.before) && Fits(e.value, ElementTail(e, rest)) && Blank(e.after) && FitElements(e.next, rest)
      && (e.value.Nothing? ==> e.after == "")
  }

  predicate FitFields(m: Fields, rest: string)
    decreases m, 0
  {
    m.Field? ==>
      && Blank(m.before) && Fits(m.key, KeyTail(m, rest)) && Blank(m.afterKey) && Blank(m.colon)
      && Fits(m.value, FieldTail(m, rest)) && Blank(m.after) && FitFields(m.next, rest)
      && (m.key.Nothing? ==> m.afterKey == "") && (m.value.Nothing? ==> m.after == "")
  }

  // What each makes of the node it is read into.

  function Fill(j: Json, f: Form): Json
    decreases f
  {
    match f
    case Nothing => j
    case NullWord => j.(kind := JsonNull)
    case BoolWord(value) => j.(kind := JsonBool, valueBool := value || j.valueBool)
    case Figures(digits) => j.(kind := JsonNumber, valueString := digits)
    case Str(pieces, _) => j.(kind := JsonString, valueString := WithoutMarks(Chars(pieces)))
    case List(_, elements) => j.(kind := JsonArray, list := j.list + ElementNodes(elements))
    case Record(_, fields) => j.(kind := JsonObject, list := j.list + FieldNodes(fields))
  }

  function ElementNodes(e: Elements): seq<Json>
    decreases e
  {
    if e.NoElement? then [] else [Fill(DEFAULT, e.value)] + ElementNodes(e.next)
  }

  /** The node of a key keeps all but its text, which becomes its name, and then takes the value. */
  function FieldNodes(m: Fields): seq<Json>
    decreases m
  {
    if m.NoField? then []
    else
      var key := Fill(DEFAULT, m.key);
      [Fill(key.(name := key.valueString, valueString := ""), m.value)] + FieldNodes(m.next)
  }

  // ---- Every form is read.

  /** A form before a mark of punctuation, or a value, starts with no blank. */
  lemma Solid(f: Form, rest: string)
    requires Fits(f, rest) && (f.Nothing? ==> rest == "" || !White(rest[0]))
    ensures var s := Shown(f, rest); s == "" || !White(s[0])
    ensures var s := Shown(f, rest); !f.Nothing? ==> s != "" && s[0] != ']' && s[0] != '}'
  {
    if f.Figures? {
      assert Shown(f, rest)[0] == f.digits[0];
      FirstSolid(f.digits[0]);
    }
  }

  lemma FirstSolid(c: char)
    requires FirstInNumber(c)
    ensures !White(c) && c != ']' && c != '}'
  {
  }

  lemma {:induction false} FormReads(j: Json, f: Form, rest: string)
    requires Fits(f, rest)
    ensures ReadValue(j, Shown(f, rest)) == Ok(Fill(j, f), rest)
    decreases f, 1
  {
    match f
    case Nothing => MissingValue(j, rest);
    case NullWord => Word("null", rest);
    case BoolWord(value) =>
      Word("true", rest);
      Word("false", rest);
    case Figures(digits) => NumberBack(j, digits, rest);
    case Str(pieces, closed) => StrReads(j, pieces, closed, rest);
    case List(blank, elements) => ListReads(j, blank, elements, rest);
    case Record(blank, fields) => RecordReads(j, blank, fields, rest);
  }

  lemma StrReads(j: Json, pieces: seq<Piece>, closed: bool, rest: string)
    requires Fits(Str(pieces, closed), rest)
    ensures ReadValue(j, Shown(Str(pieces, closed), rest)) == Ok(Fill(j, Str(pieces, closed)), rest)
  {
    if closed {
      QuotedBack(j, pieces, rest);
    } else {
      Unterminated(j, "", pieces);
      assert "" + Chars(pieces) == Chars(pieces);
      Tail('"', Spelled(pieces, ""));
    }
  }

  lemma {:induction false} ListReads(j: Json, blank: string, elements: Elements, rest: string)
    requires Fits(List(blank, elements), rest)
    ensures ReadValue(j, Shown(List(blank, elements), rest)) == Ok(Fill(j, List(blank, elements)), rest)
    decreases elements, 2
  {
    if elements.NoElement? {
      Tail('[', blank + ("]" + rest));
      SkipBlank(blank, "]" + rest);
      Tail(']', rest);
      assert j.list + [] == j.list;
    } else {
      FirstElement(elements, rest);
      OpenBracket(j, elements.before, Shown(elements.value, ElementTail(elements, rest)));
      ElementsRead(j.(kind := JsonArray), elements, rest);
    }
  }

  lemma FirstElement(e: Elements, rest: string)
    requires e.Element? && FitElements(e, rest) && (e.value.Nothing? ==> e.next.Element?)
    ensures var s := Shown(e.value, ElementTail(e, rest)); s != "" && !White(s[0]) && s[0] != ']'
  {
    if e.value.Nothing? {
      assert ElementTail(e, rest) == "," + ShownElements(e.next, rest);
    } else {
      Solid(e.value, ElementTail(e, rest));
    }
  }

  /** What follows an element or a field: blanks, and a mark that is read on from. */
  lemma Punctuated(after: string, c: char, rest: string, nothing: bool)
    requires Blank(after) && (c == ',' || c == ':' || c == ']' || c == '}') && (nothing ==> after == "")
    ensures var s := after + ([c] + rest); Skip(s) == [c] + rest && s != "" && (nothing ==> !White(s[0]))
  {
    AfterBlank(after, c, rest);
    Punctuation(c);
    if nothing {
      assert after + ([c] + rest) == [c] + rest;
    }
  }

  lemma {:induction false} ElementsRead(j: Json, e: Elements, rest: string)
    requires e.Element? && FitElements(e, rest)
    ensures ReadItems(j, ShownElements(e, rest)) == Ok(j.(list := j.list + ElementNodes(e)), rest)
    decreases e, 1
  {
    ElementRead(j, e, rest);
    var longer := j.(list := j.list + [Fill(DEFAULT, e.value)]);
    if e.next.NoElement? {
      Tail(']', rest);
      assert [Fill(DEFAULT, e.value)] + [] == [Fill(DEFAULT, e.value)];
    } else {
      Tail(',', ShownElements(e.next, rest));
      ElementsRead(longer, e.next, rest);
      AppendAssociates(j.list, [Fill(DEFAULT, e.value)], ElementNodes(e.next));
    }
  }

  lemma {:induction false} ElementRead(j: Json, e: Elements, rest: string)
    requires e.Element? && FitElements(e, rest)
    ensures ReadItems(j, ShownElements(e, rest))
         == AfterItem(j.(list := j.list + [Fill(DEFAULT, e.value)]),
                      if e.next.NoElement? then "]" + rest else "," + ShownElements(e.next, rest))
    decreases e, 0
  {
    var tail := ElementTail(e, rest);
    if e.next.NoElement? {
      Punctuated(e.after, ']', rest, e.value.Nothing?);
    } else {
      Punctuated(e.after, ',', ShownElements(e.next, rest), e.value.Nothing?);
    }
    Solid(e.value, tail);
    SkipBlank(e.before, Shown(e.value, tail));
    FormReads(DEFAULT, e.value, tail);
  }

  lemma {:induction false} RecordReads(j: Json, blank: string, fields: Fields, rest: string)
    requires Fits(Record(blank, fields), rest)
    ensures ReadValue(j, Shown(Record(blank, fields), rest)) == Ok(Fill(j, Record(blank, fields)), rest)
    decreases fields, 3
  {
    if fields.NoField? {
      Tail('{', blank + ("}" + rest));
      SkipBlank(blank, "}" + rest);
      Tail('}', rest);
      assert j.list + [] == j.list;
    } else {
      FirstField(fields, rest);
      OpenBrace(j, fields.before, Shown(fields.key, KeyTail(fields, rest)));
      FieldsRead(j.(kind := JsonObject), fields, rest);
    }
  }

  lemma FirstField(m: Fields, rest: string)
    requires m.Field? && FitFields(m, rest)
    ensures var s := Shown(m.key, KeyTail(m, rest)); s != "" && !White(s[0]) && s[0] != '}'
  {
    var value := m.colon + Shown(m.value, FieldTail(m, rest));
    if m.key.Nothing? {
      assert KeyTail(m, rest) == ":" + value;
    } else {
      Solid(m.key, KeyTail(m, rest));
    }
  }

  function FieldNode(m: Fields): Json
    requires m.Field?
  {
    var key := Fill(DEFAULT, m.key);
    Fill(key.(name := key.valueString, valueString := ""), m.value)
  }

  lemma {:induction false} FieldsRead(j: Json, m: Fields, rest: string)
    requires m.Field? && FitFields(m, rest)
    ensures ReadMembers(j, ShownFields(m, rest)) == Ok(j.(list := j.list + FieldNodes(m)), rest)
    decreases m, 2
  {
    FieldRead(m, rest);
    var longer := j.(list := j.list + [FieldNode(m)]);
    if m.next.NoField? {
      Punctuated(m.after, '}', rest, m.value.Nothing?);
      AfterLastMember(longer, rest);
      assert [FieldNode(m)] + [] == [FieldNode(m)];
    } else {
      var more := ShownFields(m.next, rest);
      Punctuated(m.after, ',', more, m.value.Nothing?);
      AfterComma(longer, more);
      FieldsRead(longer, m.next, rest);
      AppendAssociates(j.list, [FieldNode(m)], FieldNodes(m.next));
    }
  }

  lemma {:induction false} FieldRead(m: Fields, rest: string)
    requires m.Field? && FitFields(m, rest)
    ensures ReadMember(ShownFields(m, rest)) == Ok(FieldNode(m), FieldTail(m, rest))
    decreases m, 1
  {
    var value, tail := Shown(m.value, FieldTail(m, rest)), KeyTail(m, rest);
    FieldKey(m, rest);
    FieldEnds(m, rest);
    Tail(':', m.colon + value);
    Solid(m.value, FieldTail(m, rest));
    SkipBlank(m.colon, value);
    FormReads(Named(Fill(DEFAULT, m.key)), m.value, FieldTail(m, rest));
  }

  lemma {:induction false} FieldKey(m: Fields, rest: string)
    requires m.Field? && FitFields(m, rest)
    ensures ReadValue(DEFAULT, Skip(ShownFields(m, rest))) == Ok(Fill(DEFAULT, m.key), KeyTail(m, rest))
    ensures Skip(KeyTail(m, rest)) == ":" + (m.colon + Shown(m.value, FieldTail(m, rest)))
    decreases m, 0
  {
    Punctuated(m.afterKey, ':', m.colon + Shown(m.value, FieldTail(m, rest)), m.key.Nothing?);
    Solid(m.key, KeyTail(m, rest));
    SkipBlank(m.before, Shown(m.key, KeyTail(m, rest)));
    FormReads(DEFAULT, m.key, KeyTail(m, rest));
  }

  lemma FieldEnds(m: Fields, rest: string)
    requires m.Field? && FitFields(m, rest)
    ensures var s := FieldTail(m, rest); s != "" && (m.value.Nothing? ==> !White(s[0]))
  {
    if m.next.NoField? {
      Punctuated(m.after, '}', rest, m.value.Nothing?);
    } else {
      Punctuated(m.after, ',', ShownFields(m.next, rest), m.value.Nothing?);
    }
  }

  // ---- What is read is a form.

  /** The blanks that are skipped. */
  lemma {:induction false} SkipSplit(s: string) returns (b: string)
    ensures Blank(b) && s == b + Skip(s) && (Skip(s) == "" || !White(Skip(s)[0])) && (Skip(s) == s ==> b == "")
  {
    if s == "" {
      b := "";
    } else {
      WhiteIs(s[0]);
      if IsWhitespace(s[0]) {
        b := SkipSplit(s[1..]);
        AppendAssociates([s[0]], b, Skip(s));
        b := [s[0]] + b;
        assert s == [s[0]] + s[1..];
      } else {
        b := "";
      }
    }
  }

  lemma {:induction false} NumberSplit(s: string) returns (d: string)
    ensures s == d + SkipNumber(s) && (SkipNumber(s) == "" || !InNumber(SkipNumber(s)[0]))
    ensures forall c <- d :: InNumber(c)
  {
    if s == "" {
      d := "";
    } else {
      InNumberIs(s[0]);
      if IsNumberChar(s[0]) {
        d := NumberSplit(s[1..]);
        AppendAssociates([s[0]], d, SkipNumber(s));
        d := [s[0]] + d;
        assert s == [s[0]] + s[1..];
      } else {
        d := "";
      }
    }
  }

  /** What a form is to a successful read of it. */
  ghost predicate Explains(j: Json, s: string, f: Form, r: Parsed) {
    r.Ok? && Fits(f, r.rest) && s == Shown(f, r.rest) && r.json == Fill(j, f)
  }

  lemma {:induction false} ValueForm(j: Json, s: string) returns (f: Form)
    requires ReadValue(j, s).Ok?
    ensures Explains(j, s, f, ReadValue(j, s))
    decreases |s|, 4
  {
    if !BeginsValue(s) {
      MissingValue(j, s);
      f := Nothing;
    } else if s[0] == '"' {
      f := StringForm(j, s);
    } else if s[0] == '[' {
      f := ListForm(j, s);
    } else if s[0] == '{' {
      f := RecordForm(j, s);
    } else if s[0] == 'n' || s[0] == 'f' || s[0] == 't' {
      f := WordForm(j, s);
    } else {
      f := NumberForm(j, s);
    }
  }

  lemma WordForm(j: Json, s: string) returns (f: Form)
    requires s != "" && (s[0] == 'n' || s[0] == 'f' || s[0] == 't') && ReadValue(j, s).Ok?
    ensures Explains(j, s, f, ReadValue(j, s))
  {
    f := if s[0] == 'n' then NullWord else BoolWord(s[0] == 't');
    var n := if s[0] == 'f' then 5 else 4;
    assert s == s[..n] + s[n..];
  }

  lemma NumberForm(j: Json, s: string) returns (f: Form)
    requires s != "" && FirstInNumber(s[0]) && ReadValue(j, s).Ok?
    ensures Explains(j, s, f, ReadValue(j, s))
  {
    var d := NumberSplit(s);
    FirstDigit(j, s);
    DigitsAre(s, d);
    NoMark(d);
    NoMarksNoChange(d);
    f := Figures(d);
  }

  lemma DigitsAre(s: string, d: string)
    requires s != "" && FirstInNumber(s[0]) && s == d + SkipNumber(s) && forall c <- d :: InNumber(c)
    ensures Digits(d) && s[..|s| - |SkipNumber(s)|] == d
  {
    InNumberIs(s[0]);
    assert d != "" && d[0] == s[0];
  }

  const QUOTE := '"'

  lemma StringForm(j: Json, s: string) returns (f: Form)
    requires Begins(s, QUOTE) && ReadValue(j, s).Ok?
    ensures Explains(j, s, f, ReadValue(j, s))
  {
    var ps, closed := StringPieces(j, "", s[1..]);
    assert "" + Chars(ps) == Chars(ps);
    assert s == "\"" + s[1..];
    f := Str(ps, closed);
  }

  lemma {:induction false} StringPieces(j: Json, out: string, s: string) returns (ps: seq<Piece>, closed: bool)
    requires ReadString(j, out, s).Ok?
    ensures var rest := ReadString(j, out, s).rest;
            Pieces(ps) && (closed || rest == "") && s == Spelled(ps, if closed then "\"" + rest else "")
    ensures ReadString(j, out, s).json == j.(kind := JsonString, valueString := WithoutMarks(out + Chars(ps)))
    decreases |s|
  {
    if s == "" || s[0] == '"' {
      ps, closed := [], s != "";
      assert out + Chars(ps) == out;
      assert s != "" ==> s == "\"" + s[1..];
    } else {
      var p := if s[0] == '\\' then Escaped(s[1]) else Raw(s[0]);
      var n := if s[0] == '\\' then 2 else 1;
      assert s == (if p.Raw? then [p.c] else ['\\', p.c]) + s[n..];
      EscapeIs(p.c);
      ps, closed := StringPieces(j, out + [CharOf(p)], s[n..]);
      AppendAssociates(out, [CharOf(p)], Chars(ps));
      ps := MorePieces(p, ps, if closed then "\"" + ReadString(j, out, s).rest else "");
    }
  }

  lemma MorePieces(p: Piece, ps: seq<Piece>, end: string) returns (more: seq<Piece>)
    requires Pieces([p]) && Pieces(ps)
    ensures Pieces(more) && Chars(more) == [CharOf(p)] + Chars(ps)
    ensures Spelled(more, end) == (if p.Raw? then [p.c] else ['\\', p.c]) + Spelled(ps, end)
  {
    more := [p] + ps;
    assert p in [p] && more[1..] == ps;
  }

  lemma {:induction false} ListForm(j: Json, s: string) returns (f: Form)
    requires Begins(s, '[') && ReadValue(j, s).Ok?
    ensures Explains(j, s, f, ReadValue(j, s))
    decreases |s|, 0
  {
    if Begins(Skip(s[1..]), ']') {
      f := EmptyList(j, s);
    } else {
      OpensList(j, s);
      var e := ItemForms(j.(kind := JsonArray), s[1..]);
      FirstIsThere(e, s[1..], ReadValue(j, s).rest);
      f := List("", e);
      assert s == "[" + s[1..];
    }
  }

  lemma EmptyList(j: Json, s: string) returns (f: Form)
    requires Begins(s, '[') && Begins(Skip(s[1..]), ']')
    ensures Explains(j, s, f, ReadValue(j, s))
  {
    var b := SkipSplit(s[1..]);
    f := List(b, NoElement);
    EmptyShown(s, b, ']');
    assert j.list + [] == j.list;
  }

  lemma OpensList(j: Json, s: string)
    requires Begins(s, '[') && !Begins(Skip(s[1..]), ']')
    ensures ReadValue(j, s) == ReadItems(j.(kind := JsonArray), s[1..])
  {
    SkipTwice(s[1..]);
    BlanksDoNotCount(j.(kind := JsonArray), s[1..], Skip(s[1..]));
  }

  lemma FirstIsThere(e: Elements, s: string, rest: string)
    requires e.Element? && FitElements(e, rest) && s == ShownElements(e, rest) && !Begins(Skip(s), ']')
    ensures e.value.Nothing? ==> e.next.Element?
  {
    if e.value.Nothing? && e.next.NoElement? {
      assert ElementTail(e, rest) == "]" + rest;
      SkipBlank(e.before, "]" + rest);
    }
  }

  ghost predicate ExplainsItems(j: Json, s: string, e: Elements, r: Parsed) {
    && r.Ok? && e.Element? && FitElements(e, r.rest) && s == ShownElements(e, r.rest)
    && r.json == j.(list := j.list + ElementNodes(e))
  }

  /** A form between blanks, those before it skipped. */
  datatype Placed = Placed(before: string, form: Form, after: string)

  ghost predicate ExplainsPlaced(j: Json, s: string, p: Placed, r: Parsed) {
    && r.Ok? && Blank(p.before) && Explains(j, Skip(s), p.form, r) && Blank(p.after)
    && (p.form.Nothing? ==> p.after == "")
    && s == p.before + Shown(p.form, r.rest) && r.rest == p.after + Skip(r.rest)
  }

  lemma {:induction false} PlacedForm(j: Json, s: string) returns (p: Placed)
    requires ReadValue(j, Skip(s)).Ok?
    ensures ExplainsPlaced(j, s, p, ReadValue(j, Skip(s)))
    decreases |s|, 5
  {
    var before := SkipSplit(s);
    var form := ValueForm(j, Skip(s));
    var after := SkipSplit(ReadValue(j, Skip(s)).rest);
    SkipTwice(s);
    p := Placed(before, form, after);
  }

  lemma {:induction false} ItemForms(j: Json, s: string) returns (e: Elements)
    requires ReadItems(j, s).Ok?
    ensures ExplainsItems(j, s, e, ReadItems(j, s))
    decreases |s|, 6
  {
    var p := PlacedForm(DEFAULT, s);
    var r := ReadValue(DEFAULT, Skip(s));
    var longer, end, rest := j.(list := j.list + [r.json]), Skip(r.rest), ReadItems(j, s).rest;
    assert end == [end[0]] + end[1..];
    var next := NoElement;
    if end[0] == ',' {
      next := ItemForms(longer, end[1..]);
      AppendAssociates(j.list, [r.json], ElementNodes(next));
    } else {
      assert [r.json] + [] == [r.json];
    }
    e := Element(p.before, p.form, p.after, next);
    MakeElement(s, p, r, next, rest);
  }

  lemma MakeElement(s: string, p: Placed, r: Parsed, next: Elements, rest: string)
    requires ExplainsPlaced(DEFAULT, s, p, r) && FitElements(next, rest)
    requires Skip(r.rest) == if next.NoElement? then "]" + rest else "," + ShownElements(next, rest)
    ensures var e := Element(p.before, p.form, p.after, next);
            FitElements(e, rest) && s == ShownElements(e, rest) && ElementNodes(e) == [r.json] + ElementNodes(next)
  {
    var e := Element(p.before, p.form, p.after, next);
    assert ElementTail(e, rest) == r.rest;
  }

  lemma {:induction false} RecordForm(j: Json, s: string) returns (f: Form)
    requires Begins(s, '{') && ReadValue(j, s).Ok?
    ensures Explains(j, s, f, ReadValue(j, s))
    decreases |s|, 0
  {
    if Begins(Skip(s[1..]), '}') {
      f := EmptyRecord(j, s);
    } else {
      OpensRecord(j, s);
      var m := MemberForms(j.(kind := JsonObject), s[1..]);
      f := Record("", m);
      assert s == "{" + s[1..];
    }
  }

  lemma EmptyRecord(j: Json, s: string) returns (f: Form)
    requires Begins(s, '{') && Begins(Skip(s[1..]), '}')
    ensures Explains(j, s, f, ReadValue(j, s))
  {
    var b := SkipSplit(s[1..]);
    f := Record(b, NoField);
    EmptyShown(s, b, '}');
    assert j.list + [] == j.list;
  }

  /** An opening mark, blanks and the closing mark. */
  lemma EmptyShown(s: string, b: string, c: char)
    requires s != "" && s[1..] == b + Skip(s[1..]) && Begins(Skip(s[1..]), c)
    ensures s == [s[0]] + (b + ([c] + Skip(s[1..])[1..]))
  {
    assert Skip(s[1..]) == [c] + Skip(s[1..])[1..];
    assert s == [s[0]] + s[1..];
  }

  lemma OpensRecord(j: Json, s: string)
    requires Begins(s, '{') && !Begins(Skip(s[1..]), '}')
    ensures ReadValue(j, s) == ReadMembers(j.(kind := JsonObject), s[1..])
  {
    SkipTwice(s[1..]);
    BlanksDoNotCount(j.(kind := JsonObject), s[1..], Skip(s[1..]));
  }

  ghost predicate ExplainsMembers(j: Json, s: string, m: Fields, r: Parsed) {
    && r.Ok? && m.Field? && FitFields(m, r.rest) && s == ShownFields(m, r.rest)
    && r.json == j.(list := j.list + FieldNodes(m))
  }

  /** The value of a member as it is read into the node of its key. */
  ghost predicate ExplainsMember(s: string, key: Placed, value: Placed) {
    var r := ReadValue(DEFAULT, Skip(s));
    && ExplainsPlaced(DEFAULT, s, key, r) && Begins(Skip(r.rest), ':')
    && ExplainsPlaced(Named(r.json), Skip(r.rest)[1..], value, ReadMember(s))
  }

  lemma {:induction false} MemberForm(s: string) returns (key: Placed, value: Placed)
    requires ReadMember(s).Ok?
    ensures ExplainsMember(s, key, value)
    decreases |s|, 6
  {
    var r := ReadValue(DEFAULT, Skip(s));
    key := PlacedForm(DEFAULT, s);
    value := PlacedForm(Named(r.json), Skip(r.rest)[1..]);
  }

  lemma MakeField(s: string, key: Placed, value: Placed, next: Fields, rest: string)
    requires ExplainsMember(s, key, value) && FitFields(next, rest)
    requires Skip(ReadMember(s).rest) == if next.NoField? then "}" + rest else "," + ShownFields(next, rest)
    ensures var m := Field(key.before, key.form, key.after, value.before, value.form, value.after, next);
            && FitFields(m, rest) && s == ShownFields(m, rest)
            && FieldNodes(m) == [ReadMember(s).json] + FieldNodes(next)
  {
    var m := Field(key.before, key.form, key.after, value.before, value.form, value.after, next);
    var r := ReadValue(DEFAULT, Skip(s));
    var colon := Skip(r.rest);
    assert colon == ":" + colon[1..];
    assert FieldTail(m, rest) == ReadMember(s).rest;
    assert KeyTail(m, rest) == r.rest;
  }

  lemma {:induction false} MemberForms(j: Json, s: string) returns (m: Fields)
    requires ReadMembers(j, s).Ok?
    ensures ExplainsMembers(j, s, m, ReadMembers(j, s))
    decreases |s|, 7
  {
    var key, value := MemberForm(s);
    var r := ReadMember(s);
    var longer, end, rest := j.(list := j.list + [r.json]), Skip(r.rest), ReadMembers(j, s).rest;
    assert end == [end[0]] + end[1..];
    var next := NoField;
    if end[0] == ',' {
      next := MemberForms(longer, end[1..]);
      AppendAssociates(j.list, [r.json], FieldNodes(next));
    } else {
      assert [r.json] + [] == [r.json];
    }
    m := Field(key.before, key.form, key.after, value.before, value.form, value.after, next);
    MakeField(s, key, value, next, rest);
  }

  // ---- The reader as a whole.

  /** A read succeeds exactly if the text is a form and what follows it, and gives what that form makes. */
  lemma ReaderIs(j: Json, s: string, filled: Json, rest: string)
    ensures ReadValue(j, s) == Ok(filled, rest) <==> exists f :: IsForm(s, f, rest) && filled == Fill(j, f)
  {
    if ReadValue(j, s) == Ok(filled, rest) {
      var f := ValueForm(j, s);
      assert IsForm(s, f, rest);
    }
    forall f | IsForm(s, f, rest) && filled == Fill(j, f)
      ensures ReadValue(j, s) == Ok(filled, rest)
    {
      FormReads(j, f, rest);
    }
  }

  /** The text is this form in front of `rest`. */
  predicate IsForm(s: string, f: Form, rest: string) {
    Fits(f, rest) && s == Shown(f, rest)
  }

  /** So a tree is created from exactly the texts that begin, after blanks, with a form. */
  lemma CreationIs(s: string, tree: Json)
    ensures Creation(s) == Tree(tree) <==>
            exists before, f, rest :: Begun(s, before, f, rest) && tree == Fill(DEFAULT, f)
  {
    if Creation(s) == Tree(tree) {
      var p := PlacedForm(DEFAULT, s);
      var _ := SkipSplit(s);
      assert Begun(s, p.before, p.form, ReadValue(DEFAULT, Skip(s)).rest);
    }
    forall before, f, rest | Begun(s, before, f, rest) && tree == Fill(DEFAULT, f)
      ensures Creation(s) == Tree(tree)
    {
      Solid(f, rest);
      SkipBlank(before, Shown(f, rest));
      FormReads(DEFAULT, f, rest);
    }
  }

  predicate Begun(s: string, before: string, f: Form, rest: string) {
    && Blank(before) && Fits(f, rest) && s == before + Shown(f, rest)
    && (f.Nothing? ==> rest == "" || !White(rest[0]))
  }
}
