/** JSON texts and what they mean, and that the reader finds just that. The texts are all those of RFC 8259,
    sections 2 to 7, without \u escapes, and some more: any white space, any character after a backslash or
    raw in a string, any run of number characters. */
module JsonText {
  import opened Wrappers
  import opened JsonReader

  datatype Piece = Raw(c: char) | Escaped(c: char)

  /** A value, with the blanks inside it as they are written. */
  datatype Text =
    | Null
    | True
    | False
    | Number(digits: string)
    | Quoted(pieces: seq<Piece>)
    | Array(blank: string, items: Items)
    | Object(blank: string, members: Members)

  datatype Items = NoItem | Item(before: string, value: Text, after: string, next: Items)

  datatype Members =
    | NoMember
    | Member(before: string, key: seq<Piece>, afterKey: string, colon: string, value: Text, after: string,
             next: Members)

  // The characters of the texts, by Unicode number or listed.

  predicate White(c: char) {
    var n := c as int;
    || 9 <= n <= 13 || n == 32 || n == 133 || n == 160 || n == 5760 || 8192 <= n <= 8202
    || n == 8232 || n == 8233 || n == 8239 || n == 8287 || n == 12288
  }

  predicate InNumber(c: char) {
    c in "0123456789-+eE."
  }

  predicate FirstInNumber(c: char) {
    c in "-0123456789"
  }

  /** What a character after a backslash stands for: five letters a control character, all others themselves. */
  function Escape(c: char): char {
    if c == 'b' then 8 as char
    else if c == 't' then 9 as char
    else if c == 'n' then 10 as char
    else if c == 'f' then 12 as char
    else if c == 'r' then 13 as char
    else c
  }

  /** The reader has the same characters. */
  lemma WhiteIs(c: char)
    ensures IsWhitespace(c) <==> White(c)
  {
  }

  lemma InNumberIs(c: char)
    ensures IsNumberChar(c) <==> InNumber(c)
    ensures c == '-' || IsDigit(c) <==> FirstInNumber(c)
  {
  }

  lemma EscapeIs(c: char)
    ensures Unescape(c) == Escape(c)
  {
  }

  function CharOf(p: Piece): char {
    if p.Raw? then p.c else Escape(p.c)
  }

  predicate Blank(s: string) {
    forall c <- s :: White(c)
  }

  predicate Pieces(ps: seq<Piece>) {
    forall p <- ps :: if p.Raw? then p.c != '"' && p.c != '\\' else p.c != 'u'
  }

  predicate Digits(s: string) {
    s != "" && FirstInNumber(s[0]) && forall c <- s :: InNumber(c)
  }

  predicate Valid(t: Text) {
    match t
    case Number(digits) => Digits(digits)
    case Quoted(pieces) => Pieces(pieces)
    case Array(blank, items) => Blank(blank) && ValidItems(items)
    case Object(blank, members) => Blank(blank) && ValidMembers(members)
    case _ => true
  }

  predicate ValidItems(i: Items) {
    i.Item? ==> Blank(i.before) && Valid(i.value) && Blank(i.after) && ValidItems(i.next)
  }

  predicate ValidMembers(m: Members) {
    m.Member? ==>
      && Blank(m.before) && Pieces(m.key) && Blank(m.afterKey) && Blank(m.colon)
      && Valid(m.value) && Blank(m.after) && ValidMembers(m.next)
  }

  // How each is written, in front of what follows it.

  function Spelled(ps: seq<Piece>, rest: string): string {
    if ps == [] then rest
    else (if ps[0].Raw? then [ps[0].c] else ['\\', ps[0].c]) + Spelled(ps[1..], rest)
  }

  function Written(t: Text, rest: string): string {
    match t
    case Null => "null" + rest
    case True => "true" + rest
    case False => "false" + rest
    case Number(digits) => digits + rest
    case Quoted(pieces) => "\"" + Spelled(pieces, "\"" + rest)
    case Array(blank, items) =>
      "[" + if items.NoItem? then blank + ("]" + rest) else WrittenItems(items, rest)
    case Object(blank, members) =>
      "{" + if members.NoMember? then blank + ("}" + rest) else WrittenMembers(members, rest)
  }

  function WrittenItems(i: Items, rest: string): string
    requires i.Item?
  {
    i.before + Written(i.value, i.after + if i.next.NoItem? then "]" + rest else "," + WrittenItems(i.next, rest))
  }

  function WrittenMembers(m: Members, rest: string): string
    requires m.Member?
  {
    m.before + ("\"" + Spelled(m.key, "\"" + (m.afterKey + (":" + (m.colon + Written(m.value,
      m.after + if m.next.NoMember? then "}" + rest else "," + WrittenMembers(m.next, rest)))))))
  }

  // What each means.

  function Chars(ps: seq<Piece>): string {
    if ps == [] then "" else [CharOf(ps[0])] + Chars(ps[1..])
  }

  function Meaning(t: Text): Json {
    match t
    case Null => DEFAULT
    case True => DEFAULT.(kind := JsonBool, valueBool := true)
    case False => DEFAULT.(kind := JsonBool)
    case Number(digits) => DEFAULT.(kind := JsonNumber, valueString := digits)
    case Quoted(pieces) => DEFAULT.(kind := JsonString, valueString := WithoutMarks(Chars(pieces)))
    case Array(_, items) => DEFAULT.(kind := JsonArray, list := ItemMeanings(items))
    case Object(_, members) => DEFAULT.(kind := JsonObject, list := MemberMeanings(members))
  }

  function ItemMeanings(i: Items): seq<Json> {
    if i.NoItem? then [] else [Meaning(i.value)] + ItemMeanings(i.next)
  }

  function MemberMeanings(m: Members): seq<Json> {
    if m.NoMember? then []
    else [Meaning(m.value).(name := WithoutMarks(Chars(m.key)))] + MemberMeanings(m.next)
  }

  lemma {:induction false} SkipBlank(b: string, rest: string)
    requires Blank(b) && (rest == "" || !White(rest[0]))
    ensures Skip(b + rest) == rest
  {
    if b == "" {
      assert b + rest == rest;
      if rest != "" {
        WhiteIs(rest[0]);
      }
    } else {
      assert b[0] in b;
      WhiteIs(b[0]);
      assert (b + rest)[1..] == b[1..] + rest;
      SkipBlank(b[1..], rest);
    }
  }

  lemma {:induction false} SkipDigits(d: string, rest: string)
    requires (forall c <- d :: InNumber(c)) && (rest == "" || !InNumber(rest[0]))
    ensures SkipNumber(d + rest) == rest
  {
    if d == "" {
      assert d + rest == rest;
      if rest != "" {
        InNumberIs(rest[0]);
      }
    } else {
      assert d[0] in d;
      InNumberIs(d[0]);
      assert (d + rest)[1..] == d[1..] + rest;
      SkipDigits(d[1..], rest);
    }
  }

  lemma NumberBack(j: Json, d: string, rest: string)
    requires Digits(d) && (rest == "" || !InNumber(rest[0]))
    ensures ReadValue(j, d + rest) == Ok(j.(kind := JsonNumber, valueString := d), rest)
  {
    SkipDigits(d, rest);
    NoMarksNoChange(d);
    NoMark(d);
    assert (d + rest)[..|d|] == d && (d + rest)[0] == d[0];
    FirstDigit(j, d + rest);
  }

  lemma NoMark(d: string)
    requires forall c <- d :: InNumber(c)
    ensures '\U{FEFF}' !in d
  {
  }

  lemma FirstDigit(j: Json, s: string)
    requires s != "" && FirstInNumber(s[0])
    ensures ReadValue(j, s) == ReadNumber(j, s)
  {
    InNumberIs(s[0]);
    DigitBegins(j, s);
  }

  lemma DigitBegins(j: Json, s: string)
    requires s != "" && (s[0] == '-' || IsDigit(s[0]))
    ensures ReadValue(j, s) == ReadNumber(j, s)
  {
  }

  lemma {:induction false} PiecesBack(j: Json, out: string, ps: seq<Piece>, rest: string)
    requires Pieces(ps)
    ensures ReadString(j, out, Spelled(ps, "\"" + rest))
         == Ok(j.(kind := JsonString, valueString := WithoutMarks(out + Chars(ps))), rest)
    decreases |ps|
  {
    if ps == [] {
      assert out + Chars(ps) == out;
      assert ("\"" + rest)[1..] == rest;
    } else {
      PieceBack(j, out, ps[0], Spelled(ps[1..], "\"" + rest));
      PiecesBack(j, out + [CharOf(ps[0])], ps[1..], rest);
      AppendAssociates(out, [CharOf(ps[0])], Chars(ps[1..]));
    }
  }

  lemma PieceBack(j: Json, out: string, p: Piece, rest: string)
    requires Pieces([p])
    ensures ReadString(j, out, (if p.Raw? then [p.c] else ['\\', p.c]) + rest)
         == ReadString(j, out + [CharOf(p)], rest)
  {
    assert p in [p];
    EscapeIs(p.c);
    if p.Raw? {
      assert ([p.c] + rest)[1..] == rest;
    } else {
      assert (['\\', p.c] + rest)[2..] == rest;
    }
  }

  lemma QuotedBack(j: Json, pieces: seq<Piece>, rest: string)
    requires Pieces(pieces)
    ensures ReadValue(j, Written(Quoted(pieces), rest))
         == Ok(j.(kind := JsonString, valueString := WithoutMarks(Chars(pieces))), rest)
  {
    PiecesBack(j, "", pieces, rest);
    assert "" + Chars(pieces) == Chars(pieces);
    Tail('"', Spelled(pieces, "\"" + rest));
  }

  /** A node nothing has been read into but, perhaps, a key. */
  predicate Fresh(j: Json) {
    j.list == [] && j.valueString == "" && !j.valueBool
  }

  predicate Ends(t: Text, rest: string) {
    t.Number? ==> rest == "" || !InNumber(rest[0])
  }

  lemma WrittenHead(t: Text, rest: string)
    requires Valid(t)
    ensures var s := Written(t, rest); s != "" && !White(s[0]) && s[0] != ']' && s[0] != '}'
  {
  }

  /** Reading a written value gives its meaning and exactly the text after it. */
  lemma {:induction false} ReadBack(j: Json, t: Text, rest: string)
    requires Valid(t) && Fresh(j) && Ends(t, rest)
    ensures ReadValue(j, Written(t, rest)) == Ok(Meaning(t).(name := j.name), rest)
    decreases t
  {
    match t
    case Number(digits) => NumberBack(j, digits, rest);
    case Quoted(pieces) => QuotedBack(j, pieces, rest);
    case Array(blank, items) => ArrayBack(j, blank, items, rest);
    case Object(blank, members) => ObjectBack(j, blank, members, rest);
    case Null => Word("null", rest);
    case True => Word("true", rest);
    case False => Word("false", rest);
  }

  lemma Tail(c: char, rest: string)
    ensures ([c] + rest)[0] == c && ([c] + rest)[1..] == rest
  {
  }

  lemma Word(w: string, rest: string)
    requires w != ""
    ensures StartsWith(w + rest, w) && (w + rest)[|w|..] == rest && (w + rest)[0] == w[0]
  {
  }

  /** What stands after an item or a member. */
  lemma AfterBlank(blank: string, c: char, rest: string)
    requires Blank(blank) && (c == ',' || c == ':' || c == ']' || c == '}')
    ensures var s := blank + ([c] + rest);
            Skip(s) == [c] + rest && s != "" && !InNumber(s[0])
  {
    Punctuation(c);
    SkipBlank(blank, [c] + rest);
    if blank != "" {
      assert blank[0] in blank;
      WhiteEnds(blank[0]);
    }
  }

  lemma Punctuation(c: char)
    requires c == ',' || c == ':' || c == ']' || c == '}'
    ensures !White(c) && !InNumber(c)
  {
  }

  lemma WhiteEnds(c: char)
    requires White(c)
    ensures !InNumber(c)
  {
  }

  lemma BlanksDoNotCount(j: Json, s: string, s': string)
    requires Skip(s) == Skip(s')
    ensures ReadItems(j, s) == ReadItems(j, s') && ReadMembers(j, s) == ReadMembers(j, s')
  {
    assert ReadMember(s) == ReadMember(s');
  }

  lemma {:induction false} ArrayBack(j: Json, blank: string, items: Items, rest: string)
    requires Blank(blank) && ValidItems(items) && Fresh(j)
    ensures ReadValue(j, Written(Array(blank, items), rest))
         == Ok(Meaning(Array(blank, items)).(name := j.name), rest)
    decreases items, 2
  {
    if items.NoItem? {
      Tail('[', blank + ("]" + rest));
      SkipBlank(blank, "]" + rest);
      Tail(']', rest);
    } else {
      WrittenHead(items.value, AfterItemText(items, rest));
      OpenBracket(j, items.before, Written(items.value, AfterItemText(items, rest)));
      ItemsBack(j.(kind := JsonArray), items, rest);
    }
  }

  lemma OpenBracket(j: Json, before: string, first: string)
    requires Blank(before) && first != "" && !White(first[0]) && first[0] != ']'
    ensures ReadValue(j, "[" + (before + first)) == ReadItems(j.(kind := JsonArray), before + first)
  {
    Tail('[', before + first);
    SkipBlank(before, first);
    SkipBlank("", first);
    BlanksDoNotCount(j.(kind := JsonArray), first, before + first);
  }

  function AfterItemText(i: Items, rest: string): string
    requires i.Item?
  {
    i.after + if i.next.NoItem? then "]" + rest else "," + WrittenItems(i.next, rest)
  }

  lemma ItemBack(j: Json, items: Items, rest: string)
    requires items.Item? && ValidItems(items)
    ensures ReadItems(j, WrittenItems(items, rest))
         == AfterItem(j.(list := j.list + [Meaning(items.value)]),
                      if items.next.NoItem? then "]" + rest else "," + WrittenItems(items.next, rest))
    decreases items, 0
  {
    var after := AfterItemText(items, rest);
    WrittenHead(items.value, after);
    SkipBlank(items.before, Written(items.value, after));
    if items.next.NoItem? {
      AfterBlank(items.after, ']', rest);
    } else {
      AfterBlank(items.after, ',', WrittenItems(items.next, rest));
    }
    ReadBack(DEFAULT, items.value, after);
  }

  lemma {:induction false} ItemsBack(j: Json, items: Items, rest: string)
    requires items.Item? && ValidItems(items)
    ensures ReadItems(j, WrittenItems(items, rest)) == Ok(j.(list := j.list + ItemMeanings(items)), rest)
    decreases items, 1
  {
    ItemBack(j, items, rest);
    if items.next.NoItem? {
      Tail(']', rest);
    } else {
      Tail(',', WrittenItems(items.next, rest));
      ItemsBack(j.(list := j.list + [Meaning(items.value)]), items.next, rest);
      AppendAssociates(j.list, [Meaning(items.value)], ItemMeanings(items.next));
    }
  }

  lemma {:induction false} ObjectBack(j: Json, blank: string, members: Members, rest: string)
    requires Blank(blank) && ValidMembers(members) && Fresh(j)
    ensures ReadValue(j, Written(Object(blank, members), rest))
         == Ok(Meaning(Object(blank, members)).(name := j.name), rest)
    decreases members, 2
  {
    if members.NoMember? {
      Tail('{', blank + ("}" + rest));
      SkipBlank(blank, "}" + rest);
      Tail('}', rest);
    } else {
      var first := Written(Quoted(members.key), ColonText(members, rest));
      WrittenHead(Quoted(members.key), ColonText(members, rest));
      OpenBrace(j, members.before, first);
      MembersBack(j.(kind := JsonObject), members, rest);
    }
  }

  lemma OpenBrace(j: Json, before: string, first: string)
    requires Blank(before) && first != "" && !White(first[0]) && first[0] != '}'
    ensures ReadValue(j, "{" + (before + first)) == ReadMembers(j.(kind := JsonObject), before + first)
  {
    Tail('{', before + first);
    SkipBlank(before, first);
    SkipBlank("", first);
    BlanksDoNotCount(j.(kind := JsonObject), first, before + first);
  }

  function AfterMemberText(m: Members, rest: string): string
    requires m.Member?
  {
    m.after + if m.next.NoMember? then "}" + rest else "," + WrittenMembers(m.next, rest)
  }

  function ColonText(m: Members, rest: string): string
    requires m.Member?
  {
    m.afterKey + (":" + (m.colon + Written(m.value, AfterMemberText(m, rest))))
  }

  /** A member's node once its key has been read. */
  function Keyed(key: seq<Piece>): Json {
    DEFAULT.(kind := JsonString, name := WithoutMarks(Chars(key)))
  }

  /** A key and its colon, whatever value follows. */
  lemma KeyBack(before: string, key: seq<Piece>, afterKey: string, colon: string, rest: string)
    requires Blank(before) && Pieces(key) && Blank(afterKey) && Blank(colon) && (rest == "" || !White(rest[0]))
    ensures ReadMember(before + Written(Quoted(key), afterKey + (":" + (colon + rest)))) == ReadValue(Keyed(key), rest)
  {
    var value := colon + rest;
    var after := afterKey + (":" + value);
    WrittenHead(Quoted(key), after);
    SkipBlank(before, Written(Quoted(key), after));
    QuotedBack(DEFAULT, key, after);
    AfterBlank(afterKey, ':', value);
    Tail(':', value);
    SkipBlank(colon, rest);
  }

  lemma {:induction false} MemberBack(m: Members, rest: string)
    requires m.Member? && ValidMembers(m)
    ensures ReadMember(WrittenMembers(m, rest))
         == Ok(Meaning(m.value).(name := WithoutMarks(Chars(m.key))), AfterMemberText(m, rest))
    decreases m, 0
  {
    var after := AfterMemberText(m, rest);
    WrittenHead(m.value, after);
    KeyBack(m.before, m.key, m.afterKey, m.colon, Written(m.value, after));
    AfterMemberEnds(m, rest);
    ReadBack(Keyed(m.key), m.value, after);
  }

  lemma AfterMemberEnds(m: Members, rest: string)
    requires m.Member? && Blank(m.after)
    ensures var s := AfterMemberText(m, rest); s != "" && !InNumber(s[0])
  {
    if m.next.NoMember? {
      AfterBlank(m.after, '}', rest);
    } else {
      AfterBlank(m.after, ',', WrittenMembers(m.next, rest));
    }
  }

  lemma {:induction false} MembersBack(j: Json, members: Members, rest: string)
    requires members.Member? && ValidMembers(members)
    ensures ReadMembers(j, WrittenMembers(members, rest)) == Ok(j.(list := j.list + MemberMeanings(members)), rest)
    decreases members, 1
  {
    MemberBack(members, rest);
    var longer := j.(list := j.list + [Meaning(members.value).(name := WithoutMarks(Chars(members.key)))]);
    if members.next.NoMember? {
      AfterBlank(members.after, '}', rest);
      AfterLastMember(longer, rest);
    } else {
      var more := WrittenMembers(members.next, rest);
      AfterBlank(members.after, ',', more);
      AfterComma(longer, more);
      MembersBack(longer, members.next, rest);
      AppendAssociates(j.list, [longer.list[|j.list|]], MemberMeanings(members.next));
    }
  }

  lemma AfterLastMember(j: Json, rest: string)
    ensures AfterMember(j, "}" + rest) == Ok(j, rest)
  {
    Tail('}', rest);
  }

  lemma AfterComma(j: Json, more: string)
    ensures AfterMember(j, "," + more) == ReadMembers(j, more)
  {
    Tail(',', more);
  }

  // The whole reader.

  function FullText(before: string, t: Text, after: string): string {
    before + Written(t, after)
  }

  /** A document in any of its spellings comes back as what it means. */
  lemma Reads(before: string, t: Text, after: string)
    requires Blank(before) && Blank(after) && Valid(t)
    ensures Creation(FullText(before, t, after)) == Tree(Meaning(t))
  {
    WrittenHead(t, after);
    SkipBlank(before, Written(t, after));
    BlankEnds(t, after);
    ReadBack(DEFAULT, t, after);
  }

  lemma BlankEnds(t: Text, after: string)
    requires Blank(after)
    ensures Ends(t, after)
  {
    if after != "" {
      assert after[0] in after;
      WhiteEnds(after[0]);
    }
  }

  /** No text has two readings: not even the beginnings of two texts, whatever follows them. */
  lemma Unambiguous(t: Text, rest: string, t': Text, rest': string)
    requires Valid(t) && Valid(t') && Ends(t, rest) && Ends(t', rest')
    requires Written(t, rest) == Written(t', rest')
    ensures Meaning(t) == Meaning(t') && rest == rest'
  {
    ReadBack(DEFAULT, t, rest);
    ReadBack(DEFAULT, t', rest');
    MeaningHasNoName(t);
    MeaningHasNoName(t');
  }

  lemma MeaningHasNoName(t: Text)
    ensures Meaning(t).(name := "") == Meaning(t)
  {
  }

  /** Every string has a spelling. */
  function Spell(s: string): (ps: seq<Piece>)
  {
    if s == "" then []
    else [if s[0] == '"' || s[0] == '\\' then Escaped(s[0]) else Raw(s[0])] + Spell(s[1..])
  }

  lemma {:induction false} SpellMeans(s: string)
    ensures Pieces(Spell(s)) && Chars(Spell(s)) == s
  {
    if s != "" {
      SpellMeans(s[1..]);
      assert s == [s[0]] + s[1..];
    }
  }

  /** So every string comes back from its quoted form, except for byte order marks. */
  lemma StringsRead(s: string, rest: string)
    ensures ReadValue(DEFAULT, Written(Quoted(Spell(s)), rest))
         == Ok(DEFAULT.(kind := JsonString, valueString := WithoutMarks(s)), rest)
  {
    SpellMeans(s);
    ReadBack(DEFAULT, Quoted(Spell(s)), rest);
  }

  // Where the reader panics.

  /** A string is cut off after a backslash exactly if the text ends like that. */
  lemma StringPanics(j: Json, out: string, s: string)
    ensures ReadString(j, out, s) == Panic <==> exists ps :: Pieces(ps) && s == Spelled(ps, "\\")
  {
    if ReadString(j, out, s) == Panic {
      var ps := PanicPieces(j, out, s);
    }
    forall ps | Pieces(ps) && s == Spelled(ps, "\\")
      ensures ReadString(j, out, s) == Panic
    {
      CutOff(j, out, ps);
    }
  }

  lemma {:induction false} PanicPieces(j: Json, out: string, s: string) returns (ps: seq<Piece>)
    requires ReadString(j, out, s) == Panic
    ensures Pieces(ps) && s == Spelled(ps, "\\")
    decreases |s|
  {
    if s[0] != '\\' {
      ps := PanicPieces(j, out + [s[0]], s[1..]);
      ps := AddPiece(Raw(s[0]), s[1..], ps);
    } else if |s| == 1 {
      ps := [];
    } else {
      ps := PanicPieces(j, out + [Unescape(s[1])], s[2..]);
      assert s == ['\\', s[1]] + s[2..];
      ps := AddPiece(Escaped(s[1]), s[2..], ps);
    }
  }

  lemma AddPiece(p: Piece, s: string, ps: seq<Piece>) returns (more: seq<Piece>)
    requires Pieces([p]) && Pieces(ps) && s == Spelled(ps, "\\")
    ensures Pieces(more) && Spelled(more, "\\") == (if p.Raw? then [p.c] else ['\\', p.c]) + s
  {
    more := [p] + ps;
    assert p in [p] && more[1..] == ps;
  }

  lemma {:induction false} CutOff(j: Json, out: string, ps: seq<Piece>)
    requires Pieces(ps)
    ensures ReadString(j, out, Spelled(ps, "\\")) == Panic
    decreases |ps|
  {
    if ps != [] {
      PieceBack(j, out, ps[0], Spelled(ps[1..], "\\"));
      CutOff(j, out + [CharOf(ps[0])], ps[1..]);
    }
  }

  /** A string whose closing quote is missing is accepted as if it were there. */
  lemma {:induction false} Unterminated(j: Json, out: string, ps: seq<Piece>)
    requires Pieces(ps)
    ensures ReadString(j, out, Spelled(ps, ""))
         == Ok(j.(kind := JsonString, valueString := WithoutMarks(out + Chars(ps))), "")
    decreases |ps|
  {
    if ps == [] {
      assert out + Chars(ps) == out;
    } else {
      PieceBack(j, out, ps[0], Spelled(ps[1..], ""));
      Unterminated(j, out + [CharOf(ps[0])], ps[1..]);
      AppendAssociates(out, [CharOf(ps[0])], Chars(ps[1..]));
    }
  }

  // Values that are not there.

  predicate BeginsValue(s: string) {
    s != "" && (s[0] == 'n' || s[0] == 'f' || s[0] == 't' || s[0] == '"' || s[0] == '[' || s[0] == '{'
                || FirstInNumber(s[0]))
  }

  /** The reader leaves node and cursor alone exactly where no value begins. */
  lemma MissingValue(j: Json, s: string)
    ensures ReadValue(j, s) == Ok(j, s) <==> !BeginsValue(s)
  {
    if s != "" {
      InNumberIs(s[0]);
    }
  }

  /** A value that begins with n, f or t is one of three words, or an error there. */
  lemma WordsOnly(j: Json, s: string)
    requires s != "" && s[0] in "nft"
    ensures ReadValue(j, s).Ok? <==> exists rest :: s == "null" + rest || s == "false" + rest || s == "true" + rest
    ensures ReadValue(j, s).Ok? || ReadValue(j, s) == Error(s)
  {
    if ReadValue(j, s).Ok? {
      var n := if s[0] == 'f' then 5 else 4;
      assert s == s[..n] + s[n..];
    }
  }

  /** So a document, or an item, that is not there is null, whatever follows it. */
  lemma MissingIsNull(j: Json, s: string)
    requires !BeginsValue(Skip(s))
    ensures Creation(s) == Tree(DEFAULT)
    ensures ReadItems(j, s) == AfterItem(j.(list := j.list + [DEFAULT]), Skip(s))
  {
    MissingValue(DEFAULT, Skip(s));
    SkipTwice(s);
  }

  lemma {:induction false} SkipTwice(s: string)
    ensures Skip(Skip(s)) == Skip(s)
  {
    if s != "" && IsWhitespace(s[0]) {
      SkipTwice(s[1..]);
    }
  }

  /** But a member's value that is not there leaves an empty string under the member's name: the key was read
      into the same node. */
  lemma MissingMemberValue(before: string, key: seq<Piece>, afterKey: string, colon: string, rest: string)
    requires Blank(before) && Pieces(key) && Blank(afterKey) && Blank(colon)
    requires !BeginsValue(rest) && (rest == "" || !White(rest[0]))
    ensures ReadMember(before + Written(Quoted(key), afterKey + (":" + (colon + rest))))
         == Ok(Keyed(key), rest)
  {
    KeyBack(before, key, afterKey, colon, rest);
    MissingValue(Keyed(key), rest);
  }
}
