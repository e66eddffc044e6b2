/** The JSON reader: a recursive descent over a cursor, a text that only gets shorter. Numbers keep their text. */
module JsonReader {
  datatype Kind = JsonBool | JsonNull | JsonNumber | JsonString | JsonArray | JsonObject

  datatype Json = Json(list: seq<Json>, kind: Kind, valueString: string, valueBool: bool, name: string)

  const DEFAULT := Json([], JsonNull, "", false, "")

  /** A step moves the cursor, reports an error where it is, or slices past the end of the text. */
  datatype Parsed = Ok(json: Json, rest: string) | Error(at: string) | Panic

  /** What a method leaves beside the node it works on. */
  datatype Cursor = At(rest: string) | Failed(at: string) | Panicked

  predicate IsWhitespace(c: char) {
    || '\t' <= c <= '\r' || c == ' ' || c == '\U{85}' || c == '\U{A0}' || c == '\U{1680}'
    || '\U{2000}' <= c <= '\U{200A}' || c == '\U{2028}' || c == '\U{2029}' || c == '\U{202F}'
    || c == '\U{205F}' || c == '\U{3000}'
  }

  predicate IsDigit(c: char) {
    '0' <= c <= '9'
  }

  predicate IsNumberChar(c: char) {
    IsDigit(c) || c == '-' || c == '+' || c == 'e' || c == 'E' || c == '.'
  }

  predicate StartsWith(s: string, p: string) {
    |p| <= |s| && s[..|p|] == p
  }

  predicate Begins(s: string, c: char) {
    s != "" && s[0] == c
  }

  /** The text without byte order marks, which a string drops when it is built. */
  function WithoutMarks(s: string): string {
    if s == "" then "" else (if s[0] == '\U{FEFF}' then "" else [s[0]]) + WithoutMarks(s[1..])
  }

  lemma {:induction false} NoMarksNoChange(s: string)
    ensures WithoutMarks(s) == s <==> '\U{FEFF}' !in s
    ensures |WithoutMarks(s)| <= |s|
  {
    if s != "" {
      NoMarksNoChange(s[1..]);
      assert s == [s[0]] + s[1..];
    }
  }

  /** One character after the other, each kept unless it is a mark. */
  lemma {:induction false} MarksAreDropped(a: string, b: string, c: char)
    ensures WithoutMarks(a + b) == WithoutMarks(a) + WithoutMarks(b)
    ensures WithoutMarks([c]) == if c == '\U{FEFF}' then "" else [c]
    decreases |a|
  {
    assert [c][1..] == "";
    if a == "" {
      assert a + b == b;
    } else {
      assert (a + b)[1..] == a[1..] + b;
      MarksAreDropped(a[1..], b, c);
    }
  }

  function Skip(s: string): (r: string)
    ensures |r| <= |s|
  {
    if s != "" && IsWhitespace(s[0]) then Skip(s[1..]) else s
  }

  function SkipNumber(s: string): (r: string)
    ensures |r| <= |s|
  {
    if s != "" && IsNumberChar(s[0]) then SkipNumber(s[1..]) else s
  }

  function Unescape(c: char): char {
    match c
    case 'b' => '\U{8}'
    case 'f' => '\U{C}'
    case 'n' => '\n'
    case 'r' => '\r'
    case 't' => '\t'
    case _ => c
  }

  function ReadValue(j: Json, s: string): (r: Parsed)
    ensures r.Ok? ==> |r.rest| <= |s|
    decreases |s|, 2
  {
    if s == "" then Ok(j, s)
    else if s[0] == 'n' then
      if StartsWith(s, "null") then Ok(j.(kind := JsonNull), s[4..]) else Error(s)
    else if s[0] == 'f' then
      if StartsWith(s, "false") then Ok(j.(kind := JsonBool), s[5..]) else Error(s)
    else if s[0] == 't' then
      if StartsWith(s, "true") then Ok(j.(kind := JsonBool, valueBool := true), s[4..]) else Error(s)
    else if s[0] == '"' then ReadString(j, "", s[1..])
    else if s[0] == '[' then ReadArray(j, Skip(s[1..]))
    else if s[0] == '{' then ReadObject(j, Skip(s[1..]))
    else if s[0] == '-' || IsDigit(s[0]) then ReadNumber(j, s)
    else Ok(j, s)
  }

  function ReadNumber(j: Json, s: string): (r: Parsed)
    ensures r.Ok? ==> |r.rest| < |s|
  {
    var n := |s| - |SkipNumber(s)|;
    if n == 0 then Error(s) else Ok(j.(kind := JsonNumber, valueString := WithoutMarks(s[..n])), SkipNumber(s))
  }

  /** A string after its opening quote; `out` is what was read of it. */
  function ReadString(j: Json, out: string, s: string): (r: Parsed)
    ensures r.Ok? ==> |r.rest| <= |s|
    decreases |s|
  {
    if s == "" then Ok(j.(valueString := WithoutMarks(out), kind := JsonString), "")
    else if s[0] == '"' then Ok(j.(valueString := WithoutMarks(out), kind := JsonString), s[1..])
    else if s[0] != '\\' then ReadString(j, out + [s[0]], s[1..])
    else if |s| == 1 then Panic
    else if s[1] == 'u' then Error(s[1..])
    else ReadString(j, out + [Unescape(s[1])], s[2..])
  }

  /** An array after its bracket and blanks. */
  function ReadArray(j: Json, s: string): (r: Parsed)
    ensures r.Ok? ==> |r.rest| <= |s|
    decreases |s|, 4
  {
    if Begins(s, ']') then Ok(j.(kind := JsonArray), s[1..]) else ReadItems(j.(kind := JsonArray), s)
  }

  function ReadItems(j: Json, s: string): (r: Parsed)
    ensures r.Ok? ==> |r.rest| <= |s|
    decreases |s|, 3
  {
    match ReadValue(DEFAULT, Skip(s))
    case Ok(child, rest) => AfterItem(j.(list := j.list + [child]), Skip(rest))
    case bad => bad
  }

  function AfterItem(j: Json, s: string): (r: Parsed)
    ensures r.Ok? ==> |r.rest| <= |s|
    decreases |s|, 0
  {
    if Begins(s, ',') then ReadItems(j, s[1..])
    else if Begins(s, ']') then Ok(j, s[1..])
    else Error(s)
  }

  /** An object after its brace and blanks. */
  function ReadObject(j: Json, s: string): (r: Parsed)
    ensures r.Ok? ==> |r.rest| <= |s|
    decreases |s|, 6
  {
    if Begins(s, '}') then Ok(j.(kind := JsonObject), s[1..]) else ReadMembers(j.(kind := JsonObject), s)
  }

  function ReadMembers(j: Json, s: string): (r: Parsed)
    ensures r.Ok? ==> |r.rest| <= |s|
    decreases |s|, 5
  {
    match ReadMember(s)
    case Ok(child, rest) => AfterMember(j.(list := j.list + [child]), Skip(rest))
    case bad => bad
  }

  /** Key and value are read into the same node, one after the other. */
  function ReadMember(s: string): (r: Parsed)
    ensures r.Ok? ==> |r.rest| < |s|
    decreases |s|, 4
  {
    match ReadValue(DEFAULT, Skip(s))
    case Ok(child, rest) =>
      if Begins(Skip(rest), ':') then ReadValue(Named(child), Skip(Skip(rest)[1..])) else Error(Skip(rest))
    case bad => bad
  }

  function Named(key: Json): Json {
    key.(name := key.valueString, valueString := "")
  }

  function AfterMember(j: Json, s: string): (r: Parsed)
    ensures r.Ok? ==> |r.rest| <= |s|
    decreases |s|, 0
  {
    if Begins(s, ',') then ReadMembers(j, s[1..])
    else if Begins(s, '}') then Ok(j, s[1..])
    else Error(s)
  }

  method SkipBlanks(s: string) returns (r: string)
    ensures r == Skip(s)
  {
    var i := 0;
    while i < |s| && IsWhitespace(s[i])
      invariant i <= |s| && Skip(s[i..]) == Skip(s)
    {
      assert s[i..][1..] == s[i + 1..];
      i := i + 1;
    }
    return s[i..];
  }

  method SkipNumberText(s: string) returns (r: string)
    ensures r == SkipNumber(s)
  {
    var i := 0;
    while i < |s| && IsNumberChar(s[i])
      invariant i <= |s| && SkipNumber(s[i..]) == SkipNumber(s)
    {
      assert s[i..][1..] == s[i + 1..];
      i := i + 1;
    }
    return s[i..];
  }

  ghost predicate Agrees(r: Cursor, j: Json, p: Parsed) {
    match p
    case Ok(json, rest) => r == At(rest) && j == json
    case Error(at) => r == Failed(at)
    case Panic => r == Panicked
  }

  /** The node being filled; a finished child moves into its parent's list as a value. */
  class Node {
    var list: seq<Json>
    var kind: Kind
    var valueString: string
    var valueBool: bool
    var name: string

    function Value(): Json
      reads this
    {
      Json(list, kind, valueString, valueBool, name)
    }

    constructor ()
      ensures Value() == DEFAULT
    {
      list, kind, valueString, valueBool, name := [], JsonNull, "", false, "";
    }

    method ParseValue(s: string) returns (r: Cursor)
      modifies this
      ensures Agrees(r, Value(), ReadValue(old(Value()), s))
      decreases |s|, 2
    {
      if s == "" {
        return At(s);
      }
      match s[0] {
        case 'n' =>
          if StartsWith(s, "null") {
            kind := JsonNull;
            return At(s[4..]);
          }
        case 'f' =>
          if StartsWith(s, "false") {
            kind := JsonBool;
            return At(s[5..]);
          }
        case 't' =>
          if StartsWith(s, "true") {
            kind := JsonBool;
            valueBool := true;
            return At(s[4..]);
          }
        case '"' =>
          r := ParseString(s);
          return;
        case '[' =>
          r := ParseArray(s);
          return;
        case '{' =>
          r := ParseObject(s);
          return;
        case c =>
          if c == '-' || IsDigit(c) {
            r := ParseNumber(s);
            return;
          }
          return At(s);
      }
      return Failed(s);
    }

    method ParseNumber(s: string) returns (r: Cursor)
      modifies this
      ensures Agrees(r, Value(), ReadNumber(old(Value()), s))
    {
      var end := SkipNumberText(s);
      var n := |s| - |end|;
      if n != 0 {
        kind := JsonNumber;
        valueString := WithoutMarks(s[..n]);
        return At(end);
      }
      return Failed(s);
    }

    method ParseString(s: string) returns (r: Cursor)
      modifies this
      ensures Agrees(r, Value(), if Begins(s, '"') then ReadString(old(Value()), "", s[1..]) else Error(s))
    {
      if !Begins(s, '"') {
        return Failed(s);
      }
      var out: string := "";
      var p := 1;
      ghost var want := ReadString(Value(), "", s[1..]);
      while p < |s| && s[p] != '"'
        invariant 1 <= p && Value() == old(Value())
        invariant if p <= |s| then ReadString(Value(), out, s[p..]) == want else want == Panic
        decreases |s| - p
      {
        ghost var here := s[p..];
        assert here[1..] == s[p + 1..] && (p + 1 < |s| ==> here[2..] == s[p + 2..]);
        if s[p] != '\\' {
          out := out + [s[p]];
          p := p + 1;
          continue;
        }
        p := p + 1;
        var escaped := if p < |s| then s[p] else '\0';
        match escaped {
          case 'b' => out := out + ['\U{8}'];
          case 'f' => out := out + ['\U{C}'];
          case 'n' => out := out + ['\n'];
          case 'r' => out := out + ['\r'];
          case 't' => out := out + ['\t'];
          case 'u' => return Failed(s[p..]);
          case other => out := out + [other];
        }
        p := p + 1;
      }
      if p < |s| && s[p] == '"' {
        assert s[p..][1..] == s[p + 1..];
        p := p + 1;
      }
      valueString := WithoutMarks(out);
      kind := JsonString;
      return if p <= |s| then At(s[p..]) else Panicked;
    }

    method ParseArray(s: string) returns (r: Cursor)
      modifies this
      ensures Agrees(r, Value(), if Begins(s, '[') then ReadArray(old(Value()), Skip(s[1..])) else Error(s))
      decreases |s|, 1
    {
      if !Begins(s, '[') {
        return Failed(s);
      }
      kind := JsonArray;
      var v := SkipBlanks(s[1..]);
      if Begins(v, ']') {
        return At(v[1..]);
      }
      ghost var want := ReadItems(Value(), v);
      r := ParseItem(v);
      while r.At? && Begins(r.rest, ',')
        invariant r.At? ==> |r.rest| < |s| && AfterItem(Value(), r.rest) == want
        invariant !r.At? ==> Agrees(r, Value(), want)
        decreases r.At?, if r.At? then |r.rest| else 0
      {
        r := ParseItem(r.rest[1..]);
      }
      if r.At? {
        return if Begins(r.rest, ']') then At(r.rest[1..]) else Failed(r.rest);
      }
    }

    /** One item, into a new child, and the blanks after it. */
    method ParseItem(s: string) returns (r: Cursor)
      modifies this
      ensures r.At? ==> |r.rest| <= |s| && AfterItem(Value(), r.rest) == ReadItems(old(Value()), s)
      ensures !r.At? ==> Agrees(r, Value(), ReadItems(old(Value()), s))
      decreases |s|, 3
    {
      var child := new Node();
      var v := SkipBlanks(s);
      r := child.ParseValue(v);
      if r.At? {
        list := list + [child.Value()];
        v := SkipBlanks(r.rest);
        r := At(v);
      }
    }

    method ParseObject(s: string) returns (r: Cursor)
      modifies this
      ensures Agrees(r, Value(), if Begins(s, '{') then ReadObject(old(Value()), Skip(s[1..])) else Error(s))
      decreases |s|, 1
    {
      if !Begins(s, '{') {
        return Failed(s);
      }
      kind := JsonObject;
      var v := SkipBlanks(s[1..]);
      if Begins(v, '}') {
        return At(v[1..]);
      }
      ghost var want := ReadMembers(Value(), v);
      r := ParseMember(v);
      while r.At? && Begins(r.rest, ',')
        invariant r.At? ==> |r.rest| < |s| && AfterMember(Value(), r.rest) == want
        invariant !r.At? ==> Agrees(r, Value(), want)
        decreases r.At?, if r.At? then |r.rest| else 0
      {
        r := ParseMember(r.rest[1..]);
      }
      if r.At? {
        return if Begins(r.rest, '}') then At(r.rest[1..]) else Failed(r.rest);
      }
    }

    /** One member: the key's text becomes the child's name, then the child reads its value. */
    method ParseMember(s: string) returns (r: Cursor)
      modifies this
      ensures r.At? ==> |r.rest| < |s| && AfterMember(Value(), r.rest) == ReadMembers(old(Value()), s)
      ensures !r.At? ==> Agrees(r, Value(), ReadMembers(old(Value()), s))
      decreases |s|, 3
    {
      var child := new Node();
      var v := SkipBlanks(s);
      r := child.ParseValue(v);
      assert Agrees(r, child.Value(), ReadValue(DEFAULT, Skip(s)));
      if !r.At? {
        assert Agrees(r, Value(), ReadMember(s));
        return;
      }
      v := SkipBlanks(r.rest);
      child.name := child.valueString;
      child.valueString := "";
      if !Begins(v, ':') {
        assert ReadMember(s) == Error(v);
        return Failed(v);
      }
      v := SkipBlanks(v[1..]);
      r := child.ParseValue(v);
      assert Agrees(r, child.Value(), ReadMember(s));
      if r.At? {
        list := list + [child.Value()];
        v := SkipBlanks(r.rest);
        r := At(v);
      }
    }
  }

  datatype Created = Tree(json: Json) | NotJson(at: string) | Crash

  /** Text after the first value is not looked at. */
  function Creation(s: string): Created {
    match ReadValue(DEFAULT, Skip(s))
    case Ok(json, _) => Tree(json)
    case Error(at) => NotJson(at)
    case Panic => Crash
  }

  method Create(s: string) returns (r: Created)
    ensures r == Creation(s)
  {
    var c := new Node();
    var v := SkipBlanks(s);
    var end := c.ParseValue(v);
    match end
    case At(_) => return Tree(c.Value());
    case Failed(at) => return NotJson(at);
    case Panicked => return Crash;
  }
}
