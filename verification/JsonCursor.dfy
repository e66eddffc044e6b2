/** Where the reader goes in a text, whatever the text: only forward, in step with the quotes; and exactly which
    cut-off texts make it panic. */
module JsonCursor {
  import opened Wrappers
  import opened JsonReader
  import opened JsonText

  // What a caller can check before the call: a scan for quotes and backslashes.

  datatype Mode = Outside | Inside | Escaping

  function After(m: Mode, c: char): Mode {
    match m
    case Outside => if c == '"' then Inside else Outside
    case Inside => if c == '"' then Outside else if c == '\\' then Escaping else Inside
    case Escaping => Inside
  }

  function Scan(m: Mode, s: string): Mode
    decreases |s|
  {
    if s == "" then m else Scan(After(m, s[0]), s[1..])
  }

  /** The text ends inside a string, right after a backslash that is not itself escaped. */
  predicate EndsEscaping(s: string) {
    Scan(Outside, s) == Escaping
  }

  lemma {:induction false} ScanAppend(m: Mode, a: string, b: string)
    ensures Scan(m, a + b) == Scan(Scan(m, a), b)
    decreases |a|
  {
    if a == "" {
      assert a + b == b;
    } else {
      assert (a + b)[1..] == a[1..] + b;
      ScanAppend(After(m, a[0]), a[1..], b);
    }
  }

  lemma {:induction false} NoQuote(s: string)
    requires '"' !in s
    ensures Scan(Outside, s) == Outside
    decreases |s|
  {
    if s != "" {
      assert s[0] in s && forall c <- s[1..] :: c in s;
      NoQuote(s[1..]);
    }
  }

  lemma EscapingEndsInBackslash(m: Mode, s: string)
    requires Scan(m, s) == Escaping && m != Escaping
    ensures s != "" && s[|s| - 1] == '\\'
  {
    if |s| > 1 {
      ScanAppend(m, s[..|s| - 1], s[|s| - 1..]);
      assert s == s[..|s| - 1] + s[|s| - 1..];
      assert s[|s| - 1..][1..] == "";
    }
  }

  // The cursor moves forward and stays in step with the scan.

  predicate Suffix(r: string, s: string) {
    |r| <= |s| && s[|s| - |r|..] == r
  }

  /** `r` is an end of `s`, and the scan of `s` is outside a string where it begins (or `r` is the empty end). */
  predicate Sync(r: string, s: string) {
    Suffix(r, s) && (r != "" ==> Scan(Outside, r) == Scan(Outside, s))
  }

  lemma SyncOfSync(r: string, s: string, t: string)
    requires Sync(r, s) && Sync(s, t)
    ensures Sync(r, t)
  {
    assert t[|t| - |s|..][|s| - |r|..] == t[|t| - |r|..];
  }

  /** What is left, or reported, is an end of the text; a panic is at its very end, in an escape. */
  predicate Sound(p: Parsed, s: string) {
    match p
    case Ok(_, rest) => Sync(rest, s)
    case Error(at) => Suffix(at, s)
    case Panic => EndsEscaping(s)
  }

  lemma SoundIn(p: Parsed, s: string, t: string)
    requires Sound(p, s) && Sync(s, t)
    ensures Sound(p, t)
  {
    match p
    case Ok(_, rest) => SyncOfSync(rest, s, t);
    case Error(at) => assert t[|t| - |s|..][|s| - |at|..] == t[|t| - |at|..];
    case Panic =>
  }

  lemma PlainTail(s: string)
    requires s != "" && s[0] != '"'
    ensures Sync(s[1..], s)
  {
  }

  lemma {:induction false} SkipSync(s: string)
    ensures Sync(Skip(s), s)
  {
    if s != "" && IsWhitespace(s[0]) {
      SkipSync(s[1..]);
      PlainTail(s);
      SyncOfSync(Skip(s), s[1..], s);
    }
  }

  lemma {:induction false} SkipNumberSync(s: string)
    ensures Sync(SkipNumber(s), s)
  {
    if s != "" && IsNumberChar(s[0]) {
      SkipNumberSync(s[1..]);
      PlainTail(s);
      SyncOfSync(SkipNumber(s), s[1..], s);
    }
  }

  lemma WordSync(w: string, s: string, rest: string)
    requires '"' !in w
    ensures AfterWord(w, s, rest) ==> Sync(rest, s)
  {
    if AfterWord(w, s, rest) {
      assert s == w + rest;
      ScanAppend(Outside, w, rest);
      NoQuote(w);
    }
  }

  /** The same inside a string, up to its closing quote. */
  predicate StringSound(p: Parsed, s: string) {
    match p
    case Ok(_, rest) => Suffix(rest, s) && (rest != "" ==> Scan(Outside, rest) == Scan(Inside, s))
    case Error(at) => Suffix(at, s)
    case Panic => Scan(Inside, s) == Escaping
  }

  lemma StringSoundIn(p: Parsed, s: string, t: string)
    requires StringSound(p, s) && Suffix(s, t) && Scan(Inside, s) == Scan(Inside, t)
    ensures StringSound(p, t)
  {
    if p.Ok? {
      assert t[|t| - |s|..][|s| - |p.rest|..] == t[|t| - |p.rest|..];
    } else if p.Error? {
      assert t[|t| - |s|..][|s| - |p.at|..] == t[|t| - |p.at|..];
    }
  }

  lemma {:induction false} ReadStringSound(j: Json, out: string, s: string)
    ensures StringSound(ReadString(j, out, s), s)
    decreases |s|
  {
    if s != "" && s[0] != '"' {
      if s[0] != '\\' {
        ReadStringSound(j, out + [s[0]], s[1..]);
        StringSoundIn(ReadString(j, out, s), s[1..], s);
      } else {
        TwoSteps(s);
        if |s| > 1 && s[1] != 'u' {
          ReadStringSound(j, out + [Unescape(s[1])], s[2..]);
          StringSoundIn(ReadString(j, out, s), s[2..], s);
        }
      }
    }
  }

  lemma TwoSteps(s: string)
    requires s != "" && s[0] == '\\'
    ensures Scan(Inside, s) == if |s| == 1 then Escaping else Scan(Inside, s[2..])
    ensures |s| > 1 ==> Suffix(s[2..], s)
  {
    if |s| > 1 {
      assert s[1..][1..] == s[2..];
    }
  }

  /** The reader only moves forward, in step with the quotes. */
  lemma {:induction false} ValueSound(j: Json, s: string)
    ensures Sound(ReadValue(j, s), s)
    decreases |s|, 2
  {
    if s != "" {
      if s[0] == '"' {
        ReadStringSound(j, "", s[1..]);
        QuotedSound(ReadString(j, "", s[1..]), s);
      } else if s[0] == '[' {
        ArraySound(j, s[1..]);
        PlainTail(s);
        SoundIn(ReadArray(j, Skip(s[1..])), s[1..], s);
      } else if s[0] == '{' {
        ObjectSound(j, s[1..]);
        PlainTail(s);
        SoundIn(ReadObject(j, Skip(s[1..])), s[1..], s);
      } else {
        PlainSound(j, s);
      }
    }
  }

  lemma QuotedSound(p: Parsed, s: string)
    requires s != "" && s[0] == '"' && StringSound(p, s[1..])
    ensures Sound(p, s)
  {
    var t := s[1..];
    if p.Ok? {
      assert s[|s| - |t|..][|t| - |p.rest|..] == s[|s| - |p.rest|..];
    } else if p.Error? {
      assert s[|s| - |t|..][|t| - |p.at|..] == s[|s| - |p.at|..];
    }
  }

  lemma PlainSound(j: Json, s: string)
    requires s != "" && s[0] != '"' && s[0] != '[' && s[0] != '{'
    ensures Sound(ReadValue(j, s), s)
  {
    PlainRest(j, s);
    var p := ReadValue(j, s);
    if p.Ok? {
      PlainSync(s, p.rest);
    }
  }

  predicate AfterWord(w: string, s: string, rest: string) {
    StartsWith(s, w) && rest == s[|w|..]
  }

  /** What is left after anything but a string, an array or an object. */
  predicate PlainEnd(s: string, rest: string) {
    || rest == s || rest == SkipNumber(s)
    || AfterWord("null", s, rest) || AfterWord("true", s, rest) || AfterWord("false", s, rest)
  }

  lemma PlainSync(s: string, rest: string)
    requires PlainEnd(s, rest)
    ensures Sync(rest, s)
  {
    SkipNumberSync(s);
    WordSync("null", s, rest);
    WordSync("true", s, rest);
    WordSync("false", s, rest);
  }

  lemma PlainRest(j: Json, s: string)
    requires s != "" && s[0] != '"' && s[0] != '[' && s[0] != '{'
    ensures match ReadValue(j, s)
            case Ok(_, rest) => PlainEnd(s, rest)
            case Error(at) => at == s
            case Panic => false
  {
  }

  lemma {:induction false} ArraySound(j: Json, s: string)
    ensures Sound(ReadArray(j, Skip(s)), s)
    decreases |s|, 5
  {
    var v := Skip(s);
    SkipSync(s);
    if Begins(v, ']') {
      PlainTail(v);
    } else {
      ItemsSound(j.(kind := JsonArray), v);
    }
    SoundIn(ReadArray(j, v), v, s);
  }

  lemma {:induction false} ObjectSound(j: Json, s: string)
    ensures Sound(ReadObject(j, Skip(s)), s)
    decreases |s|, 6
  {
    var v := Skip(s);
    SkipSync(s);
    if Begins(v, '}') {
      PlainTail(v);
    } else {
      MembersSound(j.(kind := JsonObject), v);
    }
    SoundIn(ReadObject(j, v), v, s);
  }

  /** A value after blanks, and the blanks after it. */
  lemma {:induction false} PaddedSound(j: Json, s: string)
    ensures var p := ReadValue(j, Skip(s)); Sound(p, s) && (p.Ok? ==> Sync(Skip(p.rest), s))
    decreases |s|, 3
  {
    SkipSync(s);
    ValueSound(j, Skip(s));
    var p := ReadValue(j, Skip(s));
    SoundIn(p, Skip(s), s);
    if p.Ok? {
      SkipSync(p.rest);
      SyncOfSync(Skip(p.rest), p.rest, s);
    }
  }

  lemma {:induction false} ItemsSound(j: Json, s: string)
    ensures Sound(ReadItems(j, s), s)
    decreases |s|, 4
  {
    PaddedSound(DEFAULT, s);
    var p := ReadValue(DEFAULT, Skip(s));
    if p.Ok? {
      var v, longer := Skip(p.rest), j.(list := j.list + [p.json]);
      if Begins(v, ',') {
        ItemsSound(longer, v[1..]);
        PlainTail(v);
        SoundIn(ReadItems(longer, v[1..]), v[1..], v);
      } else if Begins(v, ']') {
        PlainTail(v);
      }
      SoundIn(AfterItem(longer, v), v, s);
    }
  }

  lemma {:induction false} MemberSound(s: string)
    ensures var p := ReadMember(s); Sound(p, s) && (p.Ok? ==> Sync(Skip(p.rest), s))
    decreases |s|, 4
  {
    PaddedSound(DEFAULT, s);
    var p := ReadValue(DEFAULT, Skip(s));
    if p.Ok? && Begins(Skip(p.rest), ':') {
      var v := Skip(p.rest);
      PaddedSound(Named(p.json), v[1..]);
      var q := ReadValue(Named(p.json), Skip(v[1..]));
      PlainTail(v);
      SyncOfSync(v[1..], v, s);
      SoundIn(q, v[1..], s);
      if q.Ok? {
        SyncOfSync(Skip(q.rest), v[1..], s);
      }
    }
  }

  lemma {:induction false} MembersSound(j: Json, s: string)
    ensures Sound(ReadMembers(j, s), s)
    decreases |s|, 5
  {
    MemberSound(s);
    var p := ReadMember(s);
    if p.Ok? {
      var v, longer := Skip(p.rest), j.(list := j.list + [p.json]);
      if Begins(v, ',') {
        MembersSound(longer, v[1..]);
        PlainTail(v);
        SoundIn(ReadMembers(longer, v[1..]), v[1..], v);
      } else if Begins(v, '}') {
        PlainTail(v);
      }
      SoundIn(AfterMember(longer, v), v, s);
    }
  }

  // A text cut off in an escape: the reader does what it does on a longer text, or panics.

  /** Reading `s` gave `q`, where reading `s + r` gave `p`: the same, `r` being left over; or a panic, and then a
      `u` in `r` would have been reported. */
  predicate Shortened(p: Parsed, q: Parsed, r: string) {
    match q
    case Ok(json, rest) => EndsEscaping(rest) && p == Ok(json, rest + r)
    case Error(at) => at != "" && p == Error(at + r)
    case Panic => Begins(r, 'u') ==> p == Error(r)
  }

  lemma EscapingHead(s: string, r: string)
    requires EndsEscaping(s)
    ensures s != "" && (s + r)[0] == s[0] && (s + r)[1..] == s[1..] + r
    ensures if s[0] == '"' then Scan(Inside, s[1..]) == Escaping else EndsEscaping(s[1..])
  {
  }

  lemma {:induction false} ShortString(j: Json, out: string, s: string, r: string)
    requires Scan(Inside, s) == Escaping
    ensures Shortened(ReadString(j, out, s + r), ReadString(j, out, s), r)
    decreases |s|
  {
    assert (s + r)[0] == s[0] && (s + r)[1..] == s[1..] + r;
    if s[0] == '\\' {
      TwoSteps(s);
      if |s| == 1 {
        assert s[1..] + r == r;
      } else {
        assert (s + r)[1] == s[1] && (s + r)[2..] == s[2..] + r;
        if s[1] != 'u' {
          ShortString(j, out + [Unescape(s[1])], s[2..], r);
        }
      }
    } else if s[0] != '"' {
      ShortString(j, out + [s[0]], s[1..], r);
    }
  }

  lemma {:induction false} ShortSkip(s: string, r: string)
    requires EndsEscaping(s)
    ensures EndsEscaping(Skip(s)) && Skip(s + r) == Skip(s) + r
  {
    EscapingHead(s, r);
    if IsWhitespace(s[0]) {
      ShortSkip(s[1..], r);
    }
  }

  lemma {:induction false} ShortSkipNumber(s: string, r: string)
    requires EndsEscaping(s)
    ensures EndsEscaping(SkipNumber(s)) && SkipNumber(s + r) == SkipNumber(s) + r
  {
    EscapingHead(s, r);
    if IsNumberChar(s[0]) {
      ShortSkipNumber(s[1..], r);
    }
  }

  lemma ShortNumber(j: Json, s: string, r: string)
    requires EndsEscaping(s)
    ensures Shortened(ReadNumber(j, s + r), ReadNumber(j, s), r)
  {
    ShortSkipNumber(s, r);
    EscapingHead(s, r);
    SkipNumberSync(s);
    var n := |s| - |SkipNumber(s)|;
    assert (s + r)[..n] == s[..n];
  }

  /** A word is there in full, or not at all. */
  lemma ShortWord(w: string, s: string, r: string)
    requires '"' !in w && EndsEscaping(s)
    ensures StartsWith(s + r, w) <==> StartsWith(s, w)
    ensures StartsWith(s, w) ==> EndsEscaping(s[|w|..]) && (s + r)[|w|..] == s[|w|..] + r
  {
    if |s| < |w| && StartsWith(s + r, w) {
      assert s == (s + r)[..|w|][..|s|] == w[..|s|];
      NoQuote(s);
    } else if |w| <= |s| {
      assert (s + r)[..|w|] == s[..|w|];
      if StartsWith(s, w) {
        WordStep(w, s);
      }
    }
  }

  lemma WordStep(w: string, s: string)
    requires '"' !in w && StartsWith(s, w)
    ensures Scan(Outside, s[|w|..]) == Scan(Outside, s)
  {
    assert s == w + s[|w|..];
    ScanAppend(Outside, w, s[|w|..]);
    NoQuote(w);
  }

  lemma {:induction false} ShortValue(j: Json, s: string, r: string)
    requires EndsEscaping(s)
    ensures Shortened(ReadValue(j, s + r), ReadValue(j, s), r)
    decreases |s|, 2
  {
    EscapingHead(s, r);
    if s[0] == '"' {
      ShortString(j, "", s[1..], r);
    } else if s[0] == '[' {
      ShortArray(j, s[1..], r);
    } else if s[0] == '{' {
      ShortObject(j, s[1..], r);
    } else if s[0] == '-' || IsDigit(s[0]) {
      ShortNumber(j, s, r);
    } else {
      ShortWord("null", s, r);
      ShortWord("false", s, r);
      ShortWord("true", s, r);
      ShortPlain(j, s, r);
    }
  }

  lemma ShortPlain(j: Json, s: string, r: string)
    requires EndsEscaping(s) && s != "" && s[0] !in ['"', '[', '{', '-'] && !IsDigit(s[0])
    requires forall w :: w in ["null", "false", "true"] ==>
               && (StartsWith(s + r, w) <==> StartsWith(s, w))
               && (StartsWith(s, w) ==> EndsEscaping(s[|w|..]) && (s + r)[|w|..] == s[|w|..] + r)
    ensures Shortened(ReadValue(j, s + r), ReadValue(j, s), r)
  {
    assert "null" in ["null", "false", "true"] && "false" in ["null", "false", "true"];
    assert "true" in ["null", "false", "true"];
    assert (s + r)[0] == s[0];
  }

  lemma {:induction false} ShortArray(j: Json, s: string, r: string)
    requires EndsEscaping(s)
    ensures Shortened(ReadArray(j, Skip(s + r)), ReadArray(j, Skip(s)), r)
    decreases |s|, 5
  {
    ShortSkip(s, r);
    var v := Skip(s);
    EscapingHead(v, r);
    if !Begins(v, ']') {
      ShortItems(j.(kind := JsonArray), v, r);
    }
  }

  lemma {:induction false} ShortItems(j: Json, s: string, r: string)
    requires EndsEscaping(s)
    ensures Shortened(ReadItems(j, s + r), ReadItems(j, s), r)
    decreases |s|, 4
  {
    ShortSkip(s, r);
    ShortValue(DEFAULT, Skip(s), r);
    var q := ReadValue(DEFAULT, Skip(s));
    if q.Ok? {
      ShortSkip(q.rest, r);
      var v, longer := Skip(q.rest), j.(list := j.list + [q.json]);
      EscapingHead(v, r);
      if Begins(v, ',') {
        ShortItems(longer, v[1..], r);
      }
    }
  }

  lemma {:induction false} ShortObject(j: Json, s: string, r: string)
    requires EndsEscaping(s)
    ensures Shortened(ReadObject(j, Skip(s + r)), ReadObject(j, Skip(s)), r)
    decreases |s|, 6
  {
    ShortSkip(s, r);
    var v := Skip(s);
    EscapingHead(v, r);
    if !Begins(v, '}') {
      ShortMembers(j.(kind := JsonObject), v, r);
    }
  }

  lemma {:induction false} ShortMember(s: string, r: string)
    requires EndsEscaping(s)
    ensures Shortened(ReadMember(s + r), ReadMember(s), r)
    decreases |s|, 4
  {
    ShortSkip(s, r);
    ShortValue(DEFAULT, Skip(s), r);
    var q := ReadValue(DEFAULT, Skip(s));
    if q.Ok? {
      ShortSkip(q.rest, r);
      var v := Skip(q.rest);
      EscapingHead(v, r);
      if Begins(v, ':') {
        ShortSkip(v[1..], r);
        ShortValue(Named(q.json), Skip(v[1..]), r);
      }
    }
  }

  lemma {:induction false} ShortMembers(j: Json, s: string, r: string)
    requires EndsEscaping(s)
    ensures Shortened(ReadMembers(j, s + r), ReadMembers(j, s), r)
    decreases |s|, 5
  {
    ShortMember(s, r);
    var q := ReadMember(s);
    if q.Ok? {
      ShortSkip(q.rest, r);
      var v, longer := Skip(q.rest), j.(list := j.list + [q.json]);
      EscapingHead(v, r);
      if Begins(v, ',') {
        ShortMembers(longer, v[1..], r);
      }
    }
  }

  // The whole reader.

  /** On any text: a panic only where the text ends in an escape, and errors are reported at an end of the text. */
  lemma CrashEndsEscaping(s: string)
    ensures Creation(s) == Crash ==> EndsEscaping(s)
    ensures Creation(s).NotJson? ==> Suffix(Creation(s).at, s)
  {
    PaddedSound(DEFAULT, s);
  }

  /** Exactly which texts make the reader panic: those that end in an escape it comes to, which shows in the error
      it reports when a `u` is put after them. That longer text is always safe to read. */
  lemma CrashIff(s: string)
    ensures Creation(s) == Crash <==> EndsEscaping(s) && Creation(s + "u") == NotJson("u")
    ensures Creation(s + "u") != Crash
  {
    CrashEndsEscaping(s);
    CrashEndsEscaping(s + "u");
    if EndsEscaping(s + "u") {
      EscapingEndsInBackslash(Outside, s + "u");
    }
    if EndsEscaping(s) {
      ShortSkip(s, "u");
      ShortValue(DEFAULT, Skip(s), "u");
    }
  }

  /** A text that is read to its end and then cut off: the reader panics exactly if the cut is in an escape, in a
      string at any depth, be it a key or a value. */
  lemma CutOffText(s: string, r: string)
    requires var p := ReadValue(DEFAULT, Skip(s + r)); p.Ok? && '"' !in p.rest
    ensures Creation(s) == Crash <==> EndsEscaping(s)
  {
    CrashEndsEscaping(s);
    if EndsEscaping(s) {
      ShortSkip(s, r);
      ShortValue(DEFAULT, Skip(s), r);
      var q := ReadValue(DEFAULT, Skip(s));
      if q.Ok? {
        assert forall c <- q.rest :: c in q.rest + r;
        NoQuote(q.rest);
      }
    }
  }

  /** So it is for every JSON document, however it is written, cut off anywhere. */
  lemma CutOffDocument(before: string, t: Text, after: string, s: string, r: string)
    requires Blank(before) && Blank(after) && Valid(t) && FullText(before, t, after) == s + r
    ensures Creation(s) == Crash <==> EndsEscaping(s)
  {
    WrittenHead(t, after);
    SkipBlank(before, Written(t, after));
    BlankEnds(t, after);
    ReadBack(DEFAULT, t, after);
    CutOffText(s, r);
  }

  /** The shortest text that makes the reader panic, and one that ends in an escape the reader does not come to. */
  lemma OneBackslashCrashes()
    ensures Creation(['"', '\\']) == Crash
    ensures EndsEscaping([':', '"', '\\']) && Creation([':', '"', '\\']) == Tree(DEFAULT)
  {
  }
}
