/** Lines from bytes that arrive in chunks cut anywhere. Lines stay bytes; whether one is blank as text is
    asked of the caller. */
module LineAssembler {
  import opened Wrappers

  type Bytes = seq<bv8>

  const NL: bv8 := 10
  const CR: bv8 := 13

  // The reference: one byte at a time, with the open line so far.

  /** A finished line as it is handed on: without one carriage return, and not at all if nothing is left. */
  function Finished(line: Bytes): seq<Bytes> {
    var text := WithoutReturn(line);
    if text == [] then [] else [text]
  }

  function WithoutReturn(line: Bytes): Bytes {
    if line != [] && line[|line| - 1] == CR then line[..|line| - 1] else line
  }

  function Lines(open: Bytes, s: Bytes): seq<Bytes>
    decreases |s|
  {
    if s == [] then []
    else if s[0] == NL then Finished(open) + Lines([], s[1..])
    else Lines(open + [s[0]], s[1..])
  }

  function Open(open: Bytes, s: Bytes): Bytes
    decreases |s|
  {
    if s == [] then open else Open(if s[0] == NL then [] else open + [s[0]], s[1..])
  }

  /** The lines and the open line do not depend on where the bytes are cut. */
  lemma {:induction false} CutAnywhere(open: Bytes, a: Bytes, b: Bytes)
    ensures Lines(open, a + b) == Lines(open, a) + Lines(Open(open, a), b)
    ensures Open(open, a + b) == Open(Open(open, a), b)
    decreases |a|
  {
    if a == [] {
      assert a + b == b;
    } else {
      assert (a + b)[1..] == a[1..] + b;
      if a[0] == NL {
        CutAnywhere([], a[1..], b);
        AppendAssociates(Finished(open), Lines([], a[1..]), Lines(Open([], a[1..]), b));
      } else {
        CutAnywhere(open + [a[0]], a[1..], b);
      }
    }
  }

  // The assembler: whole segments up to the last newline.

  /** The segments between newlines, the one after the last newline included; `open` starts the first. */
  function Segments(open: Bytes, s: Bytes): seq<Bytes>
    decreases |s|
  {
    if s == [] then [open]
    else if s[0] == NL then [open] + Segments([], s[1..])
    else Segments(open + [s[0]], s[1..])
  }

  function Shown(segments: seq<Bytes>): seq<Bytes> {
    if segments == [] then []
    else (if segments[0] == [] then [] else Finished(segments[0])) + Shown(segments[1..])
  }

  /** What ends in a newline has no open line, and its segments are its lines. */
  lemma {:induction false} SegmentsAreLines(open: Bytes, s: Bytes)
    requires s != [] && s[|s| - 1] == NL
    ensures Shown(Segments(open, s)) == Lines(open, s) && Open(open, s) == []
    decreases |s|
  {
    if s[0] == NL {
      assert ([open] + Segments([], s[1..]))[1..] == Segments([], s[1..]);
      if |s| == 1 {
        assert Shown([[]]) == [] + Shown([[]][1..]);
      } else {
        SegmentsAreLines([], s[1..]);
      }
    } else {
      SegmentsAreLines(open + [s[0]], s[1..]);
    }
  }

  /** Bytes without a newline only lengthen the open line. */
  lemma {:induction false} NoNewline(open: Bytes, s: Bytes)
    requires NL !in s
    ensures Lines(open, s) == [] && Open(open, s) == open + s
    decreases |s|
  {
    if s == [] {
      assert open + s == open;
    } else {
      assert s[0] in s && forall b <- s[1..] :: b in s;
      NoNewline(open + [s[0]], s[1..]);
      AppendAssociates(open, [s[0]], s[1..]);
      assert s == [s[0]] + s[1..];
    }
  }

  /** One past the last newline, or 0. */
  method AfterLastNewline(s: Bytes) returns (n: nat)
    ensures n <= |s| && NL !in s[n..] && (n > 0 ==> s[n - 1] == NL)
  {
    n := |s|;
    while n > 0 && s[n - 1] != NL
      invariant n <= |s| && NL !in s[n..]
    {
      assert s[n - 1..] == [s[n - 1]] + s[n..];
      n := n - 1;
    }
  }

  class LineAssembler {
    var partial: Bytes

    constructor ()
      ensures partial == []
    {
      partial := [];
    }

    method Feed(chunk: Bytes) returns (lines: seq<Bytes>)
      requires NL !in partial
      modifies this
      ensures NL !in partial
      ensures lines == Lines(old(partial), chunk) && partial == Open(old(partial), chunk)
    {
      WholeBuffer(partial, chunk);
      partial := partial + chunk;
      var n := AfterLastNewline(partial);
      Halves(partial, n);
      if n == 0 {
        return [];
      }
      var complete := partial[..n];
      partial := partial[n..];
      return Shown(Segments([], complete));
    }

    /** The unterminated rest, once, if there is anything in it to see. */
    method Flush(blank: Bytes -> bool) returns (line: Option<Bytes>)
      modifies this
      ensures partial == []
      ensures line == if old(partial) == [] || blank(old(partial)) then None else Some(old(partial))
    {
      if partial == [] {
        return None;
      }
      var text := partial;
      partial := [];
      return if blank(text) then None else Some(text);
    }
  }

  lemma WholeBuffer(partial: Bytes, chunk: Bytes)
    requires NL !in partial
    ensures Lines(partial, chunk) == Lines([], partial + chunk)
    ensures Open(partial, chunk) == Open([], partial + chunk)
  {
    NoNewline([], partial);
    CutAnywhere([], partial, chunk);
    assert [] + partial == partial;
    assert [] + Lines(partial, chunk) == Lines(partial, chunk);
  }

  lemma Halves(buffer: Bytes, n: nat)
    requires n <= |buffer| && NL !in buffer[n..] && (n > 0 ==> buffer[n - 1] == NL)
    ensures Open([], buffer) == buffer[n..]
    ensures Lines([], buffer) == if n == 0 then [] else Shown(Segments([], buffer[..n]))
  {
    if n == 0 {
      assert buffer[n..] == buffer;
      OneHalf(buffer);
    } else {
      TwoHalves(buffer[..n], buffer[n..]);
      assert buffer[..n] + buffer[n..] == buffer;
    }
  }

  lemma OneHalf(rest: Bytes)
    requires NL !in rest
    ensures Open([], rest) == rest && Lines([], rest) == []
  {
    NoNewline([], rest);
    assert [] + rest == rest;
  }

  lemma TwoHalves(complete: Bytes, rest: Bytes)
    requires complete != [] && complete[|complete| - 1] == NL && NL !in rest
    ensures Open([], complete + rest) == rest
    ensures Lines([], complete + rest) == Shown(Segments([], complete))
  {
    CutAnywhere([], complete, rest);
    SegmentsAreLines([], complete);
    NoNewline([], rest);
    assert [] + rest == rest;
    assert Lines([], complete) + [] == Lines([], complete);
  }

  // Whole runs.

  function Concat(chunks: seq<Bytes>): Bytes {
    if chunks == [] then [] else chunks[0] + Concat(chunks[1..])
  }

  /** What feeding chunk after chunk hands on. */
  function Fed(open: Bytes, chunks: seq<Bytes>): seq<Bytes>
    decreases |chunks|
  {
    if chunks == [] then [] else Lines(open, chunks[0]) + Fed(Open(open, chunks[0]), chunks[1..])
  }

  /** It is what one chunk of all the bytes would hand on. */
  lemma {:induction false} FedIsLines(open: Bytes, chunks: seq<Bytes>)
    ensures Fed(open, chunks) == Lines(open, Concat(chunks))
    decreases |chunks|
  {
    if chunks != [] {
      FedIsLines(Open(open, chunks[0]), chunks[1..]);
      CutAnywhere(open, chunks[0], Concat(chunks[1..]));
    }
  }

  /** A line as it is written to the log; it may have no text. */
  datatype Written = Written(text: Bytes, withReturn: bool) {
    predicate Valid() {
      NL !in text && (withReturn || text == [] || text[|text| - 1] != CR)
    }

    function Bytes(): Bytes {
      text + (if withReturn then [CR, NL] else [NL])
    }
  }

  function LogOf(ws: seq<Written>): Bytes {
    if ws == [] then [] else ws[0].Bytes() + LogOf(ws[1..])
  }

  function Texts(ws: seq<Written>): seq<Bytes> {
    if ws == [] then []
    else if ws[0].text == [] then Texts(ws[1..])
    else [ws[0].text] + Texts(ws[1..])
  }

  /** Written lines come back one for one, whichever line ends they have, but for those without text, and so
      does an unfinished one. */
  lemma {:induction false} LinesBack(ws: seq<Written>, rest: Bytes)
    requires (forall w <- ws :: w.Valid()) && NL !in rest
    ensures Lines([], LogOf(ws) + rest) == Texts(ws) && Open([], LogOf(ws) + rest) == rest
    decreases |ws|
  {
    if ws == [] {
      assert LogOf(ws) + rest == rest && [] + rest == rest;
      NoNewline([], rest);
    } else {
      assert ws[0] in ws && forall w <- ws[1..] :: w in ws;
      LineBack(ws[0]);
      AppendAssociates(ws[0].Bytes(), LogOf(ws[1..]), rest);
      CutAnywhere([], ws[0].Bytes(), LogOf(ws[1..]) + rest);
      LinesBack(ws[1..], rest);
    }
  }

  lemma LineBack(w: Written)
    requires w.Valid()
    ensures Lines([], w.Bytes()) == (if w.text == [] then [] else [w.text]) && Open([], w.Bytes()) == []
  {
    var line := if w.withReturn then w.text + [CR] else w.text;
    assert w.Bytes() == line + [NL];
    LineEnds(line);
    assert WithoutReturn(line) == w.text;
  }

  lemma LineEnds(line: Bytes)
    requires NL !in line
    ensures Lines([], line + [NL]) == Finished(line) && Open([], line + [NL]) == []
  {
    CutAnywhere([], line, [NL]);
    NoNewline([], line);
    assert [] + line == line;
    OneNewline(line);
    assert [] + Finished(line) == Finished(line);
  }

  lemma OneNewline(open: Bytes)
    ensures Lines(open, [NL]) == Finished(open) && Open(open, [NL]) == []
  {
    assert [NL][1..] == [];
    assert Finished(open) + [] == Finished(open);
  }
}
