/** The two passes of the LZF decompressor, on any input at all. */
module LzfDecompressor {
  import opened Wrappers
  import opened LzfTokens

  /** The bytes a compressed buffer stands for; None when it is cut off or refers back too far. */
  function Decoded(buf: seq<byte>): Option<seq<byte>> {
    Resume(buf, 0, [])
  }

  /** The same, from the middle of the buffer with `out` already produced. */
  function Resume(buf: seq<byte>, ip: nat, out: seq<byte>): Option<seq<byte>> {
    match Parse(buf, ip)
    case None => None
    case Some(ts) => Eval(out, ts)
  }

  /** The size the sizing pass adds up. It checks nothing, so it is defined for malformed input too. */
  function SizeFrom(buf: seq<byte>, ip: nat): nat
    decreases |buf| - ip
  {
    if ip >= |buf| - 1 then 0
    else
      var b: int := buf[ip];
      if b < 32 then b + 1 + SizeFrom(buf, ip + 2 + b)
      else if b < 224 then b / 32 + 2 + SizeFrom(buf, ip + 2)
      else buf[ip + 1] + 9 + SizeFrom(buf, ip + 3)
  }

  /** On well-formed input the sizing pass is exact; on any other it finds something to produce. */
  lemma {:induction false} SizeIsExact(buf: seq<byte>, ip: nat)
    ensures Parse(buf, ip).Some? ==> SizeFrom(buf, ip) == Produced(Parse(buf, ip).value)
    ensures Parse(buf, ip).None? ==> SizeFrom(buf, ip) > 0
    decreases |buf| - ip
  {
    if ip < |buf| - 1 && ParseToken(buf, ip).Some? {
      var (t, next) := ParseToken(buf, ip).value;
      SizeIsExact(buf, next);
      if Parse(buf, next).Some? {
        assert Parse(buf, ip).value[1..] == Parse(buf, next).value;
      }
    }
  }

  lemma SizeOfDecoded(buf: seq<byte>)
    ensures Decoded(buf).Some? ==> |Decoded(buf).value| == SizeFrom(buf, 0)
    ensures Decoded(buf).None? ==> SizeFrom(buf, 0) > 0
  {
    SizeIsExact(buf, 0);
    if Parse(buf, 0).Some? {
      EvalLength([], Parse(buf, 0).value);
    }
  }

  /** One token on from `ip`. */
  lemma ResumeToken(buf: seq<byte>, ip: nat, out: seq<byte>)
    requires ip < |buf| - 1
    ensures ParseToken(buf, ip).None? ==> Resume(buf, ip, out).None?
    ensures ParseToken(buf, ip).Some? ==>
              var (t, next) := ParseToken(buf, ip).value;
              match Apply(out, t)
              case None => Resume(buf, ip, out).None?
              case Some(o) => Resume(buf, ip, out) == Resume(buf, next, o)
  {
    if ParseToken(buf, ip).Some? {
      var (t, next) := ParseToken(buf, ip).value;
      if Parse(buf, next).Some? {
        assert Parse(buf, ip).value[1..] == Parse(buf, next).value;
      }
    }
  }

  /** What is decoded is never shorter than what has been produced on the way. */
  lemma ResumeGrows(buf: seq<byte>, ip: nat, out: seq<byte>)
    ensures Resume(buf, ip, out).Some? ==> |out| <= |Resume(buf, ip, out).value|
  {
    if Parse(buf, ip).Some? {
      EvalLength(out, Parse(buf, ip).value);
    }
  }

  lemma {:induction false} CopyBackStep(out: seq<byte>, distance: nat, len: nat)
    requires 1 <= distance <= |out|
    ensures var sofar := CopyBack(out, distance, len);
            CopyBack(out, distance, len + 1) == sofar + [sofar[|sofar| - distance]]
    decreases len
  {
    if len > 0 {
      CopyBackStep(out + [out[|out| - distance]], distance, len - 1);
    }
  }

  /** The first pass: how much room the output needs. It reads only what is there. */
  method CalcDecompressedSize(input: seq<byte>) returns (opl: nat)
    ensures opl == SizeFrom(input, 0)
  {
    opl := 0;
    if |input| == 0 {
      return;
    }
    var ipLimit := |input| - 1;
    var ip := 0;
    while ip < ipLimit
      invariant opl + SizeFrom(input, ip) == SizeFrom(input, 0)
      decreases |input| - ip
    {
      var byte0: int := input[ip];
      var ctrl := byte0 + 1;
      var len := byte0 / 32;
      ip := ip + 1;
      if ctrl < 33 {
        opl := opl + ctrl;
        ip := ip + ctrl;
      } else {
        len := len - 1;
        if len == 6 {
          len := len + input[ip];
          ip := ip + 1;
        }
        ip := ip + 1;
        opl := opl + 3;
        if len > 0 {
          opl := opl + len;
        }
      }
    }
  }

  /** Copies `n` literals; false stands for running off the input. */
  method CopyLiterals(input: seq<byte>, ip: nat, output: array<byte>, op: nat, n: nat) returns (ok: bool)
    requires op + n <= output.Length
    modifies output
    ensures ok == (n == 0 || ip + n <= |input|)
    ensures ok && n > 0 ==> output[..op + n] == old(output[..op]) + input[ip..ip + n]
  {
    ghost var out := output[..op];
    for k := 0 to n
      invariant (k == 0 || ip + k <= |input|) && output[..op + k] == out + if k == 0 then [] else input[ip..ip + k]
    {
      if ip + k >= |input| {
        return false;
      }
      output[op + k] := input[ip + k];
      SliceJoin(input, ip, ip + k, ip + k + 1);
    }
    ok := true;
  }

  /** Copies `n` bytes within the output, front to back, so that an overlapping reference repeats. */
  method CopyWithin(output: array<byte>, op: nat, distance: nat, n: nat) returns (ghost grown: seq<byte>)
    requires 1 <= distance <= op && op + n <= output.Length
    modifies output
    ensures grown == CopyBack(old(output[..op]), distance, n)
    ensures output[..op + n] == grown
  {
    ghost var out := output[..op];
    for k := 0 to n
      invariant output[..op + k] == CopyBack(out, distance, k)
    {
      CopyBackStep(out, distance, k);
      output[op + k] := output[op + k - distance];
    }
    grown := CopyBack(out, distance, n);
  }

  // ---- Which of the two ends a buffer comes to that does not decode, or not in the room there is.

  /** Whether the pass runs off the input, with `size` bytes produced so far: it comes to a token that is cut off
      before one that does not fit or refers back too far. A run of literals must fit to be read at all. */
  predicate RunsOff(buf: seq<byte>, ip: nat, size: nat, room: nat)
    decreases |buf| - ip
  {
    ip < |buf| - 1
    && match ParseToken(buf, ip)
       case None => LiteralsFit(buf, ip, size, room)
       case Some((t, next)) =>
         size + Length(t) <= room && Reaches(t, size) && RunsOff(buf, next, size + Length(t), room)
  }

  predicate LiteralsFit(buf: seq<byte>, ip: nat, size: nat, room: nat)
    requires ip < |buf|
  {
    buf[ip] < 32 ==> size + buf[ip] as int + 1 <= room
  }

  predicate Reaches(t: Token, size: nat) {
    t.Match? ==> t.distance <= size
  }

  function Length(t: Token): nat {
    match t
    case Literals(bytes) => |bytes|
    case Match(_, len) => len
  }

  /** The tokens before the first one that is cut off, and where that is. */
  function WholeTokens(buf: seq<byte>, ip: nat): (seq<Token>, nat)
    decreases |buf| - ip
  {
    if ip >= |buf| - 1 || ParseToken(buf, ip).None? then ([], ip)
    else
      var (t, next) := ParseToken(buf, ip).value;
      var (ts, at) := WholeTokens(buf, next);
      ([t] + ts, at)
  }

  /** That is the case exactly if the buffer is cut off, the whole tokens before the cut mean something that fits,
      and so do the literals that are cut. */
  lemma {:induction false} RunsOffIff(buf: seq<byte>, ip: nat, out: seq<byte>, room: nat)
    requires |out| <= room
    ensures var (ts, at) := WholeTokens(buf, ip);
            RunsOff(buf, ip, |out|, room) <==>
            && Parse(buf, ip).None?
            && (match Eval(out, ts)
                case None => false
                case Some(o) => |o| <= room && at < |buf| && LiteralsFit(buf, at, |o|, room))
    decreases |buf| - ip
  {
    if ip < |buf| - 1 && ParseToken(buf, ip).Some? {
      var (t, next) := ParseToken(buf, ip).value;
      var (ts, at) := WholeTokens(buf, next);
      assert ([t] + ts)[1..] == ts;
      if Apply(out, t).Some? {
        var o := Apply(out, t).value;
        EvalLength(o, ts);
        if |o| <= room {
          RunsOffIff(buf, next, o, room);
        }
      }
    }
  }

  /** What the second pass returns from the middle of the buffer. */
  function Returned(buf: seq<byte>, ip: nat, out: seq<byte>, room: nat): Option<nat> {
    var x := Resume(buf, ip, out);
    if x.Some? && |x.value| <= room then Some(|x.value|)
    else if RunsOff(buf, ip, |out|, room) then None
    else Some(0)
  }

  /** A token that is read, by its effect; and that the content is decided with the size. */
  lemma ReturnedToken(buf: seq<byte>, ip: nat, out: seq<byte>, room: nat)
    requires ip < |buf| - 1 && |out| <= room
    ensures match ParseToken(buf, ip)
            case None => Returned(buf, ip, out, room) == if LiteralsFit(buf, ip, |out|, room) then None else Some(0)
            case Some((t, next)) =>
              if |out| + Length(t) > room || !Reaches(t, |out|) then Returned(buf, ip, out, room) == Some(0)
              else
                && Resume(buf, ip, out) == Resume(buf, next, Apply(out, t).value)
                && Returned(buf, ip, out, room) == Returned(buf, next, Apply(out, t).value, room)
  {
    ResumeToken(buf, ip, out);
    if ParseToken(buf, ip).Some? {
      var (t, next) := ParseToken(buf, ip).value;
      if Reaches(t, |out|) {
        ResumeGrows(buf, next, Apply(out, t).value);
      }
    }
  }

  /** The pass is at `ip` with `out` produced: from there it returns, and decodes, what it does from the start.
      It is stated through `k` so that only the lemmas about it look inside. */
  ghost predicate OnTrack(buf: seq<byte>, ip: nat, out: seq<byte>, room: nat, want: Option<nat>) {
    forall k: nat {:trigger Parse(buf, k)} :: k == ip ==>
      Resume(buf, k, out) == Decoded(buf) && Returned(buf, k, out, room) == want
  }

  lemma TrackLiterals(buf: seq<byte>, ip: nat, out: seq<byte>, room: nat, want: Option<nat>, ctrl: nat)
    requires OnTrack(buf, ip, out, room, want)
    requires ip < |buf| - 1 && |out| <= room && buf[ip] < 32 && ctrl == buf[ip] as int + 1
    ensures |out| + ctrl > room ==> want == Some(0)
    ensures |out| + ctrl <= room && ip + 1 + ctrl > |buf| ==> want == None
    ensures |out| + ctrl <= room && ip + 1 + ctrl <= |buf| ==>
              OnTrack(buf, ip + 1 + ctrl, out + buf[ip + 1..ip + 1 + ctrl], room, want)
  {
    var here := Parse(buf, ip);
    ReturnedToken(buf, ip, out, room);
  }

  lemma TrackMatch(buf: seq<byte>, ip: nat, out: seq<byte>, room: nat, want: Option<nat>,
                   distance: nat, len: nat, next: nat)
    requires OnTrack(buf, ip, out, room, want)
    requires ip < |buf| - 1 && |out| <= room && 1 <= distance <= 8192 && 3 <= len <= 264
    requires ParseToken(buf, ip) == Some((Match(distance, len), next))
    ensures |out| + len > room || distance > |out| ==> want == Some(0)
    ensures |out| + len <= room && distance <= |out| ==>
              OnTrack(buf, next, CopyBack(out, distance, len), room, want)
  {
    var here := Parse(buf, ip);
    ReturnedToken(buf, ip, out, room);
  }

  lemma TrackCut(buf: seq<byte>, ip: nat, out: seq<byte>, room: nat, want: Option<nat>)
    requires OnTrack(buf, ip, out, room, want)
    requires ip < |buf| - 1 && |out| <= room && buf[ip] >= 32 && ParseToken(buf, ip).None?
    ensures want == None
  {
    var here := Parse(buf, ip);
    ReturnedToken(buf, ip, out, room);
  }

  lemma TrackEnd(buf: seq<byte>, ip: nat, out: seq<byte>, room: nat, want: Option<nat>)
    requires OnTrack(buf, ip, out, room, want) && ip >= |buf| - 1 && |out| <= room
    ensures want == Some(|out|) && Decoded(buf) == Some(out)
  {
    assert Parse(buf, ip) == Some([]);
  }

  /** The rest of a back-reference whose control byte is before `start`: its full length less 3, and where it
      refers to; or that it is cut off. */
  method ReadReference(input: seq<byte>, start: nat, op: nat, ofs: nat, len0: nat)
      returns (cut: bool, ip: nat, len: nat, refp: int)
    requires 0 < start < |input| && input[start - 1] >= 32
    requires ofs == input[start - 1] as int % 32 * 256 && len0 == input[start - 1] as int / 32
    ensures cut <==> ParseToken(input, start - 1).None?
    ensures !cut ==> start < ip <= |input| && 0 < op - refp <= 8192 && 3 <= len + 3 <= 264
                     && ParseToken(input, start - 1) == Some((Match(op - refp, len + 3), ip))
  {
    ip, len := start, len0 - 1;
    refp := op - ofs - 1;
    if len == 6 {
      len := len + input[ip];
      ip := ip + 1;
    }
    cut := ip >= |input|;
    if cut {
      return;
    }
    refp := refp - input[ip];
    ip := ip + 1;
  }

  /** A literal run: true stands for an end, with what is returned then. */
  method PutLiterals(input: seq<byte>, ip0: nat, output: array<byte>, op0: nat, ctrl: nat, ghost want: Option<nat>)
    returns (stop: bool, r: Option<nat>, ip: nat, op: nat)
    requires 0 < ip0 < |input| && op0 <= output.Length && input[ip0 - 1] < 32 && ctrl == input[ip0 - 1] as int + 1
    requires OnTrack(input, ip0 - 1, output[..op0], output.Length, want)
    modifies output
    ensures stop ==> r == want && (r == None || r == Some(0))
    ensures !stop ==> ip0 < ip <= |input| && op <= output.Length
                      && OnTrack(input, ip, output[..op], output.Length, want)
  {
    stop, r, ip, op := true, Some(0), ip0, op0;
    TrackLiterals(input, ip - 1, output[..op], output.Length, want, ctrl);
    if op + ctrl > output.Length {
      return;
    }
    var ok := CopyLiterals(input, ip, output, op, ctrl);
    if !ok {
      r := None;
      return;
    }
    stop, ip, op := false, ip + ctrl, op + ctrl;
  }

  /** A back-reference, likewise. */
  method PutReference(input: seq<byte>, ip0: nat, output: array<byte>, op0: nat, ghost want: Option<nat>)
    returns (stop: bool, r: Option<nat>, ip: nat, op: nat)
    requires 0 < ip0 < |input| && op0 <= output.Length && input[ip0 - 1] >= 32
    requires OnTrack(input, ip0 - 1, output[..op0], output.Length, want)
    modifies output
    ensures stop ==> r == want && (r == None || r == Some(0))
    ensures !stop ==> ip0 < ip <= |input| && op <= output.Length
                      && OnTrack(input, ip, output[..op], output.Length, want)
  {
    var byte0: int := input[ip0 - 1];
    stop, r, ip, op := true, Some(0), ip0, op0;
    var cut, len, refp;
    cut, ip, len, refp := ReadReference(input, ip0, op, byte0 % 32 * 256, byte0 / 32);
    if cut {
      TrackCut(input, ip0 - 1, output[..op], output.Length, want);
      r := None;
      return;
    }
    TrackMatch(input, ip0 - 1, output[..op], output.Length, want, op - refp, len + 3, ip);
    if op + len + 3 > output.Length {
      return;
    }
    if refp < 0 {
      return;
    }
    ghost var grown := CopyWithin(output, op, op - refp, len + 3);
    stop, op := false, op + len + 3;
  }

  /** The second pass. Some(n) is the returned count, 0 doubling as the error value; None is a panic
      on reading past the input. */
  method Decompress(input: seq<byte>, output: array<byte>) returns (r: Option<nat>)
    modifies output
    ensures r == if Decoded(input).Some? && |Decoded(input).value| <= output.Length then Some(|Decoded(input).value|)
                 else if RunsOff(input, 0, 0, output.Length) then None
                 else Some(0)
    ensures Decoded(input).Some? && |Decoded(input).value| <= output.Length ==>
              output[..|Decoded(input).value|] == Decoded(input).value
  {
    if |input| == 0 {
      return Some(0);
    }
    var ipLimit := |input| - 1;
    var ip, op := 0, 0;
    ghost var want := Returned(input, 0, [], output.Length);
    assert output[..0] == [];
    while ip < ipLimit
      invariant 0 <= ip <= |input| && 0 <= op <= output.Length
      invariant OnTrack(input, ip, output[..op], output.Length, want)
    {
      var ctrl := input[ip] as int + 1;
      var stop;
      ip := ip + 1;
      if ctrl < 33 {
        stop, r, ip, op := PutLiterals(input, ip, output, op, ctrl, want);
      } else {
        stop, r, ip, op := PutReference(input, ip, output, op, want);
      }
      if stop {
        assert output[..0] == [];
        return;
      }
    }
    TrackEnd(input, ip, output[..op], output.Length, want);
    return Some(op);
  }
}
