/** The LZF wire format: control bytes, and what a stream of them means.
    A compressed buffer is a run of tokens; a token is either a run of 1..32 literal bytes or a
    back-reference into the bytes produced so far. */
module LzfTokens {
  import opened Wrappers

  type byte = x: int | 0 <= x < 256

  datatype RawToken = Literals(bytes: seq<byte>) | Match(distance: nat, len: nat)

  /** What one control byte (with its extension byte) can express. */
  predicate Encodable(t: RawToken) {
    match t
    case Literals(bytes) => 1 <= |bytes| <= 32
    case Match(distance, len) => 1 <= distance <= 8192 && 3 <= len <= 264
  }

  type Token = t: RawToken | Encodable(t) witness Match(1, 3)

  /** The bytes of one token on the wire. */
  function Wire(t: Token): (w: seq<byte>)
    ensures |w| == match t
                   case Literals(bytes) => |bytes| + 1
                   case Match(_, len) => if len < 9 then 2 else 3
  {
    match t
    case Literals(bytes) => [|bytes| - 1] + bytes
    case Match(distance, len) => Reference(distance, len)
  }

  /** The two or three bytes of a back-reference: the distance less one, high bits first, around a
      length of which 2 is taken off, or 9 when it needs the extension byte. */
  function Reference(distance: nat, len: nat): (w: seq<byte>)
    requires 1 <= distance <= 8192 && 3 <= len <= 264
    ensures |w| == if len < 9 then 2 else 3
  {
    var hi, lo := (distance - 1) / 256, (distance - 1) % 256;
    if len < 9 then [32 * (len - 2) + hi, lo] else [224 + hi, len - 9, lo]
  }

  /** The fields of a back-reference: three bits of its length less 2, an extension byte for lengths from 9 on,
      and thirteen bits of its distance less 1. */
  lemma ReferenceFields(distance: nat, len: nat)
    requires 1 <= distance <= 8192 && 3 <= len <= 264
    ensures var w := Reference(distance, len);
            && w[0] / 32 == (if len < 9 then len - 2 else 7)
            && w[0] % 32 * 256 + w[|w| - 1] as int + 1 == distance
            && (len >= 9 ==> w[1] as int + 9 == len)
  {
    var hi, lo, n := (distance - 1) / 256, (distance - 1) % 256, if len < 9 then len - 2 else 7;
    Field(n, hi);
  }

  lemma Field(n: nat, hi: nat)
    requires hi < 32
    ensures (32 * n + hi) / 32 == n && (32 * n + hi) % 32 == hi
  {
  }

  function WireAll(ts: seq<Token>): seq<byte> {
    if ts == [] then [] else Wire(ts[0]) + WireAll(ts[1..])
  }

  lemma {:induction false} WireAllAppend(a: seq<Token>, b: seq<Token>)
    ensures WireAll(a + b) == WireAll(a) + WireAll(b)
  {
    if a == [] {
      assert a + b == b;
    } else {
      WireAllAppend(a[1..], b);
      WireAllFirst(a, b);
      AppendAssociates(Wire(a[0]), WireAll(a[1..]), WireAll(b));
    }
  }

  lemma WireAllFirst(a: seq<Token>, b: seq<Token>)
    requires a != []
    ensures WireAll(a + b) == Wire(a[0]) + WireAll(a[1..] + b)
  {
    assert (a + b)[1..] == a[1..] + b;
  }

  /** Appends `len` bytes, each read `distance` back from the end as it grows: a reference that is
      longer than its distance reads bytes it has itself produced. */
  function CopyBack(out: seq<byte>, distance: nat, len: nat): (r: seq<byte>)
    requires 1 <= distance <= |out|
    ensures |r| == |out| + len
    decreases len
  {
    if len == 0 then out else CopyBack(out + [out[|out| - distance]], distance, len - 1)
  }

  /** A reference keeps what was there and repeats it with the period `distance`. */
  lemma {:induction false} CopyBackRepeats(out: seq<byte>, distance: nat, len: nat, k: nat)
    requires 1 <= distance <= |out| && k < |out| + len
    ensures CopyBack(out, distance, len)[k] ==
            if k < |out| then out[k] else CopyBack(out, distance, len)[k - distance]
    decreases len
  {
    if len > 0 {
      var longer := out + [out[|out| - distance]];
      CopyBackRepeats(longer, distance, len - 1, k);
      if k == |out| {
        CopyBackRepeats(longer, distance, len - 1, k - distance);
      }
    }
  }

  /** One token applied to the bytes produced so far; None when it reaches before their start. */
  function Apply(out: seq<byte>, t: Token): Option<seq<byte>> {
    match t
    case Literals(bytes) => Some(out + bytes)
    case Match(distance, len) => if distance <= |out| then Some(CopyBack(out, distance, len)) else None
  }

  /** The meaning of a token stream. */
  function Eval(out: seq<byte>, ts: seq<Token>): Option<seq<byte>>
    decreases |ts|
  {
    if ts == [] then Some(out)
    else match Apply(out, ts[0])
      case None => None
      case Some(o) => Eval(o, ts[1..])
  }

  lemma {:induction false} EvalAppend(out: seq<byte>, a: seq<Token>, b: seq<Token>)
    requires Eval(out, a).Some?
    ensures Eval(out, a + b) == Eval(Eval(out, a).value, b)
    decreases |a|
  {
    if a == [] {
      assert a + b == b;
    } else {
      EvalAppend(Apply(out, a[0]).value, a[1..], b);
      assert (a + b)[1..] == a[1..] + b;
    }
  }

  lemma EvalThen(out: seq<byte>, ts: seq<Token>, mid: seq<byte>, t: Token, end: seq<byte>)
    requires Eval(out, ts) == Some(mid) && Apply(mid, t) == Some(end)
    ensures Eval(out, ts + [t]) == Some(end)
  {
    EvalAppend(out, ts, [t]);
    assert [t][1..] == [];
  }

  /** The number of bytes a token stream produces. */
  function Produced(ts: seq<Token>): nat {
    if ts == [] then 0
    else (match ts[0] case Literals(bytes) => |bytes| case Match(_, len) => len) + Produced(ts[1..])
  }

  lemma {:induction false} EvalLength(out: seq<byte>, ts: seq<Token>)
    ensures Eval(out, ts).Some? ==> |Eval(out, ts).value| == |out| + Produced(ts)
    decreases |ts|
  {
    if ts != [] && Apply(out, ts[0]).Some? {
      EvalLength(Apply(out, ts[0]).value, ts[1..]);
    }
  }

  /** Reads the token that starts at `ip`, and where the next one starts; None when it is cut off. */
  function ParseToken(buf: seq<byte>, ip: nat): (r: Option<(Token, nat)>)
    requires ip < |buf| - 1
    ensures r.Some? ==> ip + 2 <= r.value.1 <= |buf|
  {
    var b: int, x: int := buf[ip], buf[ip + 1];
    if b < 32 then
      if ip + 2 + b <= |buf| then Some((Literals(buf[ip + 1..ip + 2 + b]), ip + 2 + b)) else None
    else if b < 224 then
      Some((Match(b % 32 * 256 + x + 1, b / 32 + 2), ip + 2))
    else if ip + 2 < |buf| then
      var y: int := buf[ip + 2];
      Some((Match(b % 32 * 256 + y + 1, x + 9), ip + 3))
    else
      None
  }

  /** Reads tokens to the end of the buffer. A lone last byte starts no token and is ignored. */
  function Parse(buf: seq<byte>, ip: nat): Option<seq<Token>>
    decreases |buf| - ip
  {
    if ip >= |buf| - 1 then Some([])
    else match ParseToken(buf, ip)
      case None => None
      case Some((t, next)) =>
        match Parse(buf, next)
        case None => None
        case Some(ts) => Some([t] + ts)
  }

  /** Parsing inverts the wire format. */
  lemma {:induction false} ParseWire(buf: seq<byte>, ip: nat, ts: seq<Token>)
    requires ip <= |buf| && buf[ip..] == WireAll(ts)
    ensures Parse(buf, ip) == Some(ts)
    decreases |ts|, 1
  {
    if ts != [] {
      ParseWireFirst(buf, ip, ts[0], ts[1..]);
      assert ts == [ts[0]] + ts[1..];
    }
  }

  lemma {:induction false} ParseWireFirst(buf: seq<byte>, ip: nat, t: Token, ts: seq<Token>)
    requires ip <= |buf| && buf[ip..] == Wire(t) + WireAll(ts)
    ensures Parse(buf, ip) == Some([t] + ts)
    decreases |ts| + 1, 0
  {
    var next := ip + |Wire(t)|;
    ParseFirst(buf, ip, t, WireAll(ts));
    ParseWire(buf, next, ts);
    ParseOn(buf, ip, t, next, ts);
  }

  lemma ParseFirst(buf: seq<byte>, ip: nat, t: Token, wire: seq<byte>)
    requires ip <= |buf| && buf[ip..] == Wire(t) + wire
    ensures ip < |buf| - 1 && ParseToken(buf, ip) == Some((t, ip + |Wire(t)|))
    ensures ip + |Wire(t)| <= |buf| && buf[ip + |Wire(t)|..] == wire
  {
    SuffixSplit(buf, ip, Wire(t), wire);
    ParseWireToken(buf, ip, t);
  }

  lemma ParseOn(buf: seq<byte>, ip: nat, t: Token, next: nat, ts: seq<Token>)
    requires ip < |buf| - 1 && ParseToken(buf, ip) == Some((t, next)) && Parse(buf, next) == Some(ts)
    ensures Parse(buf, ip) == Some([t] + ts)
  {
  }

  lemma ParseWireToken(buf: seq<byte>, ip: nat, t: Token)
    requires ip + |Wire(t)| <= |buf| && buf[ip..ip + |Wire(t)|] == Wire(t)
    ensures ip < |buf| - 1 && ParseToken(buf, ip) == Some((t, ip + |Wire(t)|))
  {
    var w := Wire(t);
    var here := buf[ip..ip + |w|];
    assert buf[ip] == here[0] && buf[ip + 1] == here[1];
    match t
    case Literals(bytes) =>
      assert buf[ip + 1..ip + |w|] == here[1..] == bytes;
    case Match(distance, len) =>
      if len >= 9 {
        assert buf[ip + 2] == here[2];
      }
  }

  /** Rewriting what was parsed gives the buffer back, but for at most one ignored last byte. */
  lemma {:induction false} WireParse(buf: seq<byte>, ip: nat)
    requires ip <= |buf|
    requires Parse(buf, ip).Some?
    ensures var w := WireAll(Parse(buf, ip).value);
            |buf| - ip - 1 <= |w| <= |buf| - ip && buf[ip..ip + |w|] == w
    decreases |buf| - ip
  {
    if ip < |buf| - 1 {
      var (t, next) := ParseToken(buf, ip).value;
      WireParse(buf, next);
      WireParseToken(buf, ip);
      var rest := Parse(buf, next).value;
      assert Parse(buf, ip) == Some([t] + rest);
      WireFirst(t, rest);
      SliceJoin(buf, ip, next, next + |WireAll(rest)|);
    }
  }

  lemma WireFirst(t: Token, ts: seq<Token>)
    ensures WireAll([t] + ts) == Wire(t) + WireAll(ts)
  {
    assert ([t] + ts)[1..] == ts;
  }

  lemma WireParseToken(buf: seq<byte>, ip: nat)
    requires ip < |buf| - 1 && ParseToken(buf, ip).Some?
    ensures var (t, next) := ParseToken(buf, ip).value; buf[ip..next] == Wire(t)
  {
    var b: int := buf[ip];
    assert b / 32 * 32 + b % 32 == b;
    var (t, next) := ParseToken(buf, ip).value;
    var w := Wire(t);
    if b >= 32 {
      var hi, lo := (t.distance - 1) / 256, (t.distance - 1) % 256;
      assert hi == b % 32 && lo == buf[next - 1];
    }
    assert forall k :: 0 <= k < |w| ==> buf[ip + k] == w[k];
  }
}
