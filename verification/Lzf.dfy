/** `compress_lzf` and `decompress_lzf`: the codec as its callers see it, and what it promises them. */
module Lzf {
  import opened Wrappers
  import opened LzfTokens
  import opened LzfEncoder
  import Compressor = LzfCompressor
  import opened Decompressor = LzfDecompressor

  /** The compressed form of a buffer. */
  function Compressed(buf: seq<byte>): seq<byte> {
    WireAll(Tokens(buf))
  }

  /** Compression never panics: twice the dry run's count is always room enough. */
  method CompressLzf(buf: seq<byte>) returns (r: Option<seq<byte>>)
    ensures r == Some(Compressed(buf))
  {
    if |buf| == 0 {
      assert Tokens(buf) == [];
      return Some([]);
    }
    var estimate, _ := Compressor.CalcCompressedSize(buf);
    NonEmptyOutput(buf);
    var out := new byte[estimate * 2](_ => 0);
    var actual := Compressor.Compress(buf, out);
    if actual.None? || actual.value > out.Length {
      return None;
    }
    return Some(out[..actual.value]);
  }

  /** Decompression of any buffer: the bytes it stands for, or a panic exactly when it stands for none. */
  method DecompressLzf(buf: seq<byte>) returns (r: Option<seq<byte>>)
    ensures r == Decoded(buf)
  {
    if |buf| == 0 {
      return Some([]);
    }
    SizeOfDecoded(buf);
    var size := CalcDecompressedSize(buf);
    var out := new byte[size](_ => 0);
    var actual := Decompress(buf, out);
    if actual.None? || actual.value != out.Length {
      return None;
    }
    assert out[..actual.value] == out[..];
    return Some(out[..]);
  }

  lemma NonEmptyOutput(buf: seq<byte>)
    requires buf != []
    ensures 1 <= |Compressed(buf)|
  {
    TokensMeaning(buf);
  }

  /** The round trip, on the wire format and its meaning. */
  lemma RoundTrip(x: seq<byte>)
    ensures Decoded(Compressed(x)) == Some(x)
  {
    var wire := Compressed(x);
    assert wire[0..] == wire;
    ParseWire(wire, 0, Tokens(x));
    TokensMeaning(x);
  }

  /** The round trip, through the two entry points. */
  method CompressThenDecompress(x: seq<byte>) returns (r: Option<seq<byte>>)
    ensures r == Some(x)
  {
    RoundTrip(x);
    var c := CompressLzf(x);
    r := DecompressLzf(c.value);
  }

  /** The sizing pass of the decompressor recovers the input's length from the compressed bytes. */
  lemma SizeOfCompressed(x: seq<byte>)
    ensures SizeFrom(Compressed(x), 0) == |x|
  {
    RoundTrip(x);
    SizeOfDecoded(Compressed(x));
  }

  /** Expansion is bounded by one byte for every 32 begun. */
  lemma Expansion(x: seq<byte>)
    ensures |Compressed(x)| <= |x| + (|x| + 31) / 32
  {
    TokensCost(x);
  }

  /** The bound is attained: no match is even looked for in the last 36 bytes, so an input of at most
      36 bytes is all literal runs. It also shows when the peak is one more than the size. */
  lemma {:induction false} LiteralsOnly(data: seq<byte>, st: State)
    requires Valid(data, st) && |data| <= 36
    ensures AllRuns(Encode(data, st), |data| - st.ip + st.copy)
    decreases |data| - st.ip
  {
    if st.ip == |data| {
      LastRun(data, st);
    } else {
      var t := Next(data, st);
      OneRun(data, st, t);
      LiteralsOnly(data, t.next);
      var ts, n := Encode(data, t.next), |data| - t.next.ip + t.next.copy;
      RunThen(t.tokens, ts, n);
      assert Encode(data, st) == t.tokens + ts;
    }
  }

  lemma LastRun(data: seq<byte>, st: State)
    requires Valid(data, st) && st.ip == |data|
    ensures AllRuns(Encode(data, st), st.copy)
  {
    PendingWire(data, st);
  }

  /** One turn on a short input closes a full run or none. */
  lemma OneRun(data: seq<byte>, st: State, t: Turn)
    requires Valid(data, st) && |data| <= 36 && st.ip < |data| && t == Next(data, st)
    ensures t == LiteralTurn(data, st)
    ensures t.tokens == [] || (|t.tokens| == 1 && t.tokens[0].Literals? && |t.tokens[0].bytes| == MAX_COPY)
    ensures st.ip - st.copy + (if t.tokens == [] then 0 else MAX_COPY) == t.next.ip - t.next.copy
    ensures Encode(data, t.next) == [] ==> t.next.ip == |data| && t.next.copy == 0
  {
    if t.next.ip == |data| {
      assert t.next.copy > 0 ==> Encode(data, t.next) == Pending(data, t.next);
    } else {
      SomeToken(data, t.next);
    }
  }

  lemma SomeToken(data: seq<byte>, st: State)
    requires Valid(data, st) && st.ip < |data|
    ensures Encode(data, st) != []
  {
    EncodeMeaning(data, st);
  }

  /** Tokens that spend the whole budget of `n` bytes, and end closed just when `n` fills its runs. */
  predicate AllRuns(ts: seq<Token>, n: nat) {
    |WireAll(ts)| == Budget(n) && (Closed(ts) <==> n % MAX_COPY == 0)
  }

  lemma RunThen(run: seq<Token>, ts: seq<Token>, n: nat)
    requires AllRuns(ts, n)
    requires run == [] || (|run| == 1 && run[0].Literals? && |run[0].bytes| == MAX_COPY)
    requires ts == [] ==> n == 0
    ensures AllRuns(run + ts, if run == [] then n else n + MAX_COPY)
  {
    if run == [] {
      assert run + ts == ts;
    } else {
      WireAllAppend(run, ts);
      assert run[1..] == [];
    }
  }

  lemma ShortInput(x: seq<byte>)
    requires |x| <= 36
    ensures |Compressed(x)| == |x| + (|x| + 31) / 32
    ensures Peak(Tokens(x)) == |Compressed(x)| + if |x| % 32 == 0 then 1 else 0
  {
    LiteralsOnly(x, Start());
  }

  /** A buffer of just the size the dry run returns is enough for the compressor if and only if the literals
      after the last match do not fill their runs of 32, and one spare byte is always enough; 32 bytes of input
      already need it. No stream ends with a match. */
  lemma DryRunSizeIsNotAlwaysEnough(x: seq<byte>)
    ensures Peak(Tokens(x)) <= |Compressed(x)| <==> TrailingLiterals(Tokens(x)) % MAX_COPY != 0
    ensures Peak(Tokens(x)) <= |Compressed(x)| + 1
    ensures x != [] ==> Tokens(x) != [] && Tokens(x)[|Tokens(x)| - 1].Literals?
    ensures |x| == 32 ==> |Compressed(x)| == 33 && Peak(Tokens(x)) == 34
  {
    TokensEnd(x);
    if |x| == 32 {
      ShortInput(x);
    }
  }
}
