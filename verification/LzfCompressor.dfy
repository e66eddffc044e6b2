/** The two passes of the LZF compressor: the dry run that sizes the output, and the pass that writes
    it into a fixed buffer and patches control bytes in place. None stands for a panic. */
module LzfCompressor {
  import opened Wrappers
  import opened LzfTokens
  import opened LzfEncoder

  /** `output[op] = b` on a Rust slice: false stands for the out-of-bounds panic. */
  method Store(output: array<byte>, op: nat, b: byte) returns (ok: bool)
    modifies output
    ensures ok == (op < output.Length)
    ensures output[..] == if ok then old(output[..])[op := b] else old(output[..])
    ensures ok ==> output[..op + 1] == old(output[..op]) + [b]
  {
    ok := op < output.Length;
    if ok {
      output[op] := b;
    }
  }

  /** The `n` bytes at `i` and at `j` are the same. */
  predicate Alike(input: seq<byte>, i: nat, j: nat, n: nat) {
    i + n <= |input| && j + n <= |input| && input[i..i + n] == input[j..j + n]
  }

  lemma AlikeJoin(input: seq<byte>, i: nat, j: nat, m: nat, n: nat)
    requires Alike(input, i, j, m) && Alike(input, i + m, j + m, n)
    ensures Alike(input, i, j, m + n)
  {
    SliceJoin(input, i, i + m, i + m + n);
    SliceJoin(input, j, j + m, j + m + n);
  }

  lemma AlikeLess(input: seq<byte>, i: nat, j: nat, n: nat)
    requires n > 0 && Alike(input, i, j, n)
    ensures Alike(input, i, j, n - 1)
  {
    assert input[i..i + (n - 1)] == input[i..i + n][..n - 1];
    assert input[j..j + (n - 1)] == input[j..j + n][..n - 1];
  }

  /** Eight comparisons, or fewer up to the first mismatch: `n` pairs were read. */
  method CompareEight(input: seq<byte>, i: nat, j: nat) returns (n: nat, equal: bool)
    requires i <= j && j + 8 <= |input|
    ensures 1 <= n <= 8 && (equal ==> n == 8)
    ensures var m := if equal then n else n - 1;
            Alike(input, i, j, m) && (!equal ==> input[i + m] != input[j + m])
  {
    n := 0;
    for k := 0 to 8
      invariant n == k && Alike(input, i, j, n)
    {
      var rb, ib := input[i + n], input[j + n];
      n := n + 1;
      if rb != ib {
        return n, false;
      }
      AlikeJoin(input, i, j, k, 1);
    }
    equal := true;
  }

  /** The match-extension loop: rounds of eight until a mismatch or the length cap. */
  method CountEqual(input: seq<byte>, i: nat, j: nat) returns (n: nat)
    requires i <= j && j + 256 <= |input|
    ensures n == Common(input, i, j, j + 255)
  {
    n := 0;
    ghost var rounds := 0;
    while 3 + n < MAX_LEN - 8
      invariant rounds <= 32 && n == 8 * rounds && Alike(input, i, j, n)
    {
      var read, equal := CompareEight(input, i + n, j + n);
      if !equal {
        CommonEnds(input, i, j, n, read - 1);
        n := n + read - 1;
        return;
      }
      AlikeJoin(input, i, j, n, read);
      n, rounds := n + read, rounds + 1;
    }
    AlikeLess(input, i, j, n);
    n := n - 1;
    CommonIs(input, i, j, j + 255, n);
  }

  lemma CommonEnds(input: seq<byte>, i: nat, j: nat, m: nat, n: nat)
    requires i <= j && m + n < 256 && j + 256 <= |input|
    requires Alike(input, i, j, m) && Alike(input, i + m, j + m, n) && input[i + m + n] != input[j + m + n]
    ensures Common(input, i, j, j + 255) == m + n
  {
    AlikeJoin(input, i, j, m, n);
    CommonIs(input, i, j, j + 255, m + n);
  }

  /** The length of a match, as both compressor passes compute it. */
  method ExtendMatch(input: seq<byte>, refp: nat, anchor: nat) returns (len: nat)
    requires refp <= anchor < Limit(input)
    ensures len == MatchLength(input, refp, anchor)
  {
    len := 3;
    if anchor + 3 < Limit(input) - MAX_LEN {
      var n := CountEqual(input, refp + 3, anchor + 3);
      len := 3 + n;
    }
  }

  /** The reading half of a match turn, the same in both passes: measure the match, step over it, and
      enter its last position in the table. */
  method TakeMatch(input: seq<byte>, htab0: seq<int>, slot: nat, ip0: nat, distance: nat,
                   ghost p: Progress, ghost st: State, ghost open: seq<byte>)
    returns (htab: seq<int>, ip: nat, len: nat, ghost q: Progress, ghost next: State)
    requires Reached(input, p, st) && |st.htab| == HASH_SIZE && st.copy < MAX_COPY && st.copy <= ip0 < Limit(input)
    requires ip0 == st.ip && open == input[ip0 - st.copy..ip0]
    requires slot == Slot(input, ip0) && ip0 - distance == st.htab[slot] && distance <= ip0
    requires Found(input, ip0 - distance, ip0) && htab0 == st.htab[slot := ip0]
    ensures ip == ip0 + len <= |input| && 3 <= len <= 258
    ensures |htab| == HASH_SIZE && Reached(input, q, next) && next.htab == htab && next.ip == ip && next.copy == 0
    ensures q.wire == p.wire + (if st.copy == 0 then [] else [st.copy - 1] + open) + Reference(distance, len)
    ensures q.peak == p.peak && |q.wire| + 1 <= q.peak
  {
    len := ExtendMatch(input, ip0 - distance, ip0);
    ip := ip0 + len;
    ip := ip - 1;
    var last := Slot(input, ip);
    htab := htab0[last := ip];
    ip := ip + 1;
    q, next := AdvanceMatch(input, p, st, htab, open, slot, distance, len, ip, last);
  }

  /** The dry run sizes the output exactly; it ends with no waiting literals exactly if those after the last match
      fill their runs. */
  method CalcCompressedSize(input: seq<byte>) returns (opl: nat, ghost waiting: nat)
    ensures opl == |WireAll(Tokens(input))|
    ensures waiting == 0 <==> TrailingLiterals(Tokens(input)) % MAX_COPY == 0
  {
    var htab := Start().htab;
    var ip, copy := 0, 0;
    opl := 1;
    ghost var st := Start();
    ghost var p := Begin(input);
    while ip < Limit(input)
      invariant 0 <= ip && Passing(input, p, st, ip, copy) && st.htab == htab && opl == |p.wire| + 1 + copy
      decreases |input| - ip
    {
      Entry(input, p, st);
      var slot := Slot(input, ip);
      var refp := htab[slot];
      htab := htab[slot := ip];
      var distance := ip - refp;
      if !Found(input, refp, ip) {
        p, st := CountLiteral(input, p, st, htab, ip, copy);
        ip := ip + 1;
        opl := opl + 1;
        copy := copy + 1;
        if copy >= MAX_COPY {
          copy := 0;
          opl := opl + 1;
        }
        continue;
      }
      var len;
      htab, ip, len, p, st := TakeMatch(input, htab, slot, ip, ip - refp, p, st, input[ip - copy..ip]);
      if copy != 0 {
        copy := 0;
      } else {
        opl := opl - 1;
      }
      len := len - 2;
      opl := opl + if len < 7 then 1 else 2;
      opl := opl + 2;
    }
    while ip < |input|
      invariant Limit(input) <= ip && Passing(input, p, st, ip, copy) && st.htab == htab && opl == |p.wire| + 1 + copy
    {
      p, st := CountLiteral(input, p, st, htab, ip, copy);
      ip := ip + 1;
      opl := opl + 1;
      copy := copy + 1;
      if copy == MAX_COPY {
        copy := 0;
        opl := opl + 1;
      }
    }
    Finish(input, p, st);
    TokensEnd(input);
    waiting := copy;
    if copy == 0 {
      opl := opl - 1;
    }
  }

  /** The pass has reached `st` with these variables. */
  ghost predicate Passing(input: seq<byte>, p: Progress, st: State, ip: nat, copy: nat) {
    && copy < MAX_COPY && copy <= ip <= |input| && st.ip == ip && st.copy == copy && |st.htab| == HASH_SIZE
    && Reached(input, p, st)
  }

  /** A literal turn, counted. */
  lemma CountLiteral(input: seq<byte>, p: Progress, st: State, htab: seq<int>, ip: nat, copy: nat)
    returns (q: Progress, next: State)
    requires Passing(input, p, st, ip, copy) && ip < |input|
    requires ip < Limit(input) ==>
               0 <= st.htab[Slot(input, ip)] <= ip && !Found(input, st.htab[Slot(input, ip)], ip)
    requires htab == if ip < Limit(input) then st.htab[Slot(input, ip) := ip] else st.htab
    ensures next.htab == htab
    ensures if copy + 1 < MAX_COPY then Passing(input, q, next, ip + 1, copy + 1) && |q.wire| == |p.wire|
            else Passing(input, q, next, ip + 1, 0) && |q.wire| == |p.wire| + copy + 2
  {
    var rest;
    q, next, rest := AdvanceLiteral(input, p, st, htab, input[ip - copy..ip]);
  }

  /** What lies in the buffer between two turns: the closed tokens, a control byte that still says
      "32 literals", and the literals of the open run. */
  function Buffered(wire: seq<byte>, run: seq<byte>): seq<byte> {
    wire + [31] + run
  }

  /** Appends one literal; the 32nd closes the run and starts the next control byte. */
  method WriteLiteral(output: array<byte>, op0: nat, copy0: nat, b: byte, ghost wire: seq<byte>, ghost run: seq<byte>)
    returns (ok: bool, op: nat, copy: nat)
    requires op0 <= output.Length && output[..op0] == Buffered(wire, run) && |run| == copy0 < MAX_COPY
    modifies output
    ensures ok == (op0 + (if copy0 + 1 == MAX_COPY then 2 else 1) <= output.Length)
    ensures ok && copy0 + 1 < MAX_COPY ==>
              op == op0 + 1 <= output.Length && copy == copy0 + 1 && output[..op] == Buffered(wire, run + [b])
    ensures ok && copy0 + 1 == MAX_COPY ==>
              op == op0 + 2 <= output.Length && copy == 0 && output[..op] == Buffered(wire + ([31] + (run + [b])), [])
  {
    op, copy := op0, copy0;
    ok := Store(output, op, b);
    if ok {
      op, copy := op + 1, copy + 1;
      if copy >= MAX_COPY {
        copy := 0;
        ok := Store(output, op, 31);
        op := op + 1;
      }
    }
  }

  /** Closes the open run: patches its control byte with its length, or drops it when it is empty. */
  method CloseRun(output: array<byte>, op0: nat, copy: nat, ghost wire: seq<byte>, ghost run: seq<byte>)
    returns (op: nat)
    requires op0 <= output.Length && output[..op0] == Buffered(wire, run) && |run| == copy < MAX_COPY
    modifies output
    ensures op == |wire| + (if copy == 0 then 0 else copy + 1) <= op0
    ensures output[..op] == wire + if copy == 0 then [] else [copy - 1] + run
  {
    if copy != 0 {
      output[op0 - copy - 1] := copy - 1;
      op := op0;
    } else {
      op := op0 - 1;
    }
  }

  /** Writes a back-reference and the control byte of the next run. */
  method WriteReference(output: array<byte>, op0: nat, len0: nat, distance0: nat)
    returns (ok: bool, op: nat)
    requires op0 <= output.Length && 3 <= len0 <= 258 && 1 <= distance0 < MAX_DISTANCE
    modifies output
    ensures op == op0 + |Reference(distance0, len0)| + 1 && ok == (op <= output.Length)
    ensures ok ==> output[..op] == Buffered(old(output[..op0]) + Reference(distance0, len0), [])
  {
    op := op0;
    var len, distance := len0 - 2, distance0 - 1;
    if len < 7 {
      ok := Store(output, op, len * 32 + distance / 256);
      op := op + 1;
    } else {
      ok := Store(output, op, 224 + distance / 256);
      op := op + 1;
      if ok {
        ok := Store(output, op, len - 7);
      }
      op := op + 1;
    }
    if ok {
      ok := Store(output, op, distance % 256);
    }
    op := op + 1;
    if ok {
      ok := Store(output, op, 31);
    }
    op := op + 1;
  }

  /** The whole output of a match turn. */
  method WriteMatch(output: array<byte>, op0: nat, copy: nat, len: nat, distance: nat,
                    ghost wire: seq<byte>, ghost run: seq<byte>)
    returns (ok: bool, op: nat, ghost closed: seq<byte>)
    requires op0 <= output.Length && output[..op0] == Buffered(wire, run) && |run| == copy < MAX_COPY
    requires 3 <= len <= 258 && 1 <= distance < MAX_DISTANCE
    modifies output
    ensures closed == wire + (if copy == 0 then [] else [copy - 1] + run) + Reference(distance, len)
    ensures op == |closed| + 1 && ok == (op <= output.Length)
    ensures ok ==> output[..op] == Buffered(closed, [])
  {
    op := CloseRun(output, op0, copy, wire, run);
    closed := output[..op] + Reference(distance, len);
    ok, op := WriteReference(output, op, len, distance);
  }

  /** Between two turns: the pass has reached `st`, and the buffer holds its tokens and the open run. */
  ghost predicate Ready(input: seq<byte>, written: seq<byte>, p: Progress, st: State, ip: nat, op: nat, copy: nat) {
    && Passing(input, p, st, ip, copy) && op == |p.wire| + 1 + copy
    && written == Buffered(p.wire, input[ip - copy..ip])
  }

  /** A literal turn: false stands for writing past the end of the buffer. */
  method PutLiteral(input: seq<byte>, output: array<byte>, ip: nat, op0: nat, copy0: nat,
                    ghost htab: seq<int>, ghost p: Progress, ghost st: State)
    returns (ok: bool, op: nat, copy: nat, ghost q: Progress, ghost next: State)
    requires ip < |input| && op0 <= output.Length && Ready(input, output[..op0], p, st, ip, op0, copy0)
    requires ip < Limit(input) ==>
               0 <= st.htab[Slot(input, ip)] <= ip && !Found(input, st.htab[Slot(input, ip)], ip)
    requires htab == if ip < Limit(input) then st.htab[Slot(input, ip) := ip] else st.htab
    modifies output
    ensures q.peak == p.peak && (!ok ==> output.Length < p.peak)
    ensures ok ==> op <= output.Length && next.htab == htab && Ready(input, output[..op], q, next, ip + 1, op, copy)
  {
    ghost var open, rest := input[ip - copy0..ip], [];
    ok, op, copy := WriteLiteral(output, op0, copy0, input[ip], p.wire, open);
    q, next, rest := AdvanceLiteral(input, p, st, htab, open);
  }

  /** A match turn, likewise. */
  method PutMatch(input: seq<byte>, output: array<byte>, htab0: seq<int>, slot: nat, ip0: nat, op0: nat, copy: nat,
                  distance: nat, ghost p: Progress, ghost st: State)
    returns (ok: bool, htab: seq<int>, ip: nat, op: nat, ghost q: Progress, ghost next: State)
    requires op0 <= output.Length && ip0 < Limit(input) && Ready(input, output[..op0], p, st, ip0, op0, copy)
    requires slot == Slot(input, ip0) && ip0 - distance == st.htab[slot] && distance <= ip0
    requires Found(input, ip0 - distance, ip0) && htab0 == st.htab[slot := ip0]
    modifies output
    ensures q.peak == p.peak && (!ok ==> output.Length < p.peak)
    ensures ip0 < ip && |htab| == HASH_SIZE
    ensures ok ==> op <= output.Length && next.htab == htab && Ready(input, output[..op], q, next, ip, op, 0)
  {
    ghost var open, closed := input[ip0 - copy..ip0], [];
    var len;
    htab, ip, len, q, next := TakeMatch(input, htab0, slot, ip0, distance, p, st, open);
    ok, op, closed := WriteMatch(output, op0, copy, len, distance, p.wire, open);
    assert closed == q.wire;
  }

  /** The compressor's second loop and its last control byte: everything left is literals. */
  method CompressTail(input: seq<byte>, output: array<byte>, ip0: nat, op0: nat, copy0: nat,
                      ghost p0: Progress, ghost st0: State)
    returns (r: Option<nat>)
    requires Limit(input) <= ip0 && op0 <= output.Length && Ready(input, output[..op0], p0, st0, ip0, op0, copy0)
    modifies output
    ensures r.Some? <==> p0.peak <= output.Length
    ensures r.Some? ==> r.value <= output.Length && output[..r.value] == WireAll(Tokens(input))
  {
    var ip, op, copy, ok := ip0, op0, copy0, true;
    ghost var p, st := p0, st0;
    while ip < |input|
      invariant Limit(input) <= ip <= |input| && 0 <= op <= output.Length && p.peak == p0.peak
      invariant Ready(input, output[..op], p, st, ip, op, copy)
    {
      ok, op, copy, p, st := PutLiteral(input, output, ip, op, copy, st.htab, p, st);
      if !ok {
        return None;
      }
      ip := ip + 1;
    }
    op := LastRun(input, output, op, copy, p, st);
    return Some(op);
  }

  /** The last control byte, patched or dropped: the buffer then holds the whole stream. */
  method LastRun(input: seq<byte>, output: array<byte>, op0: nat, copy: nat, ghost p: Progress, ghost st: State)
    returns (op: nat)
    requires op0 <= output.Length && Ready(input, output[..op0], p, st, |input|, op0, copy)
    modifies output
    ensures p.peak <= output.Length && op <= output.Length && output[..op] == WireAll(Tokens(input))
  {
    Finish(input, p, st);
    op := CloseRun(output, op0, copy, p.wire, input[|input| - copy..|input|]);
  }

  /** The compressor. It needs exactly the peak of its token stream, which can be one byte more than
      the size the dry run returns; given less it panics. */
  method Compress(input: seq<byte>, output: array<byte>) returns (r: Option<nat>)
    modifies output
    ensures r.Some? <==> Peak(Tokens(input)) <= output.Length
    ensures r.Some? ==> r.value <= output.Length && output[..r.value] == WireAll(Tokens(input))
  {
    var htab := Start().htab;
    var ip, op, copy := 0, 0, 0;
    ghost var st := Start();
    ghost var p := Begin(input);
    ghost var peak := p.peak;
    var ok := Store(output, op, MAX_COPY - 1);
    if !ok {
      return None;
    }
    op := op + 1;
    assert output[..op] == Buffered([], []);
    while ip < Limit(input)
      invariant 0 <= ip <= |input| && 0 <= op <= output.Length && p.peak == peak
      invariant st.htab == htab && |htab| == HASH_SIZE && Ready(input, output[..op], p, st, ip, op, copy)
      decreases |input| - ip
    {
      Entry(input, p, st);
      var slot := Slot(input, ip);
      var refp := htab[slot];
      htab := htab[slot := ip];
      var distance := ip - refp;
      if !Found(input, refp, ip) {
        ok, op, copy, p, st := PutLiteral(input, output, ip, op, copy, htab, p, st);
        if !ok {
          return None;
        }
        ip := ip + 1;
        continue;
      }
      ok, htab, ip, op, p, st := PutMatch(input, output, htab, slot, ip, op, copy, distance, p, st);
      copy := 0;
      if !ok {
        return None;
      }
    }
    r := CompressTail(input, output, ip, op, copy, p, st);
  }
}
