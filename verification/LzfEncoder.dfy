/** What the LZF compressor decides: the greedy token stream for an input, as a state machine over
    the hash table, the read position and the number of literals waiting for their control byte. */
module LzfEncoder {
  import opened Wrappers
  import opened Bits
  import opened LzfTokens

  const HASH_SIZE := 4096
  const MAX_COPY := 32
  const MAX_LEN := 264
  const MAX_DISTANCE := 8192

  function ReadU16(data: seq<byte>, i: nat): (v: nat)
    requires i + 1 < |data|
    ensures v < 65536
  {
    data[i] as int + 256 * data[i + 1] as int
  }

  /** The hash-table slot of the three bytes at `p`. */
  function Slot(data: seq<byte>, p: nat): (slot: nat)
    requires p + 2 < |data|
    ensures slot < HASH_SIZE
  {
    Mix(ReadU16(data, p), ReadU16(data, p + 1)) % HASH_SIZE
  }

  function Mix(v: nat, w: nat): nat {
    Xor(v, Xor(w, Shr(v, 4)))
  }

  /** Matches are only looked for before this position (it is negative for a short input). */
  function Limit(data: seq<byte>): int {
    |data| - MAX_COPY - 4
  }

  /** How many bytes at `i` and at `j` agree, looking no further than `end`. */
  function Common(data: seq<byte>, i: nat, j: nat, end: nat): (n: nat)
    requires i <= j <= end <= |data|
    ensures n <= end - j
    decreases end - j
  {
    if j == end || data[i] != data[j] then 0 else 1 + Common(data, i + 1, j + 1, end)
  }

  /** It is the longest agreement: those bytes agree, and the next pair (if before `end`) does not. */
  lemma {:induction false} CommonIsLongest(data: seq<byte>, i: nat, j: nat, end: nat)
    requires i <= j <= end <= |data|
    ensures var n := Common(data, i, j, end);
            && data[i..i + n] == data[j..j + n]
            && (j + n < end ==> data[i + n] != data[j + n])
    decreases end - j
  {
    if j < end && data[i] == data[j] {
      CommonIsLongest(data, i + 1, j + 1, end);
      assert data[i..i + 1] == data[j..j + 1];
      JoinEqual(data, i, j, 1, Common(data, i + 1, j + 1, end));
    }
  }

  lemma {:induction false} CommonIs(data: seq<byte>, i: nat, j: nat, end: nat, n: nat)
    requires i <= j && j + n <= end <= |data|
    requires data[i..i + n] == data[j..j + n]
    requires j + n < end ==> data[i + n] != data[j + n]
    ensures Common(data, i, j, end) == n
    decreases n
  {
    if n > 0 {
      assert data[i] == data[i..i + n][0] == data[j..j + n][0] == data[j];
      assert data[i + 1..i + n] == data[i..i + n][1..];
      assert data[j + 1..j + n] == data[j..j + n][1..];
      CommonIs(data, i + 1, j + 1, end, n - 1);
    }
  }

  /** The length of the match of the three equal bytes at `refp` and `ip`: extended only well before
      the end of the input, and then up to 258. */
  function MatchLength(data: seq<byte>, refp: nat, ip: nat): (len: nat)
    requires refp <= ip < Limit(data)
    ensures 3 <= len <= 258 && ip + len + 2 < |data|
  {
    if ip + 3 < Limit(data) - MAX_LEN then 3 + Common(data, refp + 3, ip + 3, ip + 258) else 3
  }

  datatype State = State(htab: seq<int>, ip: nat, copy: nat)

  function Start(): (st: State)
    ensures Valid([], st)
  {
    State(seq(HASH_SIZE, _ => 0), 0, 0)
  }

  ghost predicate Valid(data: seq<byte>, st: State) {
    && |st.htab| == HASH_SIZE
    && st.copy < MAX_COPY && st.copy <= st.ip <= |data|
    && forall k :: 0 <= k < HASH_SIZE ==> 0 <= st.htab[k] <= st.ip && (st.ip > 0 ==> st.htab[k] < st.ip)
  }

  /** Whether the table entry `refp` is worth a back-reference from `ip`. */
  predicate Found(data: seq<byte>, refp: nat, ip: nat)
    requires refp <= ip < Limit(data)
  {
    && refp != ip
    && ReadU16(data, refp) == ReadU16(data, ip)
    && data[refp + 2] == data[ip + 2]
    && ip - refp < MAX_DISTANCE
  }

  /** The literals not yet covered by a token. */
  function Pending(data: seq<byte>, st: State): seq<Token>
    requires st.copy < MAX_COPY && st.copy <= st.ip <= |data|
  {
    if st.copy == 0 then [] else [Literals(data[st.ip - st.copy..st.ip])]
  }

  /** What one turn of the compressor's loops does: the tokens it closes, and the state it leaves. */
  datatype Turn = Turn(tokens: seq<Token>, next: State)

  function LiteralTurn(data: seq<byte>, st: State): (t: Turn)
    requires Valid(data, st) && st.ip < |data|
    ensures Valid(data, t.next) && t.next.ip == st.ip + 1
  {
    if st.copy + 1 == MAX_COPY
    then Turn([Literals(data[st.ip - st.copy..st.ip + 1])], State(st.htab, st.ip + 1, 0))
    else Turn([], State(st.htab, st.ip + 1, st.copy + 1))
  }

  function MatchTurn(data: seq<byte>, st: State, refp: nat): (t: Turn)
    requires |st.htab| == HASH_SIZE && st.copy < MAX_COPY && st.copy <= st.ip
    requires refp <= st.ip < Limit(data) && Found(data, refp, st.ip)
    requires forall k :: 0 <= k < HASH_SIZE ==> 0 <= st.htab[k] <= st.ip
    ensures Valid(data, t.next) && t.next.ip > st.ip
  {
    var next := st.ip + MatchLength(data, refp, st.ip);
    Turn(Pending(data, st) + [Match(st.ip - refp, next - st.ip)],
         State(st.htab[Slot(data, next - 1) := next - 1], next, 0))
  }

  /** The table after the position `ip` has been entered. */
  function Probe(data: seq<byte>, st: State): (probed: State)
    requires Valid(data, st) && st.ip < Limit(data)
    ensures |probed.htab| == HASH_SIZE && forall k :: 0 <= k < HASH_SIZE ==> 0 <= probed.htab[k] <= st.ip
  {
    State(st.htab[Slot(data, st.ip) := st.ip], st.ip, st.copy)
  }

  function Candidate(data: seq<byte>, st: State): (refp: nat)
    requires Valid(data, st) && st.ip < Limit(data)
    ensures refp <= st.ip
  {
    st.htab[Slot(data, st.ip)]
  }

  predicate Hit(data: seq<byte>, st: State)
    requires Valid(data, st)
  {
    st.ip < Limit(data) && Found(data, Candidate(data, st), st.ip)
  }

  function Next(data: seq<byte>, st: State): (t: Turn)
    requires Valid(data, st) && st.ip < |data|
    ensures Valid(data, t.next) && t.next.ip > st.ip
  {
    if Hit(data, st) then MatchTurn(data, Probe(data, st), Candidate(data, st))
    else
      var t := LiteralTurn(data, st);
      if st.ip < Limit(data) then Turn(t.tokens, State(Probe(data, st).htab, t.next.ip, t.next.copy)) else t
  }

  /** A turn that finds a match, by its tokens and its effect. */
  lemma HitTurn(data: seq<byte>, st: State) returns (m: Token, htab: seq<int>, next: nat)
    requires Valid(data, st) && Hit(data, st)
    ensures var refp := Candidate(data, st);
            m == Match(st.ip - refp, MatchLength(data, refp, st.ip)) && next == st.ip + m.len && next + 2 < |data|
    ensures htab == st.htab[Slot(data, st.ip) := st.ip][Slot(data, next - 1) := next - 1]
    ensures Next(data, st) == Turn(Pending(data, st) + [m], State(htab, next, 0))
  {
    var refp := Candidate(data, st);
    m := Match(st.ip - refp, MatchLength(data, refp, st.ip));
    next := st.ip + m.len;
    htab := Next(data, st).next.htab;
  }

  /** All tokens still to be emitted from a state. */
  function Encode(data: seq<byte>, st: State): seq<Token>
    requires Valid(data, st)
    decreases |data| - st.ip
  {
    if st.ip == |data| then Pending(data, st)
    else Next(data, st).tokens + Encode(data, Next(data, st).next)
  }

  /** The token stream of an input. */
  function Tokens(data: seq<byte>): seq<Token> {
    Encode(data, Start())
  }

  /** Every turn keeps the meaning: the tokens it closes produce exactly the input bytes between the
      start of the old uncovered literals and the start of the new ones. */
  lemma NextMeaning(data: seq<byte>, st: State)
    requires Valid(data, st) && st.ip < |data|
    ensures var t := Next(data, st);
            Eval(data[..st.ip - st.copy], t.tokens) == Some(data[..t.next.ip - t.next.copy])
  {
    if Hit(data, st) {
      var _, _, _ := HitTurn(data, st);
      MatchMeaning(data, Probe(data, st), Candidate(data, st));
    } else {
      LiteralMeaning(data, st);
      MissIsLiteral(data, st);
    }
  }

  /** Without a match, only the table tells a turn from one at the end of the input. */
  lemma MissIsLiteral(data: seq<byte>, st: State)
    requires Valid(data, st) && st.ip < |data| && !Hit(data, st)
    ensures var t, u := Next(data, st), LiteralTurn(data, st);
            t.tokens == u.tokens && t.next.ip == u.next.ip && t.next.copy == u.next.copy
  {
  }

  lemma LiteralMeaning(data: seq<byte>, st: State)
    requires Valid(data, st) && st.ip < |data|
    ensures var t := LiteralTurn(data, st);
            Eval(data[..st.ip - st.copy], t.tokens) == Some(data[..t.next.ip - t.next.copy])
  {
    RunMeaning(data, st.ip - st.copy, st.ip + 1);
  }

  lemma RunMeaning(data: seq<byte>, from: nat, to: nat)
    requires from <= to <= |data| && to - from <= MAX_COPY
    ensures from < to ==> Eval(data[..from], [Literals(data[from..to])]) == Some(data[..to])
  {
    if from < to {
      SliceJoin(data, 0, from, to);
      assert [Literals(data[from..to])][1..] == [];
    }
  }

  lemma MatchMeaning(data: seq<byte>, st: State, refp: nat)
    requires |st.htab| == HASH_SIZE && st.copy < MAX_COPY && st.copy <= st.ip
    requires refp <= st.ip < Limit(data) && Found(data, refp, st.ip)
    requires forall k :: 0 <= k < HASH_SIZE ==> 0 <= st.htab[k] <= st.ip
    ensures var t := MatchTurn(data, st, refp);
            Eval(data[..st.ip - st.copy], t.tokens) == Some(data[..t.next.ip])
  {
    PendingMeaning(data, st);
    MatchThen(data, st.ip - st.copy, Pending(data, st), refp, st.ip, MatchLength(data, refp, st.ip));
  }

  lemma MatchThen(data: seq<byte>, from: nat, ts: seq<Token>, refp: nat, ip: nat, len: nat)
    requires refp <= ip < Limit(data) && Found(data, refp, ip) && len == MatchLength(data, refp, ip)
    requires from <= |data| && Eval(data[..from], ts) == Some(data[..ip])
    ensures Eval(data[..from], ts + [Match(ip - refp, len)]) == Some(data[..ip + len])
  {
    CopyMatches(data, refp, ip, len);
    EvalThen(data[..from], ts, data[..ip], Match(ip - refp, len), data[..ip + len]);
  }

  lemma PendingMeaning(data: seq<byte>, st: State)
    requires st.copy < MAX_COPY && st.copy <= st.ip <= |data|
    ensures Eval(data[..st.ip - st.copy], Pending(data, st)) == Some(data[..st.ip])
  {
    RunMeaning(data, st.ip - st.copy, st.ip);
  }

  /** A back-reference found by the compressor reproduces the bytes it stands for, also where it
      overlaps them. */
  lemma CopyMatches(data: seq<byte>, refp: nat, ip: nat, len: nat)
    requires refp <= ip < Limit(data) && Found(data, refp, ip) && len == MatchLength(data, refp, ip)
    ensures Apply(data[..ip], Match(ip - refp, len)) == Some(data[..ip + len])
  {
    MatchEqual(data, refp, ip, len);
    CopyUnique(data, ip, ip - refp, len);
  }

  lemma MatchEqual(data: seq<byte>, refp: nat, ip: nat, len: nat)
    requires refp <= ip < Limit(data) && Found(data, refp, ip) && len == MatchLength(data, refp, ip)
    ensures data[refp..refp + len] == data[ip..ip + len]
  {
    if ip + 3 < Limit(data) - MAX_LEN {
      CommonIsLongest(data, refp + 3, ip + 3, ip + 258);
    }
    ThreeEqual(data, refp, ip);
    JoinEqual(data, refp, ip, 3, len - 3);
  }

  lemma ThreeEqual(data: seq<byte>, refp: nat, ip: nat)
    requires refp <= ip < Limit(data) && Found(data, refp, ip)
    ensures data[refp..refp + 3] == data[ip..ip + 3]
  {
    assert data[refp] == data[ip] && data[refp + 1] == data[ip + 1];
  }

  lemma JoinEqual(data: seq<byte>, i: nat, j: nat, m: nat, n: nat)
    requires i + m + n <= |data| && j + m + n <= |data|
    requires data[i..i + m] == data[j..j + m] && data[i + m..i + m + n] == data[j + m..j + m + n]
    ensures data[i..i + (m + n)] == data[j..j + (m + n)]
  {
    SliceJoin(data, i, i + m, i + m + n);
    SliceJoin(data, j, j + m, j + m + n);
  }

  lemma {:induction false} CopyUnique(data: seq<byte>, ip: nat, d: nat, len: nat)
    requires 1 <= d <= ip && ip + len <= |data|
    requires data[ip..ip + len] == data[ip - d..ip - d + len]
    ensures CopyBack(data[..ip], d, len) == data[..ip + len]
    decreases len
  {
    if len > 0 {
      assert data[ip] == data[ip..ip + len][0] == data[ip - d];
      assert data[..ip] + [data[ip - d]] == data[..ip + 1];
      assert data[ip + 1..ip + len] == data[ip..ip + len][1..];
      assert data[ip + 1 - d..ip - d + len] == data[ip - d..ip - d + len][1..];
      CopyUnique(data, ip + 1, d, len - 1);
    }
  }

  /** What the compressor emits from a state means the rest of the input. */
  lemma {:induction false} EncodeMeaning(data: seq<byte>, st: State)
    requires Valid(data, st)
    ensures Eval(data[..st.ip - st.copy], Encode(data, st)) == Some(data)
    decreases |data| - st.ip
  {
    var out := data[..st.ip - st.copy];
    if st.ip == |data| {
      PendingMeaning(data, st);
      assert data[..st.ip] == data;
    } else {
      var t := Next(data, st);
      NextMeaning(data, st);
      EncodeMeaning(data, t.next);
      EvalAppend(out, t.tokens, Encode(data, t.next));
    }
  }

  /** The token stream of an input means that input. */
  lemma TokensMeaning(data: seq<byte>)
    ensures Eval([], Tokens(data)) == Some(data)
  {
    EncodeMeaning(data, Start());
    assert data[..0] == [];
  }

  /** The most a run of `n` bytes may cost: itself and one control byte for every 32 begun. */
  function Budget(n: nat): nat {
    n + (n + 31) / 32
  }

  lemma NextCost(data: seq<byte>, st: State)
    requires Valid(data, st) && st.ip < |data|
    ensures var t := Next(data, st);
            |WireAll(t.tokens)| + Budget(|data| - t.next.ip + t.next.copy) <= Budget(|data| - st.ip + st.copy)
    ensures var t := Next(data, st);
            |WireAll(t.tokens)| + 1 + t.next.copy >= 1 + st.copy
    ensures Closed(Next(data, st).tokens)
  {
    var t := Next(data, st);
    if Hit(data, st) {
      var m, _, next := HitTurn(data, st);
      var run, ref := TurnWire(data, st, m);
      BudgetGrows(|data| - next, |data| - st.ip + st.copy);
    } else {
      var htab := if st.ip < Limit(data) then st.htab[Slot(data, st.ip) := st.ip] else st.htab;
      t := LiteralEffect(data, st, htab, data[st.ip - st.copy..st.ip]);
    }
  }

  lemma BudgetGrows(m: nat, n: nat)
    requires m <= n
    ensures Budget(m) + (n - m) <= Budget(n)
  {
  }

  /** The expansion bound, from any state: a match repays the control byte of the partial run before
      it, so only full runs and the last one cost extra. */
  lemma {:induction false} EncodeCost(data: seq<byte>, st: State)
    requires Valid(data, st)
    ensures |WireAll(Encode(data, st))| <= Budget(|data| - st.ip + st.copy)
    decreases |data| - st.ip
  {
    if st.ip < |data| {
      var t := Next(data, st);
      NextCost(data, st);
      EncodeCost(data, t.next);
      WireAllAppend(t.tokens, Encode(data, t.next));
    }
  }

  lemma TokensCost(data: seq<byte>)
    ensures |WireAll(Tokens(data))| <= Budget(|data|)
  {
    EncodeCost(data, Start());
  }

  /** Whether the last token leaves no room to grow, so that the control byte of a next run follows it. */
  predicate Closed(ts: seq<Token>) {
    ts == [] || ts[|ts| - 1].Match? || |ts[|ts| - 1].bytes| == MAX_COPY
  }

  /** The buffer the compressor needs: it writes one control byte beyond its result exactly when the
      result ends with a match or a full literal run. */
  function Peak(ts: seq<Token>): nat {
    |WireAll(ts)| + if Closed(ts) then 1 else 0
  }

  /** At every state the write cursor is within the peak. */
  lemma {:induction false} PeakReached(data: seq<byte>, done: seq<Token>, st: State)
    requires Valid(data, st) && Closed(done)
    ensures |WireAll(done)| + 1 + st.copy <= Peak(done + Encode(data, st))
    decreases |data| - st.ip
  {
    if st.ip == |data| {
      WireAllAppend(done, Pending(data, st));
      assert st.copy == 0 ==> done + Pending(data, st) == done;
    } else {
      var t := Next(data, st);
      NextCost(data, st);
      ClosedAppend(done, t.tokens);
      PeakReached(data, done + t.tokens, t.next);
      AppendAssociates(done, t.tokens, Encode(data, t.next));
    }
  }

  lemma ClosedAppend(a: seq<Token>, b: seq<Token>)
    requires Closed(a) && Closed(b)
    ensures Closed(a + b) && |WireAll(a + b)| == |WireAll(a)| + |WireAll(b)|
  {
    WireAllAppend(a, b);
    assert b == [] ==> a + b == a;
  }

  // ---- How a stream ends, and so when the peak is more than the size.

  /** The bytes of literals after the last match. */
  function TrailingLiterals(ts: seq<Token>): nat {
    if ts == [] || ts[|ts| - 1].Match? then 0
    else TrailingLiterals(ts[..|ts| - 1]) + |ts[|ts| - 1].bytes|
  }

  /** The literals that still wait for their control byte when a pass reaches the end of the input. */
  function FinalCopy(data: seq<byte>, st: State): (copy: nat)
    requires Valid(data, st)
    ensures copy < MAX_COPY
    decreases |data| - st.ip
  {
    if st.ip == |data| then st.copy else FinalCopy(data, Next(data, st).next)
  }

  /** Full runs only since the last match. */
  predicate FullRuns(ts: seq<Token>) {
    Closed(ts) && TrailingLiterals(ts) % MAX_COPY == 0
  }

  predicate EndsWith(ts: seq<Token>, copy: nat) {
    TrailingLiterals(ts) % MAX_COPY == copy && (Closed(ts) <==> copy == 0)
  }

  lemma {:induction false} EncodeEnds(data: seq<byte>, done: seq<Token>, st: State)
    requires Valid(data, st) && FullRuns(done)
    ensures EndsWith(done + Encode(data, st), FinalCopy(data, st))
    decreases |data| - st.ip
  {
    if st.ip == |data| {
      PendingEnds(data, done, st);
    } else {
      var t := Next(data, st);
      TurnEnds(data, done, st);
      EncodeEnds(data, done + t.tokens, t.next);
      AppendAssociates(done, t.tokens, Encode(data, t.next));
    }
  }

  lemma AppendOne(ts: seq<Token>, t: Token)
    ensures (ts + [t])[..|ts|] == ts
    ensures TrailingLiterals(ts + [t]) == if t.Match? then 0 else TrailingLiterals(ts) + |t.bytes|
    ensures Closed(ts + [t]) <==> t.Match? || |t.bytes| == MAX_COPY
  {
    assert (ts + [t])[..|ts|] == ts;
  }

  lemma PendingEnds(data: seq<byte>, done: seq<Token>, st: State)
    requires st.copy < MAX_COPY && st.copy <= st.ip <= |data| && FullRuns(done)
    ensures EndsWith(done + Pending(data, st), st.copy)
  {
    if st.copy == 0 {
      assert done + [] == done;
    } else {
      RunEnds(done, data[st.ip - st.copy..st.ip]);
    }
  }

  lemma RunEnds(done: seq<Token>, run: seq<byte>)
    requires FullRuns(done) && 0 < |run| < MAX_COPY
    ensures EndsWith(done + [Literals(run)], |run|)
  {
    AppendOne(done, Literals(run));
  }

  lemma TurnEnds(data: seq<byte>, done: seq<Token>, st: State)
    requires Valid(data, st) && st.ip < |data| && FullRuns(done)
    ensures FullRuns(done + Next(data, st).tokens)
  {
    if Hit(data, st) {
      var m, _, _ := HitTurn(data, st);
      AppendAssociates(done, Pending(data, st), [m]);
      AppendOne(done + Pending(data, st), m);
    } else {
      MissIsLiteral(data, st);
      var ts := LiteralTurn(data, st).tokens;
      if ts == [] {
        assert done + [] == done;
      } else {
        assert ts == [ts[0]];
        LiteralEnds(done, ts[0]);
      }
    }
  }

  lemma LiteralEnds(done: seq<Token>, t: Token)
    requires FullRuns(done) && t.Literals? && |t.bytes| == MAX_COPY
    ensures FullRuns(done + [t])
  {
    AppendOne(done, t);
    AddRun(TrailingLiterals(done));
  }

  lemma AddRun(n: nat)
    ensures (n + MAX_COPY) % MAX_COPY == n % MAX_COPY
  {
  }

  /** After a match at least three bytes follow, so a stream never ends with one. */
  lemma {:induction false} EncodeEndsInLiterals(data: seq<byte>, done: seq<Token>, st: State)
    requires Valid(data, st)
    requires st.ip == |data| && st.copy == 0 ==> done != [] && done[|done| - 1].Literals?
    ensures var ts := done + Encode(data, st); ts != [] && ts[|ts| - 1].Literals?
    decreases |data| - st.ip
  {
    if st.ip < |data| {
      var t := Next(data, st);
      EncodeEndsInLiterals(data, done + t.tokens, t.next);
      AppendAssociates(done, t.tokens, Encode(data, t.next));
    }
  }

  /** How every stream ends: in literals, in an unfinished run just if the pass ends in one. */
  lemma TokensEnd(data: seq<byte>)
    ensures EndsWith(Tokens(data), FinalCopy(data, Start()))
    ensures data != [] ==> Tokens(data) != [] && Tokens(data)[|Tokens(data)| - 1].Literals?
  {
    EncodeEnds(data, [], Start());
    assert [] + Tokens(data) == Tokens(data);
    if data != [] {
      EncodeEndsInLiterals(data, [], Start());
    }
  }

  /** What a pass has behind it: the tokens it closed, their bytes, and the peak it is bound by. */
  datatype Progress = Progress(done: seq<Token>, wire: seq<byte>, peak: nat)

  /** A pass has reached `st`: whatever is emitted from there completes the stream of the input.
      (The quantifier keeps this folded up until `p.done + rest` is mentioned for some `rest`.) */
  ghost predicate Reached(data: seq<byte>, p: Progress, st: State) {
    forall rest {:trigger p.done + rest} ::
      && Valid(data, st)
      && (rest == Encode(data, st) ==>
            && p.done + rest == Tokens(data) && Closed(p.done)
            && p.wire == WireAll(p.done) && p.peak == Peak(Tokens(data)))
  }

  lemma ReachedValid(data: seq<byte>, p: Progress, st: State)
    requires Reached(data, p, st)
    ensures Valid(data, st)
  {
    assert p.done + [] == p.done;
  }

  /** What a probe of the table may rely on. */
  lemma Entry(data: seq<byte>, p: Progress, st: State)
    requires Reached(data, p, st) && st.ip < Limit(data)
    ensures |st.htab| == HASH_SIZE && 0 <= st.htab[Slot(data, st.ip)] <= st.ip
  {
    ReachedValid(data, p, st);
  }

  lemma Begin(data: seq<byte>) returns (p: Progress)
    ensures Reached(data, p, Start()) && p.wire == [] && 1 <= p.peak == Peak(Tokens(data))
  {
    p := Progress([], [], Peak(Tokens(data)));
    PeakReached(data, [], Start());
    assert p.done + Encode(data, Start()) == Tokens(data);
  }

  /** One turn moves from reached to reached; its tokens and the next control byte fit in the peak. */
  lemma Advance(data: seq<byte>, p: Progress, st: State, t: Turn) returns (q: Progress)
    requires Reached(data, p, st) && Valid(data, st) && st.ip < |data| && t == Next(data, st)
    ensures Reached(data, q, t.next) && q.peak == p.peak
    ensures q.wire == p.wire + WireAll(t.tokens) && |q.wire| + 1 + t.next.copy <= q.peak
  {
    assert p.done + Encode(data, st) == Tokens(data);
    q := Progress(p.done + t.tokens, p.wire + WireAll(t.tokens), p.peak);
    NextCost(data, st);
    ClosedAppend(p.done, t.tokens);
    WireAllAppend(p.done, t.tokens);
    AppendAssociates(p.done, t.tokens, Encode(data, t.next));
    PeakReached(data, q.done, t.next);
  }

  /** A literal turn, by its effect: the open run grows, or closes at 32 bytes. */
  lemma AdvanceLiteral(data: seq<byte>, p: Progress, st: State, htab: seq<int>, open: seq<byte>)
    returns (q: Progress, next: State, rest: seq<byte>)
    requires Reached(data, p, st) && |st.htab| == HASH_SIZE && st.copy < MAX_COPY && st.copy <= st.ip < |data|
    requires st.ip < Limit(data) ==>
               0 <= st.htab[Slot(data, st.ip)] <= st.ip && !Found(data, st.htab[Slot(data, st.ip)], st.ip)
    requires htab == if st.ip < Limit(data) then st.htab[Slot(data, st.ip) := st.ip] else st.htab
    requires open == data[st.ip - st.copy..st.ip]
    ensures Reached(data, q, next) && q.peak == p.peak
    ensures next.htab == htab && next.ip == st.ip + 1
    ensures if st.copy + 1 < MAX_COPY
            then next.copy == st.copy + 1 && q.wire == p.wire && rest == open + [data[st.ip]]
            else next.copy == 0 && q.wire == p.wire + ([31] + (open + [data[st.ip]])) && rest == []
    ensures rest == data[next.ip - next.copy..next.ip]
    ensures |q.wire| + 1 + next.copy <= q.peak
  {
    ReachedValid(data, p, st);
    var t := LiteralEffect(data, st, htab, open);
    next := t.next;
    q := Advance(data, p, st, t);
    assert p.wire + [] == p.wire;
    rest := if next.copy == 0 then [] else open + [data[st.ip]];
  }

  lemma LiteralEffect(data: seq<byte>, st: State, htab: seq<int>, open: seq<byte>) returns (t: Turn)
    requires Valid(data, st) && st.ip < |data| && !Hit(data, st)
    requires htab == if st.ip < Limit(data) then st.htab[Slot(data, st.ip) := st.ip] else st.htab
    requires open == data[st.ip - st.copy..st.ip]
    ensures t == Next(data, st)
    ensures t.next == State(htab, st.ip + 1, if st.copy + 1 < MAX_COPY then st.copy + 1 else 0)
    ensures WireAll(t.tokens) == if st.copy + 1 < MAX_COPY then [] else [31] + (open + [data[st.ip]])
    ensures open + [data[st.ip]] == data[st.ip - st.copy..st.ip + 1]
  {
    t := Next(data, st);
    LiteralWire(data, st.ip, st.copy, open);
  }

  lemma LiteralWire(data: seq<byte>, ip: nat, copy: nat, open: seq<byte>)
    requires copy <= ip < |data| && copy < MAX_COPY && open == data[ip - copy..ip]
    ensures open + [data[ip]] == data[ip - copy..ip + 1]
    ensures WireAll([Literals(data[ip - copy..ip + 1])]) == [copy] + (open + [data[ip]])
  {
    assert open + [data[ip]] == data[ip - copy..ip + 1];
    RunWire(open + [data[ip]]);
  }

  /** A match turn, by its effect: the open run gets its control byte, the match follows. */
  lemma AdvanceMatch(data: seq<byte>, p: Progress, st: State, htab: seq<int>, open: seq<byte>,
                     slot: nat, distance: nat, len: nat, ip: nat, last: nat)
    returns (q: Progress, next: State)
    requires Reached(data, p, st) && |st.htab| == HASH_SIZE && st.copy < MAX_COPY && st.copy <= st.ip < Limit(data)
    requires slot == Slot(data, st.ip) && st.ip - distance == st.htab[slot] && distance <= st.ip
    requires Found(data, st.ip - distance, st.ip)
    requires len == MatchLength(data, st.ip - distance, st.ip) && ip == st.ip + len && last == Slot(data, ip - 1)
    requires htab == st.htab[slot := st.ip][last := ip - 1]
    requires open == data[st.ip - st.copy..st.ip]
    ensures Reached(data, q, next) && q.peak == p.peak
    ensures next.htab == htab && next.ip == ip && next.copy == 0
    ensures q.wire == p.wire + (if st.copy == 0 then [] else [st.copy - 1] + open) + Reference(distance, len)
    ensures |q.wire| + 1 <= q.peak
  {
    ReachedValid(data, p, st);
    next := State(htab, ip, 0);
    assert Hit(data, st);
    var m, _, _ := HitTurn(data, st);
    q := Advance(data, p, st, Turn(Pending(data, st) + [m], next));
    var run, ref := TurnWire(data, st, m);
    AppendAssociates(p.wire, run, ref);
  }

  lemma TurnWire(data: seq<byte>, st: State, m: Token) returns (run: seq<byte>, ref: seq<byte>)
    requires st.copy < MAX_COPY && st.copy <= st.ip <= |data| && m.Match?
    ensures WireAll(Pending(data, st) + [m]) == run + ref
    ensures run == if st.copy == 0 then [] else [st.copy - 1] + data[st.ip - st.copy..st.ip]
    ensures ref == Reference(m.distance, m.len)
  {
    run, ref := WireAll(Pending(data, st)), Wire(m);
    PendingWire(data, st);
    WireAllAppend(Pending(data, st), [m]);
    WireOne(m);
  }

  lemma WireOne(t: Token)
    ensures WireAll([t]) == Wire(t)
  {
    assert [t][1..] == [];
  }

  lemma PendingWire(data: seq<byte>, st: State)
    requires st.copy < MAX_COPY && st.copy <= st.ip <= |data|
    ensures WireAll(Pending(data, st)) == if st.copy == 0 then [] else [st.copy - 1] + data[st.ip - st.copy..st.ip]
  {
    if st.copy == 0 {
      assert Pending(data, st) == [];
    } else {
      var run := data[st.ip - st.copy..st.ip];
      assert Pending(data, st) == [Literals(run)];
      RunWire(run);
    }
  }

  lemma RunWire(run: seq<byte>)
    requires 1 <= |run| <= MAX_COPY
    ensures WireAll([Literals(run)]) == [|run| - 1] + run
  {
    WireOne(Literals(run));
  }

  /** At the end of the input the last partial run closes the stream. */
  lemma Finish(data: seq<byte>, p: Progress, st: State)
    requires Reached(data, p, st) && st.copy < MAX_COPY && st.copy <= st.ip == |data|
    ensures WireAll(Tokens(data)) == p.wire + if st.copy == 0 then [] else [st.copy - 1] + data[st.ip - st.copy..]
    ensures Peak(Tokens(data)) == p.peak == |p.wire| + 1 + st.copy
  {
    ReachedValid(data, p, st);
    assert p.done + Encode(data, st) == Tokens(data);
    PendingWire(data, st);
    FinishTokens(p.done, Pending(data, st), st.copy);
    assert data[st.ip - st.copy..st.ip] == data[st.ip - st.copy..];
  }

  lemma FinishTokens(done: seq<Token>, last: seq<Token>, copy: nat)
    requires Closed(done) && copy < MAX_COPY
    requires if copy == 0 then last == [] else |last| == 1 && last[0].Literals? && |last[0].bytes| == copy
    ensures WireAll(done + last) == WireAll(done) + WireAll(last)
    ensures Peak(done + last) == |WireAll(done)| + 1 + copy
  {
    WireAllAppend(done, last);
    if copy == 0 {
      assert done + last == done;
    } else {
      assert last[1..] == [];
    }
  }
}
