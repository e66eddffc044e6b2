/** When the LZF compressor takes a match, and which: told from its token stream and the input alone. */
module LzfGreedy {
  import opened Wrappers
  import opened Bits
  import opened LzfTokens
  import opened LzfEncoder

  // ---- The 12-bit value that decides which positions share a place in the table.

  /** The 16-bit word at `p`, low byte first. */
  function Word(x: seq<byte>, p: nat): nat
    requires p + 1 < |x|
  {
    x[p] as int + 256 * x[p + 1] as int
  }

  /** Bit `i` of the value of two words that overlap in one byte. */
  function WordBit(v: nat, w: nat, i: nat): nat {
    (Bit(v, i) + Bit(w, i) + Bit(v, i + 4)) % 2
  }

  ghost predicate SameWords(v: nat, w: nat, v': nat, w': nat) {
    forall i: nat :: i < 12 ==> WordBit(v, w, i) == WordBit(v', w', i)
  }

  ghost predicate SameValue(x: seq<byte>, p: nat, q: nat) {
    && p + 2 < |x| && q + 2 < |x|
    && SameWords(Word(x, p), Word(x, p + 1), Word(x, q), Word(x, q + 1))
  }

  /** Two positions share a table entry exactly if the twelve bits agree. */
  lemma SlotIff(x: seq<byte>, p: nat, q: nat)
    requires p + 2 < |x| && q + 2 < |x|
    ensures Slot(x, p) == Slot(x, q) <==> SameValue(x, p, q)
  {
    MaskIff(Word(x, p), Word(x, p + 1), Word(x, q), Word(x, q + 1));
  }

  lemma MaskIff(v: nat, w: nat, v': nat, w': nat)
    ensures Mix(v, w) % HASH_SIZE == Mix(v', w') % HASH_SIZE <==> SameWords(v, w, v', w')
  {
    var a, b := Mix(v, w), Mix(v', w');
    Pow12();
    LowBits(a, b, 12);
    if SameBits(a, b, 12) {
      forall i: nat | i < 12
        ensures WordBit(v, w, i) == WordBit(v', w', i)
      {
        assert Bit(a, i) == Bit(b, i);
        MixBit(v, w, i);
        MixBit(v', w', i);
      }
    }
    if SameWords(v, w, v', w') {
      forall i: nat | i < 12
        ensures Bit(a, i) == Bit(b, i)
      {
        assert WordBit(v, w, i) == WordBit(v', w', i);
        MixBit(v, w, i);
        MixBit(v', w', i);
      }
    }
  }

  lemma Pow12()
    ensures Pow2(12) == HASH_SIZE
  {
    assert Pow2(6) == 64;
  }

  lemma MixBit(v: nat, w: nat, i: nat)
    ensures Bit(Mix(v, w), i) == WordBit(v, w, i)
  {
    XorBit(v, Xor(w, Shr(v, 4)), i);
    XorBit(w, Shr(v, 4), i);
    ShrBit(v, 4, i);
    AddParity(Bit(v, i), Bit(w, i), Bit(v, i + 4));
  }

  lemma AddParity(a: nat, b: nat, c: nat)
    ensures (a + (b + c) % 2) % 2 == (a + b + c) % 2
  {
  }

  predicate SameThree(x: seq<byte>, p: nat, q: nat) {
    p + 2 < |x| && q + 2 < |x| && x[p] == x[q] && x[p + 1] == x[q + 1] && x[p + 2] == x[q + 2]
  }

  // ---- The stream as single steps: each literal byte is a step, and so is each match.

  type pos = n: int | n > 0 witness 1

  datatype Step = Literal | Copy(distance: nat, len: pos)

  function Lits(n: nat): (s: seq<Step>)
    ensures |s| == n
  {
    seq(n, _ => Literal)
  }

  function StepsOf(t: Token): seq<Step> {
    match t
    case Literals(bytes) => Lits(|bytes|)
    case Match(distance, len) => [Copy(distance, len)]
  }

  function Steps(ts: seq<Token>): seq<Step> {
    if ts == [] then [] else StepsOf(ts[0]) + Steps(ts[1..])
  }

  function Span(s: Step): pos {
    match s
    case Literal => 1
    case Copy(_, len) => len
  }

  /** The input position reached by some steps. */
  function Reach(steps: seq<Step>): nat {
    if steps == [] then 0 else Reach(steps[..|steps| - 1]) + Span(steps[|steps| - 1])
  }

  /** The positions that steps enter in the table: a literal its own (but not in the last 36 bytes), a
      match its first and its last. */
  function Entered(x: seq<byte>, steps: seq<Step>): set<nat> {
    if steps == [] then {}
    else
      var before := steps[..|steps| - 1];
      Entered(x, before) + EnteredBy(x, Reach(before), steps[|steps| - 1])
  }

  function EnteredBy(x: seq<byte>, at: nat, s: Step): set<nat> {
    match s
    case Literal => if at < |x| - 36 then {at} else {}
    case Copy(_, len) => {at, at + len - 1}
  }

  // ---- What a greedy stream is.

  /** `q` is the last position entered with the value of `at`. */
  ghost predicate IsLast(x: seq<byte>, entered: set<nat>, at: nat, q: nat) {
    q in entered && SameValue(x, q, at) && forall r :: r in entered && SameValue(x, r, at) ==> r <= q
  }

  /** It is an earlier one, not too far back, and its three bytes are those at `at`. */
  ghost predicate Worth(x: seq<byte>, entered: set<nat>, at: nat, q: nat) {
    IsLast(x, entered, at, q) && q < at <= q + 8191 && SameThree(x, q, at)
  }

  /** `len` bytes at `q` and `at` agree, and no more do, or it is the most there may be. */
  predicate Longest(x: seq<byte>, q: nat, at: nat, len: nat) {
    && q <= at && at + len < |x| && len <= 258
    && x[q..q + len] == x[at..at + len] && (len < 258 ==> x[q + len] != x[at + len])
  }

  ghost predicate IsGreedy(x: seq<byte>, entered: set<nat>, at: nat, s: Step) {
    match s
    case Literal =>
      at < |x| - 36 ==> forall q: nat :: !Worth(x, entered, at, q)
    case Copy(distance, len) =>
      && at < |x| - 36 && distance <= at && Worth(x, entered, at, at - distance)
      && if at + 3 < |x| - 300 then Longest(x, at - distance, at, len) else len == 3
  }

  // ---- The compressor's turns as steps.

  function StepAt(data: seq<byte>, st: State): (s: Step)
    requires Valid(data, st) && st.ip < |data|
  {
    if Hit(data, st) then
      Copy(st.ip - Candidate(data, st), MatchLength(data, Candidate(data, st), st.ip))
    else Literal
  }

  function StepsFrom(data: seq<byte>, st: State): seq<Step>
    requires Valid(data, st)
    decreases |data| - st.ip
  {
    if st.ip == |data| then [] else [StepAt(data, st)] + StepsFrom(data, Next(data, st).next)
  }

  lemma {:induction false} StepsAppend(a: seq<Token>, b: seq<Token>)
    ensures Steps(a + b) == Steps(a) + Steps(b)
  {
    if a == [] {
      assert a + b == b;
    } else {
      StepsAppend(a[1..], b);
      assert (a + b)[1..] == a[1..] + b;
      AppendAssociates(StepsOf(a[0]), Steps(a[1..]), Steps(b));
    }
  }

  lemma StepsOne(t: Token)
    ensures Steps([t]) == StepsOf(t)
  {
    assert [t][1..] == [];
  }

  /** A stream's steps are those waiting for their control byte and those of the turns to come. */
  lemma {:induction false} EncodeSteps(data: seq<byte>, st: State)
    requires Valid(data, st)
    ensures Steps(Encode(data, st)) == Lits(st.copy) + StepsFrom(data, st)
    decreases |data| - st.ip
  {
    if st.ip == |data| {
      PendingSteps(data, st);
    } else {
      var t := Next(data, st);
      EncodeSteps(data, t.next);
      StepsAppend(t.tokens, Encode(data, t.next));
      TurnSteps(data, st);
      AppendAssociates(Steps(t.tokens), Lits(t.next.copy), StepsFrom(data, t.next));
      AppendAssociates(Lits(st.copy), [StepAt(data, st)], StepsFrom(data, t.next));
    }
  }

  lemma PendingSteps(data: seq<byte>, st: State)
    requires st.copy < MAX_COPY && st.copy <= st.ip <= |data|
    ensures Steps(Pending(data, st)) == Lits(st.copy)
  {
    if st.copy > 0 {
      StepsOne(Literals(data[st.ip - st.copy..st.ip]));
    }
  }

  lemma TurnSteps(data: seq<byte>, st: State)
    requires Valid(data, st) && st.ip < |data|
    ensures var t := Next(data, st);
            Steps(t.tokens) + Lits(t.next.copy) == Lits(st.copy) + [StepAt(data, st)]
  {
    if Hit(data, st) {
      var m, _, _ := HitTurn(data, st);
      MatchSteps(data, st, m);
    } else {
      MissIsLiteral(data, st);
      LiteralSteps(data, st);
    }
  }

  lemma MatchSteps(data: seq<byte>, st: State, m: Token)
    requires st.copy < MAX_COPY && st.copy <= st.ip <= |data| && m.Match?
    ensures Steps(Pending(data, st) + [m]) + Lits(0) == Lits(st.copy) + [Copy(m.distance, m.len)]
  {
    PendingSteps(data, st);
    StepsAppend(Pending(data, st), [m]);
    StepsOne(m);
  }

  lemma LiteralSteps(data: seq<byte>, st: State)
    requires Valid(data, st) && st.ip < |data|
    ensures var t := LiteralTurn(data, st);
            Steps(t.tokens) + Lits(t.next.copy) == Lits(st.copy) + [Literal]
  {
    assert Lits(st.copy + 1) == Lits(st.copy) + [Literal];
    if st.copy + 1 == MAX_COPY {
      StepsOne(Literals(data[st.ip - st.copy..st.ip + 1]));
    }
  }

  // ---- The table: the last position entered with each value.

  /** `e` is the last position entered in place `h`, or zero where there is none. */
  ghost predicate EntryIs(data: seq<byte>, entered: set<nat>, h: nat, e: int) {
    && (forall q :: q in entered && q + 2 < |data| && Slot(data, q) == h ==> q <= e)
    && (e == 0 || (0 < e && e in entered && e + 2 < |data| && Slot(data, e) == h))
  }

  /** The table and the positions entered, all of them before `at`. */
  ghost predicate Holds(data: seq<byte>, htab: seq<int>, entered: set<nat>, at: nat) {
    && |htab| == HASH_SIZE
    && (forall h: nat :: h < HASH_SIZE ==> EntryIs(data, entered, h, htab[h]))
    && (forall q :: q in entered ==> q < at && q + 2 < |data|)
    && (0 < at < |data| - 36 ==> 0 in entered)
  }

  lemma EnterOne(data: seq<byte>, htab: seq<int>, entered: set<nat>, p: nat)
    requires |htab| == HASH_SIZE && p + 2 < |data|
    requires forall h: nat :: h < HASH_SIZE ==> EntryIs(data, entered, h, htab[h])
    requires forall q :: q in entered ==> q <= p
    ensures var now := htab[Slot(data, p) := p];
            forall h: nat :: h < HASH_SIZE ==> EntryIs(data, entered + {p}, h, now[h])
  {
    var now := htab[Slot(data, p) := p];
    forall h: nat | h < HASH_SIZE
      ensures EntryIs(data, entered + {p}, h, now[h])
    {
      assert EntryIs(data, entered, h, htab[h]);
    }
  }

  /** A found candidate is worth taking. */
  lemma FoundIsWorth(data: seq<byte>, st: State, entered: set<nat>)
    requires Valid(data, st) && Hit(data, st) && Holds(data, st.htab, entered, st.ip)
    ensures Worth(data, entered, st.ip, Candidate(data, st))
  {
    var e, h := Candidate(data, st), Slot(data, st.ip);
    assert EntryIs(data, entered, h, e);
    SameThreeBytes(data, e, st.ip);
    forall r | r in entered && SameValue(data, r, st.ip)
      ensures r <= e
    {
      SlotIff(data, r, st.ip);
    }
  }

  lemma SameThreeBytes(data: seq<byte>, refp: nat, ip: nat)
    requires refp <= ip < Limit(data)
    requires ReadU16(data, refp) == ReadU16(data, ip) && data[refp + 2] == data[ip + 2]
    ensures SameThree(data, refp, ip) && SameValue(data, refp, ip)
  {
  }

  /** Nothing is worth taking where the candidate is not found. */
  lemma MissIsWorthless(data: seq<byte>, st: State, entered: set<nat>, q: nat)
    requires Valid(data, st) && st.ip < Limit(data) && !Hit(data, st)
    requires Holds(data, st.htab, entered, st.ip)
    ensures !Worth(data, entered, st.ip, q)
  {
    if Worth(data, entered, st.ip, q) {
      var e, h := Candidate(data, st), Slot(data, st.ip);
      assert EntryIs(data, entered, h, e);
      SlotIff(data, q, st.ip);
      assert q <= e;
      if e != 0 {
        SlotIff(data, e, st.ip);
      }
      assert false;
    }
  }

  /** A match is measured as far as it may go. */
  lemma LengthIsLongest(data: seq<byte>, refp: nat, ip: nat)
    requires refp < ip < Limit(data) && Found(data, refp, ip)
    ensures var len := MatchLength(data, refp, ip);
            if ip + 3 < |data| - 300 then Longest(data, refp, ip, len) else len == 3
  {
    var len := MatchLength(data, refp, ip);
    if ip + 3 < |data| - 300 {
      MatchEqual(data, refp, ip, len);
      CommonIsLongest(data, refp + 3, ip + 3, ip + 258);
    }
  }

  lemma TurnIsGreedy(data: seq<byte>, st: State, entered: set<nat>)
    requires Valid(data, st) && st.ip < |data| && Holds(data, st.htab, entered, st.ip)
    ensures IsGreedy(data, entered, st.ip, StepAt(data, st))
  {
    if Hit(data, st) {
      FoundIsWorth(data, st, entered);
      LengthIsLongest(data, Candidate(data, st), st.ip);
    } else if st.ip < Limit(data) {
      forall q: nat
        ensures !Worth(data, entered, st.ip, q)
      {
        MissIsWorthless(data, st, entered, q);
      }
    }
  }

  lemma TurnHolds(data: seq<byte>, st: State, entered: set<nat>)
    requires Valid(data, st) && st.ip < |data| && Holds(data, st.htab, entered, st.ip)
    ensures var next := Next(data, st).next;
            && Holds(data, next.htab, entered + EnteredBy(data, st.ip, StepAt(data, st)), next.ip)
            && next.ip == st.ip + Span(StepAt(data, st))
  {
    if Hit(data, st) {
      MatchHolds(data, st, entered);
    } else if st.ip < Limit(data) {
      EnterOne(data, st.htab, entered, st.ip);
    } else {
      assert entered + {} == entered;
    }
  }

  lemma MatchHolds(data: seq<byte>, st: State, entered: set<nat>)
    requires Valid(data, st) && Hit(data, st) && Holds(data, st.htab, entered, st.ip)
    ensures var next := Next(data, st).next;
            && Holds(data, next.htab, entered + EnteredBy(data, st.ip, StepAt(data, st)), next.ip)
            && next.ip == st.ip + Span(StepAt(data, st))
  {
    var _, _, next := HitTurn(data, st);
    EnterTwo(data, st.htab, entered, st.ip, next - 1);
  }

  lemma EnterTwo(data: seq<byte>, htab: seq<int>, entered: set<nat>, first: nat, last: nat)
    requires Holds(data, htab, entered, first) && first < last && last + 2 < |data| && first < |data| - 36
    ensures Holds(data, htab[Slot(data, first) := first][Slot(data, last) := last], entered + {first, last}, last + 1)
  {
    var once := entered + {first};
    EnterOne(data, htab, entered, first);
    EnterOne(data, htab[Slot(data, first) := first], once, last);
    assert once + {last} == entered + {first, last};
  }

  lemma AddStep(x: seq<byte>, done: seq<Step>, s: Step)
    ensures Reach(done + [s]) == Reach(done) + Span(s)
    ensures Entered(x, done + [s]) == Entered(x, done) + EnteredBy(x, Reach(done), s)
  {
    assert (done + [s])[..|done|] == done;
  }

  /** Every step of a stream is greedy. */
  ghost predicate AllGreedy(x: seq<byte>, steps: seq<Step>) {
    forall k: nat :: k < |steps| ==> IsGreedy(x, Entered(x, steps[..k]), Reach(steps[..k]), steps[k])
  }

  lemma AddGreedy(x: seq<byte>, done: seq<Step>, s: Step)
    requires AllGreedy(x, done) && IsGreedy(x, Entered(x, done), Reach(done), s)
    ensures AllGreedy(x, done + [s])
  {
    var all := done + [s];
    forall k: nat | k < |all|
      ensures IsGreedy(x, Entered(x, all[..k]), Reach(all[..k]), all[k])
    {
      if k < |done| {
        assert all[..k] == done[..k];
        assert IsGreedy(x, Entered(x, done[..k]), Reach(done[..k]), done[k]);
      } else {
        assert all[..k] == done;
      }
    }
  }

  lemma {:induction false} AllFromState(data: seq<byte>, done: seq<Step>, st: State)
    requires Valid(data, st) && Reach(done) == st.ip && AllGreedy(data, done)
    requires Holds(data, st.htab, Entered(data, done), st.ip)
    ensures AllGreedy(data, done + StepsFrom(data, st)) && Reach(done + StepsFrom(data, st)) == |data|
    decreases |data| - st.ip
  {
    if st.ip == |data| {
      assert done + [] == done;
    } else {
      var s, next := StepAt(data, st), Next(data, st).next;
      TurnIsGreedy(data, st, Entered(data, done));
      TurnHolds(data, st, Entered(data, done));
      AddStep(data, done, s);
      AddGreedy(data, done, s);
      AllFromState(data, done + [s], next);
      AppendAssociates(done, [s], StepsFrom(data, next));
    }
  }

  lemma TokensSteps(x: seq<byte>)
    ensures Steps(Tokens(x)) == StepsFrom(x, Start())
  {
    EncodeSteps(x, Start());
    assert Lits(0) + StepsFrom(x, Start()) == StepsFrom(x, Start());
  }

  /** The compressor is greedy on every input: before the last 36 bytes a step is a match exactly if the
      last position entered with the same twelve bits is worth taking, and then it is that match. */
  lemma TokensAreGreedy(x: seq<byte>)
    ensures AllGreedy(x, Steps(Tokens(x))) && Reach(Steps(Tokens(x))) == |x|
  {
    TokensSteps(x);
    AllFromState(x, [], Start());
    assert [] + StepsFrom(x, Start()) == StepsFrom(x, Start());
  }

  /** So before the last 36 bytes a step is a match exactly if there is something worth taking. */
  lemma MatchIff(x: seq<byte>, k: nat)
    requires k < |Steps(Tokens(x))|
    ensures var steps := Steps(Tokens(x));
            var at, entered := Reach(steps[..k]), Entered(x, steps[..k]);
            steps[k].Copy? <==> at < |x| - 36 && SomeWorth(x, entered, at)
  {
    TokensAreGreedy(x);
    GreedyIff(x, Steps(Tokens(x)), k);
  }

  ghost predicate SomeWorth(x: seq<byte>, entered: set<nat>, at: nat) {
    exists q: nat :: Worth(x, entered, at, q)
  }

  lemma GreedyIff(x: seq<byte>, steps: seq<Step>, k: nat)
    requires AllGreedy(x, steps) && k < |steps|
    ensures var at, entered := Reach(steps[..k]), Entered(x, steps[..k]);
            steps[k].Copy? <==> at < |x| - 36 && SomeWorth(x, entered, at)
  {
    var s, at, entered := steps[k], Reach(steps[..k]), Entered(x, steps[..k]);
    assert IsGreedy(x, entered, at, s);
    if s.Copy? {
      assert Worth(x, entered, at, at - s.distance);
    }
  }

  // ---- What that makes of repetitive inputs: how often a literal can come back.

  lemma {:induction false} EnteredBelow(x: seq<byte>, steps: seq<Step>, q: nat)
    requires q in Entered(x, steps)
    ensures q < Reach(steps)
  {
    var before := steps[..|steps| - 1];
    if q in Entered(x, before) {
      EnteredBelow(x, before, q);
    }
  }

  /** A literal before the last 36 bytes stays entered. */
  lemma {:induction false} StaysEntered(x: seq<byte>, steps: seq<Step>, j: nat, k: nat)
    requires j < k <= |steps| && steps[j].Literal? && Reach(steps[..j]) < |x| - 36
    ensures Reach(steps[..j]) in Entered(x, steps[..k]) && Reach(steps[..j]) < Reach(steps[..k])
    decreases k
  {
    assert steps[..k][..k - 1] == steps[..k - 1];
    if j < k - 1 {
      StaysEntered(x, steps, j, k - 1);
    }
    EnteredBelow(x, steps[..k], Reach(steps[..j]));
  }

  /** The last position entered with the value of `at`, if there is one. */
  lemma {:induction false} LastOf(x: seq<byte>, entered: set<nat>, at: nat, p: nat) returns (q: nat)
    requires p in entered && SameValue(x, p, at)
    ensures IsLast(x, entered, at, q) && p <= q
    decreases |entered|
  {
    if r :| r in entered && SameValue(x, r, at) && r > p {
      Smaller(entered, p);
      q := LastOf(x, entered - {p}, at, r);
    } else {
      q := p;
    }
  }

  lemma Smaller<T>(s: set<T>, e: T)
    requires e in s
    ensures |s - {e}| == |s| - 1
  {
  }

  /** On every input: of two literals with the same three bytes, at most 8191 bytes apart and before the
      last 36, the later one is there because of a position between them that was entered with the same
      twelve bits but holds other bytes. */
  lemma LiteralAgain(x: seq<byte>, j: nat, k: nat) returns (r: nat)
    requires j < k && EarlyLiteral(x, Steps(Tokens(x)), j) && EarlyLiteral(x, Steps(Tokens(x)), k)
    requires var a, b := Reach(Steps(Tokens(x))[..j]), Reach(Steps(Tokens(x))[..k]);
             b <= a + 8191 && SameThree(x, a, b)
    ensures var a, b := Reach(Steps(Tokens(x))[..j]), Reach(Steps(Tokens(x))[..k]);
            && a < r < b && SameValue(x, r, b) && !SameThree(x, r, b)
            && r in Entered(x, Steps(Tokens(x))[..k])
  {
    TokensAreGreedy(x);
    r := GreedyAgain(x, Steps(Tokens(x)), j, k);
  }

  /** Step `k` is a literal before the last 36 bytes. */
  predicate EarlyLiteral(x: seq<byte>, steps: seq<Step>, k: nat) {
    k < |steps| && steps[k].Literal? && Reach(steps[..k]) < |x| - 36
  }

  lemma GreedyAgain(x: seq<byte>, steps: seq<Step>, j: nat, k: nat) returns (r: nat)
    requires AllGreedy(x, steps) && j < k && EarlyLiteral(x, steps, j) && EarlyLiteral(x, steps, k)
    requires Reach(steps[..k]) <= Reach(steps[..j]) + 8191 && SameThree(x, Reach(steps[..j]), Reach(steps[..k]))
    ensures var a, b := Reach(steps[..j]), Reach(steps[..k]);
            && a < r < b && SameValue(x, r, b) && !SameThree(x, r, b)
            && r in Entered(x, steps[..k])
  {
    var a, b, entered := Reach(steps[..j]), Reach(steps[..k]), Entered(x, steps[..k]);
    assert IsGreedy(x, entered, b, steps[k]);
    StaysEntered(x, steps, j, k);
    r := NotWorth(x, entered, a, b);
    EnteredBelow(x, steps[..k], r);
    assert r != b;
  }

  lemma NotWorth(x: seq<byte>, entered: set<nat>, a: nat, b: nat) returns (r: nat)
    requires IsGreedy(x, entered, b, Literal) && a in entered && a < b < |x| - 36
    requires b <= a + 8191 && SameThree(x, a, b)
    ensures r in entered && SameValue(x, r, b) && a <= r && (r < b ==> a < r && !SameThree(x, r, b))
  {
    SameThreeValue(x, a, b);
    r := LastOf(x, entered, b, a);
    assert !Worth(x, entered, b, r);
  }

  lemma SameThreeValue(x: seq<byte>, p: nat, q: nat)
    requires SameThree(x, p, q)
    ensures SameValue(x, p, q)
  {
  }

  lemma {:induction false} EarlierIsEarly(x: seq<byte>, steps: seq<Step>, j: nat, k: nat)
    requires j <= k <= |steps|
    ensures Reach(steps[..j]) <= Reach(steps[..k])
    decreases k
  {
    if j < k {
      assert steps[..k][..k - 1] == steps[..k - 1];
      EarlierIsEarly(x, steps, j, k - 1);
    }
  }

  // ---- Counting literals.

  /** The positions of the literals before the last 36 bytes. */
  function Early(x: seq<byte>, steps: seq<Step>): set<nat> {
    if steps == [] then {}
    else
      var before, s := steps[..|steps| - 1], steps[|steps| - 1];
      Early(x, before) + if s.Literal? && Reach(before) < |x| - 36 then {Reach(before)} else {}
  }

  function Count(steps: seq<Step>): nat {
    if steps == [] then 0
    else Count(steps[..|steps| - 1]) + if steps[|steps| - 1].Literal? then 1 else 0
  }

  lemma {:induction false} EarlyStep(x: seq<byte>, steps: seq<Step>, a: nat) returns (k: nat)
    requires a in Early(x, steps)
    ensures k < |steps| && steps[k].Literal? && a == Reach(steps[..k]) < Reach(steps) && a < |x| - 36
  {
    var before := steps[..|steps| - 1];
    if a in Early(x, before) {
      k := EarlyStep(x, before, a);
      assert before[..k] == steps[..k];
    } else {
      k := |steps| - 1;
    }
  }

  /** All other literals are among the last 36 bytes. */
  lemma {:induction false} CountEarly(x: seq<byte>, steps: seq<Step>)
    ensures var late := if |x| < 36 then 0 else |x| - 36;
            Count(steps) <= |Early(x, steps)| + if Reach(steps) < late then 0 else Reach(steps) - late
  {
    if steps != [] {
      var before := steps[..|steps| - 1];
      CountEarly(x, before);
      if Reach(before) in Early(x, before) {
        var _ := EarlyStep(x, before, Reach(before));
      }
    }
  }

  lemma {:induction false} CountAppend(a: seq<Step>, b: seq<Step>)
    ensures Count(a + b) == Count(a) + Count(b)
    decreases |b|
  {
    if b == [] {
      assert a + b == a;
    } else {
      assert (a + b)[..|a + b| - 1] == a + b[..|b| - 1];
      CountAppend(a, b[..|b| - 1]);
    }
  }

  lemma {:induction false} CountLits(n: nat)
    ensures Count(Lits(n)) == n
  {
    if n > 0 {
      assert Lits(n)[..n - 1] == Lits(n - 1);
      CountLits(n - 1);
    }
  }

  /** A match costs at most two thirds of its length, and a literal at most two bytes. */
  lemma {:induction false} CostByCount(ts: seq<Token>)
    ensures 3 * |WireAll(ts)| <= 2 * Produced(ts) + 4 * Count(Steps(ts))
  {
    if ts != [] {
      CostByCount(ts[1..]);
      CountAppend(StepsOf(ts[0]), Steps(ts[1..]));
      match ts[0]
      case Literals(bytes) => CountLits(|bytes|);
      case Match(_, _) =>
    }
  }

  // ---- Counting different groups of three bytes.

  /** Positions with the same twelve bits hold the same three bytes. */
  ghost predicate NoCollision(x: seq<byte>) {
    forall p: nat, q: nat :: SameValue(x, p, q) ==> SameThree(x, p, q)
  }

  function ThreeAt(x: seq<byte>, i: nat): seq<byte>
    requires i + 2 < |x|
  {
    x[i..i + 3]
  }

  /** All the groups of three bytes in an input. */
  function Threes(x: seq<byte>): set<seq<byte>> {
    set i: nat | i < |x| - 2 :: ThreeAt(x, i)
  }

  function Pair(x: seq<byte>, i: nat): (nat, seq<byte>)
    requires i + 2 < |x|
  {
    (i / 8192, ThreeAt(x, i))
  }

  predicate Differ(x: seq<byte>, a: nat, b: nat) {
    a + 2 < |x| && b + 2 < |x| && Pair(x, a) != Pair(x, b)
  }

  /** Literals in one stretch of 8192 bytes differ. */
  lemma EarlyDiffer(x: seq<byte>, steps: seq<Step>, a: nat, b: nat)
    requires NoCollision(x) && steps == Steps(Tokens(x)) && a in Early(x, steps) && b in Early(x, steps)
    requires a < b
    ensures Differ(x, a, b)
  {
    var j := EarlyStep(x, steps, a);
    var k := EarlyStep(x, steps, b);
    if k <= j {
      EarlierIsEarly(x, steps, k, j);
    }
    if Pair(x, a) == Pair(x, b) {
      SameGroup(x, a, b);
      var r := LiteralAgain(x, j, k);
      assert false;
    }
  }

  // Each pair of a stretch and a group has room for one literal.

  function Pairs(groups: set<seq<byte>>, n: nat): set<(nat, seq<byte>)> {
    if n == 0 then {} else Pairs(groups, n - 1) + Row(groups, n - 1)
  }

  function Row(groups: set<seq<byte>>, b: nat): set<(nat, seq<byte>)> {
    set g | g in groups :: (b, g)
  }

  lemma {:induction false} PairsIs(groups: set<seq<byte>>, n: nat)
    ensures forall p :: p in Pairs(groups, n) <==> p.0 < n && p.1 in groups
  {
    if n > 0 {
      PairsIs(groups, n - 1);
    }
  }

  lemma {:induction false} PairsSize(groups: set<seq<byte>>, n: nat)
    ensures |Pairs(groups, n)| == n * |groups|
  {
    if n > 0 {
      PairsSize(groups, n - 1);
      PairsGrow(groups, n);
      OneMore(n, |groups|);
    }
  }

  lemma PairsGrow(groups: set<seq<byte>>, n: nat)
    requires n > 0
    ensures |Pairs(groups, n)| == |Pairs(groups, n - 1)| + |groups|
  {
    RowSize(groups, n - 1);
    RowIsNew(groups, n - 1);
    TwoSizes(Pairs(groups, n - 1), Row(groups, n - 1));
  }

  lemma RowIsNew(groups: set<seq<byte>>, n: nat)
    ensures Pairs(groups, n) !! Row(groups, n)
  {
    PairsIs(groups, n);
  }

  lemma OneMore(n: nat, k: nat)
    requires n > 0
    ensures (n - 1) * k + k == n * k
  {
  }

  lemma TwoSizes<T>(a: set<T>, b: set<T>)
    requires a !! b
    ensures |a + b| == |a| + |b|
  {
  }

  lemma {:induction false} RowSize(groups: set<seq<byte>>, b: nat)
    ensures |Row(groups, b)| == |groups|
    decreases |groups|
  {
    if g :| g in groups {
      Smaller(groups, g);
      Smaller(Row(groups, b), (b, g));
      RowSize(groups - {g}, b);
      assert Row(groups - {g}, b) == Row(groups, b) - {(b, g)};
    }
  }

  /** As many pairs as literals. */
  lemma {:induction false} EarlyPairs(x: seq<byte>, some: set<nat>, pairs: set<(nat, seq<byte>)>)
    requires forall a :: a in some ==> a + 2 < |x| && Pair(x, a) in pairs
    requires forall a, b :: a in some && b in some && a < b ==> Differ(x, a, b)
    ensures |some| <= |pairs|
    decreases |some|
  {
    if a :| a in some {
      Smaller(some, a);
      Smaller(pairs, Pair(x, a));
      EarlyPairs(x, some - {a}, pairs - {Pair(x, a)});
    }
  }

  lemma EarlyBound(x: seq<byte>, steps: seq<Step>)
    requires NoCollision(x) && steps == Steps(Tokens(x))
    ensures |Early(x, steps)| <= (|x| / 8192 + 1) * |Threes(x)|
  {
    var stretches := |x| / 8192 + 1;
    PairsIs(Threes(x), stretches);
    PairsSize(Threes(x), stretches);
    forall a | a in Early(x, steps)
      ensures a + 2 < |x| && Pair(x, a) in Pairs(Threes(x), stretches)
    {
      var _ := EarlyStep(x, steps, a);
      Stretch(a, |x|);
      assert ThreeAt(x, a) in Threes(x);
    }
    forall a, b | a in Early(x, steps) && b in Early(x, steps) && a < b
      ensures Differ(x, a, b)
    {
      EarlyDiffer(x, steps, a, b);
    }
    EarlyPairs(x, Early(x, steps), Pairs(Threes(x), stretches));
  }

  lemma Stretch(a: nat, n: nat)
    requires a <= n
    ensures a / 8192 < n / 8192 + 1
  {
  }

  /** Without collisions, repetition pays: only the last 36 bytes and, in each 8192 bytes, one literal for
      each group of three bytes that occurs cost more than two thirds of themselves. */
  lemma RepetitionPays(x: seq<byte>)
    requires NoCollision(x)
    ensures 3 * |WireAll(Tokens(x))| <= 2 * |x| + 4 * (36 + (|x| / 8192 + 1) * |Threes(x)|)
  {
    var steps := Steps(Tokens(x));
    TokensAreGreedy(x);
    TokensMeaning(x);
    EvalLength([], Tokens(x));
    CostByCount(Tokens(x));
    CountEarly(x, steps);
    EarlyBound(x, steps);
  }

  /** The input repeats itself every `p` bytes. */
  predicate Periodic(x: seq<byte>, p: nat) {
    forall i :: p <= i < |x| ==> x[i] == x[i - p]
  }

  /** It then has at most `p` groups of three bytes. */
  lemma PeriodicThrees(x: seq<byte>, p: nat)
    requires p > 0 && Periodic(x, p)
    ensures |Threes(x)| <= p
  {
    forall g | g in Threes(x)
      ensures g in FirstThrees(x, p)
    {
      var i: nat :| i < |x| - 2 && g == ThreeAt(x, i);
      InFirst(x, p, i);
    }
    FirstSize(x, p);
    SubsetSize(Threes(x), FirstThrees(x, p));
  }

  function FirstThrees(x: seq<byte>, p: nat): set<seq<byte>> {
    if p == 0 then {}
    else FirstThrees(x, p - 1) + if p - 1 < |x| - 2 then {ThreeAt(x, p - 1)} else {}
  }

  lemma {:induction false} FirstSize(x: seq<byte>, p: nat)
    ensures |FirstThrees(x, p)| <= p
    ensures forall i: nat :: i < p && i < |x| - 2 ==> ThreeAt(x, i) in FirstThrees(x, p)
  {
    if p > 0 {
      FirstSize(x, p - 1);
    }
  }

  lemma {:induction false} InFirst(x: seq<byte>, p: nat, i: nat)
    requires p > 0 && Periodic(x, p) && i < |x| - 2
    ensures ThreeAt(x, i) in FirstThrees(x, p)
    decreases i
  {
    if i < p {
      FirstSize(x, p);
    } else {
      assert ThreeAt(x, i) == ThreeAt(x, i - p);
      InFirst(x, p, i - p);
    }
  }

  lemma SubsetSize<T>(a: set<T>, b: set<T>)
    requires a <= b
    ensures |a| <= |b|
    decreases |a|
  {
    if e :| e in a {
      Smaller(a, e);
      Smaller(b, e);
      SubsetSize(a - {e}, b - {e});
    }
  }

  lemma PeriodicPays(x: seq<byte>, p: nat)
    requires p > 0 && Periodic(x, p) && NoCollision(x)
    ensures 3 * |WireAll(Tokens(x))| <= 2 * |x| + 4 * (36 + (|x| / 8192 + 1) * p)
  {
    RepetitionPays(x);
    PeriodicThrees(x, p);
    Monotone(|x| / 8192 + 1, |Threes(x)|, p);
  }

  /** So for "abc" over and over: 300 bytes of it take at most 252. */
  lemma AbcPays(x: seq<byte>)
    requires Abc(x)
    ensures 3 * |WireAll(Tokens(x))| <= 2 * |x| + 12 * (|x| / 8192 + 13)
    ensures |x| == 300 ==> |WireAll(Tokens(x))| <= 252
  {
    forall p: nat, q: nat | SameValue(x, p, q)
      ensures SameThree(x, p, q)
    {
      AbcThree(x, p, q);
    }
    assert Periodic(x, 3);
    PeriodicPays(x, 3);
  }

  lemma AbcThree(x: seq<byte>, p: nat, q: nat)
    requires Abc(x)
    requires SameValue(x, p, q)
    ensures SameThree(x, p, q)
  {
    AbcBits(x, p);
    AbcBits(x, q);
    SameLowest(Word(x, p), Word(x, p + 1), Word(x, q), Word(x, q + 1));
    AbcGroup(x, p, q);
  }

  predicate Abc(x: seq<byte>) {
    forall i :: 0 <= i < |x| ==> x[i] == 97 + i % 3
  }

  lemma AbcGroup(x: seq<byte>, p: nat, q: nat)
    requires Abc(x) && p + 2 < |x| && q + 2 < |x| && p % 3 == q % 3
    ensures SameThree(x, p, q)
  {
  }

  lemma SameLowest(v: nat, w: nat, v': nat, w': nat)
    requires SameWords(v, w, v', w')
    ensures Lowest(v, w, 1) == Lowest(v', w', 1) && Lowest(v, w, 2) == Lowest(v', w', 2)
  {
    LowestIs(v, w);
    LowestIs(v', w');
    assert WordBit(v, w, 0) == WordBit(v', w', 0);
    assert WordBit(v, w, 1) == WordBit(v', w', 1);
  }

  /** The two lowest bits of the value, by division. */
  function Lowest(v: nat, w: nat, m: nat): nat
    requires m > 0
  {
    (v / m % 2 + w / m % 2 + v / m / 16 % 2) % 2
  }

  lemma LowestIs(v: nat, w: nat)
    ensures Lowest(v, w, 1) == WordBit(v, w, 0) && Lowest(v, w, 2) == WordBit(v, w, 1)
  {
    BitFour(v);
    BitFour(v / 2);
    NextBit(v, 0);
    NextBit(w, 0);
    NextBit(v, 4);
  }

  lemma BitFour(a: nat)
    ensures Bit(a, 4) == a / 16 % 2
  {
    NextBit(a, 3);
    NextBit(a / 2, 2);
    NextBit(a / 4, 1);
    NextBit(a / 8, 0);
  }

  /** They tell the three groups apart. */
  lemma AbcBits(x: seq<byte>, p: nat)
    requires p + 2 < |x| && Abc(x)
    ensures var v, w := Word(x, p), Word(x, p + 1);
            && Lowest(v, w, 1) == (if p % 3 == 2 then 0 else 1)
            && Lowest(v, w, 2) == (if p % 3 == 1 then 1 else 0)
  {
    AbcWords(Word(x, p), Word(x, p + 1));
  }

  lemma AbcWords(v: nat, w: nat)
    requires (v == 25185 && w == 25442) || (v == 25442 && w == 24931) || (v == 24931 && w == 25185)
    ensures Lowest(v, w, 1) == (if v == 24931 then 0 else 1)
    ensures Lowest(v, w, 2) == (if v == 25442 then 1 else 0)
  {
  }

  lemma Monotone(n: nat, a: nat, b: nat)
    requires a <= b
    ensures n * a <= n * b
  {
  }

  lemma SameGroup(x: seq<byte>, a: nat, b: nat)
    requires a + 2 < |x| && b + 2 < |x| && ThreeAt(x, a) == ThreeAt(x, b)
    ensures SameThree(x, a, b)
  {
    var s, t := ThreeAt(x, a), ThreeAt(x, b);
    assert x[a] == s[0] && x[a + 1] == s[1] && x[a + 2] == s[2];
    assert x[b] == t[0] && x[b + 1] == t[1] && x[b + 2] == t[2];
  }
}
