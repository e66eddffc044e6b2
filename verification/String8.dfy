/** Byte strings: search, split, join and replace. Lengths and indices are unbounded here; Invalid is the
    "no such index" result. */
module String8 {
  import opened Wrappers

  type Bytes = seq<bv8>

  datatype Index = At(value: nat) | Invalid

  predicate OccursAt(s: Bytes, t: Bytes, i: nat) {
    i + |t| <= |s| && Agree(s, t, i, |t|)
  }

  /** The first `n` bytes of `t` stand at `i`. */
  predicate Agree(s: Bytes, t: Bytes, i: nat, n: nat)
    requires n <= |t| && i + n <= |s|
  {
    n == 0 || (s[i + n - 1] == t[n - 1] && Agree(s, t, i, n - 1))
  }

  lemma {:induction false} AgreeIs(s: Bytes, t: Bytes, i: nat, n: nat)
    requires n <= |t| && i + n <= |s|
    ensures Agree(s, t, i, n) <==> forall k :: 0 <= k < n ==> t[k] == s[i + k]
  {
    if n > 0 {
      AgreeIs(s, t, i, n - 1);
    }
  }

  /** Byte by byte, and as a slice. */
  lemma OccursIs(s: Bytes, t: Bytes, i: nat)
    requires i + |t| <= |s|
    ensures OccursAt(s, t, i) <==> forall k :: 0 <= k < |t| ==> t[k] == s[i + k]
  {
    AgreeIs(s, t, i, |t|);
  }

  lemma OccursSlice(s: Bytes, t: Bytes, i: nat)
    requires i + |t| <= |s|
    ensures OccursAt(s, t, i) <==> s[i..i + |t|] == t
  {
    OccursIs(s, t, i);
    if s[i..i + |t|] == t {
      forall k | 0 <= k < |t|
        ensures t[k] == s[i + k]
      {
        assert s[i..i + |t|][k] == s[i + k];
      }
    }
  }

  predicate Contains(s: Bytes, t: Bytes) {
    exists i :: 0 <= i <= |s| && OccursAt(s, t, i)
  }

  /** `mid`: at most `count` bytes from `first`, and none from beyond the end. */
  function Mid(s: Bytes, first: nat, count: nat): Bytes {
    if first >= |s| then []
    else
      var n := if first + count > |s| then |s| - first else count;
      s[first..first + n]
  }

  /** The first occurrence at or after `from`; even the empty string does not occur at the very end. */
  function Find(s: Bytes, t: Bytes, from: nat): (r: Index)
    ensures r.At? ==> from <= r.value < |s| && r.value + |t| <= |s|
    decreases |s| - from
  {
    if from >= |s| then Invalid else if OccursAt(s, t, from) then At(from) else Find(s, t, from + 1)
  }

  lemma {:induction false} FindIsFirst(s: Bytes, t: Bytes, from: nat)
    ensures var r := Find(s, t, from);
            var end := if r.At? then r.value else |s|;
            && (r.At? ==> OccursAt(s, t, end))
            && forall i :: from <= i < end ==> !OccursAt(s, t, i)
    decreases |s| - from
  {
    if from < |s| && !OccursAt(s, t, from) {
      FindIsFirst(s, t, from + 1);
    }
  }

  /** `find_index`. */
  method FindIndex(s: Bytes, t: Bytes, from: nat) returns (r: Index)
    ensures r == Find(s, t, from)
  {
    if from >= |s| {
      return Invalid;
    }
    if |t| == 0 {
      return At(from);
    }
    if |t| > |s| {
      FindNone(s, t, from);
      return Invalid;
    }
    var lastStart := |s| - |t|;
    var i := from;
    while i <= lastStart
      invariant from <= i && Find(s, t, i) == Find(s, t, from)
    {
      OccursSlice(s, t, i);
      if s[i..i + |t|] == t {
        return At(i);
      }
      i := i + 1;
    }
    FindNone(s, t, i);
    return Invalid;
  }

  lemma {:induction false} FindNone(s: Bytes, t: Bytes, from: nat)
    requires from + |t| > |s|
    ensures Find(s, t, from) == Invalid
    decreases |s| - from
  {
    if from < |s| {
      FindNone(s, t, from + 1);
    }
  }

  /** Where the next separator is looked for: an empty one at least one byte on. */
  function Skip(sep: Bytes): nat {
    if |sep| == 0 then 1 else 0
  }

  /** The pieces of `s` from `start` on, empty ones included. */
  function Pieces(s: Bytes, sep: Bytes, start: nat): (ps: seq<Bytes>)
    requires start <= |s|
    ensures ps != []
    decreases |s| - start
  {
    match Find(s, sep, start + Skip(sep))
    case Invalid => [s[start..]]
    case At(end) => [s[start..end]] + Pieces(s, sep, end + |sep|)
  }

  function Kept(ps: seq<Bytes>, withEmptyParts: bool): seq<Bytes> {
    if withEmptyParts then ps else NonEmpty(ps)
  }

  function NonEmpty(ps: seq<Bytes>): seq<Bytes> {
    if ps == [] then []
    else
      var before, last := NonEmpty(ps[..|ps| - 1]), ps[|ps| - 1];
      if |last| > 0 then before + [last] else before
  }

  lemma KeptLast(ps: seq<Bytes>, p: Bytes, withEmptyParts: bool)
    ensures Kept(ps + [p], withEmptyParts)
         == if |p| > 0 || withEmptyParts then Kept(ps, withEmptyParts) + [p] else Kept(ps, withEmptyParts)
  {
    assert (ps + [p])[..|ps|] == ps;
  }

  /** How far a loop has come: `done` is cut off, and `start` is next. Like `Next`, it is stated through `i` so
      that only the lemmas about it look inside. */
  ghost predicate Cut(s: Bytes, sep: Bytes, done: seq<Bytes>, start: nat) {
    start <= |s| && forall i: nat {:trigger Pieces(s, sep, i)} :: i <= |s| && i == start ==>
      done + Pieces(s, sep, i) == Pieces(s, sep, 0)
  }

  /** The piece from `start` on ends at the separator at `end`, if there is one. */
  ghost predicate Next(s: Bytes, sep: Bytes, start: nat, end: Index) {
    forall i: nat {:trigger Find(s, sep, i)} :: i == start + Skip(sep) ==> end == Find(s, sep, i)
  }

  method NextSeparator(s: Bytes, sep: Bytes, start: nat) returns (end: Index)
    ensures Next(s, sep, start, end)
  {
    var extra := Skip(sep);
    end := FindIndex(s, sep, start + extra);
  }

  lemma CutStart(s: Bytes, sep: Bytes)
    ensures Cut(s, sep, [], 0)
  {
    assert [] + Pieces(s, sep, 0) == Pieces(s, sep, 0);
  }

  lemma CutNext(s: Bytes, sep: Bytes, done: seq<Bytes>, start: nat, end: nat)
    requires Cut(s, sep, done, start) && Next(s, sep, start, At(end))
    ensures start + Skip(sep) <= end && end + |sep| <= |s|
    ensures |Mid(s, start, end - start)| == end - start
    ensures Cut(s, sep, done + [Mid(s, start, end - start)], end + |sep|)
  {
    assert At(end) == Find(s, sep, start + Skip(sep));
    PiecesNext(s, sep, start, end);
    CutOn(s, sep, done, start, Mid(s, start, end - start), end + |sep|);
  }

  lemma CutOn(s: Bytes, sep: Bytes, done: seq<Bytes>, start: nat, p: Bytes, next: nat)
    requires Cut(s, sep, done, start) && next <= |s|
    requires Pieces(s, sep, start) == [p] + Pieces(s, sep, next)
    ensures Cut(s, sep, done + [p], next)
  {
    AppendAssociates(done, [p], Pieces(s, sep, next));
  }

  lemma PiecesNext(s: Bytes, sep: Bytes, start: nat, end: nat)
    requires start <= |s| && Find(s, sep, start + Skip(sep)) == At(end)
    ensures Pieces(s, sep, start) == [Mid(s, start, end - start)] + Pieces(s, sep, end + |sep|)
    ensures |Mid(s, start, end - start)| == end - start
  {
  }

  lemma CutLast(s: Bytes, sep: Bytes, done: seq<Bytes>, start: nat)
    requires Cut(s, sep, done, start) && Next(s, sep, start, Invalid)
    ensures Pieces(s, sep, 0) == done + [Mid(s, start, |s| - start)]
    ensures |Mid(s, start, |s| - start)| == |s| - start
  {
    assert Invalid == Find(s, sep, start + Skip(sep));
    assert done + Pieces(s, sep, start) == Pieces(s, sep, 0);
    PiecesLast(s, sep, start);
  }

  lemma PiecesLast(s: Bytes, sep: Bytes, start: nat)
    requires start <= |s| && Find(s, sep, start + Skip(sep)) == Invalid
    ensures Pieces(s, sep, start) == [Mid(s, start, |s| - start)]
    ensures |Mid(s, start, |s| - start)| == |s| - start
  {
    assert s[start..|s|] == s[start..];
  }

  lemma SplitAll(s: Bytes, sep: Bytes, withEmptyParts: bool, done: seq<Bytes>, start: nat)
    requires Cut(s, sep, done, start) && Next(s, sep, start, Invalid)
    ensures var list := Kept(done, withEmptyParts);
            Kept(Pieces(s, sep, 0), withEmptyParts)
            == if start != |s| || withEmptyParts then list + [Mid(s, start, |s| - start)] else list
  {
    CutLast(s, sep, done, start);
    KeptLast(done, Mid(s, start, |s| - start), withEmptyParts);
  }

  /** `split`, with or without the empty pieces. */
  method Split(s: Bytes, sep: Bytes, withEmptyParts: bool) returns (list: seq<Bytes>)
    ensures list == Kept(Pieces(s, sep, 0), withEmptyParts)
  {
    list := [];
    var start := 0;
    var end := NextSeparator(s, sep, start);
    ghost var done := [];
    CutStart(s, sep);
    while end != Invalid
      invariant Cut(s, sep, done, start) && Next(s, sep, start, end) && list == Kept(done, withEmptyParts)
      decreases |s| - start
    {
      CutNext(s, sep, done, start, end.value);
      var piece := Mid(s, start, end.value - start);
      KeptLast(done, piece, withEmptyParts);
      if start != end.value || withEmptyParts {
        list := list + [piece];
      }
      done, start := done + [piece], end.value + |sep|;
      end := NextSeparator(s, sep, start);
    }
    SplitAll(s, sep, withEmptyParts, done, start);
    if start != |s| || withEmptyParts {
      list := list + [Mid(s, start, |s| - start)];
    }
  }

  /** `concat`: the pieces with the separator between them. */
  function Join(ps: seq<Bytes>, sep: Bytes): Bytes {
    if ps == [] then []
    else if |ps| == 1 then ps[0]
    else ps[0] + (sep + Join(ps[1..], sep))
  }

  method Concat(items: seq<Bytes>, sep: Bytes) returns (r: Bytes)
    ensures r == Join(items, sep)
  {
    r := [];
    for i := 0 to |items|
      invariant r == Join(items[..i], sep)
    {
      JoinNext(items, i, sep);
      if i > 0 {
        r := r + sep;
      }
      r := r + items[i];
    }
    assert items[..|items|] == items;
  }

  lemma {:induction false} JoinLast(ps: seq<Bytes>, p: Bytes, sep: Bytes)
    ensures Join(ps + [p], sep) == if ps == [] then p else Join(ps, sep) + sep + p
    decreases |ps|
  {
    if |ps| == 1 {
      assert (ps + [p])[1..] == [p];
      AppendAssociates(ps[0], sep, p);
    } else if |ps| > 1 {
      var rest := ps[1..];
      assert ps == [ps[0]] + rest;
      JoinLast(rest, p, sep);
      JoinFirst(ps[0], rest, sep);
      AppendAssociates([ps[0]], rest, [p]);
      JoinFirst(ps[0], rest + [p], sep);
      Regroup(ps[0], sep, Join(rest, sep), sep, p);
    }
  }

  lemma Regroup(a: Bytes, b: Bytes, c: Bytes, d: Bytes, e: Bytes)
    ensures a + (b + c) + d + e == a + (b + (c + d + e))
  {
    AppendAssociates(b, c, d);
    AppendAssociates(b, c + d, e);
    AppendAssociates(a, b + c, d);
    AppendAssociates(a, b + c + d, e);
  }

  lemma JoinFirst(p: Bytes, ps: seq<Bytes>, sep: Bytes)
    requires ps != []
    ensures Join([p] + ps, sep) == p + (sep + Join(ps, sep))
  {
    assert ([p] + ps)[1..] == ps;
  }

  lemma JoinNext(items: seq<Bytes>, i: nat, sep: Bytes)
    requires i < |items|
    ensures Join(items[..i + 1], sep) == if i == 0 then items[i] else Join(items[..i], sep) + sep + items[i]
  {
    JoinLast(items[..i], items[i], sep);
    assert items[..i + 1] == items[..i] + [items[i]];
  }

  /** Joining the pieces with the separator gives the string back, for every separator. */
  lemma {:induction false} JoinSplit(s: Bytes, sep: Bytes, start: nat)
    requires start <= |s|
    ensures Join(Pieces(s, sep, start), sep) == s[start..]
    decreases |s| - start
  {
    var end := Find(s, sep, start + Skip(sep));
    FindIsFirst(s, sep, start + Skip(sep));
    if end.At? {
      var next := end.value + |sep|;
      JoinSplit(s, sep, next);
      JoinFirst(s[start..end.value], Pieces(s, sep, next), sep);
      Around(s, sep, start, end.value);
    }
  }

  lemma Around(s: Bytes, sep: Bytes, start: nat, end: nat)
    requires start <= end && OccursAt(s, sep, end)
    ensures s[start..end] + (sep + s[end + |sep|..]) == s[start..]
  {
    OccursSlice(s, sep, end);
    SliceJoin(s, end, end + |sep|, |s|);
    SliceJoin(s, start, end, |s|);
    assert s[end..|s|] == s[end..] && s[end + |sep|..|s|] == s[end + |sep|..] && s[start..|s|] == s[start..];
  }

  /** No piece contains the separator, if it is not empty. */
  lemma {:induction false} PiecesAreClean(s: Bytes, sep: Bytes, start: nat)
    requires start <= |s| && sep != []
    ensures forall p <- Pieces(s, sep, start) :: !Contains(p, sep)
    decreases |s| - start
  {
    var end := CleanPiece(s, sep, start);
    if end.At? {
      PiecesAreClean(s, sep, end.value + |sep|);
      assert Pieces(s, sep, start) == [s[start..end.value]] + Pieces(s, sep, end.value + |sep|);
    } else {
      assert Pieces(s, sep, start) == [s[start..]];
    }
  }

  lemma CleanPiece(s: Bytes, sep: Bytes, start: nat) returns (end: Index)
    requires start <= |s| && sep != []
    ensures end == Find(s, sep, start + Skip(sep))
    ensures !Contains(if end.At? then s[start..end.value] else s[start..], sep)
  {
    end := Find(s, sep, start);
    FindIsFirst(s, sep, start);
    Clean(s, sep, start, if end.At? then end.value else |s|);
    assert s[start..|s|] == s[start..];
  }

  lemma Clean(s: Bytes, sep: Bytes, start: nat, end: nat)
    requires start <= end <= |s| && sep != []
    requires forall i :: start <= i < end ==> !OccursAt(s, sep, i)
    ensures !Contains(s[start..end], sep)
  {
    forall i | 0 <= i <= |s[start..end]|
      ensures !OccursAt(s[start..end], sep, i)
    {
      OccursInside(s, sep, start, end, i);
    }
  }

  lemma OccursInside(s: Bytes, sep: Bytes, start: nat, end: nat, i: nat)
    requires start <= end <= |s|
    ensures OccursAt(s[start..end], sep, i) ==> OccursAt(s, sep, start + i)
  {
    if i + |sep| <= |s[start..end]| {
      var p, j := s[start..end], start + i;
      var here, there := p[i..i + |sep|], s[j..j + |sep|];
      assert forall k :: 0 <= k < |sep| ==> here[k] == p[i + k] == s[start + (i + k)] && there[k] == s[j + k];
      assert here == there;
      AgreeShift(s[start..end], s, sep, i, start + i, |sep|);
    }
  }

  /** Agreement only depends on the bytes it compares. */
  lemma AgreeShift(s: Bytes, s': Bytes, t: Bytes, i: nat, i': nat, n: nat)
    requires n <= |t| && i + n <= |s| && i' + n <= |s'|
    requires s[i..i + n] == s'[i'..i' + n]
    ensures Agree(s, t, i, n) <==> Agree(s', t, i', n)
  {
    AgreeIs(s, t, i, n);
    AgreeIs(s', t, i', n);
    var here, there := s[i..i + n], s'[i'..i' + n];
    assert forall k {:trigger t[k]} :: 0 <= k < n ==> here[k] == s[i + k] && there[k] == s'[i' + k];
  }

  /** `replace_str`: it is splitting on the old string and joining with the new one. */
  method ReplaceStr(s: Bytes, target: Bytes, replacement: Bytes) returns (r: Bytes)
    ensures r == Join(Pieces(s, target, 0), replacement)
  {
    r := [];
    var start := 0;
    var end := NextSeparator(s, target, start);
    ghost var done := [];
    CutStart(s, target);
    while end != Invalid
      invariant Cut(s, target, done, start) && Next(s, target, start, end) && r == Closed(done, replacement)
      decreases |s| - start
    {
      CutNext(s, target, done, start, end.value);
      var piece := Mid(s, start, end.value - start);
      ClosedLast(done, piece, replacement);
      ghost var longer := r + piece;
      if start != end.value {
        r := r + piece;
      }
      assert r == longer;
      r := r + replacement;
      done, start := done + [piece], end.value + |target|;
      end := NextSeparator(s, target, start);
    }
    ReplacedAll(s, target, replacement, done, start);
    if start != |s| {
      r := r + Mid(s, start, |s| - start);
    }
  }

  lemma ReplacedAll(s: Bytes, target: Bytes, replacement: Bytes, done: seq<Bytes>, start: nat)
    requires Cut(s, target, done, start) && Next(s, target, start, Invalid)
    ensures var r := Closed(done, replacement);
            Join(Pieces(s, target, 0), replacement) == if start != |s| then r + Mid(s, start, |s| - start) else r
  {
    CutLast(s, target, done, start);
    JoinClosed(done, Mid(s, start, |s| - start), replacement);
  }

  /** The pieces with the separator after each. */
  function Closed(ps: seq<Bytes>, sep: Bytes): Bytes {
    if ps == [] then [] else Closed(ps[..|ps| - 1], sep) + ps[|ps| - 1] + sep
  }

  lemma ClosedLast(ps: seq<Bytes>, p: Bytes, sep: Bytes)
    ensures Closed(ps + [p], sep) == (if |p| > 0 then Closed(ps, sep) + p else Closed(ps, sep)) + sep
  {
    assert (ps + [p])[..|ps|] == ps;
    assert |p| == 0 ==> Closed(ps, sep) + p == Closed(ps, sep);
  }

  lemma JoinClosed(ps: seq<Bytes>, p: Bytes, sep: Bytes)
    ensures Join(ps + [p], sep) == if |p| > 0 then Closed(ps, sep) + p else Closed(ps, sep)
  {
    JoinLast(ps, p, sep);
    JoinThenClose(ps, sep);
    assert ps == [] ==> [] + p == p;
    assert |p| == 0 ==> Closed(ps, sep) + p == Closed(ps, sep);
  }

  lemma {:induction false} JoinThenClose(ps: seq<Bytes>, sep: Bytes)
    ensures ps != [] ==> Join(ps, sep) + sep == Closed(ps, sep)
    decreases |ps|
  {
    if ps != [] {
      var n := |ps| - 1;
      JoinThenClose(ps[..n], sep);
      JoinLast(ps[..n], ps[n], sep);
      assert ps == ps[..n] + [ps[n]];
      assert n == 0 ==> [] + ps[n] == ps[n];
    }
  }

  /** So replacing a string by itself changes nothing. */
  lemma ReplaceBySelf(s: Bytes, t: Bytes)
    ensures Join(Pieces(s, t, 0), t) == s
  {
    JoinSplit(s, t, 0);
    assert s[0..] == s;
  }

  // Splitting what was joined.

  /** No separator begins in a piece: neither within it, nor at its end where the next separator completes it. */
  predicate Separable(ps: seq<Bytes>, sep: Bytes) {
    ps != []
    && if |ps| == 1 then Find(ps[0], sep, 0) == Invalid
       else Find(ps[0] + sep, sep, 0) == At(|ps[0]|) && Separable(ps[1..], sep)
  }

  /** Splitting inverts joining exactly for such pieces. */
  lemma {:induction false} SplitJoinIff(before: Bytes, ps: seq<Bytes>, sep: Bytes)
    requires sep != [] && ps != []
    ensures Pieces(before + Join(ps, sep), sep, |before|) == ps <==> Separable(ps, sep)
    decreases |ps|
  {
    var p, rest := ps[0], ps[1..];
    if rest == [] {
      LastPiece(before, p, sep);
    } else {
      assert ps == [p] + rest;
      JoinFirst(p, rest, sep);
      BeforePieces(before, p, sep, Join(rest, sep), rest);
      SplitJoinIff(before + p + sep, rest, sep);
    }
  }

  lemma BeforePieces(before: Bytes, p: Bytes, sep: Bytes, rest: Bytes, ps: seq<Bytes>)
    requires sep != []
    ensures Pieces(before + (p + (sep + rest)), sep, |before|) == [p] + ps <==>
            Find(p + sep, sep, 0) == At(|p|) && Pieces(before + p + sep + rest, sep, |before + p + sep|) == ps
  {
    AppendAssociates(before, p, sep + rest);
    AppendAssociates(before + p, sep, rest);
    var at := PieceStarts(before, p, sep, rest);
    NextPiece(before + p + sep + rest, sep, |before|, |before + p + sep|, at, p, ps);
  }

  lemma PieceStarts(before: Bytes, p: Bytes, sep: Bytes, rest: Bytes) returns (at: nat)
    requires sep != []
    ensures Find(p + sep, sep, 0) == At(at)
    ensures StartsPiece(before + p + sep + rest, sep, |before|, |before + p + sep|, at, p)
  {
    FoundInPiece(before, p, sep, rest);
    Middle(before, p, sep, rest);
    at := Find(p + sep, sep, 0).value;
  }

  /** `p` stands from `from` to the separator before `next`; the first one is found `at` bytes in. */
  predicate StartsPiece(s: Bytes, sep: Bytes, from: nat, next: nat, at: nat, p: Bytes) {
    && next == from + |p| + |sep| <= |s| && at <= |p| && Mid(s, from, |p|) == p && Find(s, sep, from) == At(from + at)
  }

  lemma FoundInPiece(before: Bytes, p: Bytes, sep: Bytes, rest: Bytes)
    requires sep != []
    ensures var found := Find(p + sep, sep, 0);
            && found.At? && found.value <= |p|
            && Find(before + p + sep + rest, sep, |before|) == At(|before| + found.value)
  {
    AppendAssociates(p, sep, rest);
    AppendAssociates(before, p, sep + rest);
    AppendAssociates(before + p, sep, rest);
    FindBefore(p, sep, rest, 0);
    FindShift(before, p + sep + rest, sep, 0);
  }

  /** The same, told by where the next piece would start. */
  lemma NextPiece(s: Bytes, sep: Bytes, from: nat, next: nat, at: nat, p: Bytes, ps: seq<Bytes>)
    requires sep != [] && StartsPiece(s, sep, from, next, at, p)
    ensures next <= |s|
    ensures Pieces(s, sep, from) == [p] + ps <==> at == |p| && Pieces(s, sep, next) == ps
  {
    FirstPiece(s, sep, from, next, at, p, ps);
    if at == |p| {
      assert from + at + |sep| == next;
    }
  }

  /** The first piece, from where the separator is found. */
  lemma FirstPiece(s: Bytes, sep: Bytes, from: nat, next: nat, at: nat, p: Bytes, ps: seq<Bytes>)
    requires sep != [] && StartsPiece(s, sep, from, next, at, p)
    ensures from + at + |sep| <= |s|
    ensures Pieces(s, sep, from) == [p] + ps <==> at == |p| && Pieces(s, sep, from + at + |sep|) == ps
  {
    PiecesNext(s, sep, from, from + at);
    PieceMatches(Pieces(s, sep, from), Mid(s, from, at), Pieces(s, sep, from + at + |sep|), p, ps);
  }

  lemma PieceMatches(all: seq<Bytes>, first: Bytes, rest: seq<Bytes>, p: Bytes, ps: seq<Bytes>)
    requires all == [first] + rest && (|first| == |p| ==> first == p)
    ensures all == [p] + ps <==> |first| == |p| && rest == ps
  {
    assert ([first] + rest)[0] == first && ([first] + rest)[1..] == rest;
    assert ([p] + ps)[0] == p && ([p] + ps)[1..] == ps;
  }

  lemma Middle(before: Bytes, p: Bytes, sep: Bytes, rest: Bytes)
    ensures var s := before + p + sep + rest;
            Mid(s, |before|, |p|) == p && |before| + |p| + |sep| <= |s| && |before + p + sep| == |before| + |p| + |sep|
  {
  }

  lemma LastPiece(before: Bytes, p: Bytes, sep: Bytes)
    requires sep != []
    ensures Pieces(before + p, sep, |before|) == [p] <==> Find(p, sep, 0) == Invalid
  {
    FindShift(before, p, sep, 0);
    assert (before + p)[|before|..] == p;
    OnePiece(before + p, sep, |before|);
  }

  lemma OnePiece(s: Bytes, sep: Bytes, from: nat)
    requires sep != [] && from <= |s|
    ensures Pieces(s, sep, from) == [s[from..]] <==> Find(s, sep, from) == Invalid
  {
    match Find(s, sep, from)
    case Invalid =>
    case At(end) =>
      PiecesNext(s, sep, from, end);
      assert |Pieces(s, sep, from)| > 1;
  }

  /** What is found in a text is found behind anything put before it. */
  lemma {:induction false} FindShift(before: Bytes, x: Bytes, sep: Bytes, k: nat)
    ensures Find(before + x, sep, |before| + k)
         == match Find(x, sep, k) case Invalid => Invalid case At(i) => At(|before| + i)
    decreases |x| - k
  {
    if k < |x| {
      OccursShift(before, x, sep, k);
      FindShift(before, x, sep, k + 1);
    }
  }

  lemma OccursShift(before: Bytes, x: Bytes, sep: Bytes, k: nat)
    ensures OccursAt(before + x, sep, |before| + k) <==> OccursAt(x, sep, k)
  {
    if k + |sep| <= |x| {
      assert (before + x)[|before| + k..|before| + k + |sep|] == x[k..k + |sep|];
      AgreeShift(before + x, x, sep, |before| + k, k, |sep|);
    }
  }

  /** What follows a separator does not change where the first one is found. */
  lemma {:induction false} FindBefore(p: Bytes, sep: Bytes, rest: Bytes, k: nat)
    requires k <= |p| && sep != []
    ensures Find(p + sep + rest, sep, k) == Find(p + sep, sep, k)
    ensures Find(p + sep, sep, k).At? && Find(p + sep, sep, k).value <= |p|
    decreases |p| - k
  {
    OccursBefore(p, sep, rest, k);
    if k < |p| {
      FindBefore(p, sep, rest, k + 1);
    }
  }

  lemma OccursBefore(p: Bytes, sep: Bytes, rest: Bytes, k: nat)
    requires k <= |p|
    ensures OccursAt(p + sep + rest, sep, k) <==> OccursAt(p + sep, sep, k)
    ensures OccursAt(p + sep, sep, |p|)
  {
    assert (p + sep + rest)[k..k + |sep|] == (p + sep)[k..k + |sep|];
    AgreeShift(p + sep + rest, p + sep, sep, k, k, |sep|);
    OccursIs(p + sep, sep, |p|);
  }

  /** A separator of one byte only has to be absent from the pieces. */
  lemma SplitJoin(ps: seq<Bytes>, sep: Bytes)
    requires |sep| == 1 && ps != [] && forall p <- ps :: sep[0] !in p
    ensures Pieces(Join(ps, sep), sep, 0) == ps
  {
    OneByteSeparable(ps, sep);
    SplitJoinIff([], ps, sep);
    assert [] + Join(ps, sep) == Join(ps, sep);
  }

  lemma {:induction false} OneByteSeparable(ps: seq<Bytes>, sep: Bytes)
    requires |sep| == 1 && ps != [] && forall p <- ps :: sep[0] !in p
    ensures Separable(ps, sep)
    decreases |ps|
  {
    var p := ps[0];
    assert p in ps;
    if |ps| == 1 {
      NotFoundIn(p, sep, 0);
    } else {
      assert (p + sep)[0..|p|] == p && (p + sep)[|p|] == sep[0];
      FoundAt(p + sep, sep, 0, |p|);
      assert forall q <- ps[1..] :: q in ps;
      OneByteSeparable(ps[1..], sep);
    }
  }

  /** A longer separator can begin at the end of a piece. */
  lemma OverlapIsNotSeparable(a: bv8)
    ensures !Separable([[a], [a]], [a, a]) && !Contains([a], [a, a])
  {
    OccursIs([a] + [a, a], [a, a], 0);
  }

  /** The empty separator cuts into single bytes, so only those come back, or the one empty piece. */
  lemma EmptySplitJoinIff(ps: seq<Bytes>)
    requires ps != []
    ensures Pieces(Join(ps, []), [], 0) == ps <==> ps == [[]] || Singles(ps)
  {
    var s := Join(ps, []);
    EmptyPieces(s, 0);
    if ps == [[]] {
      assert s == [];
    } else if Singles(ps) {
      JoinSingles(ps);
      assert forall k :: 0 <= k < |ps| ==> [s[k]] == ps[k];
    }
  }

  predicate Singles(ps: seq<Bytes>) {
    forall p <- ps :: |p| == 1
  }

  lemma {:induction false} EmptyPieces(s: Bytes, start: nat)
    requires start <= |s|
    ensures var ps := Pieces(s, [], start);
            if start == |s| then ps == [[]]
            else |ps| == |s| - start && forall k :: 0 <= k < |ps| ==> ps[k] == [s[start + k]]
    decreases |s| - start
  {
    if start == |s| {
      assert s[start..] == [];
    } else if start + 1 < |s| {
      EmptyPieces(s, start + 1);
    }
  }

  lemma {:induction false} JoinSingles(ps: seq<Bytes>)
    requires Singles(ps)
    ensures |Join(ps, [])| == |ps| && forall k :: 0 <= k < |ps| ==> Join(ps, [])[k] == ps[k][0]
    decreases |ps|
  {
    if |ps| > 1 {
      assert forall p <- ps[1..] :: p in ps;
      JoinSingles(ps[1..]);
    }
  }

  lemma {:induction false} FoundAt(s: Bytes, sep: Bytes, from: nat, end: nat)
    requires |sep| == 1 && from <= end < |s| && sep[0] !in s[from..end] && s[end] == sep[0]
    ensures Find(s, sep, from) == At(end)
    decreases end - from
  {
    OccursByte(s, sep, from);
    if from < end {
      assert s[from] == s[from..end][0];
      assert forall b <- s[from + 1..end] :: b in s[from..end];
      FoundAt(s, sep, from + 1, end);
    }
  }

  lemma {:induction false} NotFoundIn(s: Bytes, sep: Bytes, from: nat)
    requires |sep| == 1 && from <= |s| && sep[0] !in s[from..]
    ensures Find(s, sep, from) == Invalid
    decreases |s| - from
  {
    if from < |s| {
      OccursByte(s, sep, from);
      assert s[from] == s[from..][0];
      assert forall b <- s[from + 1..] :: b in s[from..];
      NotFoundIn(s, sep, from + 1);
    }
  }

  lemma OccursByte(s: Bytes, sep: Bytes, i: nat)
    requires |sep| == 1 && i < |s|
    ensures OccursAt(s, sep, i) <==> s[i] == sep[0]
  {
    OccursIs(s, sep, i);
  }
}
