/** What the verdicts of the liveness monitor mean, in terms of the lines and the turns themselves. */
module SoakVerdict {
  import opened Wrappers
  import opened SoakTracker

  /** A line shows new flips: it is a flip call, or counts more flips than any line before it. */
  predicate ShowsFlips(h: seq<Seen>, k: nat)
    requires k < |h|
  {
    || h[k].line.flipCall
    || (h[k].line.flips > 0 && forall j :: 0 <= j < k ==> h[j].line.flips < h[k].line.flips)
  }

  predicate NoFlips(h: seq<Seen>) {
    forall k: nat :: k < |h| ==> !ShowsFlips(h, k)
  }

  predicate NoMark(h: seq<Seen>) {
    forall k :: 0 <= k < |h| ==> !h[k].line.deadlock
  }

  predicate LastFlips(h: seq<Seen>, k: nat) {
    k < |h| && ShowsFlips(h, k) && forall j: nat :: k < j < |h| ==> !ShowsFlips(h, j)
  }

  /** The high-water mark is the most flips on any line. */
  lemma {:induction false} HighWaterIs(h: seq<Seen>)
    ensures forall j :: 0 <= j < |h| ==> h[j].line.flips <= HighWater(h)
    ensures HighWater(h) == 0 || exists j :: 0 <= j < |h| && h[j].line.flips == HighWater(h)
    decreases |h|
  {
    if h != [] {
      var n := |h| - 1;
      var before := h[..n];
      assert forall j :: 0 <= j < n ==> before[j] == h[j];
      HighWaterIs(before);
      if HighWater(h) == HighWater(before) != 0 {
        var j :| 0 <= j < n && before[j].line.flips == HighWater(before);
        assert h[j].line.flips == HighWater(h);
      } else if HighWater(h) != 0 {
        assert h[n].line.flips == HighWater(h);
      }
    }
  }

  lemma AdvanceIff(h: seq<Seen>, k: nat)
    requires k < |h|
    ensures IsAdvance(h[..k], h[k].line) <==> ShowsFlips(h, k)
  {
    var before := h[..k];
    assert forall j :: 0 <= j < k ==> before[j] == h[j];
    HighWaterIs(before);
  }

  /** Nothing has advanced exactly if no line shows flips, and else the last to show them is the last advance. */
  lemma {:induction false} AdvancesAre(h: seq<Seen>) returns (k: nat)
    ensures Advances(h) == [] <==> NoFlips(h)
    ensures Advances(h) != [] ==> LastFlips(h, k) && Last(Advances(h)) == Some(h[k].at)
    decreases |h|
  {
    k := 0;
    if h != [] {
      var n := |h| - 1;
      k := AdvancesAre(h[..n]);
      AdvanceIff(h, n);
      FlipsNext(h, n, k);
      if ShowsFlips(h, n) {
        k := n;
      }
    }
  }

  lemma FlipsNext(h: seq<Seen>, n: nat, k: nat)
    requires n + 1 == |h|
    ensures NoFlips(h) <==> NoFlips(h[..n]) && !ShowsFlips(h, n)
    ensures ShowsFlips(h, n) ==> LastFlips(h, n)
    ensures !ShowsFlips(h, n) && LastFlips(h[..n], k) ==> LastFlips(h, k) && h[..n][k] == h[k]
  {
    ShowsBefore(h, n);
  }

  lemma ShowsBefore(h: seq<Seen>, n: nat)
    requires n <= |h|
    ensures forall k: nat :: k < n ==> (ShowsFlips(h[..n], k) <==> ShowsFlips(h, k))
  {
    var before := h[..n];
    assert forall j :: 0 <= j < n ==> before[j] == h[j];
  }

  lemma OneLast(h: seq<Seen>, j: nat, k: nat)
    requires LastFlips(h, j) && LastFlips(h, k)
    ensures j == k
  {
  }

  lemma {:induction false} WarningsAre(h: seq<Seen>)
    ensures Warnings(h) == [] <==> NoMark(h)
    decreases |h|
  {
    if h != [] {
      var n := |h| - 1;
      var before := h[..n];
      assert forall j :: 0 <= j < n ==> before[j] == h[j];
      WarningsAre(before);
      assert h[n].line.deadlock ==> !NoMark(h);
    }
  }

  /** Exactly when each verdict is given. */
  lemma VerdictIff(h: seq<Seen>, stallLimit: nat, bootLimit: nat, now: nat)
    ensures var v := Verdict(h, stallLimit, bootLimit, now);
            && (v.Some? && v.value.Deadlock? <==> !NoMark(h))
            && (forall t :: v == Some(NeverPresented(t)) <==> t == now >= bootLimit && NoMark(h) && NoFlips(h))
            && (v.Some? ==> !v.value.ProcessExited?)
  {
    WarningsAre(h);
    var k := AdvancesAre(h);
  }

  lemma StalledIff(h: seq<Seen>, stallLimit: nat, bootLimit: nat, now: nat, last: nat, gap: nat)
    ensures Verdict(h, stallLimit, bootLimit, now) == Some(Stalled(last, gap)) <==>
            && NoMark(h) && (exists k: nat :: LastFlips(h, k) && h[k].at == last)
            && last + gap == now && gap > stallLimit
  {
    WarningsAre(h);
    var k := AdvancesAre(h);
    if j: nat :| LastFlips(h, j) && h[j].at == last {
      assert Advances(h) != [];
      OneLast(h, j, k);
    }
  }

  /** The warning that is named is the first marked line. */
  lemma DeadlockIs(h: seq<Seen>, stallLimit: nat, bootLimit: nat, now: nat, k: nat)
    requires k < |h|
    ensures h[k].line.deadlock && (forall j :: 0 <= j < k ==> !h[j].line.deadlock) ==>
              Verdict(h, stallLimit, bootLimit, now) == Some(Deadlock(h[k]))
  {
    if h[k].line.deadlock && forall j :: 0 <= j < k ==> !h[j].line.deadlock {
      WarningIsFirst(h, k);
    }
  }

  // Whole runs.

  /** The lines of the first `n` turns. */
  function Heard(polls: seq<Poll>, n: nat): seq<Seen>
    requires n <= |polls|
  {
    if n == 0 then [] else Heard(polls, n - 1) + Stamped(polls[n - 1].at, polls[n - 1].lines)
  }

  /** A turn that finds nothing. */
  predicate Quiet(h: seq<Seen>, stallLimit: nat, bootLimit: nat, polls: seq<Poll>, i: nat)
    requires i < |polls|
  {
    polls[i].exited == None && Verdict(h + Heard(polls, i + 1), stallLimit, bootLimit, polls[i].at) == None
  }

  /** What the turn with number `n - 1` finds, after `n - 1` quiet ones: the exit of the child, or a failed check. */
  predicate Finds(h: seq<Seen>, stallLimit: nat, bootLimit: nat, polls: seq<Poll>, n: nat, f: Failure)
    requires 0 < n <= |polls|
  {
    var poll := polls[n - 1];
    match poll.exited
    case Some(code) => f == ProcessExited(code, poll.at)
    case None => Verdict(h + Heard(polls, n), stallLimit, bootLimit, poll.at) == Some(f)
  }

  /** A run that ends at the deadline after `n` quiet turns, or with what turn `n` finds after quiet ones. */
  predicate Ends(h: seq<Seen>, stallLimit: nat, bootLimit: nat, deadline: nat, polls: seq<Poll>, n: nat, w: Watched) {
    && n <= |polls| && (forall i :: 0 <= i < n ==> polls[i].at < deadline)
    && w.history == h + Heard(polls, n)
    && match w.verdict
       case None =>
         && (n < |polls| ==> polls[n].at >= deadline)
         && forall i :: 0 <= i < n ==> Quiet(h, stallLimit, bootLimit, polls, i)
       case Some(f) =>
         && n > 0 && Finds(h, stallLimit, bootLimit, polls, n, f)
         && forall i :: 0 <= i < n - 1 ==> Quiet(h, stallLimit, bootLimit, polls, i)
  }

  /** So does every run of the loop. */
  lemma {:induction false} WatchEnds(h: seq<Seen>, stallLimit: nat, bootLimit: nat, deadline: nat, polls: seq<Poll>)
    returns (n: nat)
    ensures Ends(h, stallLimit, bootLimit, deadline, polls, n, Watch(h, stallLimit, bootLimit, deadline, polls))
    decreases |polls|
  {
    if polls == [] || polls[0].at >= deadline {
      n := 0;
      assert h + [] == h;
    } else {
      var poll := polls[0];
      var h' := h + Stamped(poll.at, poll.lines);
      HeardOne(h, polls);
      if poll.exited.Some? || Verdict(h', stallLimit, bootLimit, poll.at).Some? {
        n := 1;
      } else {
        n := WatchEnds(h', stallLimit, bootLimit, deadline, polls[1..]);
        EndsLater(h, stallLimit, bootLimit, deadline, polls, n, Watch(h', stallLimit, bootLimit, deadline, polls[1..]));
        n := n + 1;
      }
    }
  }

  lemma EndsLater(h: seq<Seen>, stallLimit: nat, bootLimit: nat, deadline: nat, polls: seq<Poll>, n: nat, w: Watched)
    requires polls != [] && polls[0].at < deadline && Quiet(h, stallLimit, bootLimit, polls, 0)
    requires Ends(h + Stamped(polls[0].at, polls[0].lines), stallLimit, bootLimit, deadline, polls[1..], n, w)
    ensures Ends(h, stallLimit, bootLimit, deadline, polls, n + 1, w)
  {
    var h', rest := h + Stamped(polls[0].at, polls[0].lines), polls[1..];
    HeardFirst(h, polls, n + 1);
    forall i | 0 < i <= n && i < |polls|
      ensures Quiet(h, stallLimit, bootLimit, polls, i) <==> Quiet(h', stallLimit, bootLimit, rest, i - 1)
    {
      QuietLater(h, stallLimit, bootLimit, polls, i);
    }
    if w.verdict.Some? {
      FindsLater(h, stallLimit, bootLimit, polls, n, w.verdict.value);
    }
  }

  lemma QuietLater(h: seq<Seen>, stallLimit: nat, bootLimit: nat, polls: seq<Poll>, i: nat)
    requires 0 < i < |polls|
    ensures Quiet(h, stallLimit, bootLimit, polls, i) <==>
            Quiet(h + Stamped(polls[0].at, polls[0].lines), stallLimit, bootLimit, polls[1..], i - 1)
  {
    HeardFirst(h, polls, i + 1);
  }

  lemma FindsLater(h: seq<Seen>, stallLimit: nat, bootLimit: nat, polls: seq<Poll>, n: nat, f: Failure)
    requires 0 < n < |polls|
    ensures Finds(h, stallLimit, bootLimit, polls, n + 1, f) <==>
            Finds(h + Stamped(polls[0].at, polls[0].lines), stallLimit, bootLimit, polls[1..], n, f)
  {
    HeardFirst(h, polls, n + 1);
  }

  lemma HeardOne(h: seq<Seen>, polls: seq<Poll>)
    requires polls != []
    ensures h + Heard(polls, 1) == h + Stamped(polls[0].at, polls[0].lines)
  {
    assert Heard(polls, 0) == [];
    assert [] + Stamped(polls[0].at, polls[0].lines) == Stamped(polls[0].at, polls[0].lines);
  }

  lemma {:induction false} HeardFirst(h: seq<Seen>, polls: seq<Poll>, n: nat)
    requires 0 < n <= |polls|
    ensures h + Heard(polls, n) == h + Stamped(polls[0].at, polls[0].lines) + Heard(polls[1..], n - 1)
    decreases n
  {
    var first := Stamped(polls[0].at, polls[0].lines);
    if n == 1 {
      assert Heard(polls, 0) == [] && [] + first == first && h + first + [] == h + first;
    } else {
      HeardFirst(h, polls, n - 1);
      var last := Stamped(polls[n - 1].at, polls[n - 1].lines);
      AppendAssociates(h, Heard(polls, n - 1), last);
      AppendAssociates(h + first, Heard(polls[1..], n - 2), last);
    }
  }

  /** When a run fails, turn `i` did it, or the last check if `i` is their number; and what it then says is so: a
      child had exited, or the limits were passed with nothing marked and, for the boot limit, nothing shown. */
  lemma RunFails(h: seq<Seen>, stallLimit: nat, bootLimit: nat, deadline: nat, polls: seq<Poll>, finalAt: nat,
                 finalLines: seq<Line>, f: Failure)
    returns (i: nat, seen: seq<Seen>, at: nat)
    requires var w := Watch(h, stallLimit, bootLimit, deadline, polls);
             Conclude(w, stallLimit, bootLimit, finalAt, finalLines).verdict == Some(f)
    ensures i <= |polls| && (i < |polls| ==> polls[i].at < deadline)
    ensures at == if i < |polls| then polls[i].at else finalAt
    ensures i < |polls| ==> seen == h + Heard(polls, i + 1)
    ensures match f
            case Deadlock(_) => !NoMark(seen)
            case NeverPresented(waited) => waited == at >= bootLimit && NoMark(seen) && NoFlips(seen)
            case Stalled(last, gap) =>
              && last + gap == at && gap > stallLimit && NoMark(seen)
              && exists k: nat :: LastFlips(seen, k) && seen[k].at == last
            case ProcessExited(code, exitedAt) => i < |polls| && polls[i].exited == Some(code) && exitedAt == at
  {
    var w := Watch(h, stallLimit, bootLimit, deadline, polls);
    var n := WatchEnds(h, stallLimit, bootLimit, deadline, polls);
    if w.verdict.Some? {
      i, seen, at := n - 1, h + Heard(polls, n), polls[n - 1].at;
    } else {
      i, seen, at := |polls|, w.history + Stamped(finalAt, finalLines), finalAt;
    }
    if !f.ProcessExited? {
      assert Verdict(seen, stallLimit, bootLimit, at) == Some(f);
      VerdictIff(seen, stallLimit, bootLimit, at);
      if f.Stalled? {
        StalledIff(seen, stallLimit, bootLimit, at, f.lastAdvance, f.gap);
      }
    }
  }
}
