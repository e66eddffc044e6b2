/** The liveness monitor of a long run. Times are whole units since the start; what is read from a log line is
    whether it warns of a deadlock, the highest flip count on it, and whether it is a flip call. */
module SoakTracker {
  import opened Wrappers

  datatype Line = Line(text: string, deadlock: bool, flips: nat, flipCall: bool)

  datatype Seen = Seen(at: nat, line: Line)

  datatype Failure =
    | Deadlock(warning: Seen)
    | NeverPresented(waited: nat)
    | Stalled(lastAdvance: nat, gap: nat)
    | ProcessExited(exitCode: Option<int>, at: nat)

  /** Saturating subtraction. */
  function Since(t: nat, from: nat): nat {
    if t < from then 0 else t - from
  }

  // What a history of lines says.

  function HighWater(h: seq<Seen>): nat {
    if h == [] then 0
    else
      var before, flips := HighWater(h[..|h| - 1]), h[|h| - 1].line.flips;
      if flips > before then flips else before
  }

  predicate IsAdvance(before: seq<Seen>, line: Line) {
    line.flipCall || line.flips > HighWater(before)
  }

  /** When the lines advanced. */
  function Advances(h: seq<Seen>): seq<nat> {
    if h == [] then []
    else
      var before, last := h[..|h| - 1], h[|h| - 1];
      Advances(before) + if IsAdvance(before, last.line) then [last.at] else []
  }

  function Warnings(h: seq<Seen>): seq<Seen> {
    if h == [] then []
    else Warnings(h[..|h| - 1]) + if h[|h| - 1].line.deadlock then [h[|h| - 1]] else []
  }

  function FlipCalls(h: seq<Seen>): nat {
    if h == [] then 0
    else FlipCalls(h[..|h| - 1]) + if h[|h| - 1].line.flipCall then 1 else 0
  }

  lemma HistoryNext(h: seq<Seen>, seen: Seen, next: seq<Seen>)
    requires next == h + [seen]
    ensures HighWater(next) == if seen.line.flips > HighWater(h) then seen.line.flips else HighWater(h)
    ensures FlipCalls(next) == if seen.line.flipCall then FlipCalls(h) + 1 else FlipCalls(h)
    ensures Warnings(next) == if seen.line.deadlock then Warnings(h) + [seen] else Warnings(h)
    ensures Advances(next) == if IsAdvance(h, seen.line) then Advances(h) + [seen.at] else Advances(h)
  {
    assert (h + [seen])[..|h|] == h;
    assert Warnings(h) + [] == Warnings(h) && Advances(h) + [] == Advances(h);
  }

  function MaxGap(times: seq<nat>): nat {
    if |times| < 2 then 0
    else
      var before, gap := MaxGap(times[..|times| - 1]), Since(times[|times| - 1], times[|times| - 2]);
      if gap > before then gap else before
  }

  function Last(times: seq<nat>): Option<nat> {
    if times == [] then None else Some(times[|times| - 1])
  }

  /** It is the largest gap between neighbours. */
  lemma {:induction false} MaxGapIs(times: seq<nat>)
    ensures forall i :: 0 < i < |times| ==> Since(times[i], times[i - 1]) <= MaxGap(times)
    ensures MaxGap(times) == 0 || exists i :: 0 < i < |times| && MaxGap(times) == Since(times[i], times[i - 1])
    decreases |times|
  {
    if |times| >= 2 {
      var n := |times| - 1;
      var before := times[..n];
      assert forall i :: 0 <= i < n ==> before[i] == times[i];
      MaxGapIs(before);
      if MaxGap(times) != 0 && MaxGap(times) != Since(times[n], times[n - 1]) {
        var i :| 0 < i < n && MaxGap(before) == Since(before[i], before[i - 1]);
        assert MaxGap(times) == Since(times[i], times[i - 1]);
      }
    }
  }

  lemma GapOf(times: seq<nat>, t: nat)
    ensures MaxGap(times + [t])
         == if times == [] then 0
            else if Since(t, times[|times| - 1]) > MaxGap(times) then Since(t, times[|times| - 1])
            else MaxGap(times)
  {
    assert (times + [t])[..|times|] == times;
  }

  function Verdict(h: seq<Seen>, stallLimit: nat, bootLimit: nat, now: nat): Option<Failure> {
    if Warnings(h) != [] then Some(Deadlock(Warnings(h)[0]))
    else if Advances(h) == [] then if now >= bootLimit then Some(NeverPresented(now)) else None
    else
      var last := Advances(h)[|Advances(h)| - 1];
      if Since(now, last) > stallLimit then Some(Stalled(last, Since(now, last))) else None
  }

  class SoakTracker {
    const stallLimit: nat
    const bootLimit: nat
    var flipHighWater: nat
    var flipCallLines: nat
    var firstAdvance: Option<nat>
    var lastAdvance: Option<nat>
    var worstClosedStall: nat
    var deadlocks: seq<Seen>
    ghost var history: seq<Seen>

    ghost predicate Valid()
      reads this
    {
      && flipHighWater == HighWater(history)
      && flipCallLines == FlipCalls(history)
      && deadlocks == Warnings(history)
      && Clocked(Advances(history))
    }

    ghost predicate Clocked(advances: seq<nat>)
      reads this
    {
      && firstAdvance == (if advances == [] then None else Some(advances[0]))
      && lastAdvance == Last(advances)
      && worstClosedStall == MaxGap(advances)
    }

    constructor (stallLimit: nat, bootLimit: nat)
      ensures Valid() && history == [] && this.stallLimit == stallLimit && this.bootLimit == bootLimit
    {
      this.stallLimit, this.bootLimit := stallLimit, bootLimit;
      flipHighWater, flipCallLines := 0, 0;
      firstAdvance, lastAdvance, worstClosedStall := None, None, 0;
      deadlocks, history := [], [];
    }

    method ObserveLine(elapsed: nat, line: Line)
      requires Valid()
      modifies this
      ensures Valid() && history == old(history) + [Seen(elapsed, line)]
    {
      ghost var advances, next := Advances(history), history + [Seen(elapsed, line)];
      HistoryNext(history, Seen(elapsed, line), next);
      var advanced := Count(line);
      if line.deadlock {
        deadlocks := deadlocks + [Seen(elapsed, line)];
      }
      history := next;
      if advanced {
        RecordAdvance(elapsed, advances);
      }
    }

    /** Whether the line shows new flips, which are counted. */
    method Count(line: Line) returns (advanced: bool)
      requires flipHighWater == HighWater(history)
      modifies this`flipHighWater, this`flipCallLines
      ensures advanced == IsAdvance(history, line)
      ensures flipHighWater == if line.flips > old(flipHighWater) then line.flips else old(flipHighWater)
      ensures flipCallLines == old(flipCallLines) + if line.flipCall then 1 else 0
    {
      advanced := false;
      if line.flips > flipHighWater {
        flipHighWater := line.flips;
        advanced := true;
      }
      if line.flipCall {
        flipCallLines := flipCallLines + 1;
        advanced := true;
      }
    }

    method RecordAdvance(elapsed: nat, ghost advances: seq<nat>)
      requires Clocked(advances)
      modifies this`firstAdvance, this`lastAdvance, this`worstClosedStall
      ensures Clocked(advances + [elapsed])
    {
      GapOf(advances, elapsed);
      if lastAdvance.Some? {
        var gap := Since(elapsed, lastAdvance.value);
        if gap > worstClosedStall {
          worstClosedStall := gap;
        }
      } else {
        firstAdvance := Some(elapsed);
      }
      lastAdvance := Some(elapsed);
    }

    method Check(elapsed: nat) returns (r: Option<Failure>)
      requires Valid()
      ensures r == Verdict(history, stallLimit, bootLimit, elapsed)
    {
      if deadlocks != [] {
        return Some(Deadlock(deadlocks[0]));
      }
      match lastAdvance
      case Some(last) =>
        var gap := Since(elapsed, last);
        return if gap > stallLimit then Some(Stalled(last, gap)) else None;
      case None =>
        return if elapsed >= bootLimit then Some(NeverPresented(elapsed)) else None;
    }

    /** The worst gap between advances, the open one at the end included. */
    method WorstStall(finalElapsed: nat) returns (r: Option<nat>)
      requires Valid()
      ensures r == if Advances(history) == [] then None else Some(MaxGap(Advances(history) + [finalElapsed]))
    {
      GapOf(Advances(history), finalElapsed);
      match lastAdvance
      case None => return None;
      case Some(last) =>
        var open := Since(finalElapsed, last);
        return Some(if open > worstClosedStall then open else worstClosedStall);
    }
  }

  // The driver's loop.

  /** One turn: the time, the lines that came, and the child's exit if it was seen. */
  datatype Poll = Poll(at: nat, lines: seq<Line>, exited: Option<Option<int>>)

  function Stamped(at: nat, lines: seq<Line>): seq<Seen> {
    seq(|lines|, i requires 0 <= i < |lines| => Seen(at, lines[i]))
  }

  datatype Watched = Watched(history: seq<Seen>, verdict: Option<Failure>)

  function Watch(h: seq<Seen>, stallLimit: nat, bootLimit: nat, deadline: nat, polls: seq<Poll>): Watched
    decreases |polls|
  {
    if polls == [] || polls[0].at >= deadline then Watched(h, None)
    else
      var h' := h + Stamped(polls[0].at, polls[0].lines);
      if polls[0].exited.Some? then Watched(h', Some(ProcessExited(polls[0].exited.value, polls[0].at)))
      else
        var verdict := Verdict(h', stallLimit, bootLimit, polls[0].at);
        if verdict.Some? then Watched(h', verdict)
        else Watch(h', stallLimit, bootLimit, deadline, polls[1..])
  }

  /** With the final drain, and a last check if there is no verdict yet. */
  function Conclude(w: Watched, stallLimit: nat, bootLimit: nat, finalAt: nat, finalLines: seq<Line>): Watched {
    var h := w.history + Stamped(finalAt, finalLines);
    Watched(h, if w.verdict.Some? then w.verdict else Verdict(h, stallLimit, bootLimit, finalAt))
  }

  method ObserveAll(tracker: SoakTracker, at: nat, lines: seq<Line>)
    requires tracker.Valid()
    modifies tracker
    ensures tracker.Valid() && tracker.history == old(tracker.history) + Stamped(at, lines)
  {
    for i := 0 to |lines|
      invariant tracker.Valid() && tracker.history == old(tracker.history) + Stamped(at, lines[..i])
    {
      assert Stamped(at, lines[..i + 1]) == Stamped(at, lines[..i]) + [Seen(at, lines[i])];
      tracker.ObserveLine(at, lines[i]);
    }
    assert lines[..|lines|] == lines;
  }

  method Run(tracker: SoakTracker, deadline: nat, polls: seq<Poll>, finalAt: nat, finalLines: seq<Line>)
      returns (verdict: Option<Failure>)
    requires tracker.Valid()
    modifies tracker
    ensures tracker.Valid()
    ensures Watched(tracker.history, verdict)
         == Conclude(Watch(old(tracker.history), tracker.stallLimit, tracker.bootLimit, deadline, polls),
                     tracker.stallLimit, tracker.bootLimit, finalAt, finalLines)
  {
    verdict := None;
    ghost var want := Watch(tracker.history, tracker.stallLimit, tracker.bootLimit, deadline, polls);
    var k := 0;
    while k < |polls| && polls[k].at < deadline && verdict == None
      invariant k <= |polls| && tracker.Valid()
      invariant if verdict.Some? then want == Watched(tracker.history, verdict)
                else want == Watch(tracker.history, tracker.stallLimit, tracker.bootLimit, deadline, polls[k..])
      decreases |polls| - k
    {
      var poll := polls[k];
      assert polls[k..][1..] == polls[k + 1..];
      ObserveAll(tracker, poll.at, poll.lines);
      if poll.exited.Some? {
        verdict := Some(ProcessExited(poll.exited.value, poll.at));
      } else {
        verdict := tracker.Check(poll.at);
      }
      k := k + 1;
    }
    ObserveAll(tracker, finalAt, finalLines);
    if verdict == None {
      verdict := tracker.Check(finalAt);
    }
  }

  // What a run without a verdict guarantees.

  /** Turns, and the end, come at most `period` apart. */
  predicate Spaced(before: nat, polls: seq<Poll>, deadline: nat, finalAt: nat, period: nat)
    decreases |polls|
  {
    if polls == [] || polls[0].at >= deadline then finalAt <= before + period
    else polls[0].at <= before + period && Spaced(polls[0].at, polls[1..], deadline, finalAt, period)
  }

  /** No closed stall beyond `bound`, and the open one not beyond `limit`. */
  predicate Calm(h: seq<Seen>, now: nat, limit: nat, bound: nat) {
    var advances := Advances(h);
    MaxGap(advances) <= bound && (advances != [] ==> Since(now, advances[|advances| - 1]) <= limit)
  }

  lemma {:induction false} StillCalm(h: seq<Seen>, at: nat, lines: seq<Line>, bound: nat)
    requires Calm(h, at, bound, bound)
    ensures Calm(h + Stamped(at, lines), at, bound, bound)
    decreases |lines|
  {
    if lines == [] {
      assert h + Stamped(at, lines) == h;
    } else {
      var n := |lines| - 1;
      var before := h + Stamped(at, lines[..n]);
      StillCalm(h, at, lines[..n], bound);
      assert h + Stamped(at, lines) == before + [Seen(at, lines[n])];
      CalmStep(before, Seen(at, lines[n]), bound);
    }
  }

  lemma CalmStep(h: seq<Seen>, seen: Seen, bound: nat)
    requires Calm(h, seen.at, bound, bound)
    ensures Calm(h + [seen], seen.at, bound, bound)
  {
    HistoryNext(h, seen, h + [seen]);
    GapOf(Advances(h), seen.at);
  }

  /** A run that ends without a verdict hides no stall above the limit plus one polling period, and has
      presented something if it lasted longer than the boot limit. */
  lemma {:induction false} NoHiddenStall(h: seq<Seen>, stallLimit: nat, bootLimit: nat, deadline: nat,
                                         polls: seq<Poll>, finalAt: nat, finalLines: seq<Line>, period: nat,
                                         before: nat, end: Watched)
    requires Calm(h, before, stallLimit, stallLimit + period) && Spaced(before, polls, deadline, finalAt, period)
    requires end.verdict == None && end
          == Conclude(Watch(h, stallLimit, bootLimit, deadline, polls), stallLimit, bootLimit, finalAt, finalLines)
    ensures MaxGap(Advances(end.history) + [finalAt]) <= stallLimit + period
    ensures finalAt >= bootLimit ==> Advances(end.history) != []
    decreases |polls|
  {
    if polls == [] || polls[0].at >= deadline {
      QuietEnd(h, stallLimit, bootLimit, finalAt, finalLines, stallLimit + period, end.history);
    } else {
      var poll := polls[0];
      var h' := h + Stamped(poll.at, poll.lines);
      WatchOn(h, stallLimit, bootLimit, deadline, polls, h');
      QuietPoll(h, stallLimit, bootLimit, poll.at, poll.lines, stallLimit + period, h');
      NoHiddenStall(h', stallLimit, bootLimit, deadline, polls[1..], finalAt, finalLines, period, poll.at, end);
    }
  }

  /** Watching goes on where nothing was found, and a verdict that was found stays. */
  lemma WatchOn(h: seq<Seen>, stallLimit: nat, bootLimit: nat, deadline: nat, polls: seq<Poll>, h': seq<Seen>)
    requires polls != [] && polls[0].at < deadline && h' == h + Stamped(polls[0].at, polls[0].lines)
    ensures var w := Watch(h, stallLimit, bootLimit, deadline, polls);
            w.verdict == None ==>
              && Verdict(h', stallLimit, bootLimit, polls[0].at) == None
              && w == Watch(h', stallLimit, bootLimit, deadline, polls[1..])
  {
  }

  lemma QuietPoll(h: seq<Seen>, stallLimit: nat, bootLimit: nat, at: nat, lines: seq<Line>, bound: nat, h': seq<Seen>)
    requires Calm(h, at, bound, bound) && h' == h + Stamped(at, lines)
    requires Verdict(h', stallLimit, bootLimit, at) == None
    ensures Calm(h', at, stallLimit, bound)
  {
    StillCalm(h, at, lines, bound);
  }

  lemma QuietEnd(h: seq<Seen>, stallLimit: nat, bootLimit: nat, at: nat, lines: seq<Line>, bound: nat, h': seq<Seen>)
    requires Calm(h, at, bound, bound) && h' == h + Stamped(at, lines)
    requires Verdict(h', stallLimit, bootLimit, at) == None
    ensures MaxGap(Advances(h') + [at]) <= bound && (at >= bootLimit ==> Advances(h') != [])
  {
    StillCalm(h, at, lines, bound);
    GapOf(Advances(h'), at);
  }

  /** A deadlock line once seen decides every later check, whatever comes after it. */
  lemma DeadlockSticks(h: seq<Seen>, more: seq<Seen>)
    requires Warnings(h) != []
    ensures forall stallLimit, bootLimit, now ::
              Verdict(h + more, stallLimit, bootLimit, now) == Some(Deadlock(Warnings(h)[0]))
  {
    FirstWarningStays(h, more);
  }

  lemma {:induction false} FirstWarningStays(h: seq<Seen>, more: seq<Seen>)
    requires Warnings(h) != []
    ensures Warnings(h + more) != [] && Warnings(h + more)[0] == Warnings(h)[0]
    decreases |more|
  {
    if more == [] {
      assert h + more == h;
    } else {
      var n := |more| - 1;
      FirstWarningStays(h, more[..n]);
      assert h + more == h + more[..n] + [more[n]];
      HistoryNext(h + more[..n], more[n], h + more);
    }
  }

  /** The first warning is the first line of the history that has the mark. */
  lemma WarningIsFirst(h: seq<Seen>, k: nat)
    requires k < |h| && h[k].line.deadlock && forall i :: 0 <= i < k ==> !h[i].line.deadlock
    ensures Warnings(h) != [] && Warnings(h)[0] == h[k]
  {
    FirstWarning(h[..k], h[k], h[k + 1..]);
    assert h[..k] + [h[k]] + h[k + 1..] == h;
  }

  lemma FirstWarning(before: seq<Seen>, seen: Seen, more: seq<Seen>)
    requires seen.line.deadlock && forall i :: 0 <= i < |before| ==> !before[i].line.deadlock
    ensures var warnings := Warnings(before + [seen] + more); warnings != [] && warnings[0] == seen
  {
    NoWarnings(before);
    HistoryNext(before, seen, before + [seen]);
    assert [] + [seen] == [seen];
    FirstWarningStays(before + [seen], more);
  }

  lemma {:induction false} NoWarnings(h: seq<Seen>)
    requires forall i :: 0 <= i < |h| ==> !h[i].line.deadlock
    ensures Warnings(h) == []
    decreases |h|
  {
    if h != [] {
      NoWarnings(h[..|h| - 1]);
    }
  }
}
