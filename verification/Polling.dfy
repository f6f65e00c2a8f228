/** The two loops that watch a container: `Updater._wait_healthy` and
    `DockerService._wait_settled`, and the view of a container they look at. */
module Polling {
  import opened Text

  /** One `status` call: Docker fails, or the container is seen like this. */
  datatype Poll =
    | Lost
    | Seen(exists_: bool, running: bool, health: Option<string>, crashLooping: bool)

  /** What Docker answers: nothing, that there is no container, or its attributes. */
  datatype Answer =
    | NoAnswer
    | NoContainer
    | Attrs(running: bool, restarting: bool, restarts: nat, health: Option<string>)

  /** `state_view` */
  function StateView(running: bool, restarting: bool, restarts: nat, health: Option<string>): Poll {
    Seen(true, running && !restarting, health, restarting || (restarts > 0 && health != Some("healthy")))
  }

  /** `status` */
  function Status(a: Answer): Poll {
    match a
    case NoAnswer => Lost
    case NoContainer => Seen(false, false, None, false)
    case Attrs(running, restarting, restarts, health) => StateView(running, restarting, restarts, health)
  }

  /** The answers of successive polls, the clock after each, the clock at the start, and the least
      time that a sleep takes. */
  datatype PollRecord = PollRecord(answer: nat -> Answer, clock: nat -> int, start: int, interval: nat) {
    function status(n: nat): Poll {
      Status(answer(n))
    }
  }

  ghost predicate Ticks(p: PollRecord) {
    && p.interval >= 1 && p.clock(0) >= p.start
    && forall i: nat, j: nat | i < j :: p.clock(i) + p.interval <= p.clock(j)
  }

  /** Every sleep takes at least one interval. */
  type Polls = p: PollRecord | Ticks(p) ghost witness PollRecord(_ => NoAnswer, n => n, 0, 1)

  /** What polling for health ends with. */
  datatype Watch = TurnedHealthy | NotHealthy | WatchBroken

  predicate Good(p: Poll) {
    p.Seen? && p.health == Some("healthy")
  }

  /** No later poll is worth waiting for. */
  predicate Failing(p: Poll) {
    p.Seen? && !Good(p)
    && (p.health == Some("unhealthy") || p.crashLooping || (p.exists_ && !p.running && p.health.None?))
  }

  predicate Quiet(p: Poll) {
    p.Seen? && !Good(p) && !Failing(p)
  }

  /** All polls before `n` were quiet and in time. */
  ghost predicate QuietBefore(p: Polls, deadline: int, n: nat) {
    forall j: nat | j < n :: Quiet(p.status(j)) && p.clock(j) < deadline
  }

  /** The watch ends with poll `n`. */
  ghost predicate EndsAt(p: Polls, deadline: int, n: nat) {
    QuietBefore(p, deadline, n) && (!Quiet(p.status(n)) || p.clock(n) >= deadline)
  }

  lemma {:induction false} ClockRuns(p: Polls, n: nat)
    ensures p.start + n * p.interval <= p.clock(n)
  {
    if n > 0 {
      ClockRuns(p, n - 1);
      assert p.clock(n - 1) + p.interval <= p.clock(n);
      assert n * p.interval == (n - 1) * p.interval + p.interval;
    }
  }

  /** A watch has one end. */
  lemma EndUnique(p: Polls, deadline: int, m: nat, n: nat)
    requires EndsAt(p, deadline, m) && EndsAt(p, deadline, n)
    ensures m == n
  {
  }

  /** Only the last poll can be the healthy one. */
  lemma OneGood(p: Polls, deadline: int, n: nat)
    requires EndsAt(p, deadline, n)
    ensures Good(p.status(n)) <==> exists k: nat :: Good(p.status(k)) && QuietBefore(p, deadline, k)
  {
    if k: nat :| Good(p.status(k)) && QuietBefore(p, deadline, k) {
      assert EndsAt(p, deadline, k);
      EndUnique(p, deadline, k, n);
    }
  }

  /** What the watch reports, as a relation on its answers. */
  ghost predicate Reports(p: Polls, timeout: int, w: Watch, n: nat) {
    && EndsAt(p, p.start + timeout, n)
    && (w.WatchBroken? <==> p.status(n).Lost?)
    && (w.TurnedHealthy? <==> Good(p.status(n)))
  }

  /** Whatever the answers are, the watch has an end, and so a report. */
  lemma ReportExists(p: Polls, timeout: int) returns (w: Watch, n: nat)
    ensures Reports(p, timeout, w, n)
  {
    n := EndFrom(p, p.start + timeout, 0);
    var st := p.status(n);
    w := if st.Lost? then WatchBroken else if Good(st) then TurnedHealthy else NotHealthy;
  }

  lemma {:induction false} EndFrom(p: Polls, deadline: int, m: nat) returns (n: nat)
    requires QuietBefore(p, deadline, m)
    ensures EndsAt(p, deadline, n)
    decreases deadline - p.clock(m)
  {
    if Quiet(p.status(m)) && p.clock(m) < deadline {
      assert p.clock(m) + p.interval <= p.clock(m + 1);
      n := EndFrom(p, deadline, m + 1);
    } else {
      n := m;
    }
  }

  /** The watch terminates after a number of polls that timeout and interval bound. It reports
      health exactly if some poll saw it before any failing poll and before the deadline, and
      that poll is its last. */
  method WaitHealthy(p: Polls, timeout: int) returns (w: Watch, n: nat)
    ensures Reports(p, timeout, w, n)
    ensures w.TurnedHealthy? <==> exists k: nat :: Good(p.status(k)) && QuietBefore(p, p.start + timeout, k)
    ensures n > 0 ==> (n - 1) * p.interval < timeout
  {
    var deadline := p.start + timeout;
    n := 0;
    while true
      invariant QuietBefore(p, deadline, n)
      decreases deadline - (if n == 0 then p.start - 1 else p.clock(n - 1))
    {
      if n > 0 {
        ClockRuns(p, n - 1);
      }
      var st := p.status(n);
      if st.Lost? {
        w := WatchBroken;
        break;
      }
      if st.health == Some("healthy") {
        w := TurnedHealthy;
        break;
      }
      if st.health == Some("unhealthy") || st.crashLooping {
        w := NotHealthy;
        break;
      }
      if st.exists_ && !st.running && st.health.None? {
        w := NotHealthy;
        break;
      }
      if p.clock(n) >= deadline {
        w := NotHealthy;
        break;
      }
      assert n > 0 ==> p.clock(n - 1) + p.interval <= p.clock(n);
      n := n + 1;
    }
    OneGood(p, deadline, n);
  }

  /** A view that ends the settling watch: a health verdict, a crash loop, or no running
      container. */
  predicate Decided(p: Poll) {
    p.Seen? && (p.health == Some("healthy") || p.health == Some("unhealthy") || p.crashLooping || !p.running)
  }

  /** All polls before `n` were answered and undecided, and in time. */
  ghost predicate UndecidedBefore(p: Polls, deadline: int, n: nat) {
    forall j: nat | j < n :: p.status(j).Seen? && !Decided(p.status(j)) && p.clock(j) < deadline
  }

  /** The settling watch ends with poll `n`. */
  ghost predicate SettledAt(p: Polls, deadline: int, n: nat) {
    && UndecidedBefore(p, deadline, n)
    && (p.status(n).Lost? || Decided(p.status(n)) || p.clock(n) >= deadline)
  }

  /** The settling watch gets its answers: the poll that ends it is not lost. */
  ghost predicate Settles(p: Polls, timeout: int) {
    exists n: nat :: SettledAt(p, p.start + timeout, n) && p.status(n).Seen?
  }

  /** The settling watch ends with the first poll that is lost, decided, or past the deadline,
      and returns what that poll saw; its number of polls is bounded. */
  method WaitSettled(p: Polls, timeout: int) returns (st: Poll, n: nat)
    ensures SettledAt(p, p.start + timeout, n) && st == p.status(n)
    ensures st.Seen? <==> Settles(p, timeout)
    ensures n > 0 ==> (n - 1) * p.interval < timeout
  {
    var deadline := p.start + timeout;
    n := 0;
    while true
      invariant UndecidedBefore(p, deadline, n)
      decreases deadline - (if n == 0 then p.start - 1 else p.clock(n - 1))
    {
      if n > 0 {
        ClockRuns(p, n - 1);
      }
      st := p.status(n);
      if st.Lost? {
        break;
      }
      if st.health == Some("healthy") || st.health == Some("unhealthy") || st.crashLooping || !st.running
         || p.clock(n) >= deadline
      {
        break;
      }
      assert n > 0 ==> p.clock(n - 1) + p.interval <= p.clock(n);
      n := n + 1;
    }
    OneSettled(p, timeout, n);
  }

  lemma OneSettled(p: Polls, timeout: int, n: nat)
    requires SettledAt(p, p.start + timeout, n)
    ensures p.status(n).Seen? <==> Settles(p, timeout)
  {
    if Settles(p, timeout) {
      var k: nat :| SettledAt(p, p.start + timeout, k) && p.status(k).Seen?;
      assert k < n ==> false;
      assert n < k ==> false;
    }
  }

  // ------------------------------------------------------------------ in terms of what Docker says

  predicate SaysHealthy(a: Answer) {
    a.Attrs? && a.health == Some("healthy")
  }

  /** Being restarted, restarted already, unhealthy, or stopped without a health check; and not healthy. */
  predicate SaysFailed(a: Answer) {
    && a.Attrs? && a.health != Some("healthy")
    && (a.restarting || a.restarts > 0 || a.health == Some("unhealthy") || (!a.running && a.health.None?))
  }

  /** Gone, stopped, being restarted, restarted already, or with a verdict of the health check. */
  predicate SaysSettled(a: Answer) {
    || a.NoContainer?
    || (a.Attrs? && (!a.running || a.restarting || a.restarts > 0 || a.health == Some("healthy")
                     || a.health == Some("unhealthy")))
  }

  /** The view of a container: not running while it is being restarted, and crash-looping when it is being
      restarted, or was and is not healthy. And what the watches make of it. */
  lemma ViewExact(a: Answer)
    ensures a.Attrs? ==>
              var view := Status(a);
              && view.Seen? && view.exists_ && view.health == a.health
              && (view.running <==> a.running && !a.restarting)
              && (view.crashLooping <==> a.restarting || (a.restarts > 0 && !SaysHealthy(a)))
    ensures a.NoContainer? ==> Status(a) == Seen(false, false, None, false)
    ensures Status(a).Lost? <==> a.NoAnswer?
    ensures Good(Status(a)) <==> SaysHealthy(a)
    ensures Failing(Status(a)) <==> SaysFailed(a)
    ensures Decided(Status(a)) <==> SaysSettled(a)
  {
    assert |"unhealthy"| != |"healthy"|;
  }

  /** Docker said nothing decisive before answer `k`, and in time. */
  ghost predicate Waits(p: Polls, deadline: int, k: nat) {
    forall j: nat | j < k ::
      !p.answer(j).NoAnswer? && !SaysHealthy(p.answer(j)) && !SaysFailed(p.answer(j)) && p.clock(j) < deadline
  }

  /** The watch for health, by the answers of Docker: it turned healthy exactly if Docker said so before
      anything decisive and before the deadline, and broke exactly if Docker did not answer then. */
  lemma ReportsAnswers(p: Polls, timeout: int, w: Watch, n: nat)
    requires Reports(p, timeout, w, n)
    ensures w.TurnedHealthy? <==> exists k: nat :: SaysHealthy(p.answer(k)) && Waits(p, p.start + timeout, k)
    ensures w.WatchBroken? <==> exists k: nat :: p.answer(k).NoAnswer? && Waits(p, p.start + timeout, k)
  {
    var deadline := p.start + timeout;
    forall k: nat ensures QuietBefore(p, deadline, k) <==> Waits(p, deadline, k) {
      QuietIsWaiting(p, deadline, k);
    }
    ViewExact(p.answer(n));
    if k: nat :| (SaysHealthy(p.answer(k)) || p.answer(k).NoAnswer?) && Waits(p, deadline, k) {
      ViewExact(p.answer(k));
      assert EndsAt(p, deadline, k);
      EndUnique(p, deadline, k, n);
    }
  }

  /** Docker answered, and nothing was settled, before answer `k`, and in time. */
  ghost predicate Unsettled(p: Polls, deadline: int, k: nat) {
    forall j: nat | j < k :: !p.answer(j).NoAnswer? && !SaysSettled(p.answer(j)) && p.clock(j) < deadline
  }

  /** The settling watch fails exactly if Docker does not answer while nothing is settled. */
  lemma SettlesAnswers(p: Polls, timeout: int)
    ensures !Settles(p, timeout) <==> exists k: nat :: p.answer(k).NoAnswer? && Unsettled(p, p.start + timeout, k)
  {
    var deadline := p.start + timeout;
    forall k: nat ensures UndecidedBefore(p, deadline, k) <==> Unsettled(p, deadline, k) {
      forall j: nat | j < k
        ensures p.status(j).Seen? && !Decided(p.status(j)) <==> !p.answer(j).NoAnswer? && !SaysSettled(p.answer(j))
      {
        ViewExact(p.answer(j));
      }
    }
    var n := SettledFrom(p, deadline, 0);
    ViewExact(p.answer(n));
    OneSettled(p, timeout, n);
    if k: nat :| p.answer(k).NoAnswer? && Unsettled(p, deadline, k) {
      assert SettledAt(p, deadline, k);
      OneSettled(p, timeout, k);
    }
  }

  lemma {:induction false} SettledFrom(p: Polls, deadline: int, m: nat) returns (n: nat)
    requires UndecidedBefore(p, deadline, m)
    ensures SettledAt(p, deadline, n)
    decreases deadline - p.clock(m)
  {
    if p.status(m).Seen? && !Decided(p.status(m)) && p.clock(m) < deadline {
      assert p.clock(m) + p.interval <= p.clock(m + 1);
      n := SettledFrom(p, deadline, m + 1);
    } else {
      n := m;
    }
  }

  lemma QuietIsWaiting(p: Polls, deadline: int, k: nat)
    ensures QuietBefore(p, deadline, k) <==> Waits(p, deadline, k)
  {
    forall j: nat | j < k
      ensures Quiet(p.status(j))
              <==> !p.answer(j).NoAnswer? && !SaysHealthy(p.answer(j)) && !SaysFailed(p.answer(j))
    {
      ViewExact(p.answer(j));
    }
  }

  /** A container that Docker is restarting, or has restarted without its turning healthy, ends the
      watch for health at once and without success. */
  lemma CrashLoopFails(p: Polls, timeout: int, w: Watch, n: nat, k: nat)
    requires Reports(p, timeout, w, n) && QuietBefore(p, p.start + timeout, k)
    requires var a := p.answer(k);
             a.Attrs? && (a.restarting || a.restarts > 0) && a.health != Some("healthy")
    ensures n == k && w == NotHealthy
  {
    assert Failing(p.status(k));
    EndUnique(p, p.start + timeout, n, k);
  }
}
