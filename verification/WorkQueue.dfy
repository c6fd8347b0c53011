/**
 A shared queue of block hashes drained by one worker per peer, in every interleaving of
 their atomic steps. A worker whose peer fails notes the error, puts its hash back, and stops;
 a worker that finds the queue empty stops too.
 */
module WorkQueue {
  import opened Bytes

  datatype Worker = Ready | Holding(h: Digest) | Failing(h: Digest) | Exited | Retired {
    predicate Stopped() {
      Exited? || Retired?
    }

    function Held(): multiset<Digest> {
      if Holding? || Failing? then multiset{h} else multiset{}
    }
  }

  datatype State = State(
    queue: seq<Digest>,
    workers: seq<Worker>,
    answered: seq<(Digest, nat)>, // each with the bytes its peer sent, none for a block the peer does not have
    got: nat,
    errors: nat)

  datatype Step =
    | Take(w: nat)
    | Exit(w: nat)
    | Answer(w: nat, size: nat)
    | Fail(w: nat)
    | Requeue(w: nat)

  function Start(hashes: seq<Digest>, peers: nat): State {
    State(hashes, seq(peers, _ => Ready), [], 0, 0)
  }

  predicate Enabled(s: State, e: Step) {
    && e.w < |s.workers|
    && match e
       case Take(w) => s.workers[w].Ready? && s.queue != []
       case Exit(w) => s.workers[w].Ready? && s.queue == []
       case Answer(w, _) => s.workers[w].Holding?
       case Fail(w) => s.workers[w].Holding?
       case Requeue(w) => s.workers[w].Failing?
  }

  function Next(s: State, e: Step): State
    requires Enabled(s, e)
  {
    match e
    case Take(w) => s.(queue := s.queue[1..], workers := s.workers[w := Holding(s.queue[0])])
    case Exit(w) => s.(workers := s.workers[w := Exited])
    case Answer(w, size) =>
      s.(workers := s.workers[w := Ready], answered := s.answered + [(s.workers[w].h, size)], got := s.got + size)
    case Fail(w) => s.(workers := s.workers[w := Failing(s.workers[w].h)], errors := s.errors + 1)
    case Requeue(w) => s.(workers := s.workers[w := Retired], queue := s.queue + [s.workers[w].h])
  }

  /** The state after a run, or `None` when some step of it cannot be taken. */
  function After(s: State, run: seq<Step>): Option<State>
    decreases |run|
  {
    if run == [] then Some(s)
    else match After(s, run[..|run| - 1])
         case None => None
         case Some(t) => if Enabled(t, run[|run| - 1]) then Some(Next(t, run[|run| - 1])) else None
  }

  /** Every worker has stopped, so `join` returns. */
  predicate Joined(s: State) {
    forall w <- s.workers :: w.Stopped()
  }

  // ----- sums over the workers

  function Held(ws: seq<Worker>): multiset<Digest> {
    if ws == [] then multiset{} else ws[0].Held() + Held(ws[1..])
  }

  function Sum(ws: seq<Worker>, f: Worker -> nat): nat {
    if ws == [] then 0 else f(ws[0]) + Sum(ws[1..], f)
  }

  function Hashes(answered: seq<(Digest, nat)>): multiset<Digest> {
    if answered == [] then multiset{} else Hashes(answered[..|answered| - 1]) + multiset{answered[|answered| - 1].0}
  }

  function Sizes(answered: seq<(Digest, nat)>): nat {
    if answered == [] then 0 else Sizes(answered[..|answered| - 1]) + answered[|answered| - 1].1
  }

  lemma Regroup<T>(x: multiset<T>, p: multiset<T>, q: multiset<T>, p': multiset<T>, q': multiset<T>)
    requires p + q == p' + q'
    ensures (x + p) + q == (x + p') + q'
  {
    assert (x + p) + q == x + (p + q);
    assert (x + p') + q' == x + (p' + q');
  }

  lemma {:induction false} HeldUpdate(ws: seq<Worker>, i: nat, w: Worker)
    requires i < |ws|
    ensures Held(ws[i := w]) + ws[i].Held() == Held(ws) + w.Held()
  {
    hide Worker.Held;
    if i == 0 {
      assert ws[0 := w][1..] == ws[1..];
      Regroup(multiset{}, w.Held() + Held(ws[1..]), ws[0].Held(), ws[0].Held() + Held(ws[1..]), w.Held());
    } else {
      var rest := ws[1..][i - 1 := w];
      assert ws[i := w][1..] == rest;
      HeldUpdate(ws[1..], i - 1, w);
      Regroup(ws[0].Held(), Held(rest), ws[i].Held(), Held(ws[1..]), w.Held());
    }
  }

  lemma {:induction false} SumUpdate(ws: seq<Worker>, f: Worker -> nat, i: nat, w: Worker)
    requires i < |ws|
    ensures Sum(ws[i := w], f) + f(ws[i]) == Sum(ws, f) + f(w)
  {
    if i == 0 {
      assert ws[0 := w][1..] == ws[1..];
    } else {
      assert ws[i := w][1..] == ws[1..][i - 1 := w];
      SumUpdate(ws[1..], f, i - 1, w);
    }
  }

  lemma {:induction false} SumOf(ws: seq<Worker>, f: Worker -> nat, each: nat)
    requires forall w <- ws :: f(w) == each
    ensures Sum(ws, f) == each * |ws|
  {
    if ws == [] {
    } else {
      SumOf(ws[1..], f, each);
    }
  }

  lemma {:induction false} NothingHeld(ws: seq<Worker>)
    requires forall w <- ws :: w.Held() == multiset{}
    ensures Held(ws) == multiset{}
  {
    if ws == [] {
    } else {
      NothingHeld(ws[1..]);
    }
  }

  function Failures(w: Worker): nat {
    if w.Failing? then 1 else 0
  }

  function Gone(w: Worker): nat {
    if w.Failing? || w.Retired? then 1 else 0
  }

  // ----- what every step keeps

  /** Each requested hash is waiting, in some worker's hands, or answered: none is lost, none is doubled. */
  predicate Conserved(s: State, hashes: seq<Digest>) {
    multiset(s.queue) + Held(s.workers) + Hashes(s.answered) == multiset(hashes)
  }

  predicate Inv(s: State, hashes: seq<Digest>) {
    && Conserved(s, hashes)
    && s.got == Sizes(s.answered)
    && s.errors == Sum(s.workers, Gone)
    && ((exists w <- s.workers :: w.Exited?) ==> |s.queue| + Sum(s.workers, Failures) <= s.errors)
  }

  lemma StartInv(hashes: seq<Digest>, peers: nat)
    ensures Inv(Start(hashes, peers), hashes)
  {
    var s := Start(hashes, peers);
    NothingHeld(s.workers);
    SumOf(s.workers, Gone, 0);
  }

  /** What leaves one part for another leaves the sum, with any third part, unchanged. */
  lemma Moved<T>(p: multiset<T>, q: multiset<T>, p': multiset<T>, q': multiset<T>, x: multiset<T>, o: multiset<T>)
    requires p == p' + x && q' == q + x
    ensures p' + q' + o == p + q + o
    ensures q' + p' + o == q + p + o
    ensures o + p' + q' == o + p + q
  {
    assert p' + q' == p + q;
    assert o + p' + q' == o + (p' + q');
    assert o + p + q == o + (p + q);
  }

  lemma Unmoved<T>(p: multiset<T>, p': multiset<T>, x: multiset<T>)
    requires p + x == p' + x
    ensures p == p'
  {
    forall t: T
      ensures p[t] == p'[t]
    {
      assert (p + x)[t] == (p' + x)[t];
    }
  }

  lemma NextConserves(s: State, e: Step, hashes: seq<Digest>)
    requires Enabled(s, e) && Conserved(s, hashes)
    ensures Conserved(Next(s, e), hashes)
  {
    hide Held, Hashes;
    var t := Next(s, e);
    HeldUpdate(s.workers, e.w, t.workers[e.w]);
    var held, held' := Held(s.workers), Held(t.workers);
    match e
    case Take(w) =>
      assert s.queue == [s.queue[0]] + t.queue;
      Moved(multiset(s.queue), held, multiset(t.queue), held', multiset{s.queue[0]}, Hashes(s.answered));
    case Answer(w, size) =>
      OneMoreAnswer(s.answered, s.workers[w].h, size);
      Moved(held, Hashes(s.answered), held', Hashes(t.answered), multiset{s.workers[w].h}, multiset(s.queue));
    case Requeue(w) =>
      Moved(held, multiset(s.queue), held', multiset(t.queue), multiset{s.workers[w].h}, Hashes(s.answered));
    case _ =>
      Unmoved(held, held', t.workers[e.w].Held());
  }

  lemma OneMoreAnswer(answered: seq<(Digest, nat)>, h: Digest, size: nat)
    ensures Hashes(answered + [(h, size)]) == Hashes(answered) + multiset{h}
    ensures Sizes(answered + [(h, size)]) == Sizes(answered) + size
  {
    assert (answered + [(h, size)])[..|answered|] == answered;
  }

  lemma {:induction false} FailuresAreGone(ws: seq<Worker>)
    ensures Sum(ws, Failures) <= Sum(ws, Gone)
  {
    if ws == [] {
    } else {
      FailuresAreGone(ws[1..]);
    }
  }

  lemma NextInv(s: State, e: Step, hashes: seq<Digest>)
    requires Enabled(s, e) && Inv(s, hashes)
    ensures Inv(Next(s, e), hashes)
  {
    hide Held, Hashes, Sizes, Sum, Conserved;
    var t := Next(s, e);
    NextConserves(s, e, hashes);
    SumUpdate(s.workers, Gone, e.w, t.workers[e.w]);
    SumUpdate(s.workers, Failures, e.w, t.workers[e.w]);
    FailuresAreGone(s.workers);
    if e.Answer? {
      OneMoreAnswer(s.answered, s.workers[e.w].h, e.size);
    }
    if w: Worker :| w in t.workers && w.Exited? && !e.Exit? {
      var i: nat :| i < |t.workers| && t.workers[i] == w;
      assert s.workers[i] == w;
    }
  }

  lemma {:induction false} RunKeeps(hashes: seq<Digest>, peers: nat, run: seq<Step>)
    requires After(Start(hashes, peers), run).Some?
    ensures Inv(After(Start(hashes, peers), run).value, hashes)
    ensures |After(Start(hashes, peers), run).value.workers| == peers
    decreases |run|
  {
    hide Inv;
    if run == [] {
      StartInv(hashes, peers);
    } else {
      var before := run[..|run| - 1];
      RunKeeps(hashes, peers, before);
      NextInv(After(Start(hashes, peers), before).value, run[|run| - 1], hashes);
    }
  }

  // ----- what is true when every worker has stopped

  /** At `join` the answered hashes and the ones left make up the request, and `got` counts the bytes answered. */
  lemma JoinAccountsForAll(hashes: seq<Digest>, peers: nat, run: seq<Step>)
    requires After(Start(hashes, peers), run).Some? && Joined(After(Start(hashes, peers), run).value)
    ensures var s := After(Start(hashes, peers), run).value;
            && multiset(s.queue) + Hashes(s.answered) == multiset(hashes)
            && s.got == Sizes(s.answered)
            && s.errors <= peers
            && ((exists w <- s.workers :: w.Exited?) ==> |s.queue| <= s.errors)
            && (!(exists w <- s.workers :: w.Exited?) ==> s.errors == peers)
  {
    RunKeeps(hashes, peers, run);
    var s := After(Start(hashes, peers), run).value;
    NothingHeld(s.workers);
    GoneAtMost(s.workers);
    SumOf(s.workers, Failures, 0);
    if !(exists w <- s.workers :: w.Exited?) {
      SumOf(s.workers, Gone, 1);
    }
  }

  lemma {:induction false} GoneAtMost(ws: seq<Worker>)
    ensures Sum(ws, Gone) <= |ws|
  {
    if ws == [] {
    } else {
      GoneAtMost(ws[1..]);
    }
  }

  /** Without an error, and with a worker at all, every hash is answered exactly as often as it was asked for. */
  lemma NoErrorsFetchAll(hashes: seq<Digest>, peers: nat, run: seq<Step>)
    requires peers > 0
    requires After(Start(hashes, peers), run).Some?
    requires var s := After(Start(hashes, peers), run).value; Joined(s) && s.errors == 0
    ensures Hashes(After(Start(hashes, peers), run).value.answered) == multiset(hashes)
  {
    JoinAccountsForAll(hashes, peers, run);
  }

  lemma LastStep(s: State, run: seq<Step>)
    requires After(s, run).Some?
    ensures run == [] ==> After(s, run) == Some(s)
    ensures run != [] ==> var t, e := After(s, run[..|run| - 1]), run[|run| - 1];
                          t.Some? && Enabled(t.value, e) && After(s, run) == Some(Next(t.value, e))
  {
  }

  /** Nothing is left over exactly when the last worker to stop stopped because the queue was empty. */
  lemma AllAnsweredExactly(hashes: seq<Digest>, peers: nat, run: seq<Step>)
    requires peers > 0
    requires After(Start(hashes, peers), run).Some? && Joined(After(Start(hashes, peers), run).value)
    ensures run != []
    ensures Hashes(After(Start(hashes, peers), run).value.answered) == multiset(hashes) <==> run[|run| - 1].Exit?
  {
    hide Held, Hashes, Sizes, Sum, After;
    JoinAccountsForAll(hashes, peers, run);
    var s := After(Start(hashes, peers), run).value;
    LastStep(Start(hashes, peers), run);
    if run != [] {
      var last := run[|run| - 1];
      assert s.workers[last.w].Stopped();
      if last.Requeue? {
        assert s.queue != [] && s.queue[|s.queue| - 1] in multiset(s.queue);
      }
    }
    assert Hashes(s.answered) == multiset(hashes) <==> multiset(s.queue) == multiset{};
  }

  /** A hash can be left over although a worker never failed: it stopped while another still held the last hash. */
  lemma HealthyWorkerCanMissARetry(h: Digest)
    ensures After(Start([h], 2), [Take(0), Exit(1), Fail(0), Requeue(0)])
          == Some(State([h], [Retired, Exited], [], 0, 1))
  {
    var s := Start([h], 2);
    assert s.workers == [Ready, Ready];
    OneMore(s, [], Take(0), State([], [Holding(h), Ready], [], 0, 0));
    OneMore(s, [Take(0)], Exit(1), State([], [Holding(h), Exited], [], 0, 0));
    OneMore(s, [Take(0), Exit(1)], Fail(0), State([], [Failing(h), Exited], [], 0, 1));
    OneMore(s, [Take(0), Exit(1), Fail(0)], Requeue(0), State([h], [Retired, Exited], [], 0, 1));
    assert [Take(0), Exit(1), Fail(0)] + [Requeue(0)] == [Take(0), Exit(1), Fail(0), Requeue(0)];
  }

  lemma OneMore(s: State, run: seq<Step>, e: Step, t: State)
    requires After(s, run).Some? && Enabled(After(s, run).value, e) && Next(After(s, run).value, e) == t
    ensures After(s, run + [e]) == Some(t)
  {
    assert (run + [e])[..|run|] == run;
  }

  // ----- order

  function InOrder(answered: seq<(Digest, nat)>): seq<Digest> {
    seq(|answered|, i requires 0 <= i < |answered| => answered[i].0)
  }

  function InHand(w: Worker): seq<Digest> {
    if w.Holding? || w.Failing? then [w.h] else []
  }

  /** One worker that meets no error answers the hashes in the order asked for: first in, first out. */
  lemma {:induction false} OneWorkerKeepsOrder(hashes: seq<Digest>, run: seq<Step>)
    requires After(Start(hashes, 1), run).Some? && After(Start(hashes, 1), run).value.errors == 0
    ensures var s := After(Start(hashes, 1), run).value;
            && |s.workers| == 1 && !s.workers[0].Failing? && !s.workers[0].Retired?
            && InOrder(s.answered) + InHand(s.workers[0]) + s.queue == hashes
    decreases |run|
  {
    if run == [] {
      assert InOrder([]) + [] + hashes == hashes;
    } else {
      var t, e := After(Start(hashes, 1), run[..|run| - 1]).value, run[|run| - 1];
      OneWorkerKeepsOrder(hashes, run[..|run| - 1]);
      var s := Next(t, e);
      match e
      case Take(_) => assert t.queue == [t.queue[0]] + s.queue;
      case Answer(_, _) => assert InOrder(s.answered) == InOrder(t.answered) + [t.workers[0].h];
      case _ =>
    }
  }

  // ----- every run ends, and can only end with every worker stopped

  function Left(w: Worker): nat {
    match w
    case Ready => 3
    case Holding(_) => 4
    case Failing(_) => 3
    case _ => 0
  }

  function Measure(s: State): nat {
    2 * |s.queue| + Sum(s.workers, Left)
  }

  lemma {:induction false} RunsAreShort(hashes: seq<Digest>, peers: nat, run: seq<Step>)
    requires After(Start(hashes, peers), run).Some?
    ensures |run| + Measure(After(Start(hashes, peers), run).value) <= 2 * |hashes| + 3 * peers
    decreases |run|
  {
    var s := Start(hashes, peers);
    if run == [] {
      SumOf(s.workers, Left, 3);
    } else {
      var before := run[..|run| - 1];
      RunsAreShort(hashes, peers, before);
      var t, e := After(s, before).value, run[|run| - 1];
      SumUpdate(t.workers, Left, e.w, Next(t, e).workers[e.w]);
    }
  }

  /** While some worker has not stopped, some step can be taken. */
  lemma NoDeadlock(s: State) returns (e: Step)
    requires !Joined(s)
    ensures Enabled(s, e)
  {
    var w :| w in s.workers && !w.Stopped();
    var i: nat :| i < |s.workers| && s.workers[i] == w;
    e := match w
         case Ready => if s.queue == [] then Exit(i) else Take(i)
         case Holding(_) => Answer(i, 0)
         case _ => Requeue(i);
  }
}
