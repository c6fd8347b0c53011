/**
 The learned ceiling under concurrent callers. A caller reads the atomic, asks the
 helper, and on "not found" swaps its own height in; other callers act in between.
 */
module CeilingRace {
  import opened Routing

  /** `Asked` remembers how many swaps there had been when the caller read the ceiling. */
  datatype Caller = Idle | Asked(height: nat, swapsSeen: nat)

  datatype State = State(ceiling: nat, callers: map<nat, Caller>, swaps: seq<nat>)

  datatype Move =
    | Start(caller: nat, height: nat) // the load and the test against it
    | Answer(caller: nat, notFound: bool) // the helper's reply and the swap it may cause

  /** The heights of ours that the helper has; it reports none of those unknown. */
  type Holdings = nat -> bool

  const INITIAL := State(USIZE_MAX, map[], [])

  predicate IsIdle(st: State, c: nat) {
    c !in st.callers || st.callers[c].Idle?
  }

  /** A helper may fail to supply what it holds, but it does not say it was never there. */
  predicate Enabled(holds: Holdings, st: State, m: Move) {
    match m
    case Start(c, _) => IsIdle(st, c)
    case Answer(c, notFound) => !IsIdle(st, c) && (notFound ==> !holds(st.callers[c].height))
  }

  function Step(st: State, m: Move): State
    requires m.Answer? ==> !IsIdle(st, m.caller)
  {
    match m
    case Start(c, height) =>
      if height >= st.ceiling then st else st.(callers := st.callers[c := Asked(height, |st.swaps|)])
    case Answer(c, notFound) =>
      var height := st.callers[c].height;
      var rest := st.(callers := st.callers[c := Idle]);
      if notFound then rest.(ceiling := height, swaps := st.swaps + [height]) else rest
  }

  predicate IsRun(holds: Holdings, run: seq<Move>)
    decreases |run|, 0
  {
    if run == [] then true
    else IsRun(holds, run[..|run| - 1]) && Enabled(holds, After(holds, run[..|run| - 1]), run[|run| - 1])
  }

  function After(holds: Holdings, run: seq<Move>): State
    requires IsRun(holds, run)
    decreases |run|, 1
  {
    if run == [] then INITIAL else Step(After(holds, run[..|run| - 1]), run[|run| - 1])
  }

  /** The ceiling is where it started or the last height swapped in; a caller that saw every swap is still below it. */
  ghost predicate Inv(st: State) {
    && st.ceiling == (if st.swaps == [] then USIZE_MAX else st.swaps[|st.swaps| - 1])
    && (forall i :: 0 <= i < |st.swaps| ==> st.swaps[i] < USIZE_MAX)
    && forall c :: !IsIdle(st, c) ==>
         && st.callers[c].height < USIZE_MAX && st.callers[c].swapsSeen <= |st.swaps|
         && (st.callers[c].swapsSeen == |st.swaps| ==> st.callers[c].height < st.ceiling)
         && (st.callers[c].swapsSeen > 0 ==> st.callers[c].height < st.swaps[st.callers[c].swapsSeen - 1])
  }

  lemma StepKeepsInv(st: State, m: Move)
    requires Inv(st) && (if m.Answer? then !IsIdle(st, m.caller) else IsIdle(st, m.caller))
    ensures Inv(Step(st, m))
  {
    var st' := Step(st, m);
    forall c | !IsIdle(st', c)
      ensures st'.callers[c].height < USIZE_MAX && st'.callers[c].swapsSeen <= |st'.swaps|
      ensures st'.callers[c].swapsSeen == |st'.swaps| ==> st'.callers[c].height < st'.ceiling
      ensures st'.callers[c].swapsSeen > 0 ==> st'.callers[c].height < st'.swaps[st'.callers[c].swapsSeen - 1]
    {
      if c != m.caller {
        assert !IsIdle(st, c);
      }
    }
  }

  lemma {:induction false} InvHolds(holds: Holdings, run: seq<Move>)
    requires IsRun(holds, run)
    ensures Inv(After(holds, run))
  {
    hide Inv, Step;
    if run == [] {
      InitialInv();
    } else {
      InvHolds(holds, run[..|run| - 1]);
      StepKeepsInv(After(holds, run[..|run| - 1]), run[|run| - 1]);
    }
  }

  lemma InitialInv()
    ensures Inv(INITIAL)
  {
  }

  /** Only heights the helper does not hold are ever swapped in. */
  lemma {:induction false} SwapsAreNotHeld(holds: Holdings, run: seq<Move>, i: nat)
    requires IsRun(holds, run) && i < |After(holds, run).swaps|
    ensures !holds(After(holds, run).swaps[i])
  {
    if run == [] {
    } else {
      var before := After(holds, run[..|run| - 1]);
      if i < |before.swaps| {
        SwapsAreNotHeld(holds, run[..|run| - 1], i);
      }
    }
  }

  /**
   In every interleaving: if the helper holds everything below the split, the ceiling
   never drops below it, so a request below it is always offered.
   */
  lemma BelowSplitIsAlwaysOffered(holds: Holdings, run: seq<Move>, split: nat, c: nat, height: nat)
    requires split <= USIZE_MAX && forall h: nat :: h < split ==> holds(h)
    requires IsRun(holds, run) && IsIdle(After(holds, run), c) && height < split
    ensures var st := After(holds, run);
            && st.ceiling >= split
            && Step(st, Start(c, height)).callers == st.callers[c := Asked(height, |st.swaps|)]
  {
    InvHolds(holds, run);
    var st := After(holds, run);
    if st.swaps != [] {
      SwapsAreNotHeld(holds, run, |st.swaps| - 1);
    }
  }

  /** The ceiling can rise, even over a helper that holds everything below 50: a slow caller's swap lands last. */
  lemma CeilingCanRise()
    ensures var holds: Holdings := h => h < 50;
            var run := [Start(0, 100), Start(1, 50), Answer(1, true)];
            && IsRun(holds, run) && After(holds, run).ceiling == 50
            && IsRun(holds, run + [Answer(0, true)]) && After(holds, run + [Answer(0, true)]).ceiling == 100
  {
    var holds: Holdings := h => h < 50;
    assert IsRun(holds, []) && After(holds, []) == INITIAL;
    OneMore(holds, [], Start(0, 100), State(USIZE_MAX, map[0 := Asked(100, 0)], []));
    OneMore(holds, [Start(0, 100)], Start(1, 50), State(USIZE_MAX, map[0 := Asked(100, 0), 1 := Asked(50, 0)], []));
    var run := [Start(0, 100), Start(1, 50)];
    assert [Start(0, 100)] + [Start(1, 50)] == run;
    OneMore(holds, run, Answer(1, true), State(50, map[0 := Asked(100, 0), 1 := Idle], [50]));
    assert run + [Answer(1, true)] == [Start(0, 100), Start(1, 50), Answer(1, true)];
    OneMore(holds, run + [Answer(1, true)], Answer(0, true), State(100, map[0 := Idle, 1 := Idle], [50, 100]));
  }

  lemma OneMore(holds: Holdings, run: seq<Move>, m: Move, st: State)
    requires IsRun(holds, run) && Enabled(holds, After(holds, run), m) && Step(After(holds, run), m) == st
    ensures IsRun(holds, run + [m]) && After(holds, run + [m]) == st
  {
    assert (run + [m])[..|run|] == run;
  }

  /** A swap raises the ceiling exactly when the latest one came after its caller read it, and is below its height. */
  lemma RisesExactly(holds: Holdings, run: seq<Move>, c: nat)
    requires IsRun(holds, run) && !IsIdle(After(holds, run), c)
    ensures var st := After(holds, run);
            var caller := st.callers[c];
            && (Step(st, Answer(c, true)).ceiling > st.ceiling
                <==> caller.swapsSeen < |st.swaps| && st.swaps[|st.swaps| - 1] < caller.height)
            && (Step(st, Answer(c, true)).ceiling >= st.ceiling ==> caller.swapsSeen < |st.swaps|)
  {
    InvHolds(holds, run);
  }

  /** Even then it stays below the ceiling the caller itself had read. */
  lemma RiseStaysBelowWhatWasRead(holds: Holdings, run: seq<Move>, c: nat)
    requires IsRun(holds, run) && !IsIdle(After(holds, run), c)
    ensures var st := After(holds, run);
            var caller := st.callers[c];
            && caller.swapsSeen <= |st.swaps|
            && Step(st, Answer(c, true)).ceiling
               < if caller.swapsSeen == 0 then USIZE_MAX else st.swaps[caller.swapsSeen - 1]
  {
    InvHolds(holds, run);
  }
}
