/** `absl::call_once` as a transition system: any number of calls race on one
    control word, and a schedule says which call takes the next atomic step. */
module CallOnce {

  const INIT: nat := 0
  const RUNNING: nat := 0x65C2937B
  const WAITER: nat := 0x05A308D2
  const DONE: nat := 221

  datatype Row = Row(from: nat, to: nat, done: bool)

  /** The transitions `SpinLockWait` may make. */
  const TRANS: seq<Row> := [Row(INIT, RUNNING, true), Row(RUNNING, WAITER, false), Row(DONE, DONE, true)]

  /** Where a call stands. The numbers are the values it has read. */
  datatype PC =
    | FirstLoad              // load of the word in `call_once`
    | DebugLoad              // the debug check of the word
    | FastCas                // the compare-exchange that short-cuts the simplest case
    | SpinRead               // `SpinLockWait`: read the word and look for its row
    | SpinCas(seen: nat)     // `SpinLockWait`: compare-exchange according to that row
    | Invoke                 // about to call the function
    | InFn                   // the function is running
    | LoadOld                // load of the word after the function
    | StoreDone(seen: nat)   // store of `DONE`
    | Wake                   // `SpinLockWake`
    | Fatal                  // the debug check failed
    | Returned

  datatype State = State(control: nat, calls: seq<PC>, starts: nat, finishes: nat)

  function Init(n: nat): State {
    State(INIT, seq(n, _ => FirstLoad), 0, 0)
  }

  /** The first row whose `from` is `v`; `|TRANS|` if there is none. */
  function FindRow(v: nat, k: nat := 0): (r: nat)
    requires k <= |TRANS|
    ensures k <= r <= |TRANS| && (r < |TRANS| ==> TRANS[r].from == v)
    ensures forall j :: k <= j < r ==> TRANS[j].from != v
    decreases |TRANS| - k
  {
    if k == |TRANS| || TRANS[k].from == v then k else FindRow(v, k + 1)
  }

  /** One atomic step of call `i`. Waiting without a matching row, and a call
      that is over, leave everything as it is. */
  function Step(s: State, i: nat): State {
    if i >= |s.calls| then s else
    match s.calls[i]
    case FirstLoad => At(s, i, if s.control == DONE then Returned else DebugLoad)
    case DebugLoad =>
      At(s, i, if s.control in {INIT, RUNNING, WAITER, DONE} then FastCas else Fatal)
    case FastCas =>
      if s.control == INIT then At(s.(control := RUNNING), i, Invoke) else At(s, i, SpinRead)
    case SpinRead => if FindRow(s.control) < |TRANS| then At(s, i, SpinCas(s.control)) else s
    case SpinCas(seen) =>
      if s.control != seen || FindRow(seen) == |TRANS| then At(s, i, SpinRead)
      else
        var row := TRANS[FindRow(seen)];
        At(s.(control := row.to), i, if !row.done then SpinRead else if seen == INIT then Invoke else Returned)
    case Invoke => At(s.(starts := s.starts + 1), i, InFn)
    case InFn => At(s.(finishes := s.finishes + 1), i, LoadOld)
    case LoadOld => At(s, i, StoreDone(s.control))
    case StoreDone(seen) => At(s.(control := DONE), i, if seen == WAITER then Wake else Returned)
    case Wake => At(s, i, Returned)
    case Fatal => s
    case Returned => s
  }

  function At(s: State, i: nat, pc: PC): State
    requires i < |s.calls|
  {
    s.(calls := s.calls[i := pc])
  }

  function Run(s: State, schedule: seq<nat>): State
    decreases |schedule|
  {
    if schedule == [] then s else Run(Step(s, schedule[0]), schedule[1..])
  }

  lemma RowsFound()
    ensures FindRow(INIT) == 0 && FindRow(RUNNING) == 1 && FindRow(DONE) == 2
    ensures forall v: nat :: v != INIT && v != RUNNING && v != DONE ==> FindRow(v) == 3
  {
    forall v: nat | v != INIT && v != RUNNING && v != DONE ensures FindRow(v) == 3 {
      assert FindRow(v, 3) == 3;
      assert FindRow(v, 2) == 3;
      assert FindRow(v, 1) == 3;
    }
    assert FindRow(DONE, 2) == 2;
    assert FindRow(DONE, 1) == 2;
    assert FindRow(RUNNING, 1) == 1;
  }

  // ------------------------------------------------------------------- safety

  /** The call that runs the function, from winning the word to giving it up. */
  predicate Owner(pc: PC) { pc.Invoke? || pc.InFn? || pc.LoadOld? || pc.StoreDone? }

  /** How far the control word still has to go. */
  function Rank(control: nat): nat {
    if control == INIT then 3 else if control == RUNNING then 2 else if control == WAITER then 1 else 0
  }

  /** What holds of a call at `pc` when the word is `control`. */
  predicate CallOk(control: nat, starts: nat, finishes: nat, pc: PC) {
    match pc
    case SpinCas(seen) => seen in {INIT, RUNNING, DONE} && Rank(control) <= Rank(seen)
    case Invoke => control in {RUNNING, WAITER} && starts == 0 && finishes == 0
    case InFn => control in {RUNNING, WAITER} && starts == 1 && finishes == 0
    case LoadOld => control in {RUNNING, WAITER} && starts == 1 && finishes == 1
    case StoreDone(seen) => control in {RUNNING, WAITER} && starts == 1 && finishes == 1
    case Wake => control == DONE
    case Returned => control == DONE
    case Fatal => false
    case _ => true
  }

  ghost predicate Inv(s: State) {
    && s.control in {INIT, RUNNING, WAITER, DONE}
    && (forall i :: 0 <= i < |s.calls| ==> CallOk(s.control, s.starts, s.finishes, s.calls[i]))
    && (forall i, j :: 0 <= i < j < |s.calls| ==> !(Owner(s.calls[i]) && Owner(s.calls[j])))
    && (s.control == INIT ==> s.starts == 0 && s.finishes == 0)
    && (s.control == DONE ==> s.starts == 1 && s.finishes == 1)
    && (s.control in {RUNNING, WAITER} ==> exists i :: 0 <= i < |s.calls| && Owner(s.calls[i]))
  }

  /** The word moves only INIT to RUNNING, RUNNING to WAITER, and either of the
      last two to DONE, where it stays. */
  predicate Moves(before: nat, after: nat) {
    || after == before
    || (before == INIT && after == RUNNING)
    || (before == RUNNING && after == WAITER)
    || (before in {RUNNING, WAITER} && after == DONE)
  }

  lemma StepKeepsInv(s: State, i: nat)
    requires Inv(s)
    ensures Inv(Step(s, i)) && Moves(s.control, Step(s, i).control)
    ensures |Step(s, i).calls| == |s.calls|
  {
    if i < |s.calls| {
      RowsFound();
      StepKeepsOwner(s, i);
      StepKeepsOneOwner(s, i);
      StepKeepsCalls(s, i);
    }
  }

  lemma StepKeepsCalls(s: State, i: nat)
    requires Inv(s) && i < |s.calls|
    ensures var s' := Step(s, i);
      forall j :: 0 <= j < |s.calls| ==> CallOk(s'.control, s'.starts, s'.finishes, s'.calls[j])
  {
    RowsFound();
    var s' := Step(s, i);
    forall j | 0 <= j < |s.calls| ensures CallOk(s'.control, s'.starts, s'.finishes, s'.calls[j]) {
      assert CallOk(s.control, s.starts, s.finishes, s.calls[i]);
      assert CallOk(s.control, s.starts, s.finishes, s.calls[j]);
      assert j != i ==> !(Owner(s.calls[i]) && Owner(s.calls[j]));
    }
  }

  lemma StepKeepsOwner(s: State, i: nat)
    requires Inv(s) && i < |s.calls|
    ensures Step(s, i).control in {RUNNING, WAITER} ==>
      exists o :: 0 <= o < |s.calls| && Owner(Step(s, i).calls[o])
  {
    hide FindRow;
    RowsFound();
    var s' := Step(s, i);
    assert CallOk(s.control, s.starts, s.finishes, s.calls[i]);
    if s'.control in {RUNNING, WAITER} {
      if s.control == INIT {
        assert Owner(s'.calls[i]);
      } else {
        var o :| 0 <= o < |s.calls| && Owner(s.calls[o]);
        assert Owner(s'.calls[o]);
      }
    }
  }

  lemma StepKeepsOneOwner(s: State, i: nat)
    requires Inv(s) && i < |s.calls|
    ensures forall j, k :: 0 <= j < k < |s.calls| ==> !(Owner(Step(s, i).calls[j]) && Owner(Step(s, i).calls[k]))
  {
    hide FindRow;
    NewOwner(s, i);
    var s' := Step(s, i);
    forall j, k | 0 <= j < k < |s.calls| ensures !(Owner(s'.calls[j]) && Owner(s'.calls[k])) {
      assert !(Owner(s.calls[j]) && Owner(s.calls[k]));
    }
  }

  /** A call becomes the owner only when there is none. */
  lemma NewOwner(s: State, i: nat)
    requires Inv(s) && i < |s.calls|
    ensures |Step(s, i).calls| == |s.calls|
    ensures forall j :: 0 <= j < |s.calls| && j != i ==> Step(s, i).calls[j] == s.calls[j]
    ensures Owner(Step(s, i).calls[i]) && !Owner(s.calls[i]) ==> forall j :: 0 <= j < |s.calls| ==> !Owner(s.calls[j])
  {
    hide FindRow;
    RowsFound();
    if Owner(Step(s, i).calls[i]) && !Owner(s.calls[i]) {
      assert CallOk(s.control, s.starts, s.finishes, s.calls[i]);
      forall j | 0 <= j < |s.calls| ensures !Owner(s.calls[j]) {
        assert CallOk(s.control, s.starts, s.finishes, s.calls[j]);
      }
    }
  }

  lemma InitInv(n: nat)
    ensures Inv(Init(n))
  {
  }

  lemma {:induction false} RunKeepsInv(s: State, schedule: seq<nat>)
    requires Inv(s)
    ensures Inv(Run(s, schedule)) && |Run(s, schedule).calls| == |s.calls|
    ensures Rank(Run(s, schedule).control) <= Rank(s.control)
    ensures s.control == DONE ==> Run(s, schedule).control == DONE
    decreases |schedule|
  {
    if schedule != [] {
      StepKeepsInv(s, schedule[0]);
      RunKeepsInv(Step(s, schedule[0]), schedule[1..]);
    }
  }

  /** In every interleaving of any number of calls the function starts at most
      once, it has finished before any call returns (or wakes the others), and
      the debug check never fails. */
  lemma Safety(n: nat, schedule: seq<nat>)
    ensures var s := Run(Init(n), schedule);
      && s.finishes <= s.starts <= 1
      && (forall i :: 0 <= i < |s.calls| && s.calls[i] in {Returned, Wake} ==> s.finishes == 1)
      && Fatal !in s.calls
  {
    InitInv(n);
    RunKeepsInv(Init(n), schedule);
    var s := Run(Init(n), schedule);
    if s.control in {RUNNING, WAITER} {
      var o :| 0 <= o < |s.calls| && Owner(s.calls[o]);
      assert CallOk(s.control, s.starts, s.finishes, s.calls[o]);
    }
    forall i | 0 <= i < |s.calls| ensures s.calls[i] != Fatal && (s.calls[i] in {Returned, Wake} ==> s.finishes == 1) {
      assert CallOk(s.control, s.starts, s.finishes, s.calls[i]);
    }
  }

  // ----------------------------------------------------------------- progress

  /** How many steps a call still needs while the word stays what it is. A
      compare-exchange that will fail is worth more than the read it falls back to. */
  function Position(pc: PC, control: nat): nat {
    match pc
    case FirstLoad => 11
    case DebugLoad => 10
    case FastCas => 9
    case SpinRead => 7
    case SpinCas(seen) => if seen == control then 6 else 8
    case Invoke => 5
    case InFn => 4
    case LoadOld => 3
    case StoreDone(_) => 2
    case Wake => 1
    case Fatal => 0
    case Returned => 0
  }

  function Total(calls: seq<PC>, control: nat): nat {
    if calls == [] then 0 else Position(calls[0], control) + Total(calls[1..], control)
  }

  function Measure(s: State): nat {
    Rank(s.control) * (2 * |s.calls| + 1) + Total(s.calls, s.control)
  }

  lemma {:induction false} TotalUpdate(calls: seq<PC>, i: nat, pc: PC, control: nat)
    requires i < |calls|
    ensures Total(calls[i := pc], control)
         == Total(calls, control) - Position(calls[i], control) + Position(pc, control)
    decreases |calls|
  {
    if i == 0 {
      assert calls[0 := pc][1..] == calls[1..];
    } else {
      assert calls[i := pc][1..] == calls[1..][i - 1 := pc];
      TotalUpdate(calls[1..], i - 1, pc, control);
    }
  }

  /** A change of the word costs each call at most two. */
  lemma {:induction false} TotalControl(calls: seq<PC>, before: nat, after: nat)
    ensures Total(calls, after) <= Total(calls, before) + 2 * |calls|
    decreases |calls|
  {
    if calls != [] { TotalControl(calls[1..], before, after); }
  }

  /** A re-poll of a word that has no row, or a call that is over. */
  predicate Idle(s: State, i: nat)
    requires i < |s.calls|
  {
    s.calls[i] == Returned || (s.calls[i] == SpinRead && s.control == WAITER)
  }

  /** Every step other than an idle one strictly decreases the measure; an idle
      step changes nothing. */
  lemma StepDecreases(s: State, i: nat)
    requires Inv(s) && i < |s.calls|
    ensures Idle(s, i) ==> Step(s, i) == s
    ensures !Idle(s, i) ==> Measure(Step(s, i)) < Measure(s)
  {
    RowsFound();
    StepKeepsInv(s, i);
    var s' := Step(s, i);
    assert CallOk(s.control, s.starts, s.finishes, s.calls[i]);
    if !Idle(s, i) {
      assert s'.calls == s.calls[i := s'.calls[i]];
      TotalUpdate(s.calls, i, s'.calls[i], s.control);
      if s'.control == s.control {
        assert Position(s'.calls[i], s.control) < Position(s.calls[i], s.control);
      } else {
        assert Rank(s'.control) < Rank(s.control);
        TotalControl(s.calls, s.control, s'.control);
        TotalUpdate(s.calls, i, s'.calls[i], s'.control);
        RankPays(s, i);
      }
    }
  }

  lemma RankPays(s: State, i: nat)
    requires Inv(s) && i < |s.calls| && Step(s, i).control != s.control
    requires Total(Step(s, i).calls, Step(s, i).control)
          == Total(s.calls, Step(s, i).control) - Position(s.calls[i], Step(s, i).control)
             + Position(Step(s, i).calls[i], Step(s, i).control)
    requires Total(s.calls, Step(s, i).control) <= Total(s.calls, s.control) + 2 * |s.calls|
    requires Rank(Step(s, i).control) < Rank(s.control)
    ensures Measure(Step(s, i)) < Measure(s)
  {
    RowsFound();
    var s' := Step(s, i);
    assert Position(s'.calls[i], s'.control) <= Position(s.calls[i], s'.control);
    var w := 2 * |s.calls| + 1;
    assert |s'.calls| == |s.calls|;
    assert (Rank(s'.control) + 1) * w <= Rank(s.control) * w;
  }

  predicate Finished(s: State) {
    forall i :: 0 <= i < |s.calls| ==> s.calls[i] == Returned
  }

  /** No deadlock: while a call is unfinished, some call can take a useful step. */
  lemma SomeUsefulStep(s: State) returns (i: nat)
    requires Inv(s) && !Finished(s)
    ensures i < |s.calls| && !Idle(s, i) && Measure(Step(s, i)) < Measure(s)
  {
    if s.control == WAITER {
      i :| 0 <= i < |s.calls| && Owner(s.calls[i]);
    } else {
      i :| 0 <= i < |s.calls| && s.calls[i] != Returned;
    }
    StepDecreases(s, i);
  }

  lemma {:induction false} RunDecreases(s: State, schedule: seq<nat>)
    requires Inv(s)
    ensures Measure(Run(s, schedule)) <= Measure(s)
    decreases |schedule|
  {
    if schedule != [] {
      if schedule[0] < |s.calls| { StepDecreases(s, schedule[0]); }
      StepKeepsInv(s, schedule[0]);
      RunDecreases(Step(s, schedule[0]), schedule[1..]);
    }
  }

  /** A schedule that gives a turn to a call with a useful step makes progress. */
  lemma {:induction false} TurnDecreases(s: State, schedule: seq<nat>, i: nat)
    requires Inv(s) && i in schedule && i < |s.calls| && !Idle(s, i)
    ensures Measure(Run(s, schedule)) < Measure(s)
    decreases |schedule|
  {
    var k := schedule[0];
    StepKeepsInv(s, k);
    if k < |s.calls| && !Idle(s, k) {
      StepDecreases(s, k);
      RunDecreases(Step(s, k), schedule[1..]);
    } else {
      if k < |s.calls| { StepDecreases(s, k); }
      assert Step(s, k) == s;
      TurnDecreases(s, schedule[1..], i);
    }
  }

  /** A round gives every call at least one turn. */
  predicate IsRound(n: nat, round: seq<nat>) { forall i :: 0 <= i < n ==> i in round }

  function RunRounds(s: State, rounds: seq<seq<nat>>): State
    decreases |rounds|
  {
    if rounds == [] then s else RunRounds(Run(s, rounds[0]), rounds[1..])
  }

  lemma {:induction false} RoundsFinish(s: State, rounds: seq<seq<nat>>)
    requires Inv(s) && forall r :: r in rounds ==> IsRound(|s.calls|, r)
    requires |rounds| >= Measure(s)
    ensures Inv(RunRounds(s, rounds)) && Finished(RunRounds(s, rounds))
    ensures |RunRounds(s, rounds).calls| == |s.calls|
    decreases |rounds|
  {
    if rounds == [] {
      if !Finished(s) { var i := SomeUsefulStep(s); }
    } else {
      assert IsRound(|s.calls|, rounds[0]);
      RunKeepsInv(s, rounds[0]);
      if Finished(s) {
        FinishedStays(s, rounds);
      } else {
        var i := SomeUsefulStep(s);
        TurnDecreases(s, rounds[0], i);
        RoundsFinish(Run(s, rounds[0]), rounds[1..]);
      }
    }
  }

  lemma {:induction false} FinishedStays(s: State, rounds: seq<seq<nat>>)
    requires Inv(s) && Finished(s)
    ensures RunRounds(s, rounds) == s
    decreases |rounds|
  {
    if rounds != [] {
      FinishedStill(s, rounds[0]);
      FinishedStays(s, rounds[1..]);
    }
  }

  lemma {:induction false} FinishedStill(s: State, schedule: seq<nat>)
    requires Finished(s)
    ensures Run(s, schedule) == s
    decreases |schedule|
  {
    if schedule != [] {
      assert Step(s, schedule[0]) == s;
      FinishedStill(s, schedule[1..]);
    }
  }

  lemma {:induction false} InitTotal(n: nat)
    ensures Total(Init(n).calls, INIT) == 11 * n
  {
    if n > 0 {
      assert Init(n).calls[1..] == Init(n - 1).calls;
      InitTotal(n - 1);
    }
  }

  /** Under any fair schedule every call returns, within `17 * n + 3` rounds, and
      the function has then run exactly once. */
  lemma FairSchedulesFinish(n: nat, rounds: seq<seq<nat>>)
    requires n > 0 && |rounds| >= 17 * n + 3
    requires forall r :: r in rounds ==> IsRound(n, r)
    ensures var s := RunRounds(Init(n), rounds);
      Finished(s) && |s.calls| == n && s.control == DONE && s.starts == 1 && s.finishes == 1
  {
    InitInv(n);
    InitTotal(n);
    RoundsFinish(Init(n), rounds);
    var s := RunRounds(Init(n), rounds);
    assert CallOk(s.control, s.starts, s.finishes, s.calls[0]);
  }

  // ---------------------------------------------------------------- fast paths

  /** A call that begins when the function has run returns at its first step and
      changes nothing else. */
  lemma DoneReturnsAtOnce(s: State, i: nat)
    requires i < |s.calls| && s.calls[i] == FirstLoad && s.control == DONE
    ensures Step(s, i) == s.(calls := s.calls[i := Returned])
  {
  }

  /** A call that runs undisturbed from the beginning takes seven steps: it wins
      the word without ever waiting, runs the function and wakes nobody. */
  lemma UndisturbedCall(s: State, i: nat)
    requires i < |s.calls| && s.calls[i] == FirstLoad && s.control == INIT
    ensures Run(s, [i, i, i]) == State(RUNNING, s.calls[i := Invoke], s.starts, s.finishes)
    ensures Run(s, [i, i, i, i, i, i, i]) == State(DONE, s.calls[i := Returned], s.starts + 1, s.finishes + 1)
  {
    var won := State(RUNNING, s.calls[i := Invoke], s.starts, s.finishes);
    var ran := State(RUNNING, s.calls[i := StoreDone(RUNNING)], s.starts + 1, s.finishes + 1);
    assert s.calls[i := DebugLoad][i := FastCas][i := Invoke] == won.calls;
    assert Step(Step(Step(s, i), i), i) == won;
    assert won.calls[i := InFn][i := LoadOld][i := StoreDone(RUNNING)] == ran.calls;
    assert Step(Step(Step(won, i), i), i) == ran;
    assert ran.calls[i := Returned] == s.calls[i := Returned];
    ThreeSteps(s, i, []);
    ThreeSteps(s, i, [i, i, i, i]);
    ThreeSteps(won, i, [i]);
    OneStep(ran, i, []);
    assert [i, i, i] + [] == [i, i, i] && [i] + [] == [i] && [i, i, i] + [i] == [i, i, i, i];
    assert [i, i, i] + [i, i, i, i] == [i, i, i, i, i, i, i];
  }

  lemma OneStep(s: State, i: nat, rest: seq<nat>)
    ensures Run(s, [i] + rest) == Run(Step(s, i), rest)
  {
    assert ([i] + rest)[1..] == rest;
  }

  lemma ThreeSteps(s: State, i: nat, rest: seq<nat>)
    ensures Run(s, [i, i, i] + rest) == Run(Step(Step(Step(s, i), i), i), rest)
  {
    hide Step;
    OneStep(s, i, [i] + ([i] + rest));
    OneStep(Step(s, i), i, [i] + rest);
    OneStep(Step(Step(s, i), i), i, rest);
    assert [i, i, i] + rest == [i] + ([i] + ([i] + rest));
  }

  /** The debug check fails exactly for a word that is none of the four. */
  lemma DebugCheckFails(s: State, i: nat)
    requires i < |s.calls| && s.calls[i] == DebugLoad
    ensures Step(s, i).calls[i] == Fatal
       <==> s.control != INIT && s.control != RUNNING && s.control != WAITER && s.control != DONE
  {
  }

  // ------------------------------------------------------------------ wake-ups

  /** Other calls do not move call `i`. */
  lemma {:induction false} OthersRun(s: State, schedule: seq<nat>, i: nat)
    requires i < |s.calls| && i !in schedule
    ensures |Run(s, schedule).calls| == |s.calls| && Run(s, schedule).calls[i] == s.calls[i]
    decreases |schedule|
  {
    if schedule != [] { OthersRun(Step(s, schedule[0]), schedule[1..], i); }
  }

  /** The runner wakes the waiters exactly when one had registered before it
      loaded the word, whatever the others do between its load and its store. */
  lemma WakesIffRegistered(s: State, i: nat, between: seq<nat>)
    requires i < |s.calls| && s.calls[i] == LoadOld && i !in between
    ensures var stored := Step(Run(Step(s, i), between), i);
      |stored.calls| == |s.calls| && stored.control == DONE
      && (stored.calls[i] == Wake <==> s.control == WAITER)
  {
    OthersRun(Step(s, i), between, i);
  }

  /** A waiter that registers between the load and the store is not woken; it
      finishes by polling again. */
  lemma WaiterCanMissTheWake()
    ensures var registered := Run(Run(Init(2), [0, 0, 0, 0, 0, 0]), [1, 1, 1, 1, 1]);
      && registered == State(WAITER, [StoreDone(RUNNING), SpinRead], 1, 1)
      && Step(registered, 0) == State(DONE, [Returned, SpinRead], 1, 1)
  {
    RunnerReachesStore();
    WaiterRegisters();
  }

  lemma RunnerReachesStore()
    ensures Run(Init(2), [0, 0, 0, 0, 0, 0]) == State(RUNNING, [StoreDone(RUNNING), FirstLoad], 1, 1)
  {
    var s2 := Step(Step(Init(2), 0), 0);
    var s4 := Step(Step(s2, 0), 0);
    var s6 := Step(Step(s4, 0), 0);
    assert s6 == State(RUNNING, [StoreDone(RUNNING), FirstLoad], 1, 1);
  }

  lemma WaiterRegisters()
    ensures Run(State(RUNNING, [StoreDone(RUNNING), FirstLoad], 1, 1), [1, 1, 1, 1, 1])
         == State(WAITER, [StoreDone(RUNNING), SpinRead], 1, 1)
  {
    RowsFound();
    var s2 := Step(Step(State(RUNNING, [StoreDone(RUNNING), FirstLoad], 1, 1), 1), 1);
    var s4 := Step(Step(s2, 1), 1);
    var s5 := Step(s4, 1);
    assert s5 == State(WAITER, [StoreDone(RUNNING), SpinRead], 1, 1);
  }
}
