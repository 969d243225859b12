/** src/Barrier.c as a system of threads stepping through Barrier_wait: one mutex, one condition variable,
    the counters `arrived` and `gone`. Each step is one statement of the C function; a schedule is any
    sequence of threads that can move.

    The code waits once, without re-checking a predicate. So this model assumes that a thread blocked in
    pthread_cond_wait moves on only after a broadcast; `SpuriousWakeupBreaks` shows what happens otherwise
    (IEEE Std 1003.1 lets pthread_cond_wait return without one). */
module Barrier {
  import opened Wrappers

  type Thread = nat

  /** Where a thread stands; `g` is the round (the use of the barrier) it counts for. */
  datatype Pc =
    | Outside
    | Locked                        // holds the mutex, has not counted itself yet
    | Counted(g: nat)               // ++arrived done
    | GoneSet(g: nat)               // last arriver: gone = 1 done, callback run
    | Announced(g: nat)             // last arriver: broadcast done
    | Waiting(g: nat)               // blocked in pthread_cond_wait, mutex given up
    | Woken(g: nat)                 // wants the mutex back
    | Relocked(g: nat)              // back from pthread_cond_wait
    | Incremented(g: nat)           // Atomic_inc(gone) done
    | Leaving(g: nat, result: bool) // about to unlock and return

  /** The record of one round: who arrived, in order; who has returned false; who has returned true. */
  datatype Round = Round(roster: seq<Thread>, left: set<Thread>, leader: Option<Thread>)

  datatype State = State(
    required: nat,
    arrived: nat,
    gone: nat,
    holder: Option<Thread>,
    pc: map<Thread, Pc>,
    rounds: seq<Round>)

  predicate Critical(p: Pc) {
    !p.Outside? && !p.Waiting? && !p.Woken?
  }

  /** The round a thread is inside the barrier for. */
  function RoundOf(p: Pc): Option<nat> {
    match p
    case Outside => None
    case Locked => None
    case _ => Some(p.g)
  }

  function In(s: State, g: nat): set<Thread> {
    set t | t in s.pc && RoundOf(s.pc[t]) == Some(g)
  }

  const NO_ONE_YET := Round([], {}, None)

  function Init(required: nat, threads: set<Thread>): State {
    State(required, 0, 0, None, map t | t in threads :: Outside, [NO_ONE_YET])
  }

  // ---------------------------------------------------------------------------
  // Steps
  // ---------------------------------------------------------------------------

  /** Taking the mutex needs it free; waiting needs a broadcast by someone else; all else goes ahead. */
  predicate Enabled(s: State, t: Thread) {
    && t in s.pc
    && match s.pc[t]
       case Outside => s.holder == None
       case Woken(_) => s.holder == None
       case Waiting(_) => false
       case _ => true
  }

  function Broadcast(pc: map<Thread, Pc>): map<Thread, Pc> {
    map t | t in pc :: if pc[t].Waiting? then Woken(pc[t].g) else pc[t]
  }

  function Step(s: State, t: Thread): State
    requires Enabled(s, t) && 0 < |s.rounds|
  {
    var cur := |s.rounds| - 1;
    match s.pc[t]
    case Outside => s.(holder := Some(t), pc := s.pc[t := Locked])
    case Locked =>
      var r := s.rounds[cur];
      s.(arrived := s.arrived + 1, pc := s.pc[t := Counted(cur)],
         rounds := s.rounds[cur := r.(roster := r.roster + [t])])
    case Counted(g) =>
      if s.arrived >= s.required then s.(gone := 1, pc := s.pc[t := GoneSet(g)])
      else s.(holder := None, pc := s.pc[t := Waiting(g)])
    case GoneSet(g) => s.(pc := Broadcast(s.pc)[t := Announced(g)])
    case Announced(g) => s.(arrived := 0, pc := s.pc[t := Leaving(g, true)], rounds := s.rounds + [NO_ONE_YET])
    case Woken(g) => s.(holder := Some(t), pc := s.pc[t := Relocked(g)])
    case Relocked(g) => s.(gone := s.gone + 1, pc := s.pc[t := Incremented(g)])
    case Incremented(g) =>
      s.(gone := if s.gone == s.arrived then 0 else s.gone, pc := s.pc[t := Leaving(g, false)])
    case Leaving(g, result) =>
      var s' := s.(holder := None, pc := s.pc[t := Outside]);
      if g < |s.rounds| then s'.(rounds := s.rounds[g := Return(s.rounds[g], t, result)]) else s'
  }

  function Return(r: Round, t: Thread, result: bool): Round {
    if result then r.(leader := Some(t)) else r.(left := r.left + {t})
  }

  /** What Barrier_isEmpty answers. It reads `gone` without taking the mutex, and again if it was not zero; the
      threads may have gone on in between. */
  predicate Answer(first: State, second: State) {
    first.gone == 0 || second.gone >= second.required
  }

  /** The answer when both reads find the same. */
  predicate IsEmpty(s: State) {
    Answer(s, s)
  }

  predicate Runs(s: State, schedule: seq<Thread>)
    requires 0 < |s.rounds|
    decreases |schedule|
  {
    schedule == [] || (Enabled(s, schedule[0]) && Runs(Step(s, schedule[0]), schedule[1..]))
  }

  function After(s: State, schedule: seq<Thread>): (r: State)
    requires 0 < |s.rounds| && Runs(s, schedule)
    ensures 0 < |r.rounds|
    decreases |schedule|
  {
    if schedule == [] then s else After(Step(s, schedule[0]), schedule[1..])
  }

  // ---------------------------------------------------------------------------
  // The invariant
  // ---------------------------------------------------------------------------

  predicate Distinct(r: seq<Thread>) {
    forall i, j | 0 <= i < j < |r| :: r[i] != r[j]
  }

  function SetOf(r: seq<Thread>): set<Thread> {
    set t | t in r
  }

  function Lead(r: Round): set<Thread> {
    if r.leader.Some? then {r.leader.value} else {}
  }

  ghost predicate MutexHeld(s: State) {
    && (forall t | t in s.pc :: Critical(s.pc[t]) <==> s.holder == Some(t))
    && (s.holder.Some? ==> s.holder.value in s.pc)
  }

  predicate LastIs(r: seq<Thread>, t: Thread) {
    0 < |r| && r[|r| - 1] == t
  }

  /** The mutex is held by the last arriver of the current round, between the broadcast and the reset. */
  ghost predicate Announcing(s: State) {
    s.holder.Some? && s.holder.value in s.pc && s.pc[s.holder.value].Announced?
  }

  /** The mutex is held by a thread that has just counted itself. */
  ghost predicate Counting(s: State) {
    s.holder.Some? && s.holder.value in s.pc &&
    var p := s.pc[s.holder.value];
    p.Counted? || p.GoneSet? || p.Announced?
  }

  /** What each place in the code says about the round the thread is there for. */
  ghost predicate Placed(s: State, t: Thread)
    requires 0 < |s.rounds| && t in s.pc
  {
    var cur := |s.rounds| - 1;
    match s.pc[t]
    case Outside => true
    case Locked => true
    case Counted(g) => g == cur && LastIs(s.rounds[g].roster, t)
    case GoneSet(g) => g == cur && s.arrived == s.required && LastIs(s.rounds[g].roster, t)
    case Announced(g) => g == cur && s.arrived == s.required && LastIs(s.rounds[g].roster, t)
    case Waiting(g) => g == cur && !Announcing(s)
    case Woken(g) => (g < cur || (g == cur && Announcing(s))) && !LastIs(s.rounds[g].roster, t)
    case Relocked(g) => g < cur && !LastIs(s.rounds[g].roster, t)
    case Incremented(g) => g < cur && !LastIs(s.rounds[g].roster, t)
    case Leaving(g, result) => g < cur && (result <==> LastIs(s.rounds[g].roster, t))
  }

  /** The arrivals of round g are those still inside for it, those that returned false, and the leader. */
  ghost predicate Accounted(s: State, g: nat)
    requires g < |s.rounds|
  {
    var r := s.rounds[g];
    && Distinct(r.roster)
    && SetOf(r.roster) == In(s, g) + r.left + Lead(r)
    && In(s, g) !! r.left && In(s, g) !! Lead(r)
    && (forall t | t in r.left :: !LastIs(r.roster, t))
    && (forall t | t in Lead(r) :: LastIs(r.roster, t))
    && if g == |s.rounds| - 1 then r.left == {} && r.leader == None else |r.roster| == s.required
  }

  ghost predicate Invariant(s: State) {
    && 0 < s.required && 0 < |s.rounds|
    && MutexHeld(s)
    && s.arrived == |s.rounds[|s.rounds| - 1].roster|
    && (if Counting(s) then s.arrived <= s.required else s.arrived < s.required)
    && (forall t | t in s.pc :: Placed(s, t))
    && (forall g | 0 <= g < |s.rounds| :: Accounted(s, g))
  }

  lemma InitInvariant(required: nat, threads: set<Thread>)
    requires 0 < required
    ensures Invariant(Init(required, threads))
  {
    var s := Init(required, threads);
    assert In(s, 0) == {};
  }

  /** Arriving: the roster of the current round grows by a thread that was not on it. */
  lemma CountInvariant(s: State, t: Thread)
    requires Invariant(s) && t in s.pc && s.pc[t].Locked?
    ensures Invariant(Step(s, t))
  {
    var s' := Step(s, t);
    var cur := |s.rounds| - 1;
    var r := s.rounds[cur].roster;
    assert In(s', cur) == In(s, cur) + {t};
    forall g | g != cur ensures In(s', g) == In(s, g) {
    }
    assert Accounted(s, cur);
    assert t !in In(s, cur);
    assert t !in SetOf(r);
    assert SetOf(r + [t]) == SetOf(r) + {t};
    assert Distinct(r + [t]);
    forall g | 0 <= g < |s.rounds| ensures Accounted(s', g) {
      assert Accounted(s, g);
    }
  }

  /** Returning: the thread moves from the inside of its round to the round's record. */
  lemma LeaveInvariant(s: State, t: Thread)
    requires Invariant(s) && t in s.pc && s.pc[t].Leaving?
    ensures Invariant(Step(s, t))
  {
    var s' := Step(s, t);
    var h := s.pc[t].g;
    assert In(s', h) == In(s, h) - {t};
    forall g | g != h ensures In(s', g) == In(s, g) {
    }
    forall g | 0 <= g < |s.rounds| ensures Accounted(s', g) {
      assert Accounted(s, g);
    }
  }

  /** Resetting the barrier: the current round is complete, and a new one starts with nobody in it. */
  lemma ResetInvariant(s: State, t: Thread)
    requires Invariant(s) && t in s.pc && s.pc[t].Announced?
    ensures Invariant(Step(s, t))
  {
    var s' := Step(s, t);
    var cur := |s.rounds| - 1;
    assert Placed(s, t);
    forall g | 0 <= g <= cur ensures Accounted(s', g) {
      assert Accounted(s, g);
      assert In(s', g) == In(s, g);
    }
    forall u | u in s.pc ensures Placed(s', u) && RoundOf(s'.pc[u]) != Some(cur + 1) {
      assert Placed(s, u);
    }
    assert In(s', cur + 1) == {};
    assert Accounted(s', cur + 1);
  }

  predicate Quiet(p: Pc) {
    !p.Locked? && !p.Leaving? && !p.Announced?
  }

  lemma QuietAccounted(s: State, t: Thread, g: nat)
    requires Enabled(s, t) && Quiet(s.pc[t]) && g < |s.rounds| && Accounted(s, g)
    ensures Accounted(Step(s, t), g)
  {
    assert In(Step(s, t), g) == In(s, g);
  }

  lemma QuietPlaced(s: State, t: Thread, u: Thread)
    requires Invariant(s) && Enabled(s, t) && Quiet(s.pc[t]) && u in s.pc
    ensures Placed(Step(s, t), u)
  {
    hide Accounted;
    assert Placed(s, t) && Placed(s, u);
  }

  /** All other steps leave the rounds' records and memberships alone. */
  lemma QuietInvariant(s: State, t: Thread)
    requires Invariant(s) && Enabled(s, t) && Quiet(s.pc[t])
    ensures Invariant(Step(s, t))
  {
    hide Accounted;
    var s' := Step(s, t);
    forall g | 0 <= g < |s.rounds| ensures Accounted(s', g) {
      QuietAccounted(s, t, g);
    }
    forall u | u in s.pc ensures Placed(s', u) {
      QuietPlaced(s, t, u);
    }
    assert Placed(s, t);
    assert MutexHeld(s');
    assert if Counting(s') then s'.arrived <= s'.required else s'.arrived < s'.required;
  }

  /** Every step keeps the invariant. */
  lemma StepInvariant(s: State, t: Thread)
    requires Invariant(s) && Enabled(s, t)
    ensures Invariant(Step(s, t))
  {
    if s.pc[t].Locked? {
      CountInvariant(s, t);
    } else if s.pc[t].Leaving? {
      LeaveInvariant(s, t);
    } else if s.pc[t].Announced? {
      ResetInvariant(s, t);
    } else {
      QuietInvariant(s, t);
    }
  }

  lemma {:induction false} RunInvariant(s: State, schedule: seq<Thread>)
    requires Invariant(s) && Runs(s, schedule)
    ensures Invariant(After(s, schedule))
    decreases |schedule|
  {
    if schedule != [] {
      StepInvariant(s, schedule[0]);
      RunInvariant(Step(s, schedule[0]), schedule[1..]);
    }
  }

  lemma {:induction false} ReachableInvariant(required: nat, threads: set<Thread>, schedule: seq<Thread>)
    requires 0 < required && Runs(Init(required, threads), schedule)
    ensures Invariant(After(Init(required, threads), schedule))
  {
    InitInvariant(required, threads);
    RunInvariant(Init(required, threads), schedule);
  }

  // ---------------------------------------------------------------------------
  // What the invariant means
  // ---------------------------------------------------------------------------

  lemma {:induction false} DistinctSize(r: seq<Thread>)
    requires Distinct(r)
    ensures |SetOf(r)| == |r|
  {
    if r != [] {
      DistinctSize(r[1..]);
      assert SetOf(r) == {r[0]} + SetOf(r[1..]);
    }
  }

  /** t is on its way out of round g, or has returned from it. */
  ghost predicate PastTheWait(s: State, g: nat, t: Thread)
    requires g < |s.rounds|
  {
    || t in s.rounds[g].left
    || s.rounds[g].leader == Some(t)
    || (t in s.pc && s.pc[t] in {Relocked(g), Incremented(g), Leaving(g, false), Leaving(g, true)})
  }

  /** Nobody gets past the barrier before `required` different threads have arrived for the same round. */
  lemma NobodyPassesEarly(s: State, g: nat, t: Thread)
    requires Invariant(s) && g < |s.rounds| && PastTheWait(s, g, t)
    ensures |s.rounds[g].roster| == s.required == |SetOf(s.rounds[g].roster)| && t in s.rounds[g].roster
  {
    assert Accounted(s, g);
    assert t in s.pc ==> Placed(s, t);
    assert RoundOf(Relocked(g)) == RoundOf(Incremented(g)) == Some(g);
    assert t in In(s, g) || t in s.rounds[g].left || t in Lead(s.rounds[g]);
    assert t in SetOf(s.rounds[g].roster);
    DistinctSize(s.rounds[g].roster);
  }

  lemma RoundSizes(s: State, g: nat)
    requires g < |s.rounds| && Accounted(s, g)
    ensures |s.rounds[g].left| + |Lead(s.rounds[g])| + |In(s, g)| == |s.rounds[g].roster|
  {
    var r := s.rounds[g];
    DistinctSize(r.roster);
    ThreeParts(In(s, g), r.left, Lead(r));
  }

  lemma RoundLeader(s: State, g: nat)
    requires g < |s.rounds| && Accounted(s, g) && s.rounds[g].roster != []
    ensures var r := s.rounds[g];
            var n := |r.roster| - 1;
            && (r.leader.Some? ==> r.leader.value == r.roster[n])
            && r.left <= SetOf(r.roster[..n])
            && (In(s, g) == {} ==> r.leader == Some(r.roster[n]))
  {
    var r := s.rounds[g];
    var n := |r.roster| - 1;
    assert r.leader.Some? ==> r.leader.value in Lead(r);
    assert r.roster[n] in SetOf(r.roster) && LastIs(r.roster, r.roster[n]);
    forall t | t in r.left ensures t in SetOf(r.roster[..n]) {
      assert t in SetOf(r.roster);
      var i :| 0 <= i < |r.roster| && r.roster[i] == t;
      assert r.roster[..n][i] == t;
    }
  }

  /** The returns of a released round: none is true but the last arriver's, every other is false, and the
      threads still inside make up the difference. Once nobody is inside, exactly one true and
      required - 1 false have been returned. */
  lemma ReturnsOfRound(s: State, g: nat)
    requires Invariant(s) && g < |s.rounds| - 1
    ensures var r := s.rounds[g];
            && |r.roster| == s.required
            && |r.left| + |Lead(r)| + |In(s, g)| == s.required
            && (r.leader.Some? ==> r.leader.value == r.roster[s.required - 1])
            && r.left <= SetOf(r.roster[..s.required - 1])
            && (In(s, g) == {} ==> r.leader == Some(r.roster[s.required - 1]) && |r.left| == s.required - 1)
  {
    assert Accounted(s, g);
    assert |s.rounds[g].roster| == s.required && 0 < s.required;
    hide Accounted, Invariant, SetOf, In, Distinct;
    RoundSizes(s, g);
    RoundLeader(s, g);
  }

  lemma ThreeParts<T>(a: set<T>, b: set<T>, c: set<T>)
    requires a !! b && a !! c && b !! c
    ensures |a + b + c| == |b| + |c| + |a|
  {
  }

  function WaitingNow(s: State): set<Thread> {
    set t | t in s.pc && s.pc[t].Waiting?
  }

  /** Whenever the mutex is free, `arrived` counts the blocked threads, and they are too few for a release. */
  lemma ArrivedCountsWaiting(s: State)
    requires Invariant(s) && s.holder == None
    ensures s.arrived == |WaitingNow(s)| < s.required
  {
    var cur := |s.rounds| - 1;
    assert Accounted(s, cur);
    forall t | t in s.pc ensures t in In(s, cur) <==> t in WaitingNow(s) {
      assert Placed(s, t);
    }
    assert In(s, cur) == WaitingNow(s);
    DistinctSize(s.rounds[cur].roster);
  }

  /** All arrivals so far. */
  function Arrivals(rounds: seq<Round>): nat {
    if rounds == [] then 0 else |rounds[0].roster| + Arrivals(rounds[1..])
  }

  lemma {:induction false} ArrivalsOfFullRounds(rounds: seq<Round>, required: nat)
    requires rounds != [] && forall g | 0 <= g < |rounds| - 1 :: |rounds[g].roster| == required
    ensures Arrivals(rounds) == required * (|rounds| - 1) + |rounds[|rounds| - 1].roster|
  {
    if |rounds| > 1 {
      ArrivalsOfFullRounds(rounds[1..], required);
      assert required * (|rounds| - 1) == required * (|rounds| - 2) + required;
    } else {
      assert Arrivals(rounds[1..]) == 0;
    }
  }

  /** Conservation: with the mutex free, every arrival belongs to a released round or is waiting. */
  lemma ArrivalsConserved(s: State)
    requires Invariant(s) && s.holder == None
    ensures Arrivals(s.rounds) == s.required * (|s.rounds| - 1) + |WaitingNow(s)|
  {
    forall g | 0 <= g < |s.rounds| - 1 ensures |s.rounds[g].roster| == s.required {
      assert Accounted(s, g);
    }
    ArrivalsOfFullRounds(s.rounds, s.required);
    ArrivedCountsWaiting(s);
  }

  /** All of it for every run from the initial state, whatever the threads and the schedule: nobody passes
      early, a released round has one leader's true and the others' false for all who are out of it, and with
      the mutex free the counts are conserved. */
  lemma EveryRun(required: nat, threads: set<Thread>, schedule: seq<Thread>)
    requires 0 < required && Runs(Init(required, threads), schedule)
    ensures var s := After(Init(required, threads), schedule);
            && s.required == required
            && (forall g, t | 0 <= g < |s.rounds| && PastTheWait(s, g, t) :: |SetOf(s.rounds[g].roster)| == required)
            && (forall g | 0 <= g < |s.rounds| - 1 ::
                 && |s.rounds[g].left| + |Lead(s.rounds[g])| + |In(s, g)| == required
                 && (In(s, g) == {} ==> s.rounds[g].leader.Some? && |s.rounds[g].left| == required - 1))
            && (s.holder == None ==>
                 && s.arrived == |WaitingNow(s)| < required
                 && Arrivals(s.rounds) == required * (|s.rounds| - 1) + |WaitingNow(s)|)
  {
    hide Invariant, PastTheWait, SetOf, Lead, In, WaitingNow, Arrivals;
    ReachableInvariant(required, threads, schedule);
    RequiredKept(Init(required, threads), schedule);
    var s := After(Init(required, threads), schedule);
    forall g, t | 0 <= g < |s.rounds| && PastTheWait(s, g, t) ensures |SetOf(s.rounds[g].roster)| == required {
      NobodyPassesEarly(s, g, t);
    }
    forall g | 0 <= g < |s.rounds| - 1
      ensures |s.rounds[g].left| + |Lead(s.rounds[g])| + |In(s, g)| == required
      ensures In(s, g) == {} ==> s.rounds[g].leader.Some? && |s.rounds[g].left| == required - 1
    {
      ReturnsOfRound(s, g);
    }
    if s.holder == None {
      ArrivedCountsWaiting(s);
      ArrivalsConserved(s);
    }
  }

  lemma {:induction false} RequiredKept(s: State, schedule: seq<Thread>)
    requires s.rounds != [] && Runs(s, schedule)
    ensures After(s, schedule).required == s.required
    decreases |schedule|
  {
    if schedule != [] {
      RequiredKept(Step(s, schedule[0]), schedule[1..]);
    }
  }

  // ---------------------------------------------------------------------------
  // Progress
  // ---------------------------------------------------------------------------

  /** Without a new call nothing can move. */
  ghost predicate Stuck(s: State) {
    forall t | t in s.pc && Enabled(s, t) :: s.pc[t].Outside?
  }

  /** Whoever holds the mutex can go on. */
  lemma HolderMoves(s: State)
    requires MutexHeld(s)
    ensures s.holder.Some? ==> s.holder.value in s.pc && Enabled(s, s.holder.value) && !s.pc[s.holder.value].Outside?
  {
    if s.holder.Some? {
      assert Critical(s.pc[s.holder.value]);
    }
  }

  /** No wake-up is lost: the barrier comes to rest only with the threads of an incomplete round blocked. */
  lemma RestsOnlyIncomplete(s: State)
    requires Invariant(s) && Stuck(s)
    ensures s.holder == None
    ensures forall t | t in s.pc :: s.pc[t].Outside? || s.pc[t] == Waiting(|s.rounds| - 1)
    ensures |WaitingNow(s)| < s.required
  {
    HolderMoves(s);
    forall t | t in s.pc ensures s.pc[t].Outside? || s.pc[t] == Waiting(|s.rounds| - 1) {
      assert Placed(s, t);
    }
    ArrivedCountsWaiting(s);
  }

  /** How many statements a thread has ahead of it at most, waiting included. */
  function Ahead(p: Pc): nat {
    match p
    case Outside => 0
    case Leaving(_, _) => 1
    case Incremented(_) => 2
    case Announced(_) => 2
    case Relocked(_) => 3
    case GoneSet(_) => 3
    case Woken(_) => 4
    case Waiting(_) => 5
    case Counted(_) => 6
    case Locked => 7
  }

  function Work(ts: seq<Thread>, pc: map<Thread, Pc>): nat {
    if ts == [] then 0 else (if ts[0] in pc then Ahead(pc[ts[0]]) else 0) + Work(ts[1..], pc)
  }

  lemma {:induction false} WorkShrinks(ts: seq<Thread>, pc: map<Thread, Pc>, pc': map<Thread, Pc>, t: Thread)
    requires pc.Keys == pc'.Keys && forall u | u in pc :: Ahead(pc'[u]) <= Ahead(pc[u])
    ensures Work(ts, pc') <= Work(ts, pc)
    ensures t in ts && t in pc && Ahead(pc'[t]) < Ahead(pc[t]) ==> Work(ts, pc') < Work(ts, pc)
  {
    if ts != [] {
      WorkShrinks(ts[1..], pc, pc', t);
      assert t in ts ==> t == ts[0] || t in ts[1..];
    }
  }

  /** A schedule in which nobody calls Barrier_wait anew. */
  predicate NoNewCalls(s: State, schedule: seq<Thread>)
    requires 0 < |s.rounds| && Runs(s, schedule)
    decreases |schedule|
  {
    schedule == [] || (!s.pc[schedule[0]].Outside? && NoNewCalls(Step(s, schedule[0]), schedule[1..]))
  }

  /** A step brings its thread on its way out, and nobody else further back. */
  lemma StepAhead(s: State, t: Thread)
    requires 0 < |s.rounds| && Enabled(s, t) && !s.pc[t].Outside?
    ensures Step(s, t).pc.Keys == s.pc.Keys && Ahead(Step(s, t).pc[t]) < Ahead(s.pc[t])
    ensures forall u | u in s.pc :: Ahead(Step(s, t).pc[u]) <= Ahead(s.pc[u])
  {
  }

  /** Without new calls the threads inside take a bounded number of steps, in whatever order they are scheduled;
      by RestsOnlyIncomplete every released thread has then returned. */
  lemma {:induction false} CallsComplete(s: State, ts: seq<Thread>, schedule: seq<Thread>)
    requires Invariant(s) && SetOf(ts) == s.pc.Keys
    requires Runs(s, schedule) && NoNewCalls(s, schedule)
    ensures |schedule| <= Work(ts, s.pc)
    decreases |schedule|
  {
    if schedule != [] {
      var t := schedule[0];
      var s' := Step(s, t);
      StepInvariant(s, t);
      StepAhead(s, t);
      assert t in SetOf(ts);
      hide Invariant, Step, Ahead;
      WorkShrinks(ts, s.pc, s'.pc, t);
      CallsComplete(s', ts, schedule[1..]);
    }
  }

  // ---------------------------------------------------------------------------
  // Barrier_isEmpty
  // ---------------------------------------------------------------------------

  /** Released threads that have not added themselves to `gone` yet. */
  function ToLeave(s: State): set<Thread> {
    set t | t in s.pc && (s.pc[t].Woken? || s.pc[t].Relocked?)
  }

  ghost predicate Releasing(s: State) {
    s.holder.Some? && s.holder.value in s.pc && s.pc[s.holder.value].GoneSet?
  }

  /** t is about to count itself while a thread of an earlier round is still to leave. */
  predicate Overlaps(s: State, t: Thread) {
    t in s.pc && s.pc[t].Locked? && ToLeave(s) != {}
  }

  /** A schedule whose rounds do not overlap. */
  predicate Separated(s: State, schedule: seq<Thread>)
    requires 0 < |s.rounds| && Runs(s, schedule)
    decreases |schedule|
  {
    schedule == [] || (!Overlaps(s, schedule[0]) && Separated(Step(s, schedule[0]), schedule[1..]))
  }

  /** Between releases `gone` tells how many of the last round's threads are still to leave. */
  ghost predicate Tally(s: State) {
    if Releasing(s) then s.gone == 1 && ToLeave(s) == {}
    else if Announcing(s) then s.gone == 1 && |ToLeave(s)| == s.required - 1
    else if |s.rounds| == 1 then s.gone == 0 && ToLeave(s) == {}
    else |ToLeave(s)| < s.required && s.gone == s.required - |ToLeave(s)|
  }

  /** The same where rounds do not overlap: who counts itself finds nobody still to leave. */
  ghost predicate GoneCounts(s: State) {
    && Tally(s)
    && (0 < s.arrived && !Announcing(s) ==>
          ToLeave(s) == {} && forall t | t in s.pc :: !s.pc[t].Incremented?)
  }

  /** The broadcast lets go exactly the other required - 1 arrivals of the round. */
  lemma BroadcastReleases(s: State, t: Thread)
    requires Invariant(s) && ToLeave(s) == {} && t in s.pc && s.pc[t].GoneSet?
    ensures |ToLeave(Step(s, t))| == s.required - 1
  {
    var cur := |s.rounds| - 1;
    assert Accounted(s, cur) && Placed(s, t);
    DistinctSize(s.rounds[cur].roster);
    hide Accounted, Distinct, SetOf;
    var out := ToLeave(Step(s, t));
    forall u | u in s.pc ensures u in In(s, cur) <==> u == t || u in out {
      assert Placed(s, u);
      assert u !in ToLeave(s);
    }
    hide ToLeave;
    assert In(s, cur) == {t} + out && t !in out;
  }

  /** Only the broadcast and Atomic_inc change who is still to leave. */
  lemma LeaversChange(s: State, t: Thread)
    requires 0 < |s.rounds| && Enabled(s, t)
    ensures s.pc[t].Relocked? ==> t in ToLeave(s) && ToLeave(Step(s, t)) == ToLeave(s) - {t}
    ensures !s.pc[t].Relocked? && !s.pc[t].GoneSet? ==> ToLeave(Step(s, t)) == ToLeave(s)
  {
  }

  lemma GoneStep(s: State, t: Thread)
    requires Invariant(s) && GoneCounts(s) && Enabled(s, t) && !Overlaps(s, t)
    ensures GoneCounts(Step(s, t))
  {
    LeaversChange(s, t);
    assert Placed(s, t);
    hide Accounted, Placed, ToLeave;
    match s.pc[t]
    case GoneSet(_) => BroadcastReleases(s, t);
    case Locked => CountAlone(s, t);
    case Outside =>
    case Counted(_) =>
    case Announced(_) =>
    case Woken(_) => assert t in ToLeave(s) by { WokenLeaves(s, t); }
    case Relocked(_) =>
    case Incremented(_) =>
    case Leaving(_, _) =>
  }

  lemma WokenLeaves(s: State, t: Thread)
    requires t in s.pc && s.pc[t].Woken?
    ensures t in ToLeave(s)
  {
  }

  /** A thread that counts itself holds the mutex, so nobody else is in the middle of leaving. */
  lemma CountAlone(s: State, t: Thread)
    requires MutexHeld(s) && 0 < |s.rounds| && t in s.pc && s.pc[t].Locked?
    ensures forall u | u in Step(s, t).pc :: !Step(s, t).pc[u].Incremented?
  {
    forall u | u in s.pc ensures Critical(s.pc[u]) ==> u == t {
    }
  }

  lemma {:induction false} GoneRun(s: State, schedule: seq<Thread>)
    requires Invariant(s) && GoneCounts(s) && Runs(s, schedule) && Separated(s, schedule)
    ensures Invariant(After(s, schedule)) && GoneCounts(After(s, schedule))
    decreases |schedule|
  {
    assert 0 < |s.rounds|;
    hide Invariant, GoneCounts;
    if schedule != [] {
      StepInvariant(s, schedule[0]);
      GoneStep(s, schedule[0]);
      GoneRun(Step(s, schedule[0]), schedule[1..]);
    }
  }

  /** Threads of a released round that are still to pass: those about to be woken, and those woken. */
  function StillToLeave(s: State): set<Thread> {
    set t, h | t in s.pc && h in s.pc &&
      (s.pc[t].Woken? || s.pc[t].Relocked? || (s.pc[t].Waiting? && s.pc[h].GoneSet?)) :: t
  }

  predicate EmptyIsRight(s: State) {
    IsEmpty(s) <==> StillToLeave(s) == {}
  }

  /** The answer is right for one of the two moments at which `gone` was read. */
  predicate AnswerIsRight(first: State, second: State) {
    || (Answer(first, second) <==> StillToLeave(first) == {})
    || (Answer(first, second) <==> StillToLeave(second) == {})
  }

  /** `gone` is zero before the first release only. */
  lemma GoneStays(s: State, t: Thread)
    requires Invariant(s) && Tally(s) && Enabled(s, t) && Tally(Step(s, t)) && s.gone != 0
    ensures Step(s, t).gone != 0
  {
    assert Placed(s, t);
    hide Accounted, ToLeave;
  }

  lemma RightAtOneRead(first: State, second: State)
    requires Invariant(first) && Tally(first) && Invariant(second) && Tally(second)
    requires first.gone != 0 ==> second.gone != 0
    ensures AnswerIsRight(first, second)
  {
    hide Invariant, Tally, StillToLeave;
    EmptyWhenTallied(first);
    EmptyWhenTallied(second);
  }

  lemma EmptyWhenTallied(s: State)
    requires Invariant(s) && Tally(s)
    ensures EmptyIsRight(s)
  {
    if Releasing(s) {
      var h := s.holder.value;
      BroadcastReleases(s, h);
      assert ToLeave(Step(s, h)) == StillToLeave(s);
    } else {
      assert forall h | h in s.pc :: !s.pc[h].GoneSet?;
      assert ToLeave(s) == StillToLeave(s);
    }
  }

  lemma {:induction false} GoneStaysSeparated(s: State, schedule: seq<Thread>)
    requires Invariant(s) && GoneCounts(s) && Runs(s, schedule) && Separated(s, schedule) && s.gone != 0
    ensures After(s, schedule).gone != 0
    decreases |schedule|
  {
    assert 0 < |s.rounds|;
    if schedule != [] {
      StepInvariant(s, schedule[0]);
      GoneStep(s, schedule[0]);
      GoneStays(s, schedule[0]);
      hide Invariant, Tally;
      GoneStaysSeparated(Step(s, schedule[0]), schedule[1..]);
    }
  }

  /** As long as rounds do not overlap, isEmpty says exactly whether every released thread has left, when it
      reads `gone` for the first or for the second time. */
  lemma IsEmptySeparated(required: nat, threads: set<Thread>, schedule: seq<Thread>, more: seq<Thread>)
    requires 0 < required && Runs(Init(required, threads), schedule) && Separated(Init(required, threads), schedule)
    requires var s := After(Init(required, threads), schedule); Runs(s, more) && Separated(s, more)
    ensures var s := After(Init(required, threads), schedule);
            EmptyIsRight(s) && AnswerIsRight(s, After(s, more))
  {
    var s0 := Init(required, threads);
    InitInvariant(required, threads);
    GoneRun(s0, schedule);
    hide Invariant, Tally, Separated, Runs, After;
    var s := After(s0, schedule);
    EmptyWhenTallied(s);
    GoneRun(s, more);
    if s.gone != 0 {
      GoneStaysSeparated(s, more);
    }
    RightAtOneRead(s, After(s, more));
  }

  // ---------------------------------------------------------------------------
  // Which barriers isEmpty is right for, however rounds overlap
  // ---------------------------------------------------------------------------

  /** What the barrier is made for and how many threads use it. */
  predicate Fits(required: nat, users: nat) {
    required == 1 || users <= required
  }

  lemma SubsetSize<T>(a: set<T>, b: set<T>)
    requires a <= b
    ensures |a| <= |b|
  {
    assert b == a + (b - a);
  }

  /** Those counted for the current round and those still to leave the one before are different threads. */
  lemma CountedAndLeaving(s: State)
    requires Invariant(s) && !Announcing(s)
    ensures var here := In(s, |s.rounds| - 1);
            |here| == s.arrived && here !! ToLeave(s) && here <= s.pc.Keys && ToLeave(s) <= s.pc.Keys
    ensures forall t | t in s.pc && s.pc[t].Incremented? :: t !in In(s, |s.rounds| - 1) && t !in ToLeave(s)
  {
    var cur := |s.rounds| - 1;
    assert Accounted(s, cur);
    DistinctSize(s.rounds[cur].roster);
    assert In(s, cur) == SetOf(s.rounds[cur].roster);
    forall t | t in s.pc ensures s.pc[t].Woken? || s.pc[t].Relocked? || s.pc[t].Incremented? ==> t !in In(s, cur) {
      assert Placed(s, t);
    }
  }

  /** Nobody is still to leave when a round is complete: all threads are counted for it. */
  lemma CompleteRound(s: State)
    requires Invariant(s) && Tally(s) && !Announcing(s) && !Releasing(s) && Fits(s.required, |s.pc.Keys|)
    requires s.arrived == s.required
    ensures ToLeave(s) == {}
  {
    var here, out := In(s, |s.rounds| - 1), ToLeave(s);
    CountedAndLeaving(s);
    hide Invariant, ToLeave, In;
    SubsetSize(here + out, s.pc.Keys);
    assert |here + out| == |here| + |out|;
  }

  /** The compare-and-set never finds `gone` equal to `arrived`. */
  lemma NeverReset(s: State, t: Thread)
    requires Invariant(s) && Tally(s) && t in s.pc && s.pc[t].Incremented? && Fits(s.required, |s.pc.Keys|)
    ensures s.gone != s.arrived
  {
    assert Placed(s, t) && s.holder == Some(t) && !Counting(s);
    var here, out := In(s, |s.rounds| - 1), ToLeave(s);
    CountedAndLeaving(s);
    assert s.gone == s.required - |out| && s.arrived < s.required;
    hide Invariant, ToLeave, In, Tally;
    SubsetSize(here + out + {t}, s.pc.Keys);
    assert |here + out + {t}| == |here| + |out| + 1;
  }

  /** On the way to a release `gone` is set to one, and the others are let go. */
  lemma TallyArriving(s: State, t: Thread)
    requires Invariant(s) && Tally(s) && Enabled(s, t) && Fits(s.required, |s.pc.Keys|)
    requires s.pc[t].Counted? || s.pc[t].GoneSet? || s.pc[t].Announced?
    ensures Tally(Step(s, t))
  {
    LeaversChange(s, t);
    assert Placed(s, t);
    hide Accounted, Placed, ToLeave;
    match s.pc[t]
    case GoneSet(_) => BroadcastReleases(s, t);
    case Counted(_) =>
      if s.arrived >= s.required {
        CompleteRound(s);
      }
    case Announced(_) =>
  }

  /** On the way out each thread adds one to `gone`. */
  lemma TallyLeaving(s: State, t: Thread)
    requires Invariant(s) && Tally(s) && Enabled(s, t) && Fits(s.required, |s.pc.Keys|)
    requires !s.pc[t].Counted? && !s.pc[t].GoneSet? && !s.pc[t].Announced?
    ensures Tally(Step(s, t))
  {
    LeaversChange(s, t);
    assert Placed(s, t);
    hide Accounted, Placed, ToLeave;
    match s.pc[t]
    case Incremented(_) => NeverReset(s, t);
    case Woken(_) => assert t in ToLeave(s) by { WokenLeaves(s, t); }
    case Locked =>
    case Outside =>
    case Relocked(_) =>
    case Leaving(_, _) =>
  }

  lemma TallyStep(s: State, t: Thread)
    requires Invariant(s) && Tally(s) && Enabled(s, t) && Fits(s.required, |s.pc.Keys|)
    ensures Tally(Step(s, t)) && Step(s, t).pc.Keys == s.pc.Keys && Step(s, t).required == s.required
  {
    hide Invariant, Tally;
    if s.pc[t].Counted? || s.pc[t].GoneSet? || s.pc[t].Announced? {
      TallyArriving(s, t);
    } else {
      TallyLeaving(s, t);
    }
  }

  lemma {:induction false} TallyRun(s: State, schedule: seq<Thread>)
    requires Invariant(s) && Tally(s) && Runs(s, schedule) && Fits(s.required, |s.pc.Keys|)
    ensures var s' := After(s, schedule);
            Invariant(s') && Tally(s') && s'.pc.Keys == s.pc.Keys && s'.required == s.required
    decreases |schedule|
  {
    assert 0 < |s.rounds|;
    hide Invariant, Tally;
    if schedule != [] {
      StepInvariant(s, schedule[0]);
      TallyStep(s, schedule[0]);
      TallyRun(Step(s, schedule[0]), schedule[1..]);
    }
  }

  lemma {:induction false} GoneStaysFits(s: State, schedule: seq<Thread>)
    requires Invariant(s) && Tally(s) && Runs(s, schedule) && Fits(s.required, |s.pc.Keys|) && s.gone != 0
    ensures After(s, schedule).gone != 0
    decreases |schedule|
  {
    assert 0 < |s.rounds|;
    hide Invariant, Tally;
    if schedule != [] {
      StepInvariant(s, schedule[0]);
      TallyStep(s, schedule[0]);
      GoneStays(s, schedule[0]);
      GoneStaysFits(Step(s, schedule[0]), schedule[1..]);
    }
  }

  lemma RightIfFits(required: nat, threads: set<Thread>, schedule: seq<Thread>, more: seq<Thread>)
    requires 0 < required && Fits(required, |threads|) && Runs(Init(required, threads), schedule)
    requires Runs(After(Init(required, threads), schedule), more)
    ensures var s := After(Init(required, threads), schedule);
            EmptyIsRight(s) && AnswerIsRight(s, After(s, more))
  {
    var s0 := Init(required, threads);
    InitInvariant(required, threads);
    assert s0.pc.Keys == threads;
    TallyRun(s0, schedule);
    hide Invariant, Tally, Runs, After;
    var s := After(s0, schedule);
    EmptyWhenTallied(s);
    TallyRun(s, more);
    if s.gone != 0 {
      GoneStaysFits(s, more);
    }
    RightAtOneRead(s, After(s, more));
  }

  // ---------------------------------------------------------------------------
  // What the two restrictions are for
  // ---------------------------------------------------------------------------

  /** One more step at the end of a run. */
  lemma {:induction false} RunOn(s: State, schedule: seq<Thread>, t: Thread)
    requires 0 < |s.rounds| && Runs(s, schedule) && Enabled(After(s, schedule), t)
    ensures Runs(s, schedule + [t]) && After(s, schedule + [t]) == Step(After(s, schedule), t)
    decreases |schedule|
  {
    if schedule == [] {
      assert [t][1..] == [];
    } else {
      RunOn(Step(s, schedule[0]), schedule[1..], t);
      assert (schedule + [t])[1..] == schedule[1..] + [t];
    }
  }

  /** Three steps: t calls, counts itself, and blocks. */
  lemma ArriveAndBlock(s0: State, run: seq<Thread>, t: Thread) returns (run': seq<Thread>)
    requires 0 < |s0.rounds| && Runs(s0, run)
    requires var s := After(s0, run);
             t in s.pc && s.pc[t] == Outside && s.holder == None && s.arrived + 1 < s.required
    ensures Runs(s0, run')
    ensures var s := After(s0, run);
            var cur := |s.rounds| - 1;
            After(s0, run') == s.(arrived := s.arrived + 1, pc := s.pc[t := Waiting(cur)],
                                  rounds := s.rounds[cur := s.rounds[cur].(roster := s.rounds[cur].roster + [t])])
  {
    var s := After(s0, run);
    hide Runs, After;
    RunOn(s0, run, t);
    RunOn(s0, run + [t], t);
    RunOn(s0, run + [t] + [t], t);
    run' := run + [t] + [t] + [t];
    var cur := |s.rounds| - 1;
    assert s.pc[t := Locked][t := Counted(cur)][t := Waiting(cur)] == s.pc[t := Waiting(cur)];
    assert After(s0, run') == s.(arrived := s.arrived + 1, pc := s.pc[t := Waiting(cur)],
                                 rounds := s.rounds[cur := s.rounds[cur].(roster := s.rounds[cur].roster + [t])]);
  }

  /** Six steps: t calls as the last arriver, releases the round, and returns. */
  lemma ArriveAndRelease(s0: State, run: seq<Thread>, t: Thread) returns (run': seq<Thread>)
    requires 0 < |s0.rounds| && Runs(s0, run)
    requires var s := After(s0, run);
             t in s.pc && s.pc[t] == Outside && s.holder == None && s.arrived + 1 == s.required
    ensures Runs(s0, run')
    ensures var s, s' := After(s0, run), After(s0, run');
            && s'.required == s.required && s'.arrived == 0 && s'.gone == 1 && s'.holder == None
            && s'.pc == Broadcast(s.pc) && |s'.rounds| == |s.rounds| + 1
  {
    var s := After(s0, run);
    hide Runs, After;
    RunOn(s0, run, t);
    var r1 := run + [t];
    RunOn(s0, r1, t);
    var r2 := r1 + [t];
    RunOn(s0, r2, t);
    var r3 := r2 + [t];
    RunOn(s0, r3, t);
    var r4 := r3 + [t];
    RunOn(s0, r4, t);
    var r5 := r4 + [t];
    RunOn(s0, r5, t);
    run' := r5 + [t];
    assert After(s0, run').pc == Broadcast(s.pc);
  }

  /** One thread after the other calls and blocks. */
  lemma {:induction false} AllBlock(s0: State, run: seq<Thread>, ts: seq<Thread>) returns (run': seq<Thread>)
    requires 0 < |s0.rounds| && Runs(s0, run) && Distinct(ts)
    requires var s := After(s0, run);
             && s.holder == None && s.arrived + |ts| < s.required
             && forall i | 0 <= i < |ts| :: ts[i] in s.pc && s.pc[ts[i]] == Outside
    ensures Runs(s0, run')
    ensures var s, s' := After(s0, run), After(s0, run');
            && s'.holder == None && s'.gone == s.gone && s'.required == s.required && |s'.rounds| == |s.rounds|
            && s'.arrived == s.arrived + |ts| && s'.pc.Keys == s.pc.Keys
            && forall u | u in s.pc :: s'.pc[u] == if u in ts then Waiting(|s.rounds| - 1) else s.pc[u]
    decreases |ts|
  {
    hide Runs, After;
    run' := run;
    if ts != [] {
      var s := After(s0, run);
      var next := ArriveAndBlock(s0, run, ts[0]);
      var rest := ts[1..];
      assert Distinct(rest) && forall i | 0 <= i < |rest| :: rest[i] == ts[i + 1] != ts[0];
      run' := AllBlock(s0, next, rest);
      assert forall u :: u in ts <==> u == ts[0] || u in rest;
    }
  }

  lemma {:induction false} Users(threads: set<Thread>, n: nat) returns (ts: seq<Thread>)
    requires n <= |threads|
    ensures |ts| == n && Distinct(ts) && forall i | 0 <= i < n :: ts[i] in threads
    decreases n
  {
    ts := [];
    if 0 < n {
      var t :| t in threads;
      var rest := Users(threads - {t}, n - 1);
      ts := [t] + rest;
      assert Distinct(ts);
    }
  }

  predicate Fooled(s: State) {
    IsEmpty(s) && StillToLeave(s) != {}
  }

  lemma FooledBy(s: State, t: Thread)
    requires IsEmpty(s) && t in s.pc && s.pc[t].Woken?
    ensures Fooled(s)
  {
    assert s.pc[t].Woken? && t in StillToLeave(s);
  }

  /** Two steps: a woken thread takes the mutex again and counts itself as gone. */
  lemma WakeAndCount(s0: State, run: seq<Thread>, t: Thread) returns (run': seq<Thread>)
    requires 0 < |s0.rounds| && Runs(s0, run)
    requires var s := After(s0, run); t in s.pc && s.pc[t].Woken? && s.holder == None
    ensures Runs(s0, run')
    ensures var s := After(s0, run);
            After(s0, run') == s.(holder := Some(t), gone := s.gone + 1, pc := s.pc[t := Incremented(s.pc[t].g)])
  {
    var s := After(s0, run);
    hide Runs, After;
    RunOn(s0, run, t);
    RunOn(s0, run + [t], t);
    run' := run + [t] + [t];
    var g := s.pc[t].g;
    assert s.pc[t := Relocked(g)][t := Incremented(g)] == s.pc[t := Incremented(g)];
  }

  /** Two others complete the next round while a is still to leave the first one; a then brings the new count
      of leavers to required. */
  lemma FooledPair(s0: State, a: Thread, b: Thread, c: Thread) returns (run: seq<Thread>)
    requires s0.rounds == [NO_ONE_YET] && s0.required == 2 && s0.arrived == 0 && s0.holder == None
    requires a != b && a != c && b != c && forall t <- [a, b, c] :: t in s0.pc && s0.pc[t] == Outside
    ensures Runs(s0, run) && Fooled(After(s0, run))
  {
    assert forall t <- [a, b, c] :: t in s0.pc;
    assert a in [a, b, c] && b in [a, b, c] && c in [a, b, c];
    assert Runs(s0, []) && After(s0, []) == s0;
    hide Runs, After, Fooled;
    run := ArriveAndBlock(s0, [], a);
    run := ArriveAndRelease(s0, run, b);
    run := ArriveAndBlock(s0, run, c);
    run := ArriveAndRelease(s0, run, b);
    var s := After(s0, run);
    assert s.pc[a] == Woken(0) && s.pc[c] == Woken(1);
    run := WakeAndCount(s0, run, a);
    FooledBy(After(s0, run), c);
  }

  /** A whole round is released, and nobody has left it. */
  lemma ReleasedCrowd(s0: State, first: seq<Thread>, last: Thread) returns (run: seq<Thread>)
    requires s0.rounds == [NO_ONE_YET] && s0.arrived == 0 && s0.holder == None
    requires |first| + 1 == s0.required && Distinct(first) && last !in first && last in s0.pc && s0.pc[last] == Outside
    requires forall i | 0 <= i < |first| :: first[i] in s0.pc && s0.pc[first[i]] == Outside
    ensures Runs(s0, run)
    ensures var s := After(s0, run);
            && s.holder == None && s.gone == 1 && s.arrived == 0 && s.required == s0.required && s.pc.Keys == s0.pc.Keys
            && forall t | t in s0.pc && s0.pc[t] == Outside :: s.pc[t] == if t in first then Woken(0) else Outside
  {
    assert Runs(s0, []) && After(s0, []) == s0;
    hide Runs, After;
    run := AllBlock(s0, [], first);
    run := ArriveAndRelease(s0, run, last);
  }

  /** Two more arrive while the first round's threads are still to leave; the first of these to leave brings
      the count of leavers to two, which the compare-and-set takes for the size of the round. */
  lemma FooledCrowd(s0: State, first: seq<Thread>, last: Thread, late: Thread) returns (run: seq<Thread>)
    requires s0.rounds == [NO_ONE_YET] && s0.arrived == 0 && s0.holder == None
    requires 2 <= |first| && |first| + 1 == s0.required && Distinct(first) && last !in first && late !in first && last != late
    requires forall i | 0 <= i < |first| :: first[i] in s0.pc && s0.pc[first[i]] == Outside
    requires last in s0.pc && late in s0.pc && s0.pc[last] == s0.pc[late] == Outside
    ensures Runs(s0, run) && Fooled(After(s0, run))
  {
    var a, b := first[0], first[1];
    assert a in first && b in first && a != b;
    hide Runs, After, Fooled, Distinct;
    run := ReleasedCrowd(s0, first, last);
    run := ArriveAndBlock(s0, run, last);
    run := ArriveAndBlock(s0, run, late);
    run := WakeAndCount(s0, run, a);
    RunOn(s0, run, a);
    run := run + [a];
    FooledBy(After(s0, run), b);
  }

  /** A barrier for more than one thread that more than required threads use: some schedule makes isEmpty say
      yes while a released thread is still to leave. */
  lemma OverlapFoolsIsEmpty(required: nat, threads: set<Thread>)
    requires 0 < required && !Fits(required, |threads|)
    ensures exists schedule | Runs(Init(required, threads), schedule) ::
              Fooled(After(Init(required, threads), schedule))
  {
    var s0 := Init(required, threads);
    var ts := Users(threads, required + 1);
    hide Runs, After, Fooled;
    var run;
    if required == 2 {
      run := FooledPair(s0, ts[0], ts[1], ts[2]);
    } else {
      var n := required - 1;
      assert forall i | 0 <= i < n :: ts[..n][i] == ts[i];
      assert Distinct(ts[..n]);
      run := FooledCrowd(s0, ts[..n], ts[n], ts[n + 1]);
    }
  }

  /** isEmpty is right in every run, at one of its two reads, if and only if the barrier is for a single thread or
      no more than required threads use it; and the same goes for two reads that find the same. */
  lemma IsEmptyExact(required: nat, threads: set<Thread>)
    requires 0 < required
    ensures (forall schedule, more | Runs(Init(required, threads), schedule) && Runs(After(Init(required, threads), schedule), more) ::
               AnswerIsRight(After(Init(required, threads), schedule), After(After(Init(required, threads), schedule), more)))
        <==> required == 1 || |threads| <= required
    ensures (forall schedule | Runs(Init(required, threads), schedule) ::
               EmptyIsRight(After(Init(required, threads), schedule)))
        <==> required == 1 || |threads| <= required
  {
    var s0 := Init(required, threads);
    NoSteps();
    hide Runs, After;
    if Fits(required, |threads|) {
      forall schedule, more | Runs(s0, schedule) && Runs(After(s0, schedule), more)
        ensures EmptyIsRight(After(s0, schedule)) && AnswerIsRight(After(s0, schedule), After(After(s0, schedule), more))
      {
        RightIfFits(required, threads, schedule, more);
      }
      forall schedule | Runs(s0, schedule) ensures EmptyIsRight(After(s0, schedule)) {
        RightIfFits(required, threads, schedule, []);
      }
    } else {
      OverlapFoolsIsEmpty(required, threads);
      var schedule :| Runs(s0, schedule) && Fooled(After(s0, schedule));
      assert Runs(After(s0, schedule), []) && !AnswerIsRight(After(s0, schedule), After(After(s0, schedule), []));
    }
  }

  lemma NoSteps()
    ensures forall s: State | 0 < |s.rounds| :: Runs(s, []) && After(s, []) == s
  {
  }

  /** pthread_cond_wait returning without a broadcast. */
  function SpuriousStep(s: State, t: Thread): State
    requires t in s.pc && s.pc[t].Waiting?
  {
    s.(pc := s.pc[t := Woken(s.pc[t].g)])
  }

  /** A woken thread takes four steps to return. */
  lemma WokenReturns(u: State, t: Thread)
    requires 0 < |u.rounds| && t in u.pc && u.holder == None
    requires u.pc[t].Woken? && u.pc[t].g < |u.rounds|
    ensures Runs(u, [t, t, t, t])
    ensures var u', g := After(u, [t, t, t, t]), u.pc[t].g;
            u'.rounds == u.rounds[g := Return(u.rounds[g], t, false)] && u'.pc == u.pc[t := Outside]
  {
    assert Runs(u, []) && After(u, []) == u;
    hide Runs, After;
    RunOn(u, [], t);
    RunOn(u, [] + [t], t);
    RunOn(u, [] + [t] + [t], t);
    RunOn(u, [] + [t] + [t] + [t], t);
    assert [] + [t] + [t] + [t] + [t] == [t, t, t, t];
  }

  /** One spurious wake-up lets any waiting thread through: four steps later it has returned from a round in
      which fewer than required threads have arrived. */
  lemma SpuriousWakeupBreaks(s: State, t: Thread)
    requires Invariant(s) && s.holder == None && t in s.pc && s.pc[t].Waiting?
    ensures Runs(SpuriousStep(s, t), [t, t, t, t])
    ensures var s' := After(SpuriousStep(s, t), [t, t, t, t]);
            && |s'.rounds| == |s.rounds| && t in s'.pc && s'.pc[t] == Outside
            && var r := s'.rounds[|s.rounds| - 1];
               t in r.roster && t in r.left && |r.roster| < s'.required
  {
    var cur := |s.rounds| - 1;
    assert Placed(s, t) && Accounted(s, cur);
    assert t in In(s, cur) && t in SetOf(s.rounds[cur].roster);
    hide Invariant, Accounted, Runs, After;
    WokenReturns(SpuriousStep(s, t), t);
    RequiredKept(SpuriousStep(s, t), [t, t, t, t]);
  }

  /** So a barrier for two or more can be passed by a single thread that nobody has joined. */
  lemma PassedAlone(required: nat, threads: set<Thread>, t: Thread)
    requires 2 <= required && t in threads
    ensures exists schedule | Runs(Init(required, threads), schedule) ::
              var s := After(Init(required, threads), schedule);
              && t in s.pc && s.pc[t].Waiting? && Runs(SpuriousStep(s, t), [t, t, t, t])
              && var s' := After(SpuriousStep(s, t), [t, t, t, t]);
                 s'.rounds == [Round([t], {t}, None)]
  {
    var s0 := Init(required, threads);
    assert Runs(s0, []) && After(s0, []) == s0;
    hide Runs, After;
    var run := ArriveAndBlock(s0, [], t);
    var s := After(s0, run);
    assert [] + [t] == [t];
    assert s.rounds == [Round([t], {}, None)];
    var u := SpuriousStep(s, t);
    WokenReturns(u, t);
    assert Return(u.rounds[0], t, false) == Round([t], {t}, None);
    assert After(u, [t, t, t, t]).rounds == [Round([t], {t}, None)];
  }
}
