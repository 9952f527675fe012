/**
  What other threads may do around one call of the store, as seen between its
  attempts (crates/tsavorite/src/store.rs:604-682): an arbitrary list of steps
  before each attempt. `Around` bounds what those steps can leave behind, and
  from it follows how long they can hold a call up.
 */
module Environment {
  import opened Bytes

  const MAX_RETRIES: nat := 1_000_000

  datatype Phase = Rest | Prepare | InProgress | WaitFlush

  predicate InNewVersion(phase: Phase) {
    phase == InProgress || phase == WaitFlush
  }

  datatype EnvStep =
    | OtherEnters(thread: nat, epoch: nat)
    | OtherLeaves(thread: nat)
    | ShiftReadOnly(addr: nat)
    | ShiftHead(addr: nat)
    | BumpEpoch
    | ForeignAllocate(size: nat)
    | BeginCheckpoint
    | SetPhase(phase: Phase, start: nat)
    | LatchHeld

  /** The steps before each attempt, for as many attempts as are listed. */
  type Rounds = seq<seq<EnvStep>>

  /** After the listed rounds nothing more happens. */
  function Round(env: Rounds, round: nat): seq<EnvStep> {
    if round < |env| then env[round] else []
  }

  /** What may go on around a call without holding it up. */
  predicate CalmStep(step: EnvStep) {
    match step
    case OtherEnters(_, _) | ForeignAllocate(_) | LatchHeld => false
    case SetPhase(p, _) => p != Prepare
    case _ => true
  }

  ghost predicate CalmRound(steps: seq<EnvStep>) {
    forall i :: 0 <= i < |steps| ==> CalmStep(steps[i])
  }

  ghost predicate Calm(env: Rounds) {
    forall round :: 0 <= round < |env| ==> CalmRound(env[round])
  }

  /** Whether the bucket latch is there to be taken in this round. */
  function Latched(env: Rounds, round: nat): (taken: bool)
    ensures CalmRound(Round(env, round)) ==> taken
  {
    LatchHeld !in Round(env, round)
  }

  // ---------------------------------------------------------------------
  // What the steps leave behind
  // ---------------------------------------------------------------------

  /** Other threads that may be inside the epoch, and whether no v+1 record makes a session in PREPARE start over. */
  datatype Around = Around(inside: set<nat>, open: bool)

  predicate Settled(a: Around) {
    a.inside == {} && a.open
  }

  /** At most what the other one allows. */
  predicate Below(a: Around, b: Around) {
    a.inside <= b.inside && (b.open ==> a.open)
  }

  function AfterStep(a: Around, step: EnvStep): Around {
    match step
    case OtherEnters(t, _) => a.(inside := a.inside + {t})
    case OtherLeaves(t) => a.(inside := a.inside - {t})
    case BeginCheckpoint => a.(open := true)
    case SetPhase(p, _) => a.(open := p != Prepare)
    case _ => a
  }

  function AfterSteps(a: Around, steps: seq<EnvStep>): Around {
    if steps == [] then a else AfterStep(AfterSteps(a, steps[..|steps| - 1]), steps[|steps| - 1])
  }

  function AfterRounds(a: Around, env: Rounds, n: nat): Around {
    if n == 0 then a else AfterSteps(AfterRounds(a, env, n - 1), Round(env, n - 1))
  }

  lemma StepMonotone(a: Around, b: Around, step: EnvStep)
    requires Below(a, b)
    ensures Below(AfterStep(a, step), AfterStep(b, step))
  {
  }

  lemma {:induction false} StepsMonotone(a: Around, b: Around, steps: seq<EnvStep>)
    requires Below(a, b)
    ensures Below(AfterSteps(a, steps), AfterSteps(b, steps))
    decreases |steps|
  {
    if steps != [] {
      StepsMonotone(a, b, steps[..|steps| - 1]);
    }
  }

  lemma {:induction false} RoundsMonotone(a: Around, b: Around, env: Rounds, n: nat)
    requires Below(a, b)
    ensures Below(AfterRounds(a, env, n), AfterRounds(b, env, n))
  {
    if 0 < n {
      RoundsMonotone(a, b, env, n - 1);
      StepsMonotone(AfterRounds(a, env, n - 1), AfterRounds(b, env, n - 1), Round(env, n - 1));
    }
  }

  lemma {:induction false} CalmStepsKeep(a: Around, steps: seq<EnvStep>)
    requires Settled(a) && CalmRound(steps)
    ensures Settled(AfterSteps(a, steps))
    decreases |steps|
  {
    if steps != [] {
      CalmStepsKeep(a, steps[..|steps| - 1]);
    }
  }

  lemma {:induction false} CalmRoundsKeep(a: Around, env: Rounds, n: nat)
    requires Settled(a) && Calm(env)
    ensures Settled(AfterRounds(a, env, n))
  {
    if 0 < n {
      CalmRoundsKeep(a, env, n - 1);
      CalmStepsKeep(AfterRounds(a, env, n - 1), Round(env, n - 1));
    }
  }

  // ---------------------------------------------------------------------
  // How long a call can be held up
  // ---------------------------------------------------------------------

  /**
    From round `r` on the call is left in peace: the steps so far have settled,
    the latch is free, and the five rounds that follow are calm.
   */
  ghost predicate Peace(a: Around, env: Rounds, r: nat) {
    && Settled(AfterRounds(a, env, r + 1)) && Latched(env, r)
    && forall k: nat :: r < k <= r + 5 ==> CalmRound(Round(env, k))
  }

  /** There is no peace before the retries run out. */
  ghost predicate Hopeless(a: Around, env: Rounds) {
    forall r: nat :: Peace(a, env, r) ==> MAX_RETRIES < r + 4
  }

  /** The latch is held by another session whenever it is asked for. */
  ghost predicate Starved(env: Rounds) {
    forall round: nat :: round <= MAX_RETRIES ==> !Latched(env, round)
  }

  lemma CalmIsPeace(a: Around, env: Rounds)
    requires Settled(a) && Calm(env)
    ensures Peace(a, env, 0)
  {
    CalmRoundsKeep(a, env, 1);
  }

  /**
    A call can be held up past its retries only by rounds that go on for as long,
    or by what they leave behind: a thread that does not leave the epoch, or
    records that make a session in PREPARE start over.
   */
  lemma HopelessOnlyIf(a: Around, env: Rounds)
    requires Hopeless(a, env)
    ensures MAX_RETRIES < |env| + 4 || !Settled(AfterRounds(a, env, |env|))
  {
    if Settled(AfterRounds(a, env, |env|)) {
      assert Round(env, |env|) == [];
      assert Peace(a, env, |env|);
    }
  }

  // ---------------------------------------------------------------------
  // From one call to the next
  // ---------------------------------------------------------------------

  /** A call may end after any of its rounds, the first one at the earliest. */
  ghost predicate Leaves(a: Around, env: Rounds, b: Around) {
    exists n: nat :: 0 < n && Below(b, AfterRounds(a, env, n))
  }

  lemma CalmLeaves(a: Around, env: Rounds, b: Around)
    requires Settled(a) && Calm(env) && Leaves(a, env, b)
    ensures Settled(b)
  {
    var n: nat :| 0 < n && Below(b, AfterRounds(a, env, n));
    CalmRoundsKeep(a, env, n);
  }

  /** What the n-th call of a sequence may find, each of the calls before it having ended at some round of its own. */
  ghost predicate Arrives(a: Around, env: seq<Rounds>, n: nat, b: Around)
    requires n <= |env|
  {
    if n == 0 then a == b
    else exists c: Around {:trigger Leaves(c, env[n - 1], b)} :: Arrives(a, env, n - 1, c) && Leaves(c, env[n - 1], b)
  }

  ghost predicate HopelessCall(a: Around, env: seq<Rounds>, n: nat)
    requires n < |env|
  {
    exists b: Around :: Arrives(a, env, n, b) && Hopeless(b, env[n])
  }

  /** Every round tidies up after itself: whoever enters leaves again, and no PREPARE is left in force. */
  ghost predicate Tidy(env: Rounds) {
    forall round :: 0 <= round < |env| ==> Settled(AfterSteps(Around({}, true), env[round]))
  }

  lemma {:induction false} TidyRoundsKeep(a: Around, env: Rounds, n: nat)
    requires Settled(a) && Tidy(env)
    ensures Settled(AfterRounds(a, env, n))
  {
    if 0 < n {
      TidyRoundsKeep(a, env, n - 1);
      StepsMonotone(AfterRounds(a, env, n - 1), Around({}, true), Round(env, n - 1));
    }
  }

  lemma {:induction false} TidyArrives(a: Around, env: seq<Rounds>, n: nat, b: Around)
    requires n <= |env| && Settled(a) && Arrives(a, env, n, b)
    requires forall k: nat :: k < n ==> Tidy(env[k])
    ensures Settled(b)
  {
    if 0 < n {
      var c: Around :| Arrives(a, env, n - 1, c) && Leaves(c, env[n - 1], b);
      TidyArrives(a, env, n - 1, c);
      var rounds: nat :| 0 < rounds && Below(b, AfterRounds(c, env[n - 1], rounds));
      TidyRoundsKeep(c, env[n - 1], rounds);
    }
  }

  /**
    Visitors, page turns of others and latches held do no harm as long as every
    round tidies up: only as many rounds as there are retries can then wear a
    call out.
   */
  lemma TidyIsHopeful(a: Around, env: seq<Rounds>, n: nat)
    requires n < |env| && Settled(a) && HopelessCall(a, env, n)
    requires forall k: nat :: k <= n ==> Tidy(env[k])
    ensures MAX_RETRIES < |env[n]| + 4
  {
    var b: Around :| Arrives(a, env, n, b) && Hopeless(b, env[n]);
    TidyArrives(a, env, n, b);
    TidyRoundsKeep(b, env[n], |env[n]|);
    HopelessOnlyIf(b, env[n]);
  }

  ghost predicate AllTidy(env: seq<Rounds>) {
    forall n: nat :: n < |env| ==> Tidy(env[n])
  }

  ghost predicate AllCalm(env: seq<Rounds>) {
    forall n: nat :: n < |env| ==> Calm(env[n])
  }

  lemma CalmIsHopeful(a: Around, env: seq<Rounds>, n: nat)
    requires n < |env| && Settled(a) && AllCalm(env)
    ensures !HopelessCall(a, env, n)
  {
    CalmIsTidy(env);
    if HopelessCall(a, env, n) {
      var b: Around :| Arrives(a, env, n, b) && Hopeless(b, env[n]);
      TidyArrives(a, env, n, b);
      CalmIsPeace(b, env[n]);
    }
  }

  lemma CalmIsTidy(env: seq<Rounds>)
    requires AllCalm(env)
    ensures AllTidy(env)
  {
    forall n: nat, round | n < |env| && 0 <= round < |env[n]|
      ensures Settled(AfterSteps(Around({}, true), env[n][round]))
    {
      assert Calm(env[n]);
      CalmStepsKeep(Around({}, true), env[n][round]);
    }
  }

  // ---------------------------------------------------------------------
  // The retry loop, with what is left of the wait as its measure
  // ---------------------------------------------------------------------

  /**
    Before the attempt of a round: what the others have left so far, and how far
    the wait has come since any round from which there was peace. A fetch from
    disk costs two rounds, once.
   */
  ghost predicate Winds(a: Around, env: Rounds, round: nat, extra: nat, now: Around, rank: nat) {
    && Below(now, AfterRounds(a, env, round))
    && forall r: nat :: r < round && Peace(a, env, r) ==> Settled(now) && round + rank <= r + 3 + extra
  }

  lemma WindsBegin(a: Around, env: Rounds, rank: nat)
    ensures Winds(a, env, 0, 0, a, rank)
  {
  }

  lemma WindsOn(a: Around, env: Rounds, round: nat, extra: nat, now: Around, rank: nat, now': Around, rank': nat)
    requires Winds(a, env, round, extra, now, rank) && extra <= 2
    requires Below(now', AfterSteps(now, Round(env, round)))
    requires Latched(env, round) && Settled(now') ==> rank' < 3
    requires CalmRound(Round(env, round)) && Settled(now) ==> Settled(now') && rank' < rank
    ensures Winds(a, env, round + 1, extra, now', rank')
  {
    StepsMonotone(now, AfterRounds(a, env, round), Round(env, round));
  }

  lemma WindsThroughDisk(a: Around, env: Rounds, round: nat, now: Around, rank: nat, mid: Around, rank'': nat,
                         now': Around, rank': nat)
    requires Winds(a, env, round, 0, now, rank)
    requires Below(mid, AfterSteps(now, Round(env, round)))
    requires Latched(env, round) && Settled(mid) ==> rank'' <= 3
    requires CalmRound(Round(env, round)) && Settled(now) ==> Settled(mid) && rank'' <= rank
    requires Below(now', AfterSteps(mid, Round(env, round + 1))) && rank' <= 3
    requires CalmRound(Round(env, round + 1)) && Settled(mid) ==> Settled(now') && rank' <= rank''
    ensures Winds(a, env, round + 2, 2, now', rank')
  {
    StepsMonotone(now, AfterRounds(a, env, round), Round(env, round));
    StepsMonotone(mid, AfterRounds(a, env, round + 1), Round(env, round + 1));
    assert AfterRounds(a, env, round + 2) == AfterSteps(AfterRounds(a, env, round + 1), Round(env, round + 1));
  }

  /** How a call ended: what may be left, and how many attempts it can have taken. */
  ghost predicate Patience(a: Around, env: Rounds, now: Around, attempts: nat, error: bool) {
    && Leaves(a, env, now)
    && (forall r: nat :: Peace(a, env, r) ==> attempts <= r + 4)
    && (error ==> MAX_RETRIES < attempts)
  }

  lemma WindsUp(a: Around, env: Rounds, round: nat, extra: nat, now: Around, rank: nat, now': Around,
                attempts: nat, error: bool)
    requires Winds(a, env, round, extra, now, rank) && attempts + extra == round + 1
    requires Below(now', AfterSteps(now, Round(env, round))) && (error ==> MAX_RETRIES < attempts)
    ensures Patience(a, env, now', attempts, error)
  {
    StepsMonotone(now, AfterRounds(a, env, round), Round(env, round));
    assert Below(now', AfterRounds(a, env, round + 1));
  }

  lemma PatienceMeans(a: Around, env: Rounds, now: Around, attempts: nat, error: bool)
    requires Patience(a, env, now, attempts, error)
    ensures error ==> Hopeless(a, env)
    ensures Calm(env) && Settled(a) ==> Settled(now) && attempts <= 4
  {
    if Calm(env) && Settled(a) {
      CalmIsPeace(a, env);
      CalmLeaves(a, env, now);
    }
  }

  /** In none of the first rounds was the latch free with no record to start over for. */
  ghost predicate NoOpening(a: Around, env: Rounds, n: nat) {
    forall r: nat :: r < n ==> !(AfterRounds(a, env, r + 1).open && Latched(env, r))
  }
}
