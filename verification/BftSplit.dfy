/** What the documented n = 3f + 1 is for: with any other n, f Byzantine validators (or none, for
    two or three validators) lead honest ones to commit different values in view 0. */
module BftSplit {
  import opened Bytes
  import opened BftTypes
  import opened Validator
  import opened BftSafety
  import M = Merkle

  /** The validators' keys, the contested slot, the two values and the state everything starts in. */
  datatype Scene = Scene(vs: ValidatorSet, keys: seq<M.SignerState>, slot: u64, v: seq<byte>, u: seq<byte>, start: System)

  /** Fresh keys of at least four slots under the published roots, and two values that differ. */
  ghost predicate Keyed(h: HashFn, sc: Scene) {
    && 0 < sc.vs.N() <= 0x1_0000_0000 && |sc.keys| == sc.vs.N() && h(sc.v) != h(sc.u)
    && AllReady(h, sc.keys, sc.vs.roots, |sc.keys|)
  }

  /** The first n keys are ready. Said in three parts, so that it unfolds only in `ReadyKey`. */
  ghost predicate AllReady(h: HashFn, keys: seq<M.SignerState>, roots: seq<Digest>, n: nat)
    requires n <= |keys| == |roots|
    decreases n, 2
  {
    n == 0 || ReadyUpTo(h, keys, roots, n)
  }

  ghost predicate ReadyUpTo(h: HashFn, keys: seq<M.SignerState>, roots: seq<Digest>, n: nat)
    requires 0 < n <= |keys| == |roots|
    decreases n, 1
  {
    LastReady(h, keys, roots, n)
  }

  ghost predicate LastReady(h: HashFn, keys: seq<M.SignerState>, roots: seq<Digest>, n: nat)
    requires 0 < n <= |keys| == |roots|
    decreases n, 0
  {
    KeyReady(h, keys[n - 1], roots[n - 1]) && AllReady(h, keys, roots, n - 1)
  }

  lemma {:induction false} ReadyKey(h: HashFn, keys: seq<M.SignerState>, roots: seq<Digest>, n: nat, j: nat)
    requires j < n <= |keys| == |roots| && AllReady(h, keys, roots, n)
    ensures KeyReady(h, keys[j], roots[j])
    decreases n
  {
    assert ReadyUpTo(h, keys, roots, n) && LastReady(h, keys, roots, n);
    if j < n - 1 {
      ReadyKey(h, keys, roots, n - 1, j);
    }
  }

  /** Keys that are ready one by one are all ready. */
  lemma {:induction false} ReadyKeys(h: HashFn, keys: seq<M.SignerState>, roots: seq<Digest>, n: nat)
    requires n <= |keys| == |roots| && forall j :: 0 <= j < n ==> KeyReady(h, keys[j], roots[j])
    ensures AllReady(h, keys, roots, n)
    decreases n
  {
    if n > 0 {
      ReadyKeys(h, keys, roots, n - 1);
      assert LastReady(h, keys, roots, n);
      assert ReadyUpTo(h, keys, roots, n);
    }
  }

  lemma Slots(h: HashFn, sc: Scene, j: nat)
    requires Keyed(h, sc) && j < sc.vs.N()
    ensures sc.keys[j].next == 0 && |sc.keys[j].leaves| >= 4
  {
    ReadyKey(h, sc.keys, sc.vs.roots, |sc.keys|, j);
  }

  ghost predicate KeyReady(h: HashFn, key: M.SignerState, root: Digest) {
    M.WellKeyed(h, key) && key.root == root && key.next == 0 && |key.leaves| >= 4
  }

  ghost predicate Staged(h: HashFn, sc: Scene) {
    Keyed(h, sc) && sc.vs.N() != 3 * sc.vs.F() + 1
  }

  /** Validators below f are Byzantine; those of [f, 2f + 1) get one value, of [2f + 1, 3f + 2) the other. */
  predicate Misled(sc: Scene, i: int) {
    sc.vs.F() <= i < 3 * sc.vs.F() + 2
  }

  function Told(sc: Scene, i: nat): seq<byte> {
    if i < 2 * sc.vs.F() + 1 then sc.v else sc.u
  }

  /** The first of the validators that are told the same as i. */
  function SideStart(sc: Scene, i: nat): nat {
    if i < 2 * sc.vs.F() + 1 then sc.vs.F() else 2 * sc.vs.F() + 1
  }

  /** The leader of view 0 has signed both proposals before it votes. */
  function Base(i: nat): nat { if i == 0 then 2 else 0 }

  function KeySlot(sc: Scene, j: nat, phase: Phase, value: seq<byte>): (k: nat)
    ensures k < 4
  {
    match phase
    case PrePrepare => if value == sc.v then 0 else 1
    case Prepare => Base(j)
    case Commit => Base(j) + 1
    case ViewChange => 0
  }

  /** The vote j casts. */
  ghost function Cast(h: HashFn, sc: Scene, j: nat, phase: Phase, value: seq<byte>): Vote
    requires Keyed(h, sc) && j < sc.vs.N()
  {
    Slots(h, sc, j);
    var bytes := SignedBytes(0, sc.slot, phase, h(value));
    Vote(0, sc.slot, phase, h(value), value, j,
         M.SignAtSlot(h, sc.keys[j].master, sc.keys[j].leaves, bytes, KeySlot(sc, j, phase, value)).value)
  }

  lemma CastVerifies(h: HashFn, sc: Scene, j: nat, phase: Phase, value: seq<byte>)
    requires Keyed(h, sc) && j < sc.vs.N()
    ensures Verifies(h, sc.vs, Cast(h, sc, j, phase, value))
  {
    ReadyKey(h, sc.keys, sc.vs.roots, |sc.keys|, j);
    M.SignatureVerifies(h, sc.keys[j], SignedBytes(0, sc.slot, phase, h(value)), KeySlot(sc, j, phase, value));
  }

  // ---------- one validator, vote by vote ----------

  ghost predicate Fresh(h: HashFn, sc: Scene, i: nat, st: State)
    requires Keyed(h, sc) && i < sc.vs.N()
  {
    st == InitState(h, i, sc.keys[i].(next := Base(i)), sc.vs)
  }

  ghost predicate InPlace(sc: Scene, i: nat, st: State) {
    st.id == i && st.vs == sc.vs && st.view == 0 && st.committed == map[]
  }

  /** Voters of a phase seen so far are those in `done`; earlier phases do not matter. */
  ghost predicate Heard(st: State, phase: Phase, done: set<u32>) {
    forall k :: k in st.seen ==>
      k.phase.PrePrepare? || (phase.Commit? && k.phase.Prepare?) || (k.phase == phase && k.signer in done)
  }

  /** i has voted Prepare and counted the Prepares of `done`. */
  ghost predicate Preparing(h: HashFn, sc: Scene, i: nat, st: State, done: set<u32>)
    requires Keyed(h, sc) && i < sc.vs.N()
  {
    var hash := h(Told(sc, i));
    && InPlace(sc, i, st) && st.signer == sc.keys[i].(next := Base(i) + 1) && st.commitSent == {}
    && Get(st.tally, PrepareOf(0, sc.slot, hash), {}) == done && CommitOf(0, sc.slot, hash) !in st.tally
    && Heard(st, Prepare, done)
  }

  /** i has voted Commit and counted the Commits of `done`. */
  ghost predicate Committing(h: HashFn, sc: Scene, i: nat, st: State, done: set<u32>) {
    && InPlace(sc, i, st) && Get(st.tally, CommitOf(0, sc.slot, h(Told(sc, i))), {}) == done
    && Heard(st, Commit, done)
  }

  /** Signing under the next key is casting. */
  lemma SignsCast(h: HashFn, sc: Scene, i: nat, st: State, phase: Phase, value: seq<byte>)
    requires Keyed(h, sc) && i < sc.vs.N() && st.id == i && st.view == 0
    requires st.signer == sc.keys[i].(next := KeySlot(sc, i, phase, value))
    ensures MakeVote(h, st, sc.slot, phase, value)
         == (st.(signer := sc.keys[i].(next := KeySlot(sc, i, phase, value) + 1)), [Broadcast(Cast(h, sc, i, phase, value))])
  {
    Slots(h, sc, i);
  }

  lemma HearProposal(h: HashFn, sc: Scene, i: nat, st: State)
    requires Keyed(h, sc) && i < sc.vs.N() && Fresh(h, sc, i, st)
    ensures var r := Ingest(h, st, Cast(h, sc, 0, PrePrepare, Told(sc, i)));
            Preparing(h, sc, i, r.0, {}) && r.1 == [Broadcast(Cast(h, sc, i, Prepare, Told(sc, i)))]
  {
    var w := Told(sc, i);
    var vote := Cast(h, sc, 0, PrePrepare, w);
    CastVerifies(h, sc, 0, PrePrepare, w);
    var st1 := st.(seen := st.seen[SeenKey(0, 0, sc.slot, PrePrepare) := vote]);
    assert st.vs.Leader(0) == 0;
    SignsCast(h, sc, i, st1.(preparedSent := st1.preparedSent + {(0, sc.slot)}), Prepare, w);
  }

  /** A vote of j with these contents, whatever its signature. */
  ghost predicate Says(h: HashFn, sc: Scene, vote: Vote, j: nat, phase: Phase, value: seq<byte>) {
    && vote.view == 0 && vote.slot == sc.slot && vote.phase == phase
    && vote.vhash == h(value) && vote.value == value && vote.signer == j
  }

  lemma FirstHearing(h: HashFn, st: State, vote: Vote)
    requires Verifies(h, st.vs, vote) && SeenKey(vote.signer, vote.view, vote.slot, vote.phase) !in st.seen
    ensures Ingest(h, st, vote)
         == Dispatch(h, st.(seen := st.seen[SeenKey(vote.signer, vote.view, vote.slot, vote.phase) := vote]), vote)
  {
  }

  /** The state once a Prepare of j is counted. */
  function Counted(sc: Scene, st: State, j: u32, vote: Vote): State {
    TallyVote(RetainVote(st.(seen := st.seen[SeenKey(j, 0, sc.slot, Prepare) := vote]), vote), vote)
  }

  lemma CountPrepare(h: HashFn, sc: Scene, i: nat, st: State, done: set<u32>, j: u32, vote: Vote)
    requires Keyed(h, sc) && i < sc.vs.N() && j !in done && Says(h, sc, vote, j, Prepare, Told(sc, i))
    requires Preparing(h, sc, i, st, done)
    ensures Preparing(h, sc, i, Counted(sc, st, j, vote), done + {j})
    ensures Counted(sc, st, j, vote).tally[BallotOf(vote)] == done + {j}
  {
    assert BallotOf(vote) == PrepareOf(0, sc.slot, h(Told(sc, i)));
  }

  /** Reaching the quorum: lock, and vote Commit. */
  lemma ReachQuorum(h: HashFn, sc: Scene, i: nat, st: State, done: set<u32>, vote: Vote, cert: seq<Vote>)
    requires Keyed(h, sc) && i < sc.vs.N() && Preparing(h, sc, i, st, done)
    requires vote.slot == sc.slot && vote.value == Told(sc, i)
    ensures var r := LockAndCommit(h, st, vote, cert);
            r.1 == [Broadcast(Cast(h, sc, i, Commit, Told(sc, i)))] && Committing(h, sc, i, r.0, {})
  {
    SignsCast(h, sc, i, st.(commitSent := st.commitSent + {(0, sc.slot)}, locked := st.locked[sc.slot := Lock(0, vote.value, cert)]),
              Commit, Told(sc, i));
  }

  lemma CountOutcome(h: HashFn, sc: Scene, st: State, j: u32, vote: Vote)
    requires st.view == 0 == vote.view && st.commitSent == {} && vote.phase.Prepare?
    ensures var st0 := st.(seen := st.seen[SeenKey(j, 0, sc.slot, Prepare) := vote]);
            var st1 := Counted(sc, st, j, vote);
            Dispatch(h, st0, vote) == if |st1.tally[BallotOf(vote)]| >= st.vs.Quorum()
                                      then LockAndCommit(h, st1, vote, CertOf(st1.prepareVotes[BallotOf(vote)])) else (st1, [])
  {
  }

  lemma HearPrepare(h: HashFn, sc: Scene, i: nat, st: State, done: set<u32>, j: u32, vote: Vote)
    requires Keyed(h, sc) && i < sc.vs.N() && j !in done && Preparing(h, sc, i, st, done)
    requires Says(h, sc, vote, j, Prepare, Told(sc, i)) && Verifies(h, sc.vs, vote)
    ensures var r := Ingest(h, st, vote);
            && (|done| + 1 < sc.vs.Quorum() ==> r.1 == [] && Preparing(h, sc, i, r.0, done + {j}))
            && (|done| + 1 == sc.vs.Quorum() ==>
                r.1 == [Broadcast(Cast(h, sc, i, Commit, Told(sc, i)))] && Committing(h, sc, i, r.0, {}))
  {
    assert SeenKey(j, 0, sc.slot, Prepare) !in st.seen;
    FirstHearing(h, st, vote);
    CountPrepare(h, sc, i, st, done, j, vote);
    var st1 := Counted(sc, st, j, vote);
    CountOutcome(h, sc, st, j, vote);
    if |done| + 1 == sc.vs.Quorum() {
      ReachQuorum(h, sc, i, st1, done + {j}, vote, CertOf(st1.prepareVotes[BallotOf(vote)]));
    }
  }

  lemma CountCommit(h: HashFn, sc: Scene, i: nat, st: State, done: set<u32>, j: u32, vote: Vote)
    requires j !in done && Says(h, sc, vote, j, Commit, Told(sc, i)) && Committing(h, sc, i, st, done)
    ensures var st0 := st.(seen := st.seen[SeenKey(j, 0, sc.slot, Commit) := vote]);
            var r := IngestCommit(h, st0, vote);
            && (|done| + 1 < sc.vs.Quorum() ==> r.1 == [] && Committing(h, sc, i, r.0, done + {j}))
            && (|done| + 1 == sc.vs.Quorum() ==> r.0.committed == map[sc.slot := Told(sc, i)])
  {
    var st1 := TallyVote(st.(seen := st.seen[SeenKey(j, 0, sc.slot, Commit) := vote]), vote);
    assert BallotOf(vote) == CommitOf(0, sc.slot, h(Told(sc, i)));
    assert st1.tally[BallotOf(vote)] == done + {j};
  }

  lemma HearCommit(h: HashFn, sc: Scene, i: nat, st: State, done: set<u32>, j: u32, vote: Vote)
    requires j !in done && Committing(h, sc, i, st, done)
    requires Says(h, sc, vote, j, Commit, Told(sc, i)) && Verifies(h, sc.vs, vote)
    ensures var r := Ingest(h, st, vote);
            && (|done| + 1 < sc.vs.Quorum() ==> r.1 == [] && Committing(h, sc, i, r.0, done + {j}))
            && (|done| + 1 == sc.vs.Quorum() ==> r.0.committed == map[sc.slot := Told(sc, i)])
  {
    assert SeenKey(j, 0, sc.slot, Commit) !in st.seen;
    FirstHearing(h, st, vote);
    CountCommit(h, sc, i, st, done, j, vote);
  }

  // ---------- the run ----------

  ghost function Start(h: HashFn, sc: Scene): System
    requires Keyed(h, sc)
  {
    System(sc.vs, map i: u32 | i in Range(sc.vs.F(), sc.vs.N()) :: InitState(h, i, sc.keys[i], sc.vs), {})
  }

  /** `last` is n steps from `first`. Said in three parts, so that it unfolds only in the lemmas
      that follow. */
  ghost predicate InSteps<S(!new), T(!new)>(rel: (S, T, S) -> bool, first: S, last: S, n: nat)
    decreases n, 2
  {
    StepsOn(rel, first, last, n)
  }

  ghost predicate StepsOn<S(!new), T(!new)>(rel: (S, T, S) -> bool, first: S, last: S, n: nat)
    decreases n, 1
  {
    if n == 0 then last == first else LastStep(rel, first, last, n)
  }

  ghost predicate LastStep<S(!new), T(!new)>(rel: (S, T, S) -> bool, first: S, last: S, n: nat)
    requires n > 0
    decreases n, 0
  {
    exists prev: S, step: T :: rel(prev, step, last) && InSteps(rel, first, prev, n - 1)
  }

  lemma OneMoreStep<S(!new), T(!new)>(rel: (S, T, S) -> bool, first: S, prev: S, step: T, last: S, n: nat)
    requires InSteps(rel, first, prev, n) && rel(prev, step, last)
    ensures InSteps(rel, first, last, n + 1)
  {
    assert LastStep(rel, first, last, n + 1);
    assert StepsOn(rel, first, last, n + 1);
  }

  /** Each step leads from one state of the trace to the next. */
  ghost predicate Chain<S(!new), T(!new)>(rel: (S, T, S) -> bool, steps: seq<T>, trace: seq<S>) {
    |trace| == |steps| + 1 && forall k :: 0 <= k < |steps| ==> rel(trace[k], steps[k], trace[k + 1])
  }

  lemma ChainOn<S(!new), T(!new)>(rel: (S, T, S) -> bool, steps: seq<T>, trace: seq<S>, step: T, last: S)
    requires Chain(rel, steps, trace) && rel(trace[|steps|], step, last)
    ensures Chain(rel, steps + [step], trace + [last])
  {
    var steps', trace' := steps + [step], trace + [last];
    forall k | 0 <= k < |steps'|
      ensures rel(trace'[k], steps'[k], trace'[k + 1])
    {
      if k < |steps| {
        assert rel(trace[k], steps[k], trace[k + 1]);
      }
    }
  }

  /** The steps taken, and the states between them. */
  lemma {:induction false} Replay<S(!new), T(!new)>(rel: (S, T, S) -> bool, first: S, last: S, n: nat)
    returns (steps: seq<T>, trace: seq<S>)
    requires InSteps(rel, first, last, n)
    ensures Chain(rel, steps, trace) && trace[0] == first && trace[|steps|] == last
    decreases n
  {
    assert StepsOn(rel, first, last, n);
    if n == 0 {
      steps, trace := [], [last];
    } else {
      assert LastStep(rel, first, last, n);
      var prev: S, step: T :| rel(prev, step, last) && InSteps(rel, first, prev, n - 1);
      steps, trace := Replay(rel, first, prev, n - 1);
      ChainOn(rel, steps, trace, step, last);
      steps, trace := steps + [step], trace + [last];
    }
  }

  ghost function NextOf(h: HashFn): (System, Step, System) -> bool {
    (a, step, b) => Next(h, a, step, b)
  }

  ghost predicate Reached(h: HashFn, sc: Scene, sys: System) {
    exists n: nat :: InSteps(NextOf(h), sc.start, sys, n)
  }

  lemma Begin(h: HashFn, sc: Scene)
    ensures Reached(h, sc, sc.start)
  {
    assert StepsOn(NextOf(h), sc.start, sc.start, 0);
    assert InSteps(NextOf(h), sc.start, sc.start, 0);
  }

  lemma Extend(h: HashFn, sc: Scene, sys: System, step: Step, sys': System)
    requires Reached(h, sc, sys) && Next(h, sys, step, sys')
    ensures Reached(h, sc, sys')
  {
    var n: nat :| InSteps(NextOf(h), sc.start, sys, n);
    OneMoreStep(NextOf(h), sc.start, sys, step, sys', n);
  }

  lemma StartIsInit(h: HashFn, sc: Scene)
    requires Keyed(h, sc)
    ensures Init(h, Start(h, sc))
  {
  }

  lemma ChainIsRun(h: HashFn, steps: seq<Step>, trace: seq<System>)
    requires Chain(NextOf(h), steps, trace) && Init(h, trace[0])
    ensures Run(h, steps, trace)
  {
    forall k | 0 <= k < |steps|
      ensures Next(h, trace[k], steps[k], trace[k + 1])
    {
      assert NextOf(h)(trace[k], steps[k], trace[k + 1]);
    }
  }

  /** The honest validators are those from f up. */
  ghost predicate Running(h: HashFn, sc: Scene, sys: System)
    requires Keyed(h, sc)
  {
    Reached(h, sc, sys) && sys.vs == sc.vs && forall i: u32 :: i in sys.nodes <==> sc.vs.F() <= i < sc.vs.N()
  }

  /** j is Byzantine, or has signed this. */
  ghost predicate Uttered(h: HashFn, sc: Scene, sys: System, j: u32, phase: Phase, value: seq<byte>) {
    j in sys.nodes ==> Signed(j, Ballot(0, sc.slot, phase, h(value))) in sys.signed
  }

  /** Delivering one cast vote. */
  lemma Hear(h: HashFn, sc: Scene, sys: System, i: u32, j: u32, phase: Phase, value: seq<byte>) returns (sys': System)
    requires Keyed(h, sc) && Running(h, sc, sys) && i in sys.nodes && j < sc.vs.N() && !phase.ViewChange?
    requires Uttered(h, sc, sys, j, phase, value)
    ensures Running(h, sc, sys') && sys.signed <= sys'.signed
    ensures var r := Ingest(h, sys.nodes[i], Cast(h, sc, j, phase, value));
            sys'.nodes == sys.nodes[i := r.0] && NewlySigned(r.1) <= sys'.signed
  {
    var step := Deliver(i, Cast(h, sc, j, phase, value));
    sys' := After(sys, i, Handle(h, sys.nodes[i], step));
    Extend(h, sc, sys, step, sys');
  }

  lemma Lead(h: HashFn, sc: Scene, sys: System, value: seq<byte>) returns (sys': System)
    requires Keyed(h, sc) && Running(h, sc, sys) && 0 in sys.nodes
    ensures Running(h, sc, sys') && sys.signed <= sys'.signed
    ensures var r := Propose(h, sys.nodes[0], sc.slot, value);
            sys'.nodes == sys.nodes[0 := r.0] && NewlySigned(r.1) <= sys'.signed
  {
    var step := Proposal(0, sc.slot, value);
    sys' := After(sys, 0, Handle(h, sys.nodes[0], step));
    Extend(h, sc, sys, step, sys');
  }

  lemma BroadcastSigns(h: HashFn, sc: Scene, i: u32, phase: Phase, value: seq<byte>, out: seq<Out>)
    requires Keyed(h, sc) && i < sc.vs.N() && out == [Broadcast(Cast(h, sc, i, phase, value))]
    ensures Signed(i, Ballot(0, sc.slot, phase, h(value))) in NewlySigned(out)
  {
    assert out[0] in out;
  }

  // Phase 0: both proposals are out, and everyone is ready.

  ghost predicate Proposed(h: HashFn, sc: Scene, sys: System) {
    Uttered(h, sc, sys, 0, PrePrepare, sc.v) && Uttered(h, sc, sys, 0, PrePrepare, sc.u)
  }

  ghost predicate FreshAt(h: HashFn, sc: Scene, sys: System, i: u32)
    requires Keyed(h, sc)
  {
    i in sys.nodes && i < sc.vs.N() && Fresh(h, sc, i, sys.nodes[i])
  }

  ghost predicate ReadyFrom(h: HashFn, sc: Scene, sys: System, p: nat)
    requires Keyed(h, sc)
  {
    forall i: u32 :: Misled(sc, i) && i >= p ==> FreshAt(h, sc, sys, i)
  }

  ghost function InitAt(h: HashFn, sc: Scene, i: u32, n: nat): State
    requires Keyed(h, sc) && i < sc.vs.N()
  {
    InitState(h, i, sc.keys[i].(next := n), sc.vs)
  }

  /** An honest leader proposes whatever it is asked to, as often as it is asked. */
  lemma LeadOnce(h: HashFn, sc: Scene, sys: System, value: seq<byte>) returns (sys': System)
    requires Keyed(h, sc) && Running(h, sc, sys) && 0 in sys.nodes
    requires sys.nodes[0] == InitAt(h, sc, 0, KeySlot(sc, 0, PrePrepare, value))
    ensures Running(h, sc, sys') && sys.signed <= sys'.signed && Uttered(h, sc, sys', 0, PrePrepare, value)
    ensures sys'.nodes == sys.nodes[0 := InitAt(h, sc, 0, KeySlot(sc, 0, PrePrepare, value) + 1)]
  {
    assert sc.vs.Leader(0) == 0;
    SignsCast(h, sc, 0, sys.nodes[0], PrePrepare, value);
    sys' := Lead(h, sc, sys, value);
    BroadcastSigns(h, sc, 0, PrePrepare, value, Propose(h, sys.nodes[0], sc.slot, value).1);
  }

  lemma StartReady(h: HashFn, sc: Scene, i: u32)
    requires Staged(h, sc) && Misled(sc, i)
    ensures i in Start(h, sc).nodes && Start(h, sc).nodes[i] == InitAt(h, sc, i, 0)
  {
    Slots(h, sc, i);
  }

  lemma ProposeBoth(h: HashFn, sc: Scene) returns (sys: System)
    requires Staged(h, sc) && sc.start == Start(h, sc)
    ensures Running(h, sc, sys) && Proposed(h, sc, sys) && ReadyFrom(h, sc, sys, 0)
  {
    sys := sc.start;
    Begin(h, sc);
    ghost var was := sys.nodes;
    if sc.vs.F() == 0 {
      StartReady(h, sc, 0);
      assert sc.v != sc.u;
      sys := LeadOnce(h, sc, sys, sc.v);
      sys := LeadOnce(h, sc, sys, sc.u);
    }
    forall i: u32 | Misled(sc, i)
      ensures FreshAt(h, sc, sys, i)
    {
      StartReady(h, sc, i);
      assert i != 0 ==> sys.nodes[i] == was[i];
    }
  }

  // Phase 1: each misled validator hears its proposal and votes Prepare.

  /** i has voted Prepare and counted nothing yet. */
  ghost predicate PreparedAt(h: HashFn, sc: Scene, sys: System, i: u32)
    requires Keyed(h, sc)
  {
    i in sys.nodes && i < sc.vs.N() && Preparing(h, sc, i, sys.nodes[i], {}) && Uttered(h, sc, sys, i, Prepare, Told(sc, i))
  }

  /** So have the misled validators from lo up to p. */
  ghost predicate PreparedIn(h: HashFn, sc: Scene, sys: System, lo: nat, p: nat)
    requires Keyed(h, sc)
  {
    forall i: u32 :: Misled(sc, i) && lo <= i < p ==> PreparedAt(h, sc, sys, i)
  }

  lemma PreparedStays(h: HashFn, sc: Scene, sys: System, sys': System, i: u32)
    requires Keyed(h, sc) && PreparedAt(h, sc, sys, i) && i in sys'.nodes && sys'.nodes[i] == sys.nodes[i]
    requires sys.signed <= sys'.signed
    ensures PreparedAt(h, sc, sys', i)
  {
  }

  lemma HearOneProposal(h: HashFn, sc: Scene, sys: System, i: u32) returns (sys': System)
    requires Staged(h, sc) && Running(h, sc, sys) && Proposed(h, sc, sys) && Misled(sc, i) && FreshAt(h, sc, sys, i)
    ensures Running(h, sc, sys') && OnlyMoved(sys, sys', i)
    ensures PreparedAt(h, sc, sys', i)
  {
    HearProposal(h, sc, i, sys.nodes[i]);
    sys' := Hear(h, sc, sys, i, 0, PrePrepare, Told(sc, i));
    BroadcastSigns(h, sc, i, Prepare, Told(sc, i), Ingest(h, sys.nodes[i], Cast(h, sc, 0, PrePrepare, Told(sc, i))).1);
  }

  lemma {:induction false} PrepareAll(h: HashFn, sc: Scene, sys0: System, p: nat) returns (sys: System)
    requires Staged(h, sc) && sc.vs.F() <= p <= 3 * sc.vs.F() + 2
    requires Running(h, sc, sys0) && Proposed(h, sc, sys0) && ReadyFrom(h, sc, sys0, 0)
    ensures Running(h, sc, sys) && Proposed(h, sc, sys) && PreparedIn(h, sc, sys, 0, p) && ReadyFrom(h, sc, sys, p)
    decreases p
  {
    if p == sc.vs.F() {
      sys := sys0;
    } else {
      var prev := PrepareAll(h, sc, sys0, p - 1);
      sys := HearOneProposal(h, sc, prev, p - 1);
      OneMorePrepared(h, sc, prev, sys, p - 1);
    }
  }

  /** Only node i changed between the two, and nothing was unsaid. */
  ghost predicate OnlyMoved(sys: System, sys': System, i: u32) {
    i in sys.nodes && i in sys'.nodes && sys'.nodes == sys.nodes[i := sys'.nodes[i]] && sys.signed <= sys'.signed
  }

  lemma OneMorePrepared(h: HashFn, sc: Scene, sys: System, sys': System, p: u32)
    requires Keyed(h, sc) && OnlyMoved(sys, sys', p) && PreparedAt(h, sc, sys', p)
    requires PreparedIn(h, sc, sys, 0, p) && ReadyFrom(h, sc, sys, p)
    ensures PreparedIn(h, sc, sys', 0, p + 1) && ReadyFrom(h, sc, sys', p + 1)
  {
    forall i: u32 | Misled(sc, i) && i < p
      ensures PreparedAt(h, sc, sys', i)
    {
      PreparedStays(h, sc, sys, sys', i);
    }
    forall i: u32 | Misled(sc, i) && i >= p + 1
      ensures FreshAt(h, sc, sys', i)
    {
      assert FreshAt(h, sc, sys, i);
    }
  }

  // Phase 2: each hears the Prepares of the Byzantine validators and of its side, and votes Commit.

  /** The t-th voter that the side starting at lo listens to. */
  function Voter(sc: Scene, lo: nat, t: nat): nat {
    if t < sc.vs.F() then t else lo + t - sc.vs.F()
  }

  /** The first t voters of i, each larger than the one before. */
  ghost function Voters(sc: Scene, i: nat, t: nat): (s: set<u32>)
    requires Misled(sc, i) && t <= sc.vs.Quorum() && 3 * sc.vs.F() + 2 <= 0x1_0000_0000
    ensures |s| == t && forall x :: x in s ==> x < Voter(sc, SideStart(sc, i), t)
  {
    if t == 0 then {} else Voters(sc, i, t - 1) + {Voter(sc, SideStart(sc, i), t - 1)}
  }

  /** Every misled validator has cast its vote of this phase. */
  ghost predicate AllUttered(h: HashFn, sc: Scene, sys: System, phase: Phase) {
    forall i: u32 :: Misled(sc, i) ==> Uttered(h, sc, sys, i, phase, Told(sc, i))
  }

  /** So whoever i listens to may be heard. */
  lemma VoterUttered(h: HashFn, sc: Scene, sys: System, i: u32, phase: Phase, t: nat)
    requires Staged(h, sc) && Running(h, sc, sys) && AllUttered(h, sc, sys, phase) && Misled(sc, i) && t < sc.vs.Quorum()
    ensures var j := Voter(sc, SideStart(sc, i), t);
            j < sc.vs.N() && Uttered(h, sc, sys, j, phase, Told(sc, i))
  {
    var j := Voter(sc, SideStart(sc, i), t);
    if t >= sc.vs.F() {
      assert Misled(sc, j) && Told(sc, j) == Told(sc, i);
    }
  }

  ghost predicate CommittingAt(h: HashFn, sc: Scene, sys: System, i: u32) {
    i in sys.nodes && Committing(h, sc, i, sys.nodes[i], {}) && Uttered(h, sc, sys, i, Commit, Told(sc, i))
  }

  lemma FeedPrepare(h: HashFn, sc: Scene, sys: System, i: u32, done: set<u32>, j: u32) returns (sys': System)
    requires Keyed(h, sc) && Running(h, sc, sys) && i in sys.nodes && i < sc.vs.N() && j < sc.vs.N() && j !in done
    requires Uttered(h, sc, sys, j, Prepare, Told(sc, i)) && Preparing(h, sc, i, sys.nodes[i], done)
    ensures Running(h, sc, sys') && OnlyMoved(sys, sys', i)
    ensures |done| + 1 < sc.vs.Quorum() ==> Preparing(h, sc, i, sys'.nodes[i], done + {j})
    ensures |done| + 1 == sc.vs.Quorum() ==> CommittingAt(h, sc, sys', i)
  {
    var vote := Cast(h, sc, j, Prepare, Told(sc, i));
    CastVerifies(h, sc, j, Prepare, Told(sc, i));
    HearPrepare(h, sc, i, sys.nodes[i], done, j, vote);
    sys' := Hear(h, sc, sys, i, j, Prepare, Told(sc, i));
    if |done| + 1 == sc.vs.Quorum() {
      BroadcastSigns(h, sc, i, Commit, Told(sc, i), Ingest(h, sys.nodes[i], vote).1);
    }
  }

  lemma FeedCommit(h: HashFn, sc: Scene, sys: System, i: u32, done: set<u32>, j: u32) returns (sys': System)
    requires Keyed(h, sc) && Running(h, sc, sys) && i in sys.nodes && j < sc.vs.N() && j !in done
    requires Uttered(h, sc, sys, j, Commit, Told(sc, i)) && Committing(h, sc, i, sys.nodes[i], done)
    ensures Running(h, sc, sys') && OnlyMoved(sys, sys', i)
    ensures |done| + 1 < sc.vs.Quorum() ==> Committing(h, sc, i, sys'.nodes[i], done + {j})
    ensures |done| + 1 == sc.vs.Quorum() ==> sys'.nodes[i].committed == map[sc.slot := Told(sc, i)]
  {
    CastVerifies(h, sc, j, Commit, Told(sc, i));
    HearCommit(h, sc, i, sys.nodes[i], done, j, Cast(h, sc, j, Commit, Told(sc, i)));
    sys' := Hear(h, sc, sys, i, j, Commit, Told(sc, i));
  }

  /** i has counted its first t Prepares: it is still short of the quorum, or has voted Commit. */
  ghost predicate FedPrepares(h: HashFn, sc: Scene, sys: System, i: u32, t: nat)
    requires Staged(h, sc) && Misled(sc, i) && t <= sc.vs.Quorum()
  {
    i in sys.nodes
    && if t < sc.vs.Quorum() then Preparing(h, sc, i, sys.nodes[i], Voters(sc, i, t)) else CommittingAt(h, sc, sys, i)
  }

  lemma FedPreparesNone(h: HashFn, sc: Scene, sys: System, i: u32)
    requires Staged(h, sc) && Misled(sc, i) && PreparedAt(h, sc, sys, i)
    ensures FedPrepares(h, sc, sys, i, 0)
  {
  }

  /** The rest of the quorum. */
  lemma {:induction false} FeedPrepares(h: HashFn, sc: Scene, sys: System, i: u32, t: nat) returns (sys': System)
    requires Staged(h, sc) && Running(h, sc, sys) && AllUttered(h, sc, sys, Prepare) && Misled(sc, i) && t <= sc.vs.Quorum()
    requires FedPrepares(h, sc, sys, i, t)
    ensures Running(h, sc, sys') && OnlyMoved(sys, sys', i) && CommittingAt(h, sc, sys', i)
    decreases sc.vs.Quorum() - t
  {
    if t == sc.vs.Quorum() {
      sys' := sys;
    } else {
      var next := FeedNextPrepare(h, sc, sys, i, t);
      sys' := FeedPrepares(h, sc, next, i, t + 1);
      MovedTwice(sys, next, sys', i);
    }
  }

  lemma FeedNextPrepare(h: HashFn, sc: Scene, sys: System, i: u32, t: nat) returns (sys': System)
    requires Staged(h, sc) && Running(h, sc, sys) && AllUttered(h, sc, sys, Prepare) && Misled(sc, i) && t < sc.vs.Quorum()
    requires FedPrepares(h, sc, sys, i, t)
    ensures Running(h, sc, sys') && OnlyMoved(sys, sys', i) && AllUttered(h, sc, sys', Prepare)
    ensures FedPrepares(h, sc, sys', i, t + 1)
  {
    VoterUttered(h, sc, sys, i, Prepare, t);
    sys' := FeedPrepare(h, sc, sys, i, Voters(sc, i, t), Voter(sc, SideStart(sc, i), t));
    StillUttered(h, sc, sys, sys', Prepare, i);
  }

  lemma MovedTwice(a: System, b: System, c: System, i: u32)
    requires OnlyMoved(a, b, i) && OnlyMoved(b, c, i)
    ensures OnlyMoved(a, c, i)
  {
  }

  lemma StillUttered(h: HashFn, sc: Scene, sys: System, sys': System, phase: Phase, i: u32)
    requires AllUttered(h, sc, sys, phase) && OnlyMoved(sys, sys', i)
    ensures AllUttered(h, sc, sys', phase)
  {
    forall k: u32 | Misled(sc, k)
      ensures Uttered(h, sc, sys', k, phase, Told(sc, k))
    {
      assert Uttered(h, sc, sys, k, phase, Told(sc, k));
    }
  }

  ghost predicate FedCommits(h: HashFn, sc: Scene, sys: System, i: u32, t: nat)
    requires Staged(h, sc) && Misled(sc, i) && t <= sc.vs.Quorum()
  {
    i in sys.nodes
    && if t < sc.vs.Quorum() then Committing(h, sc, i, sys.nodes[i], Voters(sc, i, t))
       else sys.nodes[i].committed == map[sc.slot := Told(sc, i)]
  }

  lemma FedCommitsNone(h: HashFn, sc: Scene, sys: System, i: u32)
    requires Staged(h, sc) && Misled(sc, i) && CommittingAt(h, sc, sys, i)
    ensures FedCommits(h, sc, sys, i, 0)
  {
  }

  /** The rest of the quorum. */
  lemma {:induction false} FeedCommits(h: HashFn, sc: Scene, sys: System, i: u32, t: nat) returns (sys': System)
    requires Staged(h, sc) && Running(h, sc, sys) && AllUttered(h, sc, sys, Commit) && Misled(sc, i) && t <= sc.vs.Quorum()
    requires FedCommits(h, sc, sys, i, t)
    ensures Running(h, sc, sys') && OnlyMoved(sys, sys', i) && sys'.nodes[i].committed == map[sc.slot := Told(sc, i)]
    decreases sc.vs.Quorum() - t
  {
    if t == sc.vs.Quorum() {
      sys' := sys;
    } else {
      var next := FeedNextCommit(h, sc, sys, i, t);
      sys' := FeedCommits(h, sc, next, i, t + 1);
      MovedTwice(sys, next, sys', i);
    }
  }

  lemma FeedNextCommit(h: HashFn, sc: Scene, sys: System, i: u32, t: nat) returns (sys': System)
    requires Staged(h, sc) && Running(h, sc, sys) && AllUttered(h, sc, sys, Commit) && Misled(sc, i) && t < sc.vs.Quorum()
    requires FedCommits(h, sc, sys, i, t)
    ensures Running(h, sc, sys') && OnlyMoved(sys, sys', i) && AllUttered(h, sc, sys', Commit)
    ensures FedCommits(h, sc, sys', i, t + 1)
  {
    VoterUttered(h, sc, sys, i, Commit, t);
    sys' := FeedCommit(h, sc, sys, i, Voters(sc, i, t), Voter(sc, SideStart(sc, i), t));
    StillUttered(h, sc, sys, sys', Commit, i);
  }

  ghost predicate CommittingIn(h: HashFn, sc: Scene, sys: System, p: nat) {
    forall i: u32 :: Misled(sc, i) && i < p ==> CommittingAt(h, sc, sys, i)
  }

  lemma OneMoreCommitting(h: HashFn, sc: Scene, sys: System, sys': System, p: u32, end: nat)
    requires Keyed(h, sc) && OnlyMoved(sys, sys', p) && CommittingAt(h, sc, sys', p)
    requires CommittingIn(h, sc, sys, p) && PreparedIn(h, sc, sys, p, end)
    ensures CommittingIn(h, sc, sys', p + 1) && PreparedIn(h, sc, sys', p + 1, end)
  {
    forall i: u32 | Misled(sc, i) && i < p
      ensures CommittingAt(h, sc, sys', i)
    {
      assert CommittingAt(h, sc, sys, i);
    }
    forall i: u32 | Misled(sc, i) && p + 1 <= i < end
      ensures PreparedAt(h, sc, sys', i)
    {
      PreparedStays(h, sc, sys, sys', i);
    }
  }

  lemma {:induction false} CommitAll(h: HashFn, sc: Scene, sys0: System, p: nat) returns (sys: System)
    requires Staged(h, sc) && sc.vs.F() <= p <= 3 * sc.vs.F() + 2
    requires Running(h, sc, sys0) && PreparedIn(h, sc, sys0, 0, 3 * sc.vs.F() + 2)
    ensures Running(h, sc, sys) && AllUttered(h, sc, sys, Prepare)
    ensures CommittingIn(h, sc, sys, p) && PreparedIn(h, sc, sys, p, 3 * sc.vs.F() + 2)
    decreases p
  {
    if p == sc.vs.F() {
      sys := sys0;
      PreparesUttered(h, sc, sys);
    } else {
      var prev := CommitAll(h, sc, sys0, p - 1);
      sys := CommitNext(h, sc, prev, p - 1);
    }
  }

  lemma PreparesUttered(h: HashFn, sc: Scene, sys: System)
    requires Keyed(h, sc) && PreparedIn(h, sc, sys, 0, 3 * sc.vs.F() + 2)
    ensures AllUttered(h, sc, sys, Prepare)
  {
    forall i: u32 | Misled(sc, i)
      ensures Uttered(h, sc, sys, i, Prepare, Told(sc, i))
    {
      assert PreparedAt(h, sc, sys, i);
    }
  }

  lemma CommitNext(h: HashFn, sc: Scene, sys: System, p: u32) returns (sys': System)
    requires Staged(h, sc) && Misled(sc, p) && Running(h, sc, sys) && AllUttered(h, sc, sys, Prepare)
    requires CommittingIn(h, sc, sys, p) && PreparedIn(h, sc, sys, p, 3 * sc.vs.F() + 2)
    ensures Running(h, sc, sys') && AllUttered(h, sc, sys', Prepare)
    ensures CommittingIn(h, sc, sys', p + 1) && PreparedIn(h, sc, sys', p + 1, 3 * sc.vs.F() + 2)
  {
    assert PreparedAt(h, sc, sys, p);
    FedPreparesNone(h, sc, sys, p);
    sys' := FeedPrepares(h, sc, sys, p, 0);
    StillUttered(h, sc, sys, sys', Prepare, p);
    OneMoreCommitting(h, sc, sys, sys', p, 3 * sc.vs.F() + 2);
  }

  lemma CommitsUttered(h: HashFn, sc: Scene, sys: System)
    requires CommittingIn(h, sc, sys, 3 * sc.vs.F() + 2)
    ensures AllUttered(h, sc, sys, Commit)
  {
    forall i: u32 | Misled(sc, i)
      ensures Uttered(h, sc, sys, i, Commit, Told(sc, i))
    {
      assert CommittingAt(h, sc, sys, i);
    }
  }

  // Phase 3: one validator of each side hears its Commits, and commits.

  lemma Disagree(h: HashFn, sc: Scene, sys0: System) returns (sys: System)
    requires Staged(h, sc) && Running(h, sc, sys0) && Proposed(h, sc, sys0) && ReadyFrom(h, sc, sys0, 0)
    ensures Running(h, sc, sys) && !Agreement(h, sys)
  {
    var f := sc.vs.F();
    var a: u32, b: u32 := f, 2 * f + 1;
    var prepared := PrepareAll(h, sc, sys0, 3 * f + 2);
    var ready := CommitAll(h, sc, prepared, 3 * f + 2);
    CommitsUttered(h, sc, ready);
    assert CommittingAt(h, sc, ready, a) && CommittingAt(h, sc, ready, b);
    FedCommitsNone(h, sc, ready, a);
    var first := FeedCommits(h, sc, ready, a, 0);
    StillUttered(h, sc, ready, first, Commit, a);
    assert CommittingAt(h, sc, first, b);
    FedCommitsNone(h, sc, first, b);
    sys := FeedCommits(h, sc, first, b, 0);
    assert sys.nodes[a].committed[sc.slot] == sc.v && sys.nodes[b].committed[sc.slot] == sc.u;
    assert !Same(h, sys.nodes[a].committed[sc.slot], sys.nodes[b].committed[sc.slot]);
  }

  /** For every n other than 3f + 1 and any values with different digests there is a run with f
      faults that ends in disagreement. */
  lemma SplitRun(h: HashFn, sc: Scene) returns (steps: seq<Step>, trace: seq<System>)
    requires Staged(h, sc) && sc.start == Start(h, sc)
    ensures Run(h, steps, trace) && trace[0] == sc.start && FewFaults(trace[0])
    ensures !Agreement(h, trace[|steps|])
  {
    var sys0 := ProposeBoth(h, sc);
    var sys := Disagree(h, sc, sys0);
    var n: nat :| InSteps(NextOf(h), sc.start, sys, n);
    steps, trace := Replay(NextOf(h), sc.start, sys, n);
    StartIsInit(h, sc);
    ChainIsRun(h, steps, trace);
    StartHasFewFaults(h, sc);
  }

  lemma StartHasFewFaults(h: HashFn, sc: Scene)
    requires Keyed(h, sc)
    ensures FewFaults(Start(h, sc))
  {
    assert Start(h, sc).nodes.Keys == Range(sc.vs.F(), sc.vs.N());
  }

  /** At most f of the validators are Byzantine. */
  ghost predicate FewFaults(sys: System) {
    |sys.nodes.Keys| + sys.vs.F() >= sys.vs.N() && forall i :: i in sys.nodes ==> i < sys.vs.N()
  }

  /** Every run of these validators with at most f faults ends in agreement. */
  ghost predicate AlwaysAgrees(h: HashFn, vs: ValidatorSet) {
    forall steps: seq<Step>, trace: seq<System> ::
      Run(h, steps, trace) && trace[0].vs == vs && FewFaults(trace[0]) ==> Agreement(h, trace[|steps|])
  }

  /** Agreement in every run with at most f faults holds if and only if n is 3f + 1. */
  lemma AgreementIff3fPlus1(h: HashFn, sc: Scene)
    requires Keyed(h, sc)
    ensures AlwaysAgrees(h, sc.vs) <==> sc.vs.N() == 3 * sc.vs.F() + 1
  {
    if sc.vs.N() == 3 * sc.vs.F() + 1 {
      forall steps: seq<Step>, trace: seq<System> | Run(h, steps, trace) && trace[0].vs == sc.vs && FewFaults(trace[0])
        ensures Agreement(h, trace[|steps|])
      {
        RunsAgree(h, steps, trace, |steps|);
      }
    } else {
      var steps, trace := SplitRun(h, sc.(start := Start(h, sc)));
    }
  }
}
