/** Safety of the consensus protocol over whole runs. The honest validators run the handlers
    of `Validator`; the network delivers any votes in any order, any number of times; up to f
    Byzantine validators sign whatever they like. The only assumption on delivered votes is
    unforgeability: one that verifies under an honest validator's root was signed by it. */
module BftSafety {
  import opened Bytes
  import opened BftTypes
  import opened Validator
  import C = BftCodec

  /** The fact that `signer` signed `ballot`. */
  datatype Signed = Signed(signer: u32, ballot: Ballot)

  /** The honest validators' states and every ballot an honest validator has signed. The
      validators of `vs` missing from `nodes` are the Byzantine ones. */
  datatype System = System(vs: ValidatorSet, nodes: map<u32, State>, signed: set<Signed>)

  datatype Step =
    | Deliver(to: u32, vote: Vote)
    | Proposal(at: u32, slot: u64, value: seq<byte>)
    | Suspect(at: u32)

  /** n = 3f + 1 validators, at most f of them Byzantine. */
  ghost predicate FaultBound(sys: System) {
    && sys.vs.N() == 3 * sys.vs.F() + 1
    && |sys.nodes.Keys| >= 2 * sys.vs.F() + 1
    && forall i :: i in sys.nodes ==> i < sys.vs.N()
  }

  ghost predicate AuthenticVote(h: HashFn, sys: System, v: Vote) {
    Verifies(h, sys.vs, v) && v.signer in sys.nodes ==> Signed(v.signer, BallotOf(v)) in sys.signed
  }

  ghost predicate Authentic(h: HashFn, sys: System, vote: Vote) {
    && AuthenticVote(h, sys, vote)
    && (vote.phase.ViewChange? ==>
        forall e, v :: e in C.DecodeLocks(vote.value) && v in e.lock.cert ==> AuthenticVote(h, sys, v))
  }

  function NewlySigned(out: seq<Out>): set<Signed> {
    set o | o in out && o.Broadcast? :: Signed(o.vote.signer, BallotOf(o.vote))
  }

  function After(sys: System, i: u32, r: (State, seq<Out>)): System {
    sys.(nodes := sys.nodes[i := r.0], signed := sys.signed + NewlySigned(r.1))
  }

  ghost predicate Init(h: HashFn, sys: System) {
    && sys.signed == {}
    && forall i :: i in sys.nodes ==> sys.nodes[i] == InitState(h, i, sys.nodes[i].signer, sys.vs)
  }

  /** The validator a step runs on, and what it runs. */
  function Mover(step: Step): u32 {
    match step
    case Deliver(to, _) => to
    case Proposal(at, _, _) => at
    case Suspect(at) => at
  }

  function Handle(h: HashFn, st: State, step: Step): (State, seq<Out>) {
    match step
    case Deliver(_, vote) => Ingest(h, st, vote)
    case Proposal(_, slot, value) => Propose(h, st, slot, value)
    case Suspect(_) => StartViewChange(h, st)
  }

  ghost predicate Next(h: HashFn, sys: System, step: Step, sys': System) {
    && Mover(step) in sys.nodes
    && (step.Deliver? ==> Authentic(h, sys, step.vote))
    && sys' == After(sys, Mover(step), Handle(h, sys.nodes[Mover(step)], step))
  }

  ghost predicate Run(h: HashFn, steps: seq<Step>, trace: seq<System>) {
    && |trace| == |steps| + 1
    && Init(h, trace[0])
    && forall k :: 0 <= k < |steps| ==> Next(h, trace[k], steps[k], trace[k + 1])
  }

  // ---------- quorums ----------

  ghost function Backers(sys: System, b: Ballot): set<u32> {
    set i | i in sys.nodes && Signed(i, b) in sys.signed
  }

  /** Honest backers plus every Byzantine validator reach a quorum. */
  ghost predicate QuorumFor(sys: System, b: Ballot) {
    |Backers(sys, b)| + sys.vs.N() - |sys.nodes.Keys| >= sys.vs.Quorum()
  }

  lemma {:induction false} Bounded(s: set<u32>, n: nat)
    requires forall x :: x in s ==> x < n
    ensures |s| <= n
  {
    if n == 0 {
      assert s == {};
    } else if n - 1 in s {
      Bounded(s - {n - 1}, n - 1);
    } else {
      Bounded(s, n - 1);
    }
  }

  lemma SubsetSize<T>(a: set<T>, b: set<T>)
    requires a <= b
    ensures |a| <= |b|
  {
    assert b == a + (b - a);
  }

  /** A quorum of signers, each Byzantine or having signed, is a quorum for the ballot. */
  lemma TallyIsQuorum(sys: System, b: Ballot, signers: set<u32>)
    requires FaultBound(sys) && |signers| >= sys.vs.Quorum()
    requires forall j :: j in signers ==> j < sys.vs.N() && (j in sys.nodes ==> Signed(j, b) in sys.signed)
    ensures QuorumFor(sys, b)
  {
    var honest := sys.nodes.Keys;
    SubsetSize(signers * honest, Backers(sys, b));
    var byz := signers - honest;
    Bounded(byz + honest, sys.vs.N());
    assert |byz + honest| == |byz| + |honest|;
    assert signers == signers * honest + byz;
  }

  /** Any two quorums share an honest backer. */
  lemma QuorumsMeet(sys: System, a: Ballot, b: Ballot) returns (i: u32)
    requires FaultBound(sys) && QuorumFor(sys, a) && QuorumFor(sys, b)
    ensures i in Backers(sys, a) && i in Backers(sys, b)
  {
    var x, y := Backers(sys, a), Backers(sys, b);
    SubsetSize(x + y, sys.nodes.Keys);
    assert |x + y| == |x| + |y| - |x * y|;
    if x * y == {} {
      assert false;
    }
    i :| i in x * y;
  }

  lemma QuorumHasHonest(sys: System, b: Ballot) returns (i: u32)
    requires FaultBound(sys) && QuorumFor(sys, b)
    ensures i in sys.nodes && Signed(i, b) in sys.signed
  {
    i := QuorumsMeet(sys, b, b);
  }

  // ---------- invariant ----------

  function PrepareOf(view: u32, slot: u64, vhash: Digest): Ballot { Ballot(view, slot, Prepare, vhash) }
  function CommitOf(view: u32, slot: u64, vhash: Digest): Ballot { Ballot(view, slot, Commit, vhash) }

  /** What a validator has signed in its view is on record, and nothing is from a later view. */
  ghost predicate SentOnRecord(sys: System, i: u32)
    requires i in sys.nodes
  {
    var st := sys.nodes[i];
    && (forall b :: Signed(i, b) in sys.signed && b.phase.Prepare? ==>
        b.view <= st.view && (b.view == st.view ==> (b.view, b.slot) in st.preparedSent))
    && (forall b :: Signed(i, b) in sys.signed && b.phase.Commit? ==>
        b.view <= st.view && (b.view == st.view ==> (b.view, b.slot) in st.commitSent))
  }

  /** One Prepare and one Commit per view and slot. */
  ghost predicate VotesOnce(sys: System, i: u32) {
    forall b, c :: Signed(i, b) in sys.signed && Signed(i, c) in sys.signed &&
      b.phase == c.phase && (b.phase.Prepare? || b.phase.Commit?) && b.view == c.view && b.slot == c.slot
      ==> b.vhash == c.vhash
  }

  ghost predicate SignerSound(sys: System, b: Ballot, j: u32) {
    j < sys.vs.N() && (j in sys.nodes ==> Signed(j, b) in sys.signed)
  }

  ghost predicate TallySound(sys: System, tally: map<Ballot, set<u32>>) {
    forall b, j :: b in tally && j in tally[b] ==> SignerSound(sys, b, j)
  }

  ghost predicate RetainedVoteSound(h: HashFn, vs: ValidatorSet, b: Ballot, j: u32, v: Vote) {
    v.signer == j && BallotOf(v) == b && Verifies(h, vs, v)
  }

  /** Every tallied Prepare is retained as a verifying vote, ready for a certificate. */
  ghost predicate RetainedSound(h: HashFn, vs: ValidatorSet, tally: map<Ballot, set<u32>>,
                                retained: map<Ballot, map<u32, Vote>>) {
    && (forall b :: b in tally && b.phase.Prepare? ==> b in retained)
    && (forall b :: b in retained ==> b.phase.Prepare? && b in tally && retained[b].Keys == tally[b])
    && (forall b, j :: b in retained && j in retained[b] ==> RetainedVoteSound(h, vs, b, j, retained[b][j]))
  }

  ghost predicate LockSound(h: HashFn, sys: System, slot: u64, l: Lock) {
    && CertVerifies(h, sys.vs, slot, l)
    && forall v :: v in l.cert ==> AuthenticVote(h, sys, v)
  }

  ghost predicate LocksSound(h: HashFn, sys: System, locked: map<u64, Lock>) {
    forall slot :: slot in locked ==> LockSound(h, sys, slot, locked[slot])
  }

  /** A validator stays locked at or above every view in which it sent Commit. */
  ghost predicate CommitsLocked(h: HashFn, sys: System, i: u32)
    requires i in sys.nodes
  {
    var locked := sys.nodes[i].locked;
    forall b :: Signed(i, b) in sys.signed && b.phase.Commit? ==>
      && b.slot in locked && b.view <= locked[b.slot].view
      && (b.view == locked[b.slot].view ==> h(locked[b.slot].value) == b.vhash)
  }

  ghost predicate CommittedSound(h: HashFn, sys: System, committed: map<u64, seq<byte>>) {
    forall slot :: slot in committed ==> exists view: u32 :: QuorumFor(sys, CommitOf(view, slot, h(committed[slot])))
  }

  ghost predicate NodeInv(h: HashFn, sys: System, i: u32)
    requires i in sys.nodes
  {
    var st := sys.nodes[i];
    && st.id == i && st.vs == sys.vs
    && SentOnRecord(sys, i) && VotesOnce(sys, i) && CommitsLocked(h, sys, i)
    && TallySound(sys, st.tally) && RetainedSound(h, sys.vs, st.tally, st.prepareVotes)
    && LocksSound(h, sys, st.locked) && CommittedSound(h, sys, st.committed)
  }

  /** Commits rest on Prepare quorums. */
  ghost predicate CommitsJustified(sys: System) {
    forall s :: s in sys.signed && s.ballot.phase.Commit? ==>
      QuorumFor(sys, PrepareOf(s.ballot.view, s.ballot.slot, s.ballot.vhash))
  }

  /** Some Prepare quorum for (slot, vhash) lies in a view above x. */
  ghost predicate PreparedAbove(sys: System, x: int, slot: u64, vhash: Digest) {
    exists y: u32 :: y > x && QuorumFor(sys, PrepareOf(y, slot, vhash))
  }

  /** p prepares another value than the commit c, for the same slot, in a later view. */
  ghost predicate Overtakes(p: Ballot, c: Ballot) {
    && p.phase.Prepare? && c.phase.Commit?
    && p.slot == c.slot && c.view < p.view && p.vhash != c.vhash
  }

  /** After committing v, a validator prepares another u only if a later quorum prepared u. */
  ghost predicate SwitchesJustified(sys: System) {
    forall i, c, p :: Signed(i, c) in sys.signed && Signed(i, p) in sys.signed && Overtakes(p, c)
      ==> PreparedAbove(sys, c.view, c.slot, p.vhash)
  }

  /** Honest validators that have left `c.view` without signing c: they never will. */
  ghost function Abstainers(sys: System, c: Ballot): set<u32> {
    set i | i in sys.nodes && sys.nodes[i].view > c.view && Signed(i, c) !in sys.signed
  }

  /** A Prepare quorum rules out every commit of another value in an earlier view. */
  ghost predicate EarlierCommitsBlocked(sys: System) {
    forall p: Ballot, c: Ballot :: QuorumFor(sys, p) && Overtakes(p, c)
      ==> |Abstainers(sys, c)| >= sys.vs.F() + 1
  }

  ghost predicate Inv(h: HashFn, sys: System) {
    && FaultBound(sys)
    && (forall s :: s in sys.signed ==> s.signer in sys.nodes)
    && (forall i :: i in sys.nodes ==> NodeInv(h, sys, i))
    && CommitsJustified(sys) && SwitchesJustified(sys) && EarlierCommitsBlocked(sys)
  }

  lemma LockIsQuorum(h: HashFn, sys: System, slot: u64, l: Lock)
    requires FaultBound(sys) && LockSound(h, sys, slot, l)
    ensures QuorumFor(sys, PrepareOf(l.view, slot, h(l.value)))
  {
    TallyIsQuorum(sys, PrepareOf(l.view, slot, h(l.value)), Signers(l.cert));
  }

  /** Blocked commits have no quorum. */
  lemma BlockedHasNoQuorum(sys: System, c: Ballot)
    requires FaultBound(sys) && |Abstainers(sys, c)| >= sys.vs.F() + 1
    ensures !QuorumFor(sys, c)
  {
    var x, y := Backers(sys, c), Abstainers(sys, c);
    SubsetSize(x + y, sys.nodes.Keys);
    assert x !! y;
    assert |x + y| == |x| + |y|;
  }

  /** Two values with commit quorums for one slot have the same hash. */
  lemma CommitQuorumsAgree(h: HashFn, sys: System, x: u32, y: u32, slot: u64, v: Digest, u: Digest)
    requires Inv(h, sys) && x <= y
    requires QuorumFor(sys, CommitOf(x, slot, v)) && QuorumFor(sys, CommitOf(y, slot, u))
    ensures v == u
  {
    if x == y {
      var i := QuorumsMeet(sys, CommitOf(x, slot, v), CommitOf(y, slot, u));
      assert NodeInv(h, sys, i);
    } else if v != u {
      var i := QuorumHasHonest(sys, CommitOf(y, slot, u));
      assert Signed(i, CommitOf(y, slot, u)) in sys.signed;
      assert QuorumFor(sys, PrepareOf(y, slot, u));
      assert Overtakes(PrepareOf(y, slot, u), CommitOf(x, slot, v));
      BlockedHasNoQuorum(sys, CommitOf(x, slot, v));
    }
  }

  /** The same value, unless the two are a hash collision. */
  predicate Same(h: HashFn, a: seq<byte>, b: seq<byte>) {
    a == b || Collide(h, a, b)
  }

  /** Agreement: honest validators never commit different values for one slot. */
  ghost predicate Agreement(h: HashFn, sys: System) {
    forall i, j, slot :: i in sys.nodes && j in sys.nodes && slot in sys.nodes[i].committed && slot in sys.nodes[j].committed
      ==> Same(h, sys.nodes[i].committed[slot], sys.nodes[j].committed[slot])
  }

  lemma InvImpliesAgreement(h: HashFn, sys: System)
    requires Inv(h, sys)
    ensures Agreement(h, sys)
  {
    forall i, j, slot | i in sys.nodes && j in sys.nodes && slot in sys.nodes[i].committed && slot in sys.nodes[j].committed
      ensures Same(h, sys.nodes[i].committed[slot], sys.nodes[j].committed[slot])
    {
      var a, b := sys.nodes[i].committed[slot], sys.nodes[j].committed[slot];
      assert NodeInv(h, sys, i) && NodeInv(h, sys, j);
      var x: u32 :| QuorumFor(sys, CommitOf(x, slot, h(a)));
      var y: u32 :| QuorumFor(sys, CommitOf(y, slot, h(b)));
      if x <= y {
        CommitQuorumsAgree(h, sys, x, y, slot, h(a), h(b));
      } else {
        CommitQuorumsAgree(h, sys, y, x, slot, h(b), h(a));
      }
    }
  }

  // ---------- one handler call, seen from one validator ----------

  ghost predicate LockStep(st: State, slot: u64, l: Lock)
    requires slot in st.locked
  {
    || l == st.locked[slot]
    || l.view > st.locked[slot].view
    || (l.view == st.view && (st.view, slot) !in st.commitSent)
  }

  ghost predicate Sends(h: HashFn, st: State, st': State, b: Ballot) {
    && (b.phase.Prepare? ==>
        && b.view == st.view == st'.view && st'.locked == st.locked
        && (b.view, b.slot) !in st.preparedSent && (b.view, b.slot) in st'.preparedSent
        && (b.slot in st.locked ==> h(st.locked[b.slot].value) == b.vhash))
    && (b.phase.Commit? ==>
        && b.view == st.view == st'.view
        && (b.view, b.slot) !in st.commitSent && (b.view, b.slot) in st'.commitSent
        && b.slot in st'.locked && st'.locked[b.slot].view == b.view
        && h(st'.locked[b.slot].value) == b.vhash)
  }

  ghost predicate Recorded(st: State, st': State) {
    && st'.id == st.id && st'.vs == st.vs && st.view <= st'.view
    && (st.view == st'.view ==> st.preparedSent <= st'.preparedSent && st.commitSent <= st'.commitSent)
    && (forall slot :: slot in st.locked ==> slot in st'.locked && LockStep(st, slot, st'.locked[slot]))
    && (forall slot :: slot in st.committed ==> slot in st'.committed && st'.committed[slot] == st.committed[slot])
  }

  /** What a handler may do to a validator's record of itself. */
  ghost predicate LocalStep(h: HashFn, st: State, r: (State, seq<Out>)) {
    && Recorded(st, r.0)
    && |r.1| <= 1
    && (forall o :: o in r.1 && o.Broadcast? ==> o.vote.signer == st.id && Sends(h, st, r.0, BallotOf(o.vote)))
  }

  lemma {:induction false} MergeRaises(h: HashFn, vs: ValidatorSet, locked: map<u64, Lock>, entries: seq<SlotLock>)
    ensures forall slot :: slot in locked ==>
      var m := MergeLocks(h, vs, locked, entries);
      slot in m && (m[slot] == locked[slot] || m[slot].view > locked[slot].view)
    decreases |entries|
  {
    if entries != [] {
      MergeRaises(h, vs, MergeLock(h, vs, locked, entries[0]), entries[1..]);
    }
  }

  lemma ViewChangeLocal(h: HashFn, st: State, vote: Vote, entries: seq<SlotLock>)
    requires vote.view > st.view
    ensures LocalStep(h, st, ViewChangeWith(h, st, vote, entries))
  {
    MergeRaises(h, st.vs, st.locked, entries);
  }

  /** Signing changes nothing but the signer, and emits at most the one vote asked for. */
  lemma VoteLocal(h: HashFn, st: State, st1: State, slot: u64, phase: Phase, value: seq<byte>)
    requires LocalStep(h, st, (st1, []))
    requires Sends(h, st, st1, Ballot(st1.view, slot, phase, h(value)))
    ensures LocalStep(h, st, MakeVote(h, st1, slot, phase, value))
  {
  }

  lemma PrePrepareLocal(h: HashFn, st: State, vote: Vote)
    requires vote.vhash == h(vote.value)
    ensures LocalStep(h, st, IngestPrePrepare(h, st, vote))
  {
    if && vote.view == st.view && (vote.slot in st.locked ==> h(st.locked[vote.slot].value) == vote.vhash)
       && (st.view, vote.slot) !in st.preparedSent {
      var st1 := st.(preparedSent := st.preparedSent + {(st.view, vote.slot)});
      VoteLocal(h, st, st1, vote.slot, Prepare, vote.value);
    }
  }

  lemma LockLocal(h: HashFn, st: State, st1: State, vote: Vote, cert: seq<Vote>)
    requires vote.vhash == h(vote.value) && vote.view == st.view && (st.view, vote.slot) !in st.commitSent
    requires st1 == st.(tally := st1.tally, prepareVotes := st1.prepareVotes)
    ensures LocalStep(h, st, LockAndCommit(h, st1, vote, cert))
  {
    var st2 := st1.(commitSent := st1.commitSent + {(st.view, vote.slot)},
                    locked := st1.locked[vote.slot := Lock(st.view, vote.value, cert)]);
    VoteLocal(h, st, st2, vote.slot, Commit, vote.value);
  }

  lemma PrepareLocal(h: HashFn, st: State, vote: Vote)
    requires vote.vhash == h(vote.value)
    ensures LocalStep(h, st, IngestPrepare(h, st, vote))
  {
    if vote.view == st.view {
      var st1 := TallyVote(RetainVote(st, vote), vote);
      if |st1.tally[BallotOf(vote)]| >= st.vs.Quorum() && (st.view, vote.slot) !in st.commitSent {
        LockLocal(h, st, st1, vote, CertOf(st1.prepareVotes[BallotOf(vote)]));
      }
    }
  }

  lemma CommitLocal(h: HashFn, st: State, vote: Vote)
    ensures LocalStep(h, st, IngestCommit(h, st, vote))
  {
  }

  lemma DispatchLocal(h: HashFn, st: State, vote: Vote)
    requires vote.vhash == h(vote.value)
    ensures LocalStep(h, st, Dispatch(h, st, vote))
  {
    match vote.phase
    case ViewChange =>
      if vote.view > st.view {
        ViewChangeLocal(h, st, vote, C.DecodeLocks(vote.value));
      }
    case PrePrepare => PrePrepareLocal(h, st, vote);
    case Prepare => PrepareLocal(h, st, vote);
    case Commit => CommitLocal(h, st, vote);
  }

  lemma IngestLocal(h: HashFn, st: State, vote: Vote)
    ensures LocalStep(h, st, Ingest(h, st, vote))
  {
    if Verifies(h, st.vs, vote) {
      var st1 := st.(seen := st.seen[SeenKey(vote.signer, vote.view, vote.slot, vote.phase) := vote]);
      DispatchLocal(h, st, vote);
      DispatchLocal(h, st1, vote);
      SeenIrrelevant(h, st, st1, Dispatch(h, st1, vote));
    }
  }

  lemma SeenIrrelevant(h: HashFn, st: State, st1: State, r: (State, seq<Out>))
    requires st1 == st.(seen := st1.seen) && LocalStep(h, st1, r)
    ensures LocalStep(h, st, r)
  {
  }

  lemma ProposeLocal(h: HashFn, st: State, slot: u64, value: seq<byte>)
    ensures LocalStep(h, st, Propose(h, st, slot, value))
  {
    VoteLocal(h, st, st, slot, PrePrepare, if slot in st.locked then st.locked[slot].value else value);
  }

  lemma RequestLocal(h: HashFn, st: State, target: u32, payload: seq<byte>)
    ensures LocalStep(h, st, RequestWith(h, st, target, payload))
  {
  }

  lemma SuspectLocal(h: HashFn, st: State)
    ensures LocalStep(h, st, StartViewChange(h, st))
  {
    RequestLocal(h, st, NextView(st.view), C.EncodeLocks(st.locked));
  }

  // ---------- one handler call keeps the records sound ----------

  ghost predicate Sound(h: HashFn, sys: System, st: State) {
    && st.vs == sys.vs
    && TallySound(sys, st.tally) && RetainedSound(h, sys.vs, st.tally, st.prepareVotes)
    && LocksSound(h, sys, st.locked) && CommittedSound(h, sys, st.committed)
  }

  /** Signing, and the bookkeeping of what was sent, leaves the records alone. */
  lemma VoteSound(h: HashFn, sys: System, st: State, slot: u64, phase: Phase, value: seq<byte>)
    requires Sound(h, sys, st)
    ensures Sound(h, sys, MakeVote(h, st, slot, phase, value).0)
  {
  }

  lemma TallyVoteSound(sys: System, st: State, vote: Vote)
    requires TallySound(sys, st.tally) && SignerSound(sys, BallotOf(vote), vote.signer)
    ensures TallySound(sys, TallyVote(st, vote).tally)
  {
  }

  lemma RetainSound(h: HashFn, sys: System, st: State, vote: Vote)
    requires RetainedSound(h, sys.vs, st.tally, st.prepareVotes) && vote.phase.Prepare? && Verifies(h, sys.vs, vote)
    ensures var st1 := TallyVote(RetainVote(st, vote), vote);
      RetainedSound(h, sys.vs, st1.tally, st1.prepareVotes)
  {
    var st1, b := TallyVote(RetainVote(st, vote), vote), BallotOf(vote);
    assert st1.prepareVotes[b].Keys == st1.tally[b];
  }

  lemma CertSigners(votes: map<u32, Vote>, cert: seq<Vote>)
    requires forall j :: j in votes ==> votes[j].signer == j && votes[j] in cert
    ensures |Signers(cert)| >= |votes.Keys|
  {
    forall j | j in votes
      ensures j in Signers(cert)
    {
      assert votes[j] in cert && votes[j].signer == j;
    }
    SubsetSize(votes.Keys, Signers(cert));
  }

  /** A quorum of retained votes is a certificate. */
  lemma NewLockSound(h: HashFn, sys: System, b: Ballot, votes: map<u32, Vote>, value: seq<byte>, cert: seq<Vote>)
    requires b.phase.Prepare? && b.vhash == h(value) && |votes.Keys| >= sys.vs.Quorum()
    requires forall j :: j in votes ==> RetainedVoteSound(h, sys.vs, b, j, votes[j]) && SignerSound(sys, b, j)
    requires forall j :: j in votes ==> votes[j] in cert
    requires forall v :: v in cert ==> exists j :: j in votes && v == votes[j]
    ensures LockSound(h, sys, b.slot, Lock(b.view, value, cert))
  {
    CertSigners(votes, cert);
    forall v | v in cert
      ensures Justifies(h, sys.vs, b.slot, b.view, value, v) && AuthenticVote(h, sys, v)
    {
      var j :| j in votes && v == votes[j];
      assert RetainedVoteSound(h, sys.vs, b, j, v) && SignerSound(sys, b, j);
    }
  }

  lemma IngestPrepareSound(h: HashFn, sys: System, st: State, vote: Vote)
    requires Sound(h, sys, st) && vote.phase.Prepare? && Verifies(h, sys.vs, vote) && AuthenticVote(h, sys, vote)
    ensures Sound(h, sys, IngestPrepare(h, st, vote).0)
  {
    if vote.view == st.view {
      var st1 := TallyVote(RetainVote(st, vote), vote);
      TallyVoteSound(sys, RetainVote(st, vote), vote);
      RetainSound(h, sys, st, vote);
      if |st1.tally[BallotOf(vote)]| >= st.vs.Quorum() && (st.view, vote.slot) !in st.commitSent {
        var b, votes := BallotOf(vote), st1.prepareVotes[BallotOf(vote)];
        CertMembers(votes);
        assert forall j :: j in votes ==> j in st1.tally[b];
        NewLockSound(h, sys, b, votes, vote.value, CertOf(votes));
        LockAndCommitSound(h, sys, st1, vote, CertOf(votes));
      }
    }
  }

  lemma LockAndCommitSound(h: HashFn, sys: System, st: State, vote: Vote, cert: seq<Vote>)
    requires Sound(h, sys, st) && LockSound(h, sys, vote.slot, Lock(st.view, vote.value, cert))
    ensures Sound(h, sys, LockAndCommit(h, st, vote, cert).0)
  {
    var st1 := st.(commitSent := st.commitSent + {(st.view, vote.slot)},
                   locked := st.locked[vote.slot := Lock(st.view, vote.value, cert)]);
    VoteSound(h, sys, st1, vote.slot, Commit, vote.value);
  }

  lemma NewCommitSound(h: HashFn, sys: System, committed: map<u64, seq<byte>>, view: u32, slot: u64, value: seq<byte>)
    requires CommittedSound(h, sys, committed) && QuorumFor(sys, CommitOf(view, slot, h(value)))
    ensures CommittedSound(h, sys, committed[slot := value])
  {
  }

  lemma IngestCommitSound(h: HashFn, sys: System, st: State, vote: Vote)
    requires FaultBound(sys) && Sound(h, sys, st)
    requires vote.phase.Commit? && vote.vhash == h(vote.value) && SignerSound(sys, BallotOf(vote), vote.signer)
    ensures Sound(h, sys, IngestCommit(h, st, vote).0)
  {
    var b, st1 := BallotOf(vote), TallyVote(st, vote);
    TallyVoteSound(sys, st, vote);
    if |st1.tally[b]| >= st.vs.Quorum() {
      forall j | j in st1.tally[b]
        ensures SignerSound(sys, b, j)
      {
      }
      TallyIsQuorum(sys, b, st1.tally[b]);
      assert b == CommitOf(vote.view, vote.slot, h(vote.value));
      NewCommitSound(h, sys, st.committed, vote.view, vote.slot, vote.value);
    }
  }

  lemma {:induction false} MergeSound(h: HashFn, sys: System, locked: map<u64, Lock>, entries: seq<SlotLock>)
    requires LocksSound(h, sys, locked)
    requires forall e, v :: e in entries && v in e.lock.cert ==> AuthenticVote(h, sys, v)
    ensures LocksSound(h, sys, MergeLocks(h, sys.vs, locked, entries))
    decreases |entries|
  {
    if entries != [] {
      MergeSound(h, sys, MergeLock(h, sys.vs, locked, entries[0]), entries[1..]);
    }
  }

  lemma ViewChangeSound(h: HashFn, sys: System, st: State, vote: Vote, entries: seq<SlotLock>)
    requires Sound(h, sys, st)
    requires forall e, v :: e in entries && v in e.lock.cert ==> AuthenticVote(h, sys, v)
    ensures Sound(h, sys, ViewChangeWith(h, st, vote, entries).0)
  {
    MergeSound(h, sys, st.locked, entries);
  }

  lemma DispatchSound(h: HashFn, sys: System, st: State, vote: Vote)
    requires FaultBound(sys) && Sound(h, sys, st) && Verifies(h, sys.vs, vote) && Authentic(h, sys, vote)
    ensures Sound(h, sys, Dispatch(h, st, vote).0)
  {
    match vote.phase
    case ViewChange => ViewChangeSound(h, sys, st, vote, C.DecodeLocks(vote.value));
    case PrePrepare =>
      VoteSound(h, sys, st.(preparedSent := st.preparedSent + {(st.view, vote.slot)}), vote.slot, Prepare, vote.value);
    case Prepare => IngestPrepareSound(h, sys, st, vote);
    case Commit => IngestCommitSound(h, sys, st, vote);
  }

  lemma IngestSound(h: HashFn, sys: System, st: State, vote: Vote)
    requires FaultBound(sys) && Sound(h, sys, st) && Authentic(h, sys, vote)
    ensures Sound(h, sys, Ingest(h, st, vote).0)
  {
    if Verifies(h, st.vs, vote) {
      DispatchSound(h, sys, st, vote);
      DispatchSound(h, sys, st.(seen := st.seen[SeenKey(vote.signer, vote.view, vote.slot, vote.phase) := vote]), vote);
    }
  }

  // ---------- one step of the system keeps the invariant ----------

  /** sys' is sys after validator i moved to st', signing the ballot `sent` if any. */
  ghost predicate Moved(h: HashFn, sys: System, i: u32, st': State, sent: Option<Ballot>, sys': System) {
    && i in sys.nodes && sys.nodes[i].id == i
    && sys' == System(sys.vs, sys.nodes[i := st'], sys.signed + (if sent.None? then {} else {Signed(i, sent.value)}))
    && Recorded(sys.nodes[i], st')
    && (sent.Some? ==> Sends(h, sys.nodes[i], st', sent.value))
  }

  lemma HandlerMoves(h: HashFn, sys: System, i: u32, r: (State, seq<Out>)) returns (sent: Option<Ballot>)
    requires i in sys.nodes && sys.nodes[i].id == i && LocalStep(h, sys.nodes[i], r)
    ensures Moved(h, sys, i, r.0, sent, After(sys, i, r))
  {
    if r.1 == [] || !r.1[0].Broadcast? {
      sent := None;
      assert NewlySigned(r.1) == {};
    } else {
      var v := r.1[0].vote;
      sent := Some(BallotOf(v));
      assert r.1[0] in r.1 && r.1 == [r.1[0]];
      assert NewlySigned(r.1) == {Signed(i, BallotOf(v))};
    }
  }

  lemma QuorumGrows(sys: System, sys': System, b: Ballot)
    requires sys'.nodes.Keys == sys.nodes.Keys && sys.signed <= sys'.signed && sys'.vs == sys.vs
    ensures QuorumFor(sys, b) ==> QuorumFor(sys', b)
  {
    SubsetSize(Backers(sys, b), Backers(sys', b));
  }

  lemma SoundGrows(h: HashFn, sys: System, sys': System, st: State)
    requires sys'.nodes.Keys == sys.nodes.Keys && sys.signed <= sys'.signed && sys'.vs == sys.vs
    requires Sound(h, sys, st)
    ensures Sound(h, sys', st)
  {
    forall slot | slot in st.committed
      ensures exists view: u32 :: QuorumFor(sys', CommitOf(view, slot, h(st.committed[slot])))
    {
      var view: u32 :| QuorumFor(sys, CommitOf(view, slot, h(st.committed[slot])));
      QuorumGrows(sys, sys', CommitOf(view, slot, h(st.committed[slot])));
    }
    assert TallySound(sys', st.tally) by {
      assert forall b, j :: SignerSound(sys, b, j) ==> SignerSound(sys', b, j);
    }
    assert LocksSound(h, sys', st.locked) by {
      assert forall v :: AuthenticVote(h, sys, v) ==> AuthenticVote(h, sys', v);
    }
  }

  lemma OthersKeep(h: HashFn, sys: System, i: u32, st': State, sent: Option<Ballot>, sys': System, j: u32)
    requires Moved(h, sys, i, st', sent, sys') && j in sys.nodes && j != i && NodeInv(h, sys, j)
    ensures NodeInv(h, sys', j)
  {
    assert forall b :: Signed(j, b) in sys'.signed ==> Signed(j, b) in sys.signed;
    SoundGrows(h, sys, sys', sys.nodes[j]);
  }

  lemma MoverOnRecord(h: HashFn, sys: System, i: u32, st': State, sent: Option<Ballot>, sys': System)
    requires Moved(h, sys, i, st', sent, sys') && SentOnRecord(sys, i)
    ensures SentOnRecord(sys', i)
  {
  }

  lemma MoverVotesOnce(h: HashFn, sys: System, i: u32, st': State, sent: Option<Ballot>, sys': System)
    requires Moved(h, sys, i, st', sent, sys') && SentOnRecord(sys, i) && VotesOnce(sys, i)
    ensures VotesOnce(sys', i)
  {
  }

  lemma MoverCommitsLocked(h: HashFn, sys: System, i: u32, st': State, sent: Option<Ballot>, sys': System)
    requires Moved(h, sys, i, st', sent, sys') && SentOnRecord(sys, i) && CommitsLocked(h, sys, i)
    ensures CommitsLocked(h, sys', i)
  {
    forall b | Signed(i, b) in sys'.signed && b.phase.Commit? && Signed(i, b) in sys.signed
      ensures b.slot in st'.locked && b.view <= st'.locked[b.slot].view
      ensures b.view == st'.locked[b.slot].view ==> h(st'.locked[b.slot].value) == b.vhash
    {
      assert LockStep(sys.nodes[i], b.slot, st'.locked[b.slot]);
    }
  }

  lemma MoverKeeps(h: HashFn, sys: System, i: u32, st': State, sent: Option<Ballot>, sys': System)
    requires Moved(h, sys, i, st', sent, sys') && NodeInv(h, sys, i) && Sound(h, sys, st')
    ensures NodeInv(h, sys', i)
  {
    MoverOnRecord(h, sys, i, st', sent, sys');
    MoverVotesOnce(h, sys, i, st', sent, sys');
    MoverCommitsLocked(h, sys, i, st', sent, sys');
    SoundGrows(h, sys, sys', st');
  }

  lemma CommitsStayJustified(h: HashFn, sys: System, i: u32, st': State, sent: Option<Ballot>, sys': System)
    requires Moved(h, sys, i, st', sent, sys') && FaultBound(sys) && CommitsJustified(sys) && LocksSound(h, sys, st'.locked)
    ensures CommitsJustified(sys')
  {
    forall s | s in sys'.signed && s.ballot.phase.Commit?
      ensures QuorumFor(sys', PrepareOf(s.ballot.view, s.ballot.slot, s.ballot.vhash))
    {
      var b := s.ballot;
      if s !in sys.signed {
        LockIsQuorum(h, sys, b.slot, st'.locked[b.slot]);
      }
      QuorumGrows(sys, sys', PrepareOf(b.view, b.slot, b.vhash));
    }
  }

  /** A validator that committed c and now prepares another value p was moved by a lock, and
      that lock is a Prepare quorum that existed before this step. */
  lemma SwitchRestsOnOldQuorum(h: HashFn, sys: System, i: u32, st': State, sent: Option<Ballot>, sys': System,
                               j: u32, c: Ballot, p: Ballot)
    requires Moved(h, sys, i, st', sent, sys') && FaultBound(sys) && NodeInv(h, sys, i) && SwitchesJustified(sys)
    requires Signed(j, c) in sys'.signed && Signed(j, p) in sys'.signed && Overtakes(p, c)
    ensures PreparedAbove(sys, c.view, c.slot, p.vhash)
  {
    if sent == Some(p) && j == i && Signed(j, p) !in sys.signed {
      var l := sys.nodes[i].locked[c.slot];
      LockIsQuorum(h, sys, c.slot, l);
      assert l.view > c.view;
    }
  }

  lemma SwitchesStayJustified(h: HashFn, sys: System, i: u32, st': State, sent: Option<Ballot>, sys': System)
    requires Moved(h, sys, i, st', sent, sys') && FaultBound(sys) && NodeInv(h, sys, i) && SwitchesJustified(sys)
    ensures SwitchesJustified(sys')
  {
    forall j, c, p | Signed(j, c) in sys'.signed && Signed(j, p) in sys'.signed && Overtakes(p, c)
      ensures PreparedAbove(sys', c.view, c.slot, p.vhash)
    {
      SwitchRestsOnOldQuorum(h, sys, i, st', sent, sys', j, c, p);
      var y: u32 :| y > c.view && QuorumFor(sys, PrepareOf(y, c.slot, p.vhash));
      QuorumGrows(sys, sys', PrepareOf(y, c.slot, p.vhash));
    }
  }

  lemma AbstainersGrow(h: HashFn, sys: System, i: u32, st': State, sent: Option<Ballot>, sys': System, c: Ballot)
    requires Moved(h, sys, i, st', sent, sys') && c.phase.Commit?
    ensures |Abstainers(sys, c)| <= |Abstainers(sys', c)|
  {
    assert Abstainers(sys, c) <= Abstainers(sys', c);
    SubsetSize(Abstainers(sys, c), Abstainers(sys', c));
  }

  lemma BackersAbstain(sys: System, p: Ballot, c: Ballot)
    requires FaultBound(sys) && QuorumFor(sys, p) && Overtakes(p, c)
    requires forall j :: j in sys.nodes ==> SentOnRecord(sys, j)
    requires forall j :: j in Backers(sys, p) ==> Signed(j, c) !in sys.signed
    ensures |Abstainers(sys, c)| >= sys.vs.F() + 1
  {
    forall j | j in Backers(sys, p)
      ensures j in Abstainers(sys, c)
    {
      assert SentOnRecord(sys, j);
    }
    SubsetSize(Backers(sys, p), Abstainers(sys, c));
  }

  /** The heart of cross-view safety. A Prepare quorum p either has f + 1 honest members that
      never committed c, or contains one that did; the lock that let it switch is an older
      quorum for the same value above c, which already blocked c. */
  lemma QuorumBlocks(h: HashFn, sys: System, i: u32, st': State, sent: Option<Ballot>, sys': System, p: Ballot, c: Ballot)
    requires Moved(h, sys, i, st', sent, sys') && FaultBound(sys) && NodeInv(h, sys, i)
    requires SwitchesJustified(sys) && EarlierCommitsBlocked(sys)
    requires forall j :: j in sys'.nodes ==> SentOnRecord(sys', j)
    requires QuorumFor(sys', p) && Overtakes(p, c)
    ensures |Abstainers(sys', c)| >= sys'.vs.F() + 1
  {
    if j :| j in Backers(sys', p) && Signed(j, c) in sys'.signed {
      SwitchRestsOnOldQuorum(h, sys, i, st', sent, sys', j, c, p);
      var y: u32 :| y > c.view && QuorumFor(sys, PrepareOf(y, c.slot, p.vhash));
      assert Overtakes(PrepareOf(y, c.slot, p.vhash), c);
      AbstainersGrow(h, sys, i, st', sent, sys', c);
    } else {
      BackersAbstain(sys', p, c);
    }
  }

  lemma StepKeepsInv(h: HashFn, sys: System, i: u32, r: (State, seq<Out>), sys': System)
    requires Inv(h, sys) && i in sys.nodes && LocalStep(h, sys.nodes[i], r) && Sound(h, sys, r.0)
    requires sys' == After(sys, i, r)
    ensures Inv(h, sys')
  {
    var st' := r.0;
    assert NodeInv(h, sys, i);
    var sent := HandlerMoves(h, sys, i, r);
    forall j | j in sys'.nodes
      ensures NodeInv(h, sys', j)
    {
      if j == i {
        MoverKeeps(h, sys, i, st', sent, sys');
      } else {
        OthersKeep(h, sys, i, st', sent, sys', j);
      }
    }
    assert sys'.nodes.Keys == sys.nodes.Keys;
    CommitsStayJustified(h, sys, i, st', sent, sys');
    SwitchesStayJustified(h, sys, i, st', sent, sys');
    forall p: Ballot, c: Ballot | QuorumFor(sys', p) && Overtakes(p, c)
      ensures |Abstainers(sys', c)| >= sys'.vs.F() + 1
    {
      QuorumBlocks(h, sys, i, st', sent, sys', p, c);
    }
  }

  lemma HandleLocal(h: HashFn, st: State, step: Step)
    ensures LocalStep(h, st, Handle(h, st, step))
  {
    match step
    case Deliver(_, vote) => IngestLocal(h, st, vote);
    case Proposal(_, slot, value) => ProposeLocal(h, st, slot, value);
    case Suspect(_) => SuspectLocal(h, st);
  }

  lemma HandleSound(h: HashFn, sys: System, st: State, step: Step)
    requires FaultBound(sys) && Sound(h, sys, st) && (step.Deliver? ==> Authentic(h, sys, step.vote))
    ensures Sound(h, sys, Handle(h, st, step).0)
  {
    match step
    case Deliver(_, vote) => IngestSound(h, sys, st, vote);
    case Proposal(_, slot, value) =>
      VoteSound(h, sys, st, slot, PrePrepare, if slot in st.locked then st.locked[slot].value else value);
    case Suspect(_) => RequestSound(h, sys, st, NextView(st.view), C.EncodeLocks(st.locked));
  }

  lemma NextKeepsInv(h: HashFn, sys: System, step: Step, sys': System)
    requires Inv(h, sys) && Next(h, sys, step, sys')
    ensures Inv(h, sys')
  {
    var i := Mover(step);
    assert NodeInv(h, sys, i);
    HandleLocal(h, sys.nodes[i], step);
    HandleSound(h, sys, sys.nodes[i], step);
    StepKeepsInv(h, sys, i, Handle(h, sys.nodes[i], step), sys');
  }

  lemma RequestSound(h: HashFn, sys: System, st: State, target: u32, payload: seq<byte>)
    requires Sound(h, sys, st)
    ensures Sound(h, sys, RequestWith(h, st, target, payload).0)
  {
  }

  // ---------- runs ----------

  lemma InitHasInv(h: HashFn, sys: System)
    requires Init(h, sys) && FaultBound(sys)
    ensures Inv(h, sys)
  {
    forall b
      ensures !QuorumFor(sys, b)
    {
      assert Backers(sys, b) == {};
    }
  }

  lemma RunStartsWithInv(h: HashFn, steps: seq<Step>, trace: seq<System>)
    requires Run(h, steps, trace) && FaultBound(trace[0])
    ensures Inv(h, trace[0])
  {
    InitHasInv(h, trace[0]);
  }

  lemma RunStepKeepsInv(h: HashFn, steps: seq<Step>, trace: seq<System>, k: nat)
    requires Run(h, steps, trace) && 0 < k < |trace| && Inv(h, trace[k - 1])
    ensures Inv(h, trace[k])
  {
    assert Next(h, trace[k - 1], steps[k - 1], trace[k - 1 + 1]);
    NextKeepsInv(h, trace[k - 1], steps[k - 1], trace[k]);
  }

  lemma {:induction false} RunKeepsInv(h: HashFn, steps: seq<Step>, trace: seq<System>, k: nat)
    requires Run(h, steps, trace) && FaultBound(trace[0]) && k < |trace|
    ensures Inv(h, trace[k])
  {
    if k == 0 {
      RunStartsWithInv(h, steps, trace);
    } else {
      RunKeepsInv(h, steps, trace, k - 1);
      RunStepKeepsInv(h, steps, trace, k);
    }
  }

  /** In every state of every run, with at most f of 3f + 1 validators Byzantine, honest
      validators agree on every committed slot, whatever views they committed in. */
  lemma RunsAgree(h: HashFn, steps: seq<Step>, trace: seq<System>, k: nat)
    requires Run(h, steps, trace) && FaultBound(trace[0]) && k < |trace|
    ensures Agreement(h, trace[k])
  {
    RunKeepsInv(h, steps, trace, k);
    InvImpliesAgreement(h, trace[k]);
  }

  /** A committed value is never withdrawn or replaced. */
  lemma {:induction false} CommittedForEver(h: HashFn, steps: seq<Step>, trace: seq<System>, k: nat, l: nat, i: u32, slot: u64)
    requires Run(h, steps, trace) && k <= l < |trace| && i in trace[k].nodes && slot in trace[k].nodes[i].committed
    ensures i in trace[l].nodes && slot in trace[l].nodes[i].committed
    ensures trace[l].nodes[i].committed[slot] == trace[k].nodes[i].committed[slot]
    decreases l - k
  {
    if k < l {
      assert Next(h, trace[k], steps[k], trace[k + 1]);
      HandleLocal(h, trace[k].nodes[Mover(steps[k])], steps[k]);
      CommittedForEver(h, steps, trace, k + 1, l, i, slot);
    }
  }

  /** Agreement across time as well: a value one honest validator has committed at some point
      of a run is the value any other commits at any other point. */
  lemma RunsAgreeAcrossTime(h: HashFn, steps: seq<Step>, trace: seq<System>, k: nat, l: nat, i: u32, j: u32, slot: u64)
    requires Run(h, steps, trace) && FaultBound(trace[0]) && k <= l < |trace|
    requires i in trace[k].nodes && slot in trace[k].nodes[i].committed
    requires j in trace[l].nodes && slot in trace[l].nodes[j].committed
    ensures Same(h, trace[k].nodes[i].committed[slot], trace[l].nodes[j].committed[slot])
  {
    CommittedForEver(h, steps, trace, k, l, i, slot);
    RunsAgree(h, steps, trace, l);
  }

  /** In every reachable state each lock an honest validator holds carries a certificate that
      verifies, and Prepare quorums for one view and slot name one value. */
  lemma CertificatesSound(h: HashFn, steps: seq<Step>, trace: seq<System>, k: nat)
    requires Run(h, steps, trace) && FaultBound(trace[0]) && k < |trace|
    ensures forall i, slot :: i in trace[k].nodes && slot in trace[k].nodes[i].locked ==>
      CertVerifies(h, trace[k].vs, slot, trace[k].nodes[i].locked[slot])
    ensures forall view: u32, slot: u64, u: Digest, v: Digest ::
      QuorumFor(trace[k], PrepareOf(view, slot, u)) && QuorumFor(trace[k], PrepareOf(view, slot, v)) ==> u == v
  {
    var sys := trace[k];
    RunKeepsInv(h, steps, trace, k);
    forall i, slot | i in sys.nodes && slot in sys.nodes[i].locked
      ensures CertVerifies(h, sys.vs, slot, sys.nodes[i].locked[slot])
    {
      assert NodeInv(h, sys, i);
      assert LockSound(h, sys, slot, sys.nodes[i].locked[slot]);
    }
    forall view: u32, slot: u64, u: Digest, v: Digest |
      QuorumFor(sys, PrepareOf(view, slot, u)) && QuorumFor(sys, PrepareOf(view, slot, v))
      ensures u == v
    {
      var i := QuorumsMeet(sys, PrepareOf(view, slot, u), PrepareOf(view, slot, v));
      assert NodeInv(h, sys, i);
    }
  }

  // ---------- why n = 3f + 1 ----------

  /** Quorums a and b of the set, which `byz` may have joined on both sides. */
  ghost predicate SplitBy(vs: ValidatorSet, a: set<u32>, b: set<u32>, byz: set<u32>) {
    && (forall x :: x in a + b + byz ==> x < vs.N())
    && |a| >= vs.Quorum() && |b| >= vs.Quorum() && |byz| <= vs.F() && a * b <= byz
  }

  function Range(lo: nat, hi: nat): (r: set<u32>)
    requires lo <= hi <= 0x1_0000_0000
    ensures |r| == hi - lo && forall x :: x in r <==> lo <= x < hi
    decreases hi - lo
  {
    if lo == hi then {} else {lo} + Range(lo + 1, hi)
  }

  lemma NoSplit(vs: ValidatorSet, a: set<u32>, b: set<u32>, byz: set<u32>)
    requires vs.N() == 3 * vs.F() + 1
    ensures !SplitBy(vs, a, b, byz)
  {
    if SplitBy(vs, a, b, byz) {
      Bounded(a + b, vs.N());
      assert |a + b| == |a| + |b| - |a * b|;
      SubsetSize(a * b, byz);
    }
  }

  /** f faults can sit in the whole intersection of two quorums exactly when n is not 3f + 1:
      the quorum is computed as 2f + 1 for every n. */
  lemma SplitExactlyUnless3fPlus1(vs: ValidatorSet)
    requires 0 < vs.N() <= 0x1_0000_0000
    ensures (exists a, b, byz :: SplitBy(vs, a, b, byz)) <==> vs.N() != 3 * vs.F() + 1
  {
    if vs.N() != 3 * vs.F() + 1 {
      var a, b, byz := MakeSplit(vs);
      assert SplitBy(vs, a, b, byz);
    } else {
      forall a, b, byz {
        NoSplit(vs, a, b, byz);
      }
    }
  }

  lemma MakeSplit(vs: ValidatorSet) returns (a: set<u32>, b: set<u32>, byz: set<u32>)
    requires 0 < vs.N() <= 0x1_0000_0000 && vs.N() != 3 * vs.F() + 1
    ensures SplitBy(vs, a, b, byz)
  {
    var f := vs.F();
    byz := Range(0, f);
    var left, right := Range(f, 2 * f + 1), Range(2 * f + 1, 3 * f + 2);
    assert |byz + left| == |byz| + |left| && |byz + right| == |byz| + |right|;
    a, b := byz + left, byz + right;
  }
}
