/** Accountability: every equivocation proof an honest validator emits verifies, and it accuses
    an honest validator only of proposing twice. */
module BftBlame {
  import opened Bytes
  import opened BftTypes
  import opened Validator
  import opened BftSafety
  import C = BftCodec

  /** `verify_equivocation`. */
  ghost predicate EquivocationVerifies(h: HashFn, vs: ValidatorSet, a: Vote, b: Vote) {
    && KeyOf(a) == KeyOf(b) && a.vhash != b.vhash
    && Verifies(h, vs, a) && Verifies(h, vs, b)
  }

  function KeyOf(v: Vote): SeenKey {
    SeenKey(v.signer, v.view, v.slot, v.phase)
  }

  // ---------- what the handlers leave alone, and what they broadcast ----------

  ghost predicate Quiet(st: State, r: (State, seq<Out>)) {
    && r.0.seen == st.seen && r.0.vcSent == st.vcSent && r.0.vs == st.vs
    && forall o :: o in r.1 ==> !o.Equivocation?
  }

  /** Broadcasts of r all have one of the given phases. */
  ghost predicate Sending(r: (State, seq<Out>), phases: set<Phase>) {
    forall o :: o in r.1 && o.Broadcast? ==> o.vote.phase in phases
  }

  lemma VoteQuiet(h: HashFn, st: State, slot: u64, phase: Phase, value: seq<byte>)
    ensures Quiet(st, MakeVote(h, st, slot, phase, value))
    ensures Sending(MakeVote(h, st, slot, phase, value), {phase})
  {
  }

  lemma PrepareQuiet(h: HashFn, st: State, vote: Vote)
    ensures Quiet(st, IngestPrepare(h, st, vote)) && Sending(IngestPrepare(h, st, vote), {Commit})
  {
    if vote.view == st.view {
      var st1 := TallyVote(RetainVote(st, vote), vote);
      var cert := CertOf(st1.prepareVotes[BallotOf(vote)]);
      var st2 := st1.(commitSent := st1.commitSent + {(st1.view, vote.slot)},
                      locked := st1.locked[vote.slot := Lock(st1.view, vote.value, cert)]);
      VoteQuiet(h, st2, vote.slot, Commit, vote.value);
    }
  }

  lemma PrePrepareQuiet(h: HashFn, st: State, vote: Vote)
    ensures Quiet(st, IngestPrePrepare(h, st, vote)) && Sending(IngestPrePrepare(h, st, vote), {Prepare})
  {
    VoteQuiet(h, st.(preparedSent := st.preparedSent + {(st.view, vote.slot)}), vote.slot, Prepare, vote.value);
  }

  lemma ViewChangeQuiet(h: HashFn, st: State, vote: Vote, entries: seq<SlotLock>)
    ensures Quiet(st, ViewChangeWith(h, st, vote, entries)) && Sending(ViewChangeWith(h, st, vote, entries), {})
  {
  }

  lemma CommitQuiet(h: HashFn, st: State, vote: Vote)
    ensures Quiet(st, IngestCommit(h, st, vote)) && Sending(IngestCommit(h, st, vote), {})
  {
  }

  lemma DispatchQuiet(h: HashFn, st: State, vote: Vote)
    ensures Quiet(st, Dispatch(h, st, vote)) && Sending(Dispatch(h, st, vote), {Prepare, Commit})
  {
    match vote.phase
    case ViewChange => ViewChangeQuiet(h, st, vote, C.DecodeLocks(vote.value));
    case PrePrepare => PrePrepareQuiet(h, st, vote);
    case Prepare => PrepareQuiet(h, st, vote);
    case Commit => CommitQuiet(h, st, vote);
  }

  /** What a step adds to `seen`, whom it accuses, and which phases it broadcasts. */
  ghost predicate Judges(h: HashFn, st: State, step: Step, r: (State, seq<Out>)) {
    && (forall k :: k in r.0.seen ==>
        || (k in st.seen && r.0.seen[k] == st.seen[k])
        || (step.Deliver? && Verifies(h, st.vs, step.vote) && k == KeyOf(step.vote) && r.0.seen[k] == step.vote))
    && (forall o :: o in r.1 && o.Equivocation? ==>
        && step.Deliver? && o.b == step.vote && Verifies(h, st.vs, o.b)
        && KeyOf(o.b) in st.seen && o.a == st.seen[KeyOf(o.b)] && o.a.vhash != o.b.vhash)
  }

  ghost predicate Speaks(st: State, step: Step, r: (State, seq<Out>)) {
    && st.vcSent <= r.0.vcSent
    && Sending(r, match step case Deliver(_, _) => {Prepare, Commit} case Proposal(_, _, _) => {PrePrepare} case Suspect(_) => {ViewChange})
    && (forall o :: o in r.1 && o.Broadcast? && step.Proposal? ==> o.vote.slot == step.slot && o.vote.view == st.view)
    && (forall o :: o in r.1 && o.Broadcast? && step.Suspect? ==>
        o.vote.slot == MAX_SLOT && o.vote.view !in st.vcSent && o.vote.view in r.0.vcSent)
  }

  lemma IngestJudges(h: HashFn, st: State, to: u32, vote: Vote)
    ensures Judges(h, st, Deliver(to, vote), Ingest(h, st, vote))
    ensures Speaks(st, Deliver(to, vote), Ingest(h, st, vote))
  {
    if Verifies(h, st.vs, vote) {
      DispatchQuiet(h, st, vote);
      DispatchQuiet(h, st.(seen := st.seen[KeyOf(vote) := vote]), vote);
    }
  }

  lemma RequestSpeaks(h: HashFn, st: State, at: u32, target: u32, payload: seq<byte>)
    requires target !in st.vcSent
    ensures Judges(h, st, Suspect(at), RequestWith(h, st, target, payload))
    ensures Speaks(st, Suspect(at), RequestWith(h, st, target, payload))
  {
  }

  lemma ProposeJudges(h: HashFn, st: State, at: u32, slot: u64, value: seq<byte>)
    ensures Judges(h, st, Proposal(at, slot, value), Propose(h, st, slot, value))
    ensures Speaks(st, Proposal(at, slot, value), Propose(h, st, slot, value))
  {
    VoteQuiet(h, st, slot, PrePrepare, if slot in st.locked then st.locked[slot].value else value);
  }

  lemma SuspectJudges(h: HashFn, st: State, at: u32)
    ensures Judges(h, st, Suspect(at), StartViewChange(h, st)) && Speaks(st, Suspect(at), StartViewChange(h, st))
  {
    if NextView(st.view) !in st.vcSent {
      RequestSpeaks(h, st, at, NextView(st.view), C.EncodeLocks(st.locked));
    }
  }

  lemma HandleJudges(h: HashFn, st: State, step: Step)
    ensures Judges(h, st, step, Handle(h, st, step)) && Speaks(st, step, Handle(h, st, step))
  {
    match step
    case Deliver(to, vote) => IngestJudges(h, st, to, vote);
    case Proposal(at, slot, value) => ProposeJudges(h, st, at, slot, value);
    case Suspect(at) => SuspectJudges(h, st, at);
  }

  // ---------- invariant ----------

  ghost predicate SeenSound(h: HashFn, sys: System, seen: map<SeenKey, Vote>) {
    forall k :: k in seen ==> KeyOf(seen[k]) == k && Verifies(h, sys.vs, seen[k]) && AuthenticVote(h, sys, seen[k])
  }

  ghost predicate SameRequest(b: Ballot, c: Ballot) {
    b.phase.ViewChange? && c.phase.ViewChange? && b.view == c.view
  }

  /** An honest validator asks for each view once. */
  ghost predicate RequestsOnce(sys: System) {
    && (forall i, b :: Signed(i, b) in sys.signed && b.phase.ViewChange? ==>
        i in sys.nodes && b.slot == MAX_SLOT && b.view in sys.nodes[i].vcSent)
    && (forall i, b, c :: Signed(i, b) in sys.signed && Signed(i, c) in sys.signed && SameRequest(b, c) ==> b == c)
  }

  ghost predicate BlameInv(h: HashFn, sys: System) {
    && RequestsOnce(sys)
    && forall i :: i in sys.nodes ==> sys.nodes[i].id == i && sys.nodes[i].vs == sys.vs && SeenSound(h, sys, sys.nodes[i].seen)
  }

  lemma SeenGrows(h: HashFn, sys: System, sys': System, seen: map<SeenKey, Vote>)
    requires SeenSound(h, sys, seen) && sys.signed <= sys'.signed && sys'.vs == sys.vs && sys'.nodes.Keys == sys.nodes.Keys
    ensures SeenSound(h, sys', seen)
  {
    assert forall v :: AuthenticVote(h, sys, v) ==> AuthenticVote(h, sys', v);
  }

  lemma RequestsStayOnce(h: HashFn, sys: System, i: u32, r: (State, seq<Out>), step: Step)
    requires i in sys.nodes && sys.nodes[i].id == i && RequestsOnce(sys)
    requires Speaks(sys.nodes[i], step, r) && LocalStep(h, sys.nodes[i], r)
    ensures RequestsOnce(After(sys, i, r))
  {
    var sent := HandlerMoves(h, sys, i, r);
    var sys' := After(sys, i, r);
    if sent.Some? && sent.value.phase.ViewChange? && Signed(i, sent.value) !in sys.signed {
      assert Signed(i, sent.value) in NewlySigned(r.1);
      var o :| o in r.1 && o.Broadcast? && Signed(i, sent.value) == Signed(o.vote.signer, BallotOf(o.vote));
      assert o.vote.view !in sys.nodes[i].vcSent;
    }
  }

  lemma NextKeepsBlame(h: HashFn, sys: System, step: Step, sys': System)
    requires BlameInv(h, sys) && Next(h, sys, step, sys')
    ensures BlameInv(h, sys')
  {
    var i := Mover(step);
    var st := sys.nodes[i];
    var r := Handle(h, st, step);
    HandleLocal(h, st, step);
    HandleJudges(h, st, step);
    RequestsStayOnce(h, sys, i, r, step);
    MoverSeenSound(h, sys, st, step, r);
    assert sys'.nodes.Keys == sys.nodes.Keys;
    forall j | j in sys'.nodes
      ensures SeenSound(h, sys', sys'.nodes[j].seen)
    {
      SeenGrows(h, sys, sys', sys'.nodes[j].seen);
    }
  }

  lemma MoverSeenSound(h: HashFn, sys: System, st: State, step: Step, r: (State, seq<Out>))
    requires SeenSound(h, sys, st.seen) && st.vs == sys.vs && Judges(h, st, step, r)
    requires step.Deliver? ==> Authentic(h, sys, step.vote)
    ensures SeenSound(h, sys, r.0.seen)
  {
  }

  lemma RunStepKeepsBlame(h: HashFn, steps: seq<Step>, trace: seq<System>, k: nat)
    requires Run(h, steps, trace) && 0 < k < |trace| && BlameInv(h, trace[k - 1])
    ensures BlameInv(h, trace[k])
  {
    assert Next(h, trace[k - 1], steps[k - 1], trace[k - 1 + 1]);
    NextKeepsBlame(h, trace[k - 1], steps[k - 1], trace[k]);
  }

  lemma {:induction false} RunKeepsBlame(h: HashFn, steps: seq<Step>, trace: seq<System>, k: nat)
    requires Run(h, steps, trace) && k < |trace|
    ensures BlameInv(h, trace[k])
  {
    if k > 0 {
      RunKeepsBlame(h, steps, trace, k - 1);
      RunStepKeepsBlame(h, steps, trace, k);
    }
  }

  // ---------- verdicts ----------

  /** The outputs of step k of a run. */
  ghost function OutputsOf(h: HashFn, steps: seq<Step>, trace: seq<System>, k: nat): seq<Out>
    requires Run(h, steps, trace) && k < |steps|
  {
    assert Next(h, trace[k], steps[k], trace[k + 1]);
    Handle(h, trace[k].nodes[Mover(steps[k])], steps[k]).1
  }

  /** Two Proposal steps of validator i for one slot, in one view, before step k. */
  ghost predicate ProposedTwice(steps: seq<Step>, trace: seq<System>, k: nat, i: u32, slot: u64, view: u32) {
    exists l, m :: 0 <= l < m < k && ProposedAt(steps, trace, l, i, slot, view) && ProposedAt(steps, trace, m, i, slot, view)
  }

  ghost predicate ProposedAt(steps: seq<Step>, trace: seq<System>, l: nat, i: u32, slot: u64, view: u32) {
    && l < |steps| && l < |trace| && steps[l].Proposal? && steps[l].at == i && steps[l].slot == slot
    && i in trace[l].nodes && trace[l].nodes[i].view == view
  }

  /** The step at which an honest ballot was signed. */
  lemma {:induction false} SignedAt(h: HashFn, steps: seq<Step>, trace: seq<System>, k: nat, s: Signed) returns (l: nat)
    requires Run(h, steps, trace) && k < |trace| && s in trace[k].signed
    ensures l < k && s !in trace[l].signed && s in trace[l + 1].signed
  {
    assert k > 0;
    if s in trace[k - 1].signed {
      l := SignedAt(h, steps, trace, k - 1, s);
    } else {
      l := k - 1;
    }
  }

  lemma PrePrepareIsProposal(h: HashFn, steps: seq<Step>, trace: seq<System>, l: nat, s: Signed)
    requires Run(h, steps, trace) && l < |steps| && BlameInv(h, trace[l])
    requires s !in trace[l].signed && s in trace[l + 1].signed
    ensures s.ballot.phase.PrePrepare? ==> ProposedAt(steps, trace, l, s.signer, s.ballot.slot, s.ballot.view)
    ensures forall t :: t !in trace[l].signed && t in trace[l + 1].signed ==> t == s
  {
    assert Next(h, trace[l], steps[l], trace[l + 1]);
    var i := Mover(steps[l]);
    var st := trace[l].nodes[i];
    HandleLocal(h, st, steps[l]);
    HandleJudges(h, st, steps[l]);
    var sent := HandlerMoves(h, trace[l], i, Handle(h, st, steps[l]));
    assert s in NewlySigned(Handle(h, st, steps[l]).1);
  }

  lemma TwoBallotsTwoProposals(h: HashFn, steps: seq<Step>, trace: seq<System>, k: nat, s: Signed, t: Signed)
    requires Run(h, steps, trace) && k < |trace| && s in trace[k].signed && t in trace[k].signed && s != t
    requires s.signer == t.signer && s.ballot.slot == t.ballot.slot && s.ballot.view == t.ballot.view
    requires s.ballot.phase.PrePrepare? && t.ballot.phase.PrePrepare?
    ensures ProposedTwice(steps, trace, k, s.signer, s.ballot.slot, s.ballot.view)
  {
    var l := SignedAt(h, steps, trace, k, s);
    var m := SignedAt(h, steps, trace, k, t);
    RunKeepsBlame(h, steps, trace, l);
    RunKeepsBlame(h, steps, trace, m);
    PrePrepareIsProposal(h, steps, trace, l, s);
    PrePrepareIsProposal(h, steps, trace, m, t);
    assert l != m;
  }

  /** Every equivocation proof emitted in a run verifies; the accused is Byzantine, or an honest
      leader that proposed twice for the slot in that view. */
  lemma BlameIsDeserved(h: HashFn, steps: seq<Step>, trace: seq<System>, k: nat, o: Out)
    requires Run(h, steps, trace) && FaultBound(trace[0]) && k < |steps|
    requires o in OutputsOf(h, steps, trace, k) && o.Equivocation?
    ensures EquivocationVerifies(h, trace[k].vs, o.a, o.b)
    ensures o.a.signer !in trace[k].nodes ||
      (o.a.phase.PrePrepare? && ProposedTwice(steps, trace, k, o.a.signer, o.a.slot, o.a.view))
  {
    RunKeepsBlame(h, steps, trace, k);
    var i := Judged(h, steps, trace, k, o);
    if o.a.signer in trace[k].nodes {
      RunVotesOnce(h, steps, trace, k, o.a.signer);
      ConflictIsPrePrepare(trace[k], o.a.signer, BallotOf(o.a), BallotOf(o.b));
      TwoBallotsTwoProposals(h, steps, trace, k, Signed(o.a.signer, BallotOf(o.a)), Signed(o.b.signer, BallotOf(o.b)));
    }
  }

  lemma RunVotesOnce(h: HashFn, steps: seq<Step>, trace: seq<System>, k: nat, i: u32)
    requires Run(h, steps, trace) && FaultBound(trace[0]) && k < |trace| && i in trace[k].nodes
    ensures VotesOnce(trace[k], i)
  {
    RunKeepsInv(h, steps, trace, k);
    assert NodeInv(h, trace[k], i);
  }

  /** The validator that emitted the proof held the first vote and was delivered the second. */
  lemma Judged(h: HashFn, steps: seq<Step>, trace: seq<System>, k: nat, o: Out) returns (i: u32)
    requires Run(h, steps, trace) && k < |steps| && BlameInv(h, trace[k])
    requires o in OutputsOf(h, steps, trace, k) && o.Equivocation?
    ensures EquivocationVerifies(h, trace[k].vs, o.a, o.b)
    ensures AuthenticVote(h, trace[k], o.a) && AuthenticVote(h, trace[k], o.b)
  {
    assert Next(h, trace[k], steps[k], trace[k + 1]);
    i := Mover(steps[k]);
    HandleJudges(h, trace[k].nodes[i], steps[k]);
    assert SeenSound(h, trace[k], trace[k].nodes[i].seen);
  }

  lemma ConflictIsPrePrepare(sys: System, i: u32, b: Ballot, c: Ballot)
    requires VotesOnce(sys, i) && RequestsOnce(sys) && Signed(i, b) in sys.signed && Signed(i, c) in sys.signed
    requires b.view == c.view && b.slot == c.slot && b.phase == c.phase && b.vhash != c.vhash
    ensures b.phase.PrePrepare?
  {
    assert !SameRequest(b, c);
  }
}
