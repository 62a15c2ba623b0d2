/** What the handlers of `Validator` do when they may: every vote they owe is sent, once and for the
    right value, every conflict is reported, and locks travel through a view change into the next
    leader's proposal. Safety alone would be kept by a validator that does nothing. */
module BftProgress {
  import opened Bytes
  import opened BftTypes
  import opened Validator
  import opened BftSafety
  import opened BftBlame
  import C = BftCodec
  import M = Merkle

  /** The validator's keys are those published under its id. */
  ghost predicate Published(h: HashFn, st: State) {
    && M.WellKeyed(h, st.signer) && st.id < st.vs.N() && st.vs.roots[st.id] == st.signer.root
  }

  predicate HasKey(st: State) { st.signer.next < |st.signer.leaves| }

  /** The one output is this validator's own verifying vote for this ballot, carrying the value. */
  ghost predicate Votes(h: HashFn, st: State, out: seq<Out>, view: u32, slot: u64, phase: Phase, value: seq<byte>) {
    && |out| == 1 && out[0].Broadcast?
    && var v := out[0].vote;
       && v.view == view && v.slot == slot && v.phase == phase && v.value == value && v.signer == st.id
       && Verifies(h, st.vs, v)
  }

  lemma MadeVote(h: HashFn, st: State, slot: u64, phase: Phase, value: seq<byte>)
    requires Published(h, st)
    ensures var (st', out) := MakeVote(h, st, slot, phase, value);
      && (if HasKey(st) then Votes(h, st, out, st.view, slot, phase, value) else out == [])
      && st' == st.(signer := st'.signer) && Published(h, st')
      && st'.signer.next == st.signer.next + (if HasKey(st) then 1 else 0)
  {
    if HasKey(st) {
      M.SignatureVerifies(h, st.signer, SignedBytes(st.view, slot, phase, h(value)), st.signer.next);
    }
  }

  // ---------- the answers ----------

  /** A leader proposes the locked value of the slot, else the one given; nobody else proposes. */
  lemma ProposalSent(h: HashFn, st: State, slot: u64, value: seq<byte>)
    requires Published(h, st)
    ensures var out := Propose(h, st, slot, value).1;
      if st.view % st.vs.N() == st.id && HasKey(st)
      then Votes(h, st, out, st.view, slot, PrePrepare, if slot in st.locked then st.locked[slot].value else value)
      else out == []
    ensures var st' := Propose(h, st, slot, value).0; st' == st.(signer := st'.signer)
  {
    MadeVote(h, st, slot, PrePrepare, if slot in st.locked then st.locked[slot].value else value);
  }

  /** The signer has a different vote on record at the same view, slot and phase. */
  predicate Conflicts(st: State, vote: Vote) {
    var key := SeenKey(vote.signer, vote.view, vote.slot, vote.phase);
    key in st.seen && st.seen[key].vhash != vote.vhash
  }

  /** Equivocation is reported exactly when a verifying vote conflicts with the one on record; the
      proof is that pair, and nothing else happens. */
  lemma EquivocationReported(h: HashFn, st: State, vote: Vote)
    ensures (exists o :: o in Ingest(h, st, vote).1 && o.Equivocation?) <==> Verifies(h, st.vs, vote) && Conflicts(st, vote)
    ensures Verifies(h, st.vs, vote) && Conflicts(st, vote) ==>
      Ingest(h, st, vote) == (st, [Equivocation(st.seen[SeenKey(vote.signer, vote.view, vote.slot, vote.phase)], vote)])
    ensures !Verifies(h, st.vs, vote) ==> Ingest(h, st, vote) == (st, [])
  {
    if Verifies(h, st.vs, vote) && Conflicts(st, vote) {
      assert Ingest(h, st, vote).1[0].Equivocation?;
    } else if Verifies(h, st.vs, vote) {
      var st0 := Seen(st, vote);
      DispatchQuiet(h, st0, vote);
      assert Ingest(h, st, vote) == Dispatch(h, st0, vote);
    }
  }

  /** The vote is put on record, if it is the first of its kind. */
  function Seen(st: State, vote: Vote): State {
    var key := SeenKey(vote.signer, vote.view, vote.slot, vote.phase);
    if key in st.seen then st else st.(seen := st.seen[key := vote])
  }

  lemma Accepted(h: HashFn, st: State, vote: Vote)
    requires Verifies(h, st.vs, vote) && !Conflicts(st, vote)
    ensures Ingest(h, st, vote) == Dispatch(h, Seen(st, vote), vote)
  {
  }

  /** A proposal of this view, from its leader, that no lock speaks against, and the first to be
      answered in this view and slot. */
  predicate OwesPrepare(h: HashFn, st: State, vote: Vote)
    requires st.vs.N() > 0
  {
    && vote.view == st.view && vote.signer == st.view % st.vs.N()
    && (vote.slot in st.locked ==> h(st.locked[vote.slot].value) == h(vote.value))
    && (st.view, vote.slot) !in st.preparedSent
  }

  /** Exactly such a proposal is answered, with a Prepare for its value. */
  lemma PrepareSent(h: HashFn, st: State, vote: Vote, st': State, out: seq<Out>)
    requires Published(h, st) && Verifies(h, st.vs, vote) && vote.phase == PrePrepare && !Conflicts(st, vote)
    requires (st', out) == Ingest(h, st, vote)
    ensures if OwesPrepare(h, st, vote) && HasKey(st) then Votes(h, st, out, st.view, vote.slot, Prepare, vote.value) else out == []
    ensures st'.preparedSent == if OwesPrepare(h, st, vote) then st.preparedSent + {(st.view, vote.slot)} else st.preparedSent
    ensures st' == Seen(st, vote).(preparedSent := st'.preparedSent, signer := st'.signer)
  {
    Accepted(h, st, vote);
    PrePrepareHandled(h, Seen(st, vote), vote, st', out);
  }

  lemma PrePrepareHandled(h: HashFn, st: State, vote: Vote, st': State, out: seq<Out>)
    requires Published(h, st) && vote.vhash == h(vote.value) && (st', out) == IngestPrePrepare(h, st, vote)
    ensures if OwesPrepare(h, st, vote) && HasKey(st) then Votes(h, st, out, st.view, vote.slot, Prepare, vote.value) else out == []
    ensures st' == st.(preparedSent := if OwesPrepare(h, st, vote) then st.preparedSent + {(st.view, vote.slot)} else st.preparedSent,
                       signer := st'.signer)
  {
    if OwesPrepare(h, st, vote) {
      MadeVote(h, st.(preparedSent := st.preparedSent + {(st.view, vote.slot)}), vote.slot, Prepare, vote.value);
    }
  }

  /** Who has been counted for this ballot, this vote included. */
  function Counted(st: State, vote: Vote): set<u32> {
    Get(st.tally, BallotOf(vote), {}) + {vote.signer}
  }

  function Retained(st: State, vote: Vote): map<u32, Vote> {
    Get(st.prepareVotes, BallotOf(vote), map[])[vote.signer := vote]
  }

  /** The Prepare completes a quorum for which no Commit was sent yet. */
  predicate CompletesPrepare(st: State, vote: Vote) {
    vote.view == st.view && |Counted(st, vote)| >= st.vs.Quorum() && (st.view, vote.slot) !in st.commitSent
  }

  /** A Prepare of another view is put on record and no more. */
  lemma StalePrepare(h: HashFn, st: State, vote: Vote)
    requires Verifies(h, st.vs, vote) && vote.phase == Prepare && !Conflicts(st, vote) && vote.view != st.view
    ensures Ingest(h, st, vote) == (Seen(st, vote), [])
  {
    Accepted(h, st, vote);
  }

  /** A Prepare of this view is retained and counted; the one that completes a quorum locks its value
      at this view, with every vote retained for it, and sends one Commit. */
  lemma CommitSent(h: HashFn, st: State, vote: Vote, st': State, out: seq<Out>)
    requires Published(h, st) && Verifies(h, st.vs, vote) && vote.phase == Prepare && !Conflicts(st, vote) && vote.view == st.view
    requires (st', out) == Ingest(h, st, vote)
    ensures if CompletesPrepare(st, vote) && HasKey(st) then Votes(h, st, out, st.view, vote.slot, Commit, vote.value) else out == []
    ensures st'.locked == if CompletesPrepare(st, vote)
                          then st.locked[vote.slot := Lock(st.view, vote.value, CertOf(Retained(st, vote)))] else st.locked
    ensures st'.commitSent == if CompletesPrepare(st, vote) then st.commitSent + {(st.view, vote.slot)} else st.commitSent
    ensures st' == Seen(st, vote).(tally := st.tally[BallotOf(vote) := Counted(st, vote)],
                                   prepareVotes := st.prepareVotes[BallotOf(vote) := Retained(st, vote)],
                                   locked := st'.locked, commitSent := st'.commitSent, signer := st'.signer)
  {
    Accepted(h, st, vote);
    PrepareHandled(h, Seen(st, vote), vote, st', out);
  }

  lemma PrepareHandled(h: HashFn, st: State, vote: Vote, st': State, out: seq<Out>)
    requires Published(h, st) && vote.view == st.view && (st', out) == IngestPrepare(h, st, vote)
    ensures if CompletesPrepare(st, vote) && HasKey(st) then Votes(h, st, out, st.view, vote.slot, Commit, vote.value) else out == []
    ensures st' == st.(tally := st.tally[BallotOf(vote) := Counted(st, vote)],
                       prepareVotes := st.prepareVotes[BallotOf(vote) := Retained(st, vote)],
                       locked := if CompletesPrepare(st, vote)
                                 then st.locked[vote.slot := Lock(st.view, vote.value, CertOf(Retained(st, vote)))] else st.locked,
                       commitSent := if CompletesPrepare(st, vote) then st.commitSent + {(st.view, vote.slot)} else st.commitSent,
                       signer := st'.signer)
  {
    if CompletesPrepare(st, vote) {
      LockTaken(h, TallyVote(RetainVote(st, vote), vote), vote, CertOf(Retained(st, vote)));
    }
  }

  lemma LockTaken(h: HashFn, st: State, vote: Vote, cert: seq<Vote>)
    requires Published(h, st)
    ensures var (st', out) := LockAndCommit(h, st, vote, cert);
      && (if HasKey(st) then Votes(h, st, out, st.view, vote.slot, Commit, vote.value) else out == [])
      && st' == st.(commitSent := st.commitSent + {(st.view, vote.slot)},
                    locked := st.locked[vote.slot := Lock(st.view, vote.value, cert)], signer := st'.signer)
  {
    MadeVote(h, st.(commitSent := st.commitSent + {(st.view, vote.slot)},
                    locked := st.locked[vote.slot := Lock(st.view, vote.value, cert)]), vote.slot, Commit, vote.value);
  }

  predicate CompletesCommit(st: State, vote: Vote) {
    |Counted(st, vote)| >= st.vs.Quorum() && vote.slot !in st.committed
  }

  /** A Commit of any view is counted, and the one that completes a quorum commits the slot, once. */
  lemma SlotCommitted(h: HashFn, st: State, vote: Vote, st': State, out: seq<Out>)
    requires Verifies(h, st.vs, vote) && vote.phase == Commit && !Conflicts(st, vote) && (st', out) == Ingest(h, st, vote)
    ensures out == if CompletesCommit(st, vote) then [Committed(vote.slot, vote.value)] else []
    ensures st'.committed == if CompletesCommit(st, vote) then st.committed[vote.slot := vote.value] else st.committed
    ensures st' == Seen(st, vote).(tally := st.tally[BallotOf(vote) := Counted(st, vote)],
                                   committed := st'.committed, logDigest := st'.logDigest)
    ensures !CompletesCommit(st, vote) ==> st'.logDigest == st.logDigest
  {
    Accepted(h, st, vote);
    CommitHandled(h, Seen(st, vote), vote, st', out);
  }

  lemma CommitHandled(h: HashFn, st: State, vote: Vote, st': State, out: seq<Out>)
    requires (st', out) == IngestCommit(h, st, vote)
    ensures out == if CompletesCommit(st, vote) then [Committed(vote.slot, vote.value)] else []
    ensures st' == st.(tally := st.tally[BallotOf(vote) := Counted(st, vote)],
                       committed := if CompletesCommit(st, vote) then st.committed[vote.slot := vote.value] else st.committed,
                       logDigest := st'.logDigest)
    ensures !CompletesCommit(st, vote) ==> st'.logDigest == st.logDigest
  {
  }

  // ---------- merging locks ----------

  ghost predicate Certified(h: HashFn, vs: ValidatorSet, entries: seq<SlotLock>, e: SlotLock) {
    e in entries && CertVerifies(h, vs, e.slot, e.lock)
  }

  /** For every slot the lock of the highest view among the old one and the certified carried ones,
      the old one where it is as high. */
  ghost predicate Merged(h: HashFn, vs: ValidatorSet, was: map<u64, Lock>, entries: seq<SlotLock>, now: map<u64, Lock>) {
    && (forall e :: Certified(h, vs, entries, e) ==> e.slot in now && now[e.slot].view >= e.lock.view)
    && (forall slot :: slot in was ==> slot in now && (now[slot] == was[slot] || now[slot].view > was[slot].view))
    && (forall slot :: slot in now ==>
        (slot in was && now[slot] == was[slot]) || Certified(h, vs, entries, SlotLock(slot, now[slot])))
  }

  lemma {:induction false} MergeAdopts(h: HashFn, vs: ValidatorSet, locked: map<u64, Lock>, entries: seq<SlotLock>)
    ensures Merged(h, vs, locked, entries, MergeLocks(h, vs, locked, entries))
    decreases |entries|
  {
    MergeRaises(h, vs, locked, entries);
    if entries != [] {
      var one := MergeLock(h, vs, locked, entries[0]);
      var now := MergeLocks(h, vs, one, entries[1..]);
      MergeRaises(h, vs, one, entries[1..]);
      MergeAdopts(h, vs, one, entries[1..]);
      forall e | Certified(h, vs, entries, e)
        ensures e.slot in now && now[e.slot].view >= e.lock.view
      {
        if e != entries[0] {
          assert Certified(h, vs, entries[1..], e);
        }
      }
      forall slot | slot in now
        ensures (slot in locked && now[slot] == locked[slot]) || Certified(h, vs, entries, SlotLock(slot, now[slot]))
      {
        if Certified(h, vs, entries[1..], SlotLock(slot, now[slot])) {
          assert SlotLock(slot, now[slot]) in entries;
        }
      }
    }
  }

  /** The records of what was sent: kept as they are, or those of the view entered and later. */
  ghost predicate SentFrom(entered: bool, view: u32, was: set<(u32, u64)>, now: set<(u32, u64)>) {
    forall p :: p in now <==> p in was && (entered ==> p.0 >= view)
  }

  function Asking(st: State, vote: Vote): set<u32> {
    Get(st.vcTally, vote.view, {}) + {vote.signer}
  }

  /** A request for a later view: its certified locks are merged, its signer is counted, and the view
      is entered exactly when a quorum of signers asks for it. */
  lemma ViewChangeTaken(h: HashFn, st: State, vote: Vote, st': State, out: seq<Out>)
    requires Verifies(h, st.vs, vote) && vote.phase == ViewChange && vote.view > st.view && !Conflicts(st, vote)
    requires (st', out) == Ingest(h, st, vote)
    ensures Merged(h, st.vs, st.locked, C.DecodeLocks(vote.value), st'.locked)
    ensures st'.view == if |Asking(st, vote)| >= st.vs.Quorum() then vote.view else st.view
    ensures out == if |Asking(st, vote)| >= st.vs.Quorum() then [ViewChanged(vote.view)] else []
    ensures SentFrom(|Asking(st, vote)| >= st.vs.Quorum(), vote.view, st.preparedSent, st'.preparedSent)
    ensures SentFrom(|Asking(st, vote)| >= st.vs.Quorum(), vote.view, st.commitSent, st'.commitSent)
    ensures st' == Seen(st, vote).(locked := st'.locked, vcTally := st.vcTally[vote.view := Asking(st, vote)], view := st'.view,
                                   preparedSent := st'.preparedSent, commitSent := st'.commitSent)
  {
    Accepted(h, st, vote);
    var entries := C.DecodeLocks(vote.value);
    MergeAdopts(h, st.vs, st.locked, entries);
    WithEntries(h, Seen(st, vote), vote, entries);
  }

  lemma WithEntries(h: HashFn, st: State, vote: Vote, entries: seq<SlotLock>)
    ensures var (st', out) := ViewChangeWith(h, st, vote, entries);
      var entered := |Asking(st, vote)| >= st.vs.Quorum();
      && out == (if entered then [ViewChanged(vote.view)] else [])
      && SentFrom(entered, vote.view, st.preparedSent, st'.preparedSent) && SentFrom(entered, vote.view, st.commitSent, st'.commitSent)
      && st' == st.(locked := MergeLocks(h, st.vs, st.locked, entries), vcTally := st.vcTally[vote.view := Asking(st, vote)],
                    view := if entered then vote.view else st.view,
                    preparedSent := st'.preparedSent, commitSent := st'.commitSent)
  {
  }

  /** And one for this view or an earlier one changes nothing. */
  lemma StaleViewChange(h: HashFn, st: State, vote: Vote)
    requires Verifies(h, st.vs, vote) && vote.phase == ViewChange && vote.view <= st.view && !Conflicts(st, vote)
    ensures Ingest(h, st, vote) == (Seen(st, vote), [])
  {
    Accepted(h, st, vote);
  }

  // ---------- locks through a view change ----------

  ghost predicate LocksFit(locked: map<u64, Lock>) {
    |locked| < C.LIMIT && forall s :: s in locked ==> C.LockFits(locked[s])
  }

  /** A request for the next view, with exactly the locks held, signed and verifying. */
  ghost predicate Requests(h: HashFn, st: State, vote: Vote) {
    && vote.view == st.view + 1 && vote.slot == MAX_SLOT && vote.phase == ViewChange && vote.signer == st.id
    && Verifies(h, st.vs, vote) && C.DecodeLocks(vote.value) == C.Entries(st.locked)
  }

  /** One request is sent per target view, as long as there are keys. */
  lemma RequestSent(h: HashFn, st: State, target: u32, st': State, out: seq<Out>)
    requires Published(h, st) && LocksFit(st.locked) && target == st.view + 1 && (st', out) == StartViewChange(h, st)
    ensures if target !in st.vcSent && HasKey(st) then |out| == 1 && out[0].Broadcast? && Requests(h, st, out[0].vote) else out == []
    ensures st' == st.(vcSent := st.vcSent + {target}, signer := st'.signer)
  {
    RequestMade(h, st, target);
    if target in st.vcSent {
      assert st.vcSent + {target} == st.vcSent;
    } else {
      var payload := C.EncodeLocks(st.locked);
      C.LocksRoundTrip(st.locked);
      RequestSigned(h, st, target, payload, st', out);
    }
  }

  lemma RequestMade(h: HashFn, st: State, target: u32)
    requires target == st.view + 1
    ensures StartViewChange(h, st)
         == if target in st.vcSent then (st, []) else RequestWith(h, st, target, C.EncodeLocks(st.locked))
  {
    assert NextView(st.view) == target;
  }

  lemma RequestSigned(h: HashFn, st: State, target: u32, payload: seq<byte>, st': State, out: seq<Out>)
    requires Published(h, st) && (st', out) == RequestWith(h, st, target, payload)
    ensures if HasKey(st) then Votes(h, st, out, target, MAX_SLOT, ViewChange, payload) else out == []
    ensures st' == st.(vcSent := st.vcSent + {target}, signer := st'.signer)
  {
    if HasKey(st) {
      M.SignatureVerifies(h, st.signer, SignedBytes(target, MAX_SLOT, ViewChange, h(payload)), st.signer.next);
    }
  }

  lemma EntriesAreLocks(locked: map<u64, Lock>, e: SlotLock)
    ensures e in C.Entries(locked) <==> e.slot in locked && e.lock == locked[e.slot]
  {
    C.EntriesComplete(locked);
    if e.slot in locked && e.lock == locked[e.slot] {
      assert e == SlotLock(e.slot, locked[e.slot]);
    }
  }

  /** What a merge of all the sender's locks makes of one that is certified. */
  lemma MergedHolds(h: HashFn, vs: ValidatorSet, was: map<u64, Lock>, sent: map<u64, Lock>, now: map<u64, Lock>, slot: u64)
    requires Merged(h, vs, was, C.Entries(sent), now) && slot in sent && CertVerifies(h, vs, slot, sent[slot])
    ensures slot in now
    ensures now[slot] == if slot in was && was[slot].view >= sent[slot].view then was[slot] else sent[slot]
  {
    EntriesAreLocks(sent, SlotLock(slot, sent[slot]));
    assert Certified(h, vs, C.Entries(sent), SlotLock(slot, sent[slot]));
    EntriesAreLocks(sent, SlotLock(slot, now[slot]));
  }

  lemma RequestOf(h: HashFn, sender: State) returns (vote: Vote)
    requires Published(h, sender) && HasKey(sender) && LocksFit(sender.locked)
    requires sender.view < 0xffff_ffff && sender.view + 1 !in sender.vcSent
    ensures StartViewChange(h, sender).1 == [Broadcast(vote)] && Requests(h, sender, vote)
  {
    var (sent, request) := StartViewChange(h, sender);
    RequestSent(h, sender, sender.view + 1, sent, request);
    vote := request[0].vote;
  }

  lemma RequestHeard(h: HashFn, sender: State, leader: State, vote: Vote, slot: u64) returns (next: State)
    requires sender.vs == leader.vs && leader.view <= sender.view < 0xffff_ffff && Requests(h, sender, vote)
    requires slot in sender.locked && CertVerifies(h, sender.vs, slot, sender.locked[slot])
    requires SeenKey(sender.id, sender.view + 1, MAX_SLOT, ViewChange) !in leader.seen
    ensures next == Ingest(h, leader, vote).0 && slot in next.locked
    ensures next.vs == leader.vs && next.id == leader.id && next.signer == leader.signer
    ensures next.locked[slot] == if slot in leader.locked && leader.locked[slot].view >= sender.locked[slot].view
                                 then leader.locked[slot] else sender.locked[slot]
  {
    var (st, outs) := Ingest(h, leader, vote);
    next := st;
    ViewChangeTaken(h, leader, vote, next, outs);
    MergedHolds(h, leader.vs, leader.locked, sender.locked, next.locked, slot);
  }

  /** What one validator locked, another that ingests its request holds, unless it holds one at least
      as high; and it proposes that value when it leads, whatever it is asked to propose. */
  lemma LockTravels(h: HashFn, sender: State, leader: State, slot: u64, value: seq<byte>)
    returns (vote: Vote, next: State, out: seq<Out>)
    requires Published(h, sender) && HasKey(sender) && LocksFit(sender.locked) && Published(h, leader)
    requires sender.vs == leader.vs && leader.view <= sender.view < 0xffff_ffff && sender.view + 1 !in sender.vcSent
    requires slot in sender.locked && CertVerifies(h, sender.vs, slot, sender.locked[slot])
    requires SeenKey(sender.id, sender.view + 1, MAX_SLOT, ViewChange) !in leader.seen
    ensures StartViewChange(h, sender).1 == [Broadcast(vote)] && next == Ingest(h, leader, vote).0
    ensures out == Propose(h, next, slot, value).1 && slot in next.locked && next.vs.N() > 0
    ensures next.locked[slot] == if slot in leader.locked && leader.locked[slot].view >= sender.locked[slot].view
                                 then leader.locked[slot] else sender.locked[slot]
    ensures if next.view % next.vs.N() == next.id && HasKey(next)
            then Votes(h, next, out, next.view, slot, PrePrepare, next.locked[slot].value) else out == []
  {
    vote := RequestOf(h, sender);
    next := RequestHeard(h, sender, leader, vote, slot);
    out := Propose(h, next, slot, value).1;
    ProposalSent(h, next, slot, value);
  }

  // ---------- a whole view change ----------

  function IngestAll(h: HashFn, st: State, votes: seq<Vote>): State {
    if votes == [] then st else Ingest(h, IngestAll(h, st, votes[..|votes| - 1]), votes[|votes| - 1]).0
  }

  /** Requests of different signers for one later view, none of them conflicting with one on record. */
  ghost predicate Asks(h: HashFn, st: State, votes: seq<Vote>, target: u32) {
    && target > st.view
    && (forall i :: 0 <= i < |votes| ==> AsksFor(h, st, votes[i], target))
    && forall i, j :: 0 <= i < j < |votes| ==> votes[i].signer != votes[j].signer
  }

  ghost predicate AsksFor(h: HashFn, st: State, vote: Vote, target: u32) {
    Verifies(h, st.vs, vote) && vote.phase == ViewChange && vote.view == target && !Conflicts(st, vote)
  }

  ghost predicate CertifiedIn(h: HashFn, vs: ValidatorSet, votes: seq<Vote>, e: SlotLock) {
    exists i :: 0 <= i < |votes| && Certified(h, vs, C.DecodeLocks(votes[i].value), e)
  }

  /** For every slot the lock of the highest view among the old one and all the certified ones in the
      requests. */
  ghost predicate MergedAll(h: HashFn, vs: ValidatorSet, was: map<u64, Lock>, votes: seq<Vote>, now: map<u64, Lock>) {
    && (forall e :: CertifiedIn(h, vs, votes, e) ==> e.slot in now && now[e.slot].view >= e.lock.view)
    && (forall slot :: slot in was ==> slot in now && (now[slot] == was[slot] || now[slot].view > was[slot].view))
    && (forall slot :: slot in now ==>
        (slot in was && now[slot] == was[slot]) || CertifiedIn(h, vs, votes, SlotLock(slot, now[slot])))
  }

  lemma MergedMore(h: HashFn, vs: ValidatorSet, was: map<u64, Lock>, votes: seq<Vote>, mid: map<u64, Lock>, last: Vote, now: map<u64, Lock>)
    requires MergedAll(h, vs, was, votes, mid) && Merged(h, vs, mid, C.DecodeLocks(last.value), now)
    ensures MergedAll(h, vs, was, votes + [last], now)
  {
    var all, n := votes + [last], |votes|;
    assert all[n] == last && forall i :: 0 <= i < n ==> all[i] == votes[i];
    forall e | CertifiedIn(h, vs, all, e)
      ensures e.slot in now && now[e.slot].view >= e.lock.view
    {
      var i :| 0 <= i < |all| && Certified(h, vs, C.DecodeLocks(all[i].value), e);
      if i < n {
        assert CertifiedIn(h, vs, votes, e);
      }
    }
    forall slot | slot in now
      ensures (slot in was && now[slot] == was[slot]) || CertifiedIn(h, vs, all, SlotLock(slot, now[slot]))
    {
      var e := SlotLock(slot, now[slot]);
      if Certified(h, vs, C.DecodeLocks(last.value), e) {
        assert Certified(h, vs, C.DecodeLocks(all[n].value), e);
      } else if CertifiedIn(h, vs, votes, e) {
        var i :| 0 <= i < n && Certified(h, vs, C.DecodeLocks(votes[i].value), e);
        assert Certified(h, vs, C.DecodeLocks(all[i].value), e);
      }
    }
  }

  function AskingAll(st: State, votes: seq<Vote>, target: u32): set<u32> {
    Get(st.vcTally, target, {}) + set v | v in votes :: v.signer
  }

  /** Requests that do not overshoot the quorum are all taken: their certified locks are merged and
      the view is entered exactly when a quorum of signers has asked. */
  ghost predicate Taken(h: HashFn, st: State, votes: seq<Vote>, target: u32, st': State) {
    && MergedAll(h, st.vs, st.locked, votes, st'.locked)
    && Get(st'.vcTally, target, {}) == AskingAll(st, votes, target)
    && st'.view == (if votes != [] && |AskingAll(st, votes, target)| >= st.vs.Quorum() then target else st.view)
    && st'.vs == st.vs && st'.id == st.id && st'.signer == st.signer && SeenFrom(st, votes, st')
  }

  /** Whatever is newly on record is from one of the signers. */
  ghost predicate SeenFrom(st: State, votes: seq<Vote>, st': State) {
    forall k :: k in st'.seen ==> (k in st.seen && st'.seen[k] == st.seen[k]) || SignedBySome(votes, k.signer)
  }

  ghost predicate SignedBySome(votes: seq<Vote>, signer: u32) {
    exists i :: 0 <= i < |votes| && votes[i].signer == signer
  }

  lemma SeenNext(st: State, votes: seq<Vote>, mid: State, last: Vote, st': State)
    requires SeenFrom(st, votes, mid) && st'.seen == Seen(mid, last).seen
    ensures SeenFrom(st, votes + [last], st')
  {
    var all := votes + [last];
    assert all[|votes|] == last && forall i :: 0 <= i < |votes| ==> all[i] == votes[i];
    forall k | k in st'.seen
      ensures (k in st.seen && st'.seen[k] == st.seen[k]) || SignedBySome(all, k.signer)
    {
      if k !in mid.seen {
        assert all[|votes|].signer == k.signer;
      } else if SignedBySome(votes, k.signer) {
        var i :| 0 <= i < |votes| && votes[i].signer == k.signer;
        assert all[i].signer == k.signer;
      }
    }
  }

  lemma AskingNext(st: State, votes: seq<Vote>, target: u32, mid: State, last: Vote)
    requires Get(mid.vcTally, target, {}) == AskingAll(st, votes, target) && last.view == target
    ensures Asking(mid, last) == AskingAll(st, votes + [last], target)
  {
    assert (set v | v in votes + [last] :: v.signer) == (set v | v in votes :: v.signer) + {last.signer};
  }

  lemma TakenNone(h: HashFn, st: State, target: u32)
    ensures Taken(h, st, [], target, st)
  {
  }

  /** Requests none of which comes after the quorum is complete. */
  ghost predicate Gathers(h: HashFn, st: State, votes: seq<Vote>, target: u32) {
    Asks(h, st, votes, target) && forall n :: 0 <= n < |votes| ==> |AskingAll(st, votes[..n], target)| < st.vs.Quorum()
  }

  lemma GathersFront(h: HashFn, st: State, votes: seq<Vote>, target: u32, front: seq<Vote>, last: Vote)
    requires Gathers(h, st, votes, target) && votes == front + [last]
    ensures Gathers(h, st, front, target) && |AskingAll(st, front, target)| < st.vs.Quorum()
    ensures IngestAll(h, st, votes) == Ingest(h, IngestAll(h, st, front), last).0
  {
    assert votes[..|front|] == front;
    forall i | 0 <= i < |front|
      ensures AsksFor(h, st, front[i], target) && |AskingAll(st, front[..i], target)| < st.vs.Quorum()
    {
      assert AsksFor(h, st, votes[i], target) && front[..i] == votes[..i];
    }
  }

  lemma {:induction false} ViewChangeCompletes(h: HashFn, st: State, votes: seq<Vote>, target: u32)
    requires Gathers(h, st, votes, target)
    ensures Taken(h, st, votes, target, IngestAll(h, st, votes))
    decreases |votes|
  {
    if votes == [] {
      TakenNone(h, st, target);
    } else {
      var front, last := votes[..|votes| - 1], votes[|votes| - 1];
      FrontAndLast(votes, front, last);
      GathersFront(h, st, votes, target, front, last);
      ViewChangeCompletes(h, st, front, target);
      TakenNext(h, st, front, target, IngestAll(h, st, front), last, IngestAll(h, st, votes));
    }
  }

  lemma FrontAndLast(votes: seq<Vote>, front: seq<Vote>, last: Vote)
    requires votes != [] && front == votes[..|votes| - 1] && last == votes[|votes| - 1]
    ensures votes == front + [last]
  {
  }

  lemma TakenNext(h: HashFn, st: State, votes: seq<Vote>, target: u32, mid: State, last: Vote, st': State)
    requires Asks(h, st, votes + [last], target) && Taken(h, st, votes, target, mid)
    requires |AskingAll(st, votes, target)| < st.vs.Quorum() && st' == Ingest(h, mid, last).0
    ensures Taken(h, st, votes + [last], target, st')
  {
    var all := votes + [last];
    assert all[|votes|] == last;
    assert AsksFor(h, st, last, target);
    NotYetSeen(h, st, votes, target, mid, last);
    var (s, out) := Ingest(h, mid, last);
    ViewChangeTaken(h, mid, last, s, out);
    MergedMore(h, st.vs, st.locked, votes, mid.locked, last, st'.locked);
    AskingNext(st, votes, target, mid, last);
    SeenNext(st, votes, mid, last, st');
  }

  lemma NotYetSeen(h: HashFn, st: State, votes: seq<Vote>, target: u32, mid: State, last: Vote)
    requires Asks(h, st, votes + [last], target) && Taken(h, st, votes, target, mid) && AsksFor(h, st, last, target)
    ensures !Conflicts(mid, last)
  {
    var all := votes + [last];
    assert all[|votes|] == last && forall i :: 0 <= i < |votes| ==> all[i] == votes[i];
    assert !SignedBySome(votes, last.signer);
  }

  /** The leader of the view that a quorum asked for proposes, for every slot that any request locks
      with a certificate, the value of a lock at least as high as each of them, and as its own. */
  lemma NewLeaderProposes(h: HashFn, st: State, votes: seq<Vote>, target: u32, slot: u64, value: seq<byte>)
    returns (st': State, out: seq<Out>)
    requires Gathers(h, st, votes, target) && votes != [] && |AskingAll(st, votes, target)| >= st.vs.Quorum()
    requires Published(h, st) && HasKey(st) && target % st.vs.N() == st.id
    ensures st' == IngestAll(h, st, votes) && st'.view == target && out == Propose(h, st', slot, value).1
    ensures MergedAll(h, st.vs, st.locked, votes, st'.locked)
    ensures Votes(h, st, out, target, slot, PrePrepare, if slot in st'.locked then st'.locked[slot].value else value)
  {
    ViewChangeCompletes(h, st, votes, target);
    st' := IngestAll(h, st, votes);
    out := Propose(h, st', slot, value).1;
    ProposalSent(h, st', slot, value);
  }
}
