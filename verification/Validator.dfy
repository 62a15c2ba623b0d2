/** The consensus validator of `bft.rs`: each handler as a function on the validator's state
    (the specification the safety proof is about) and the class that runs it in place. */
module Validator {
  import opened Bytes
  import opened BftTypes
  import C = BftCodec
  import M = Merkle
  import Ordered

  /** What a tally counts votes for. */
  datatype Ballot = Ballot(view: u32, slot: u64, phase: Phase, vhash: Digest)

  /** Where equivocation is judged. */
  datatype SeenKey = SeenKey(signer: u32, view: u32, slot: u64, phase: Phase)

  datatype Out =
    | Broadcast(vote: Vote)
    | Committed(slot: u64, value: seq<byte>)
    | Equivocation(a: Vote, b: Vote)
    | ViewChanged(view: u32)

  datatype State = State(
    id: u32,
    vs: ValidatorSet,
    signer: M.SignerState,
    view: u32,
    tally: map<Ballot, set<u32>>,
    seen: map<SeenKey, Vote>,
    preparedSent: set<(u32, u64)>,
    commitSent: set<(u32, u64)>,
    locked: map<u64, Lock>,
    prepareVotes: map<Ballot, map<u32, Vote>>,
    committed: map<u64, seq<byte>>,
    logDigest: Digest,
    vcTally: map<u32, set<u32>>,
    vcSent: set<u32>)

  const MAX_SLOT: u64 := 0xffff_ffff_ffff_ffff

  /** The ASCII bytes of "bft-log-genesis". */
  const LOG_GENESIS: seq<byte> := [98, 102, 116, 45, 108, 111, 103, 45, 103, 101, 110, 101, 115, 105, 115]

  lemma TagSpelled()
    ensures Spells(LOG_GENESIS, "bft-log-genesis")
  {
  }

  function InitState(h: HashFn, id: u32, signer: M.SignerState, vs: ValidatorSet): State {
    State(id, vs, signer, 0, map[], map[], {}, {}, map[], map[], map[], h(LOG_GENESIS), map[], {})
  }

  function Get<K, V>(m: map<K, V>, k: K, default: V): V {
    if k in m then m[k] else default
  }

  function BallotOf(v: Vote): Ballot {
    Ballot(v.view, v.slot, v.phase, v.vhash)
  }

  // ---------- handlers as functions ----------

  function MakeVote(h: HashFn, st: State, slot: u64, phase: Phase, value: seq<byte>): (State, seq<Out>) {
    var vhash := h(value);
    var (signer, sig) := M.SignNext(h, st.signer, SignedBytes(st.view, slot, phase, vhash));
    (st.(signer := signer),
     if sig.None? then [] else [Broadcast(Vote(st.view, slot, phase, vhash, value, st.id, sig.value))])
  }

  function Propose(h: HashFn, st: State, slot: u64, value: seq<byte>): (State, seq<Out>) {
    if st.vs.Leader(st.view) != st.id then (st, [])
    else MakeVote(h, st, slot, PrePrepare, if slot in st.locked then st.locked[slot].value else value)
  }

  function IngestPrePrepare(h: HashFn, st: State, vote: Vote): (State, seq<Out>) {
    if vote.view != st.view || vote.signer != st.vs.Leader(st.view) then (st, [])
    else if vote.slot in st.locked && h(st.locked[vote.slot].value) != vote.vhash then (st, [])
    else if (st.view, vote.slot) in st.preparedSent then (st, [])
    else
      var st1 := st.(preparedSent := st.preparedSent + {(st.view, vote.slot)});
      MakeVote(h, st1, vote.slot, Prepare, vote.value)
  }

  /** The retained Prepare votes, in ascending signer order. */
  function CertOf(votes: map<u32, Vote>): seq<Vote> {
    var signers := Ordered.Ascending(votes.Keys);
    seq(|signers|, i requires 0 <= i < |signers| => assert signers[i] in signers; votes[signers[i]])
  }

  lemma CertMembers(votes: map<u32, Vote>)
    ensures forall v :: v in CertOf(votes) ==> exists s :: s in votes && v == votes[s]
    ensures forall s :: s in votes ==> votes[s] in CertOf(votes)
  {
    var signers, cert := Ordered.Ascending(votes.Keys), CertOf(votes);
    forall v | v in cert
      ensures exists s :: s in votes && v == votes[s]
    {
      var i :| 0 <= i < |cert| && cert[i] == v;
      assert signers[i] in signers;
    }
    forall s | s in votes
      ensures votes[s] in cert
    {
      var i :| 0 <= i < |signers| && signers[i] == s;
      assert cert[i] == votes[s];
    }
  }

  function TallyVote(st: State, vote: Vote): State {
    var ballot := BallotOf(vote);
    st.(tally := st.tally[ballot := Get(st.tally, ballot, {}) + {vote.signer}])
  }

  function RetainVote(st: State, vote: Vote): State {
    var ballot := BallotOf(vote);
    st.(prepareVotes := st.prepareVotes[ballot := Get(st.prepareVotes, ballot, map[])[vote.signer := vote]])
  }

  function LockAndCommit(h: HashFn, st: State, vote: Vote, cert: seq<Vote>): (State, seq<Out>) {
    var st1 := st.(commitSent := st.commitSent + {(st.view, vote.slot)},
                   locked := st.locked[vote.slot := Lock(st.view, vote.value, cert)]);
    MakeVote(h, st1, vote.slot, Commit, vote.value)
  }

  function IngestPrepare(h: HashFn, st: State, vote: Vote): (State, seq<Out>) {
    if vote.view != st.view then (st, []) else
      var ballot := BallotOf(vote);
      var st1 := TallyVote(RetainVote(st, vote), vote);
      if |st1.tally[ballot]| >= st.vs.Quorum() && (st.view, vote.slot) !in st.commitSent then
        LockAndCommit(h, st1, vote, CertOf(st1.prepareVotes[ballot]))
      else
        (st1, [])
  }

  function IngestCommit(h: HashFn, st: State, vote: Vote): (State, seq<Out>) {
    var ballot := BallotOf(vote);
    var st1 := TallyVote(st, vote);
    if |st1.tally[ballot]| >= st.vs.Quorum() && vote.slot !in st.committed then
      (st1.(committed := st.committed[vote.slot := vote.value],
            logDigest := h(st.logDigest + LE(vote.slot, 8) + vote.vhash)),
       [Committed(vote.slot, vote.value)])
    else
      (st1, [])
  }

  /** A Prepare vote that may stand in a certificate for (view, slot, value). */
  predicate Justifies(h: HashFn, vs: ValidatorSet, slot: u64, view: u32, value: seq<byte>, v: Vote) {
    v.phase == Prepare && v.view == view && v.slot == slot && v.vhash == h(value) && Verifies(h, vs, v)
  }

  function Signers(cert: seq<Vote>): set<u32> {
    set v | v in cert :: v.signer
  }

  predicate CertVerifies(h: HashFn, vs: ValidatorSet, slot: u64, l: Lock) {
    && (forall v :: v in l.cert ==> Justifies(h, vs, slot, l.view, l.value, v))
    && |Signers(l.cert)| >= vs.Quorum()
  }

  function MergeLock(h: HashFn, vs: ValidatorSet, locked: map<u64, Lock>, e: SlotLock): map<u64, Lock> {
    if CertVerifies(h, vs, e.slot, e.lock) && (e.slot in locked ==> e.lock.view > locked[e.slot].view)
    then locked[e.slot := e.lock]
    else locked
  }

  function MergeLocks(h: HashFn, vs: ValidatorSet, locked: map<u64, Lock>, entries: seq<SlotLock>): map<u64, Lock>
    decreases |entries|
  {
    if entries == [] then locked else MergeLocks(h, vs, MergeLock(h, vs, locked, entries[0]), entries[1..])
  }

  function RetainFrom(sent: set<(u32, u64)>, view: u32): set<(u32, u64)> {
    set p | p in sent && p.0 >= view
  }

  function EnterView(st: State, target: u32): State {
    st.(view := target,
        preparedSent := RetainFrom(st.preparedSent, target),
        commitSent := RetainFrom(st.commitSent, target))
  }

  function ViewChangeWith(h: HashFn, st: State, vote: Vote, entries: seq<SlotLock>): (State, seq<Out>) {
    var target := vote.view;
    var signers := Get(st.vcTally, target, {}) + {vote.signer};
    var st1 := st.(locked := MergeLocks(h, st.vs, st.locked, entries), vcTally := st.vcTally[target := signers]);
    if |signers| >= st.vs.Quorum() then (EnterView(st1, target), [ViewChanged(target)]) else (st1, [])
  }

  function IngestViewChange(h: HashFn, st: State, vote: Vote): (State, seq<Out>) {
    if vote.view <= st.view then (st, []) else ViewChangeWith(h, st, vote, C.DecodeLocks(vote.value))
  }

  function Dispatch(h: HashFn, st: State, vote: Vote): (State, seq<Out>) {
    match vote.phase
    case ViewChange => IngestViewChange(h, st, vote)
    case PrePrepare => IngestPrePrepare(h, st, vote)
    case Prepare => IngestPrepare(h, st, vote)
    case Commit => IngestCommit(h, st, vote)
  }

  function Ingest(h: HashFn, st: State, vote: Vote): (State, seq<Out>) {
    var key := SeenKey(vote.signer, vote.view, vote.slot, vote.phase);
    if !Verifies(h, st.vs, vote) then (st, [])
    else if key !in st.seen then Dispatch(h, st.(seen := st.seen[key := vote]), vote)
    else if st.seen[key].vhash != vote.vhash then (st, [Equivocation(st.seen[key], vote)])
    else Dispatch(h, st, vote)
  }

  function RequestWith(h: HashFn, st: State, target: u32, payload: seq<byte>): (State, seq<Out>) {
    var vhash := h(payload);
    var (signer, sig) := M.SignNext(h, st.signer, SignedBytes(target, MAX_SLOT, ViewChange, vhash));
    (st.(vcSent := st.vcSent + {target}, signer := signer),
     if sig.None? then []
     else [Broadcast(Vote(target, MAX_SLOT, ViewChange, vhash, payload, st.id, sig.value))])
  }

  /** `view + 1` in 32 bits. */
  function NextView(view: u32): u32 {
    (view + 1) % 0x1_0000_0000
  }

  function StartViewChange(h: HashFn, st: State): (State, seq<Out>) {
    if NextView(st.view) in st.vcSent then (st, [])
    else RequestWith(h, st, NextView(st.view), C.EncodeLocks(st.locked))
  }

  // ---------- the validator in place ----------

  class Validator {
    const h: HashFn
    const id: u32
    const vs: ValidatorSet
    const signer: M.Signer
    var view: u32
    var tally: map<Ballot, set<u32>>
    var seen: map<SeenKey, Vote>
    var preparedSent: set<(u32, u64)>
    var commitSent: set<(u32, u64)>
    var locked: map<u64, Lock>
    var prepareVotes: map<Ballot, map<u32, Vote>>
    var committed: map<u64, seq<byte>>
    var logDigest: Digest
    var vcTally: map<u32, set<u32>>
    var vcSent: set<u32>

    ghost predicate Valid() {
      signer.h == h
    }

    ghost function Model(): State
      reads this, signer
    {
      State(id, vs, signer.Model(), view, tally, seen, preparedSent, commitSent, locked, prepareVotes,
            committed, logDigest, vcTally, vcSent)
    }

    constructor (h: HashFn, id: u32, signer: M.Signer, vs: ValidatorSet)
      requires signer.h == h
      ensures Valid() && this.h == h && Model() == InitState(h, id, signer.Model(), vs)
      ensures this.signer == signer
    {
      this.h, this.id, this.signer, this.vs := h, id, signer, vs;
      view, tally, seen, preparedSent, commitSent := 0, map[], map[], {}, {};
      locked, prepareVotes, committed, vcTally, vcSent := map[], map[], map[], map[], {};
      logDigest := h(LOG_GENESIS);
    }

    method SignVote(slot: u64, phase: Phase, value: seq<byte>) returns (out: seq<Out>)
      requires Valid()
      modifies signer
      ensures (Model(), out) == MakeVote(h, old(Model()), slot, phase, value)
    {
      var vhash := h(value);
      var sig := signer.SignWithNext(SignedBytes(view, slot, phase, vhash));
      if sig.None? {
        return [];
      }
      out := [Broadcast(Vote(view, slot, phase, vhash, value, id, sig.value))];
    }

    method ProposeValue(slot: u64, value: seq<byte>) returns (out: seq<Out>)
      requires Valid()
      modifies signer
      ensures (Model(), out) == Propose(h, old(Model()), slot, value)
    {
      if vs.Leader(view) != id {
        return [];
      }
      var proposal := if slot in locked then locked[slot].value else value;
      out := SignVote(slot, PrePrepare, proposal);
    }

    method ReceivePrePrepare(vote: Vote) returns (out: seq<Out>)
      requires Valid()
      modifies this, signer
      ensures (Model(), out) == IngestPrePrepare(h, old(Model()), vote)
    {
      if vote.view != view || vote.signer != vs.Leader(view) {
        return [];
      }
      if vote.slot in locked && h(locked[vote.slot].value) != vote.vhash {
        return [];
      }
      if (view, vote.slot) in preparedSent {
        return [];
      }
      preparedSent := preparedSent + {(view, vote.slot)};
      out := SignVote(vote.slot, Prepare, vote.value);
    }

    method TakeLock(vote: Vote, cert: seq<Vote>) returns (out: seq<Out>)
      requires Valid()
      modifies this, signer
      ensures (Model(), out) == LockAndCommit(h, old(Model()), vote, cert)
    {
      commitSent := commitSent + {(view, vote.slot)};
      locked := locked[vote.slot := Lock(view, vote.value, cert)];
      out := SignVote(vote.slot, Commit, vote.value);
    }

    method ReceivePrepare(vote: Vote) returns (out: seq<Out>)
      requires Valid()
      modifies this, signer
      ensures (Model(), out) == IngestPrepare(h, old(Model()), vote)
    {
      if vote.view != view {
        return [];
      }
      var ballot := BallotOf(vote);
      prepareVotes := prepareVotes[ballot := Get(prepareVotes, ballot, map[])[vote.signer := vote]];
      tally := tally[ballot := Get(tally, ballot, {}) + {vote.signer}];
      if |tally[ballot]| >= vs.Quorum() && (view, vote.slot) !in commitSent {
        out := TakeLock(vote, CertOf(prepareVotes[ballot]));
      } else {
        out := [];
      }
    }

    method ReceiveCommit(vote: Vote) returns (out: seq<Out>)
      requires Valid()
      modifies this
      ensures (Model(), out) == IngestCommit(h, old(Model()), vote)
    {
      var ballot := BallotOf(vote);
      tally := tally[ballot := Get(tally, ballot, {}) + {vote.signer}];
      if |tally[ballot]| >= vs.Quorum() && vote.slot !in committed {
        committed := committed[vote.slot := vote.value];
        logDigest := h(logDigest + LE(vote.slot, 8) + vote.vhash);
        out := [Committed(vote.slot, vote.value)];
      } else {
        out := [];
      }
    }

    method VerifyPreparedCert(slot: u64, l: Lock) returns (ok: bool)
      ensures ok <==> CertVerifies(h, vs, slot, l)
    {
      var vhash := h(l.value);
      var signers: set<u32> := {};
      for i := 0 to |l.cert|
        invariant forall v :: v in l.cert[..i] ==> Justifies(h, vs, slot, l.view, l.value, v)
        invariant signers == Signers(l.cert[..i])
      {
        var v := l.cert[i];
        assert v in l.cert && l.cert[..i + 1] == l.cert[..i] + [v];
        var good := VerifyVote(v);
        if v.phase != Prepare || v.view != l.view || v.slot != slot || v.vhash != vhash || !good {
          return false;
        }
        signers := signers + {v.signer};
      }
      assert l.cert[..|l.cert|] == l.cert;
      ok := |signers| >= vs.Quorum();
    }

    method VerifyVote(v: Vote) returns (ok: bool)
      ensures ok <==> Verifies(h, vs, v)
    {
      if v.vhash != h(v.value) {
        return false;
      }
      if v.signer >= vs.N() {
        return false;
      }
      ok := M.VerifySig(h, vs.roots[v.signer], SignedBytes(v.view, v.slot, v.phase, v.vhash), v.sig);
    }

    method AdoptLocks(entries: seq<SlotLock>)
      modifies this`locked
      ensures locked == MergeLocks(h, vs, old(locked), entries)
    {
      for i := 0 to |entries|
        invariant MergeLocks(h, vs, locked, entries[i..]) == MergeLocks(h, vs, old(locked), entries)
      {
        var e := entries[i];
        assert entries[i..][1..] == entries[i + 1..];
        var good := VerifyPreparedCert(e.slot, e.lock);
        if good && (e.slot in locked ==> e.lock.view > locked[e.slot].view) {
          locked := locked[e.slot := e.lock];
        }
      }
    }

    method AdoptAndCount(vote: Vote, entries: seq<SlotLock>) returns (out: seq<Out>)
      requires Valid()
      modifies this
      ensures (Model(), out) == ViewChangeWith(h, old(Model()), vote, entries)
    {
      var target := vote.view;
      AdoptLocks(entries);
      vcTally := vcTally[target := Get(vcTally, target, {}) + {vote.signer}];
      if |vcTally[target]| >= vs.Quorum() {
        view := target;
        preparedSent := RetainFrom(preparedSent, target);
        commitSent := RetainFrom(commitSent, target);
        out := [ViewChanged(target)];
      } else {
        out := [];
      }
    }

    method ReceiveViewChange(vote: Vote) returns (out: seq<Out>)
      requires Valid()
      modifies this
      ensures (Model(), out) == IngestViewChange(h, old(Model()), vote)
    {
      if vote.view <= view {
        return [];
      }
      var entries := C.ReadLocks(vote.value);
      out := AdoptAndCount(vote, entries);
    }

    method Receive(vote: Vote) returns (out: seq<Out>)
      requires Valid()
      modifies this, signer
      ensures (Model(), out) == Ingest(h, old(Model()), vote)
    {
      var good := VerifyVote(vote);
      if !good {
        return [];
      }
      var key := SeenKey(vote.signer, vote.view, vote.slot, vote.phase);
      if key in seen {
        if seen[key].vhash != vote.vhash {
          return [Equivocation(seen[key], vote)];
        }
      } else {
        seen := seen[key := vote];
      }
      match vote.phase {
        case ViewChange => out := ReceiveViewChange(vote);
        case PrePrepare => out := ReceivePrePrepare(vote);
        case Prepare => out := ReceivePrepare(vote);
        case Commit => out := ReceiveCommit(vote);
      }
    }

    method SendRequest(target: u32, payload: seq<byte>) returns (out: seq<Out>)
      requires Valid()
      modifies this, signer
      ensures (Model(), out) == RequestWith(h, old(Model()), target, payload)
    {
      vcSent := vcSent + {target};
      var vhash := h(payload);
      var sig := signer.SignWithNext(SignedBytes(target, MAX_SLOT, ViewChange, vhash));
      if sig.None? {
        return [];
      }
      out := [Broadcast(Vote(target, MAX_SLOT, ViewChange, vhash, payload, id, sig.value))];
    }

    method RequestViewChange() returns (out: seq<Out>)
      requires Valid()
      modifies this, signer
      ensures (Model(), out) == StartViewChange(h, old(Model()))
    {
      var target := NextView(view);
      if target in vcSent {
        return [];
      }
      var payload := C.WriteLocks(locked);
      out := SendRequest(target, payload);
    }
  }
}
