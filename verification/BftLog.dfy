/** The log digest: in every run it is the hash chain of what the validator has committed, in
    order, and it binds that history. */
module BftLog {
  import opened Bytes
  import opened BftTypes
  import opened Validator
  import opened BftSafety
  import C = BftCodec

  /** One committed slot, with the digest of its value. */
  datatype Item = Item(slot: u64, vhash: Digest)

  function LogInput(prev: Digest, item: Item): seq<byte> {
    prev + LE(item.slot, 8) + item.vhash
  }

  lemma LogInputLayout(prev: Digest, item: Item)
    ensures var s := LogInput(prev, item); |s| == 72 && s[..32] == prev && s[32..40] == LE(item.slot, 8) && s[40..] == item.vhash
  {
  }

  /** The hash chain of a history. */
  function LogOf(h: HashFn, history: seq<Item>): Digest {
    if history == [] then h(LOG_GENESIS)
    else h(LogInput(LogOf(h, history[..|history| - 1]), history[|history| - 1]))
  }

  lemma LogInputInjective(p: Digest, a: Item, q: Digest, b: Item)
    requires LogInput(p, a) == LogInput(q, b)
    ensures p == q && a == b
  {
    var s, t := LogInput(p, a), LogInput(q, b);
    Widths();
    assert s[..32] == p && t[..32] == q && s[32..40] == LE(a.slot, 8) && t[32..40] == LE(b.slot, 8);
    assert s[40..] == a.vhash && t[40..] == b.vhash;
    LEInjective(a.slot, b.slot, 8);
  }

  /** What was hashed last. */
  function LastHashed(h: HashFn, history: seq<Item>): seq<byte> {
    if history == [] then LOG_GENESIS else LogInput(LogOf(h, history[..|history| - 1]), history[|history| - 1])
  }

  /** The histories were hashed from the same last bytes: nothing at all, or the same last item
      after chains with the same digest. */
  lemma SameLastHashed(h: HashFn, a: seq<Item>, b: seq<Item>)
    requires LastHashed(h, a) == LastHashed(h, b)
    ensures (a == []) == (b == [])
    ensures a != [] ==> a[|a| - 1] == b[|b| - 1] && LogOf(h, a[..|a| - 1]) == LogOf(h, b[..|b| - 1])
  {
    Widths();
    assert |LOG_GENESIS| < 32;
    if a != [] && b != [] {
      LogInputInjective(LogOf(h, a[..|a| - 1]), a[|a| - 1], LogOf(h, b[..|b| - 1]), b[|b| - 1]);
    }
  }

  lemma SameEnds(a: seq<Item>, b: seq<Item>)
    requires a != [] && b != [] && a[..|a| - 1] == b[..|b| - 1] && a[|a| - 1] == b[|b| - 1]
    ensures a == b
  {
    assert a == a[..|a| - 1] + [a[|a| - 1]] && b == b[..|b| - 1] + [b[|b| - 1]];
  }

  lemma LogIsLastHashed(h: HashFn, a: seq<Item>)
    ensures LogOf(h, a) == h(LastHashed(h, a))
  {
  }

  /** These bytes were hashed to build the chain of this history. */
  ghost predicate HashedBy(h: HashFn, history: seq<Item>, s: seq<byte>) {
    exists k :: 0 <= k <= |history| && s == LastHashed(h, history[..k])
  }

  lemma LastHashedBy(h: HashFn, history: seq<Item>)
    ensures HashedBy(h, history, LastHashed(h, history))
  {
    assert history[..|history|] == history;
  }

  lemma HashedBefore(h: HashFn, history: seq<Item>, n: nat, s: seq<byte>)
    requires n <= |history| && HashedBy(h, history[..n], s)
    ensures HashedBy(h, history, s)
  {
    var k :| 0 <= k <= n && s == LastHashed(h, history[..n][..k]);
    assert history[..n][..k] == history[..k];
  }

  /** The hash collides on two strings, one hashed to build the chain of each history. */
  ghost predicate ChainsCollide(h: HashFn, a: seq<Item>, b: seq<Item>, x: seq<byte>, y: seq<byte>) {
    Collide(h, x, y) && HashedBy(h, a, x) && HashedBy(h, b, y)
  }

  /** Equal digests mean equal histories, or the chains collide. */
  lemma {:induction false} LogBinds(h: HashFn, a: seq<Item>, b: seq<Item>) returns (x: seq<byte>, y: seq<byte>)
    requires LogOf(h, a) == LogOf(h, b)
    ensures a == b || ChainsCollide(h, a, b, x, y)
    decreases |a|
  {
    x, y := LastHashed(h, a), LastHashed(h, b);
    LogIsLastHashed(h, a);
    LogIsLastHashed(h, b);
    LastHashedBy(h, a);
    LastHashedBy(h, b);
    if x == y {
      SameLastHashed(h, a, b);
      if a != [] {
        x, y := LogBinds(h, a[..|a| - 1], b[..|b| - 1]);
        if a[..|a| - 1] == b[..|b| - 1] {
          SameEnds(a, b);
        } else {
          HashedBefore(h, a, |a| - 1, x);
          HashedBefore(h, b, |b| - 1, y);
        }
      }
    }
  }

  // ---------- what one handler call adds ----------

  /** The commits among a handler's outputs. */
  function Commits(h: HashFn, out: seq<Out>): seq<Item> {
    if out == [] then []
    else (if out[0].Committed? then [Item(out[0].slot, h(out[0].value))] else []) + Commits(h, out[1..])
  }

  lemma {:induction false} NoCommits(h: HashFn, out: seq<Out>)
    requires forall o :: o in out ==> !o.Committed?
    ensures Commits(h, out) == []
  {
    if out != [] {
      assert out[0] in out;
      NoCommits(h, out[1..]);
    }
  }

  /** Nothing is committed and the log stands still. */
  ghost predicate Still(st: State, r: (State, seq<Out>)) {
    r.0.logDigest == st.logDigest && r.0.committed == st.committed && forall o :: o in r.1 ==> !o.Committed?
  }

  lemma VoteStill(h: HashFn, st: State, slot: u64, phase: Phase, value: seq<byte>)
    ensures Still(st, MakeVote(h, st, slot, phase, value))
  {
  }

  lemma PrepareStill(h: HashFn, st: State, vote: Vote)
    ensures Still(st, IngestPrepare(h, st, vote))
  {
    if vote.view == st.view {
      var st1 := TallyVote(RetainVote(st, vote), vote);
      var cert := CertOf(st1.prepareVotes[BallotOf(vote)]);
      VoteStill(h, st1.(commitSent := st1.commitSent + {(st1.view, vote.slot)},
                        locked := st1.locked[vote.slot := Lock(st1.view, vote.value, cert)]),
                vote.slot, Commit, vote.value);
    }
  }

  lemma PrePrepareStill(h: HashFn, st: State, vote: Vote)
    ensures Still(st, IngestPrePrepare(h, st, vote))
  {
    VoteStill(h, st.(preparedSent := st.preparedSent + {(st.view, vote.slot)}), vote.slot, Prepare, vote.value);
  }

  lemma ViewChangeStill(h: HashFn, st: State, vote: Vote, entries: seq<SlotLock>)
    ensures Still(st, ViewChangeWith(h, st, vote, entries))
  {
  }

  /** The new digest and the new commits are one item, of a slot not committed before, or nothing. */
  ghost predicate Logged(h: HashFn, st: State, r: (State, seq<Out>)) {
    || (Still(st, r) && Commits(h, r.1) == [])
    || exists slot: u64, value: seq<byte> ::
         && slot !in st.committed && r.0.committed == st.committed[slot := value]
         && r.1 == [Committed(slot, value)] && r.0.logDigest == h(LogInput(st.logDigest, Item(slot, h(value))))
  }

  lemma CommitLogged(h: HashFn, st: State, vote: Vote)
    requires vote.vhash == h(vote.value)
    ensures Logged(h, st, IngestCommit(h, st, vote))
  {
    var r := IngestCommit(h, st, vote);
    if r.1 == [] {
      assert Still(st, r);
    } else {
      assert r.1 == [Committed(vote.slot, vote.value)];
    }
  }

  lemma StillLogged(h: HashFn, st: State, r: (State, seq<Out>))
    requires Still(st, r)
    ensures Logged(h, st, r)
  {
    NoCommits(h, r.1);
  }

  lemma DispatchLogged(h: HashFn, st: State, vote: Vote)
    requires vote.vhash == h(vote.value)
    ensures Logged(h, st, Dispatch(h, st, vote))
  {
    match vote.phase
    case ViewChange =>
      ViewChangeStill(h, st, vote, C.DecodeLocks(vote.value));
      StillLogged(h, st, Dispatch(h, st, vote));
    case PrePrepare =>
      PrePrepareStill(h, st, vote);
      StillLogged(h, st, Dispatch(h, st, vote));
    case Prepare =>
      PrepareStill(h, st, vote);
      StillLogged(h, st, Dispatch(h, st, vote));
    case Commit => CommitLogged(h, st, vote);
  }

  lemma IngestLogged(h: HashFn, st: State, vote: Vote)
    ensures Logged(h, st, Ingest(h, st, vote))
  {
    var key := SeenKey(vote.signer, vote.view, vote.slot, vote.phase);
    if Verifies(h, st.vs, vote) {
      DispatchLogged(h, st, vote);
      DispatchLogged(h, st.(seen := st.seen[key := vote]), vote);
    }
    if !Verifies(h, st.vs, vote) || (key in st.seen && st.seen[key].vhash != vote.vhash) {
      StillLogged(h, st, Ingest(h, st, vote));
    }
  }

  lemma HandleLogged(h: HashFn, st: State, step: Step)
    ensures Logged(h, st, Handle(h, st, step))
  {
    match step
    case Deliver(_, vote) => IngestLogged(h, st, vote);
    case Proposal(_, slot, value) =>
      VoteStill(h, st, slot, PrePrepare, if slot in st.locked then st.locked[slot].value else value);
      StillLogged(h, st, Handle(h, st, step));
    case Suspect(_) =>
      assert Still(st, RequestWith(h, st, NextView(st.view), C.EncodeLocks(st.locked)));
      StillLogged(h, st, Handle(h, st, step));
  }

  // ---------- over a run ----------

  /** What validator i committed in the first k steps, in order. */
  ghost function History(h: HashFn, steps: seq<Step>, trace: seq<System>, k: nat, i: u32): seq<Item>
    requires Run(h, steps, trace) && k < |trace|
    decreases k
  {
    if k == 0 then [] else
      var before := History(h, steps, trace, k - 1, i);
      if Mover(steps[k - 1]) == i && i in trace[k - 1].nodes
      then before + Commits(h, Handle(h, trace[k - 1].nodes[i], steps[k - 1]).1)
      else before
  }

  /** The log digest is the chain of the history, which lists exactly the committed slots, each once. */
  ghost predicate LogSound(h: HashFn, st: State, history: seq<Item>) {
    && st.logDigest == LogOf(h, history)
    && (forall n :: 0 <= n < |history| ==> history[n].slot in st.committed && history[n].vhash == h(st.committed[history[n].slot]))
    && (forall slot :: slot in st.committed ==> exists n :: 0 <= n < |history| && history[n].slot == slot)
    && (forall m, n :: 0 <= m < n < |history| ==> history[m].slot != history[n].slot)
  }

  lemma LogGrows(h: HashFn, st: State, r: (State, seq<Out>), history: seq<Item>)
    requires LogSound(h, st, history) && Logged(h, st, r)
    ensures LogSound(h, r.0, history + Commits(h, r.1))
  {
    if Still(st, r) && Commits(h, r.1) == [] {
      assert history + [] == history;
      SoundElsewhere(h, st, r.0, history);
    } else {
      var slot: u64, value: seq<byte> :|
        && slot !in st.committed && r.0.committed == st.committed[slot := value]
        && r.1 == [Committed(slot, value)] && r.0.logDigest == h(LogInput(st.logDigest, Item(slot, h(value))));
      var item := Item(slot, h(value));
      assert r.1[1..] == [] && Commits(h, r.1) == [item];
      LogOneMore(h, st, history, slot, value);
      SoundElsewhere(h, st.(committed := st.committed[slot := value], logDigest := h(LogInput(st.logDigest, item))),
                     r.0, history + [item]);
    }
  }

  lemma LogOneMore(h: HashFn, st: State, history: seq<Item>, slot: u64, value: seq<byte>)
    requires LogSound(h, st, history) && slot !in st.committed
    ensures var item := Item(slot, h(value));
            LogSound(h, st.(committed := st.committed[slot := value], logDigest := h(LogInput(st.logDigest, item))),
                     history + [item])
  {
    var item := Item(slot, h(value));
    var all := history + [item];
    assert all[..|all| - 1] == history;
    var committed := st.committed[slot := value];
    forall s | s in committed
      ensures exists n :: 0 <= n < |all| && all[n].slot == s
    {
      if s == slot {
        assert all[|history|].slot == s;
      } else {
        var n :| 0 <= n < |history| && history[n].slot == s;
        assert all[n].slot == s;
      }
    }
  }

  lemma SoundElsewhere(h: HashFn, a: State, b: State, history: seq<Item>)
    requires LogSound(h, a, history) && a.logDigest == b.logDigest && a.committed == b.committed
    ensures LogSound(h, b, history)
  {
  }

  /** In every run the log digest of each honest validator is the chain of its commits. */
  lemma {:induction false} RunKeepsLog(h: HashFn, steps: seq<Step>, trace: seq<System>, k: nat, i: u32)
    requires Run(h, steps, trace) && k < |trace| && i in trace[k].nodes
    ensures LogSound(h, trace[k].nodes[i], History(h, steps, trace, k, i))
    decreases k
  {
    if k == 0 {
      LogStarts(h, trace[0], i);
    } else {
      RunStep(h, steps, trace, k - 1, i);
      RunKeepsLog(h, steps, trace, k - 1, i);
      NextKeepsLog(h, trace[k - 1], steps[k - 1], trace[k], i, History(h, steps, trace, k - 1, i));
    }
  }

  lemma LogStarts(h: HashFn, sys: System, i: u32)
    requires Init(h, sys) && i in sys.nodes
    ensures LogSound(h, sys.nodes[i], [])
  {
  }

  lemma RunStep(h: HashFn, steps: seq<Step>, trace: seq<System>, k: nat, i: u32)
    requires Run(h, steps, trace) && k + 1 < |trace| && i in trace[k + 1].nodes
    ensures Next(h, trace[k], steps[k], trace[k + 1]) && i in trace[k].nodes
    ensures History(h, steps, trace, k + 1, i) ==
      if Mover(steps[k]) == i then History(h, steps, trace, k, i) + Commits(h, Handle(h, trace[k].nodes[i], steps[k]).1)
      else History(h, steps, trace, k, i)
  {
    assert Next(h, trace[k], steps[k], trace[k + 1]);
  }

  lemma NextKeepsLog(h: HashFn, sys: System, step: Step, sys': System, i: u32, history: seq<Item>)
    requires Next(h, sys, step, sys') && i in sys.nodes && LogSound(h, sys.nodes[i], history)
    ensures i in sys'.nodes
    ensures LogSound(h, sys'.nodes[i],
                     if Mover(step) == i then history + Commits(h, Handle(h, sys.nodes[i], step).1) else history)
  {
    if Mover(step) == i {
      HandleLogged(h, sys.nodes[i], step);
      LogGrows(h, sys.nodes[i], Handle(h, sys.nodes[i], step), history);
    }
  }

  /** Honest validators with equal log digests committed the same slots with the same digests in the
      same order; or the hash collides on two strings hashed into their chains. */
  lemma EqualLogsEqualHistories(h: HashFn, steps: seq<Step>, trace: seq<System>, k: nat, l: nat, i: u32, j: u32)
    returns (x: seq<byte>, y: seq<byte>)
    requires Run(h, steps, trace) && k < |trace| && l < |trace| && i in trace[k].nodes && j in trace[l].nodes
    requires trace[k].nodes[i].logDigest == trace[l].nodes[j].logDigest
    ensures var a, b := History(h, steps, trace, k, i), History(h, steps, trace, l, j);
            a == b || ChainsCollide(h, a, b, x, y)
  {
    RunKeepsLog(h, steps, trace, k, i);
    RunKeepsLog(h, steps, trace, l, j);
    x, y := LogBinds(h, History(h, steps, trace, k, i), History(h, steps, trace, l, j));
  }
}
