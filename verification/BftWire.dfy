/** Votes, locks and the validator set of `bft.rs`. */
module BftTypes {
  import opened Bytes
  import Arith
  import M = Merkle

  datatype Phase = PrePrepare | Prepare | Commit | ViewChange

  function PhaseTag(p: Phase): byte {
    match p
    case PrePrepare => 0
    case Prepare => 1
    case Commit => 2
    case ViewChange => 3
  }

  function PhaseFromTag(t: byte): Option<Phase> {
    if t == 0 then Some(PrePrepare)
    else if t == 1 then Some(Prepare)
    else if t == 2 then Some(Commit)
    else if t == 3 then Some(ViewChange)
    else None
  }

  datatype Vote = Vote(view: u32, slot: u64, phase: Phase, vhash: Digest, value: seq<byte>,
                       signer: u32, sig: M.OtsSig)

  /** A lock: the view it was prepared in, the value, and the Prepare votes that prove it. */
  datatype Lock = Lock(view: u32, value: seq<byte>, cert: seq<Vote>)

  /** A lock as it travels in a view-change payload, with its slot. */
  datatype SlotLock = SlotLock(slot: u64, lock: Lock)

  datatype ValidatorSet = ValidatorSet(roots: seq<Digest>) {
    function N(): nat { |roots| }

    function F(): nat { if N() == 0 then 0 else (N() - 1) / 3 }

    function Quorum(): nat { 2 * F() + 1 }

    function Leader(view: u32): nat { view % Max(N(), 1) }
  }

  /** What a vote's signature covers. */
  function SignedBytes(view: u32, slot: u64, phase: Phase, vhash: Digest): seq<byte> {
    LE(view, 4) + LE(slot, 8) + [PhaseTag(phase)] + vhash
  }

  predicate Verifies(h: HashFn, vs: ValidatorSet, v: Vote) {
    && v.vhash == h(v.value)
    && v.signer < vs.N()
    && M.SigVerifies(h, vs.roots[v.signer], SignedBytes(v.view, v.slot, v.phase, v.vhash), v.sig)
  }

  /** View, slot, phase and hash, in that order. */
  lemma SignedBytesLayout(view: u32, slot: u64, phase: Phase, vhash: Digest)
    ensures var s := SignedBytes(view, slot, phase, vhash);
      && |s| == 45 && s[..4] == LE(view, 4) && s[4..12] == LE(slot, 8) && s[13..] == vhash
      && s[12] == (if phase.PrePrepare? then 0 else if phase.Prepare? then 1 else if phase.Commit? then 2 else 3)
  {
  }

  /** f is the largest number of faults with 3f + 1 <= n, a quorum is more than half of what is left
      when f are set aside, and the lead goes round. */
  lemma SetSizes(vs: ValidatorSet, view: u32)
    requires vs.N() > 0
    ensures 3 * vs.F() + 1 <= vs.N() < 3 * (vs.F() + 1) + 1 && vs.Quorum() == 2 * vs.F() + 1
    ensures vs.Leader(view) < vs.N() && vs.Leader(0) == 0
    ensures view < 0xffff_ffff ==> vs.Leader(view + 1) == (vs.Leader(view) + 1) % vs.N()
  {
    NextLeader(view, vs.N());
  }

  lemma NextLeader(v: nat, n: nat)
    requires n > 0
    ensures (v + 1) % n == (v % n + 1) % n && 0 % n == 0
  {
    Arith.ModAdd(v, 1, n);
    Arith.DivUnique(0, n, 0, 0);
  }

  /** The signed bytes determine view, slot, phase and hash, so a signature binds all four. */
  lemma SignedBytesInjective(view: u32, slot: u64, phase: Phase, vhash: Digest,
                             view': u32, slot': u64, phase': Phase, vhash': Digest)
    requires SignedBytes(view, slot, phase, vhash) == SignedBytes(view', slot', phase', vhash')
    ensures view == view' && slot == slot' && phase == phase' && vhash == vhash'
  {
    var a, b := SignedBytes(view, slot, phase, vhash), SignedBytes(view', slot', phase', vhash');
    assert a[..4] == LE(view, 4) && b[..4] == LE(view', 4);
    assert a[4..12] == LE(slot, 8) && b[4..12] == LE(slot', 8);
    assert a[12] == PhaseTag(phase) && b[12] == PhaseTag(phase');
    assert a[13..] == vhash && b[13..] == vhash';
    Widths();
    LEInjective(view, view', 4);
    LEInjective(slot, slot', 8);
  }
}

/** The wire encoding of votes and of the locks carried in a view-change. Lengths are
    written as 32-bit integers, so `LE(n, 4)` keeps only the low 32 bits of a longer one.
    A reader's position is represented by the bytes not yet consumed. */
module BftCodec {
  import opened Bytes
  import opened BftTypes
  import M = Merkle
  import Ordered

  // ---------- reading from the front ----------

  function Take(b: seq<byte>, n: nat): (r: Option<(seq<byte>, seq<byte>)>)
    ensures r.Some? ==> |r.value.0| == n
  {
    if n > |b| then None else Some((b[..n], b[n..]))
  }

  function TakeU32(b: seq<byte>): Option<(u32, seq<byte>)> {
    var (s, rest) :- Take(b, 4);
    Some((DecodeU32(s), rest))
  }

  function TakeU64(b: seq<byte>): Option<(u64, seq<byte>)> {
    var (s, rest) :- Take(b, 8);
    Some((DecodeU64(s), rest))
  }

  function TakePhase(b: seq<byte>): Option<(Phase, seq<byte>)> {
    var (s, rest) :- Take(b, 1);
    var phase :- PhaseFromTag(s[0]);
    Some((phase, rest))
  }

  function TakeDigest(b: seq<byte>): Option<(Digest, seq<byte>)> {
    var (s, rest) :- Take(b, DIGEST_LEN);
    var d: Digest := s;
    Some((d, rest))
  }

  function TakeChunk(b: seq<byte>): Option<(seq<byte>, seq<byte>)> {
    var (n, rest) :- TakeU32(b);
    Take(rest, n)
  }

  function TakePath(b: seq<byte>, n: nat): Option<(seq<Digest>, seq<byte>)>
    decreases n
  {
    if n == 0 then Some(([], b)) else
      var (d, b1) :- TakeDigest(b);
      var (path, b2) :- TakePath(b1, n - 1);
      Some(([d] + path, b2))
  }

  lemma TakeFront(head: seq<byte>, tail: seq<byte>)
    ensures Take(head + tail, |head|) == Some((head, tail))
  {
    assert (head + tail)[..|head|] == head && (head + tail)[|head|..] == tail;
  }

  lemma TakeFrontU32(n: nat, tail: seq<byte>)
    requires n < LIMIT
    ensures TakeU32(LE(n, 4) + tail) == Some((n, tail))
  {
    TakeFront(LE(n, 4), tail);
    U32RoundTrip(n);
  }

  lemma TakeFrontU64(n: u64, tail: seq<byte>)
    ensures TakeU64(LE(n, 8) + tail) == Some((n, tail))
  {
    TakeFront(LE(n, 8), tail);
    U64RoundTrip(n);
  }

  lemma TakeFrontPhase(p: Phase, tail: seq<byte>)
    ensures TakePhase([PhaseTag(p)] + tail) == Some((p, tail))
  {
    TakeFront([PhaseTag(p)], tail);
  }

  lemma TakeFrontDigest(d: Digest, tail: seq<byte>)
    ensures TakeDigest(d + tail) == Some((d, tail))
  {
    TakeFront(d, tail);
  }

  lemma TakeFrontChunk(s: seq<byte>, tail: seq<byte>)
    requires |s| < LIMIT
    ensures TakeChunk(Chunk(s) + tail) == Some((s, tail))
  {
    assert Chunk(s) + tail == LE(|s|, 4) + (s + tail);
    TakeFrontU32(|s|, s + tail);
    TakeFront(s, tail);
  }

  // ---------- signatures and votes ----------

  function Chunk(s: seq<byte>): seq<byte> { LE(|s|, 4) + s }

  function Concat(path: seq<Digest>): seq<byte> {
    if path == [] then [] else path[0] + Concat(path[1..])
  }

  function EncodeSig(s: M.OtsSig): seq<byte> {
    LE(s.index, 4) + (Chunk(s.sig) + (Chunk(s.otsPub) + (LE(|s.path|, 4) + Concat(s.path))))
  }

  function EncodeVote(v: Vote): seq<byte> {
    LE(v.view, 4) + (LE(v.slot, 8) + ([PhaseTag(v.phase)] + (v.vhash +
    (Chunk(v.value) + (LE(v.signer, 4) + EncodeSig(v.sig))))))
  }

  function DecodeSig(b: seq<byte>): Option<M.OtsSig> {
    var (index, b1) :- TakeU32(b);
    var (sig, b2) :- TakeChunk(b1);
    var (otsPub, b3) :- TakeChunk(b2);
    var (plen, b4) :- TakeU32(b3);
    var (path, _) :- TakePath(b4, plen);
    Some(M.OtsSig(index, sig, otsPub, path))
  }

  function DecodeVote(b: seq<byte>): Option<Vote> {
    var (view, b1) :- TakeU32(b);
    var (slot, b2) :- TakeU64(b1);
    var (phase, b3) :- TakePhase(b2);
    var (vhash, b4) :- TakeDigest(b3);
    var (value, b5) :- TakeChunk(b4);
    var (signer, b6) :- TakeU32(b5);
    var sig :- DecodeSig(b6);
    Some(Vote(view, slot, phase, vhash, value, signer, sig))
  }

  const LIMIT: nat := 0x1_0000_0000

  predicate SigFits(s: M.OtsSig) {
    s.index < LIMIT && |s.sig| < LIMIT && |s.otsPub| < LIMIT && |s.path| < LIMIT
  }

  /** Every length and the one-time index fit in 32 bits. */
  predicate VoteFits(v: Vote) {
    |v.value| < LIMIT && SigFits(v.sig)
  }

  lemma {:induction false} TakeFrontPath(path: seq<Digest>)
    ensures TakePath(Concat(path), |path|) == Some((path, []))
    decreases |path|
  {
    if path != [] {
      TakeFrontDigest(path[0], Concat(path[1..]));
      TakeFrontPath(path[1..]);
      assert path == [path[0]] + path[1..];
    }
  }

  lemma DecodeEncodedSig(s: M.OtsSig)
    requires SigFits(s)
    ensures DecodeSig(EncodeSig(s)) == Some(s)
  {
    var t3 := LE(|s.path|, 4) + Concat(s.path);
    var t2 := Chunk(s.otsPub) + t3;
    TakeFrontU32(s.index, Chunk(s.sig) + t2);
    TakeFrontChunk(s.sig, t2);
    TakeFrontChunk(s.otsPub, t3);
    TakeFrontU32(|s.path|, Concat(s.path));
    TakeFrontPath(s.path);
  }

  lemma DecodeEncodedVote(v: Vote)
    requires VoteFits(v)
    ensures DecodeVote(EncodeVote(v)) == Some(v)
  {
    var t5 := LE(v.signer, 4) + EncodeSig(v.sig);
    var t4 := Chunk(v.value) + t5;
    var t3 := v.vhash + t4;
    var t2 := [PhaseTag(v.phase)] + t3;
    TakeFrontU32(v.view, LE(v.slot, 8) + t2);
    TakeFrontU64(v.slot, t2);
    TakeFrontPhase(v.phase, t3);
    TakeFrontDigest(v.vhash, t4);
    TakeFrontChunk(v.value, t5);
    TakeFrontU32(v.signer, EncodeSig(v.sig));
    DecodeEncodedSig(v.sig);
  }

  lemma {:induction false} PathLength(b: seq<byte>, n: nat)
    ensures TakePath(b, n).Some? ==> |TakePath(b, n).value.0| == n
    decreases n
  {
    if n > 0 && TakeDigest(b).Some? {
      PathLength(TakeDigest(b).value.1, n - 1);
    }
  }

  lemma DecodedSigFits(b: seq<byte>)
    requires DecodeSig(b).Some?
    ensures SigFits(DecodeSig(b).value)
  {
    var b1 := TakeU32(b).value.1;
    var b2 := TakeChunk(b1).value.1;
    var b3 := TakeChunk(b2).value.1;
    var (plen, b4) := TakeU32(b3).value;
    PathLength(b4, plen);
  }

  /** Whatever decodes has lengths and an index that fit in 32 bits. */
  lemma DecodedVoteFits(b: seq<byte>)
    requires DecodeVote(b).Some?
    ensures VoteFits(DecodeVote(b).value)
  {
    var b1 := TakeU32(b).value.1;
    var b2 := TakeU64(b1).value.1;
    var b3 := TakePhase(b2).value.1;
    var b4 := TakeDigest(b3).value.1;
    var b5 := TakeChunk(b4).value.1;
    var b6 := TakeU32(b5).value.1;
    DecodedSigFits(b6);
  }

  /** A vote survives the wire exactly when its lengths and its index fit in 32 bits. */
  lemma VoteRoundTrip(v: Vote)
    ensures DecodeVote(EncodeVote(v)) == Some(v) <==> VoteFits(v)
  {
    if VoteFits(v) {
      DecodeEncodedVote(v);
    } else if DecodeVote(EncodeVote(v)).Some? {
      DecodedVoteFits(EncodeVote(v));
    }
  }

  // ---------- locks ----------

  function EncodeCert(cert: seq<Vote>): seq<byte> {
    if cert == [] then [] else Chunk(EncodeVote(cert[0])) + EncodeCert(cert[1..])
  }

  function EncodeLock(e: SlotLock, tail: seq<byte>): seq<byte> {
    LE(e.slot, 8) + (LE(e.lock.view, 4) + (Chunk(e.lock.value) +
    (LE(|e.lock.cert|, 4) + (EncodeCert(e.lock.cert) + tail))))
  }

  function EncodeEntries(entries: seq<SlotLock>): seq<byte> {
    if entries == [] then [] else EncodeLock(entries[0], EncodeEntries(entries[1..]))
  }

  /** The locks in ascending slot order, the order an ordered map is walked in. */
  function Entries(locked: map<u64, Lock>): seq<SlotLock> {
    var slots := Ordered.Ascending(locked.Keys);
    seq(|slots|, i requires 0 <= i < |slots| =>
      assert slots[i] in slots; SlotLock(slots[i], locked[slots[i]]))
  }

  lemma EntriesComplete(locked: map<u64, Lock>)
    ensures |Entries(locked)| == |locked|
    ensures forall e :: e in Entries(locked) <==> e.slot in locked && e.lock == locked[e.slot]
    ensures forall i, j :: 0 <= i < j < |Entries(locked)| ==> Entries(locked)[i].slot < Entries(locked)[j].slot
  {
    forall e: SlotLock
      ensures e in Entries(locked) <==> e.slot in locked && e.lock == locked[e.slot]
    {
      EntryListed(locked, e);
    }
  }

  lemma EntryListed(locked: map<u64, Lock>, e: SlotLock)
    ensures e in Entries(locked) <==> e.slot in locked && e.lock == locked[e.slot]
  {
    var slots, r := Ordered.Ascending(locked.Keys), Entries(locked);
    if e in r {
      var i :| 0 <= i < |r| && r[i] == e;
      assert slots[i] in slots;
    }
    if e.slot in locked && e.lock == locked[e.slot] {
      assert e.slot in slots;
      var i :| 0 <= i < |slots| && slots[i] == e.slot;
      assert r[i] == e;
    }
  }

  function EncodeLocks(locked: map<u64, Lock>): seq<byte> {
    LE(|locked|, 4) + EncodeEntries(Entries(locked))
  }

  function TakeVote(b: seq<byte>): Option<(Vote, seq<byte>)> {
    var (e, rest) :- TakeChunk(b);
    var v :- DecodeVote(e);
    Some((v, rest))
  }

  function TakeCert(b: seq<byte>, n: nat): Option<(seq<Vote>, seq<byte>)>
    decreases n
  {
    if n == 0 then Some(([], b)) else
      var (v, b1) :- TakeVote(b);
      var (cert, b2) :- TakeCert(b1, n - 1);
      Some(([v] + cert, b2))
  }

  function TakeLock(b: seq<byte>): Option<(SlotLock, seq<byte>)> {
    var (slot, b1) :- TakeU64(b);
    var (view, b2) :- TakeU32(b1);
    var (value, b3) :- TakeChunk(b2);
    var (clen, b4) :- TakeU32(b3);
    var (cert, b5) :- TakeCert(b4, clen);
    Some((SlotLock(slot, Lock(view, value, cert)), b5))
  }

  /** Reading stops at the first malformed entry and keeps what was read before it. Said in three
      steps, so that the definition unfolds only where it is asked for. */
  function TakeLocks(b: seq<byte>, n: nat): seq<SlotLock>
    decreases n, 2
  {
    TakeLocksFrom(b, n)
  }

  function TakeLocksFrom(b: seq<byte>, n: nat): seq<SlotLock>
    decreases n, 1
  {
    if n == 0 then [] else TakeLocksNext(b, n)
  }

  function TakeLocksNext(b: seq<byte>, n: nat): seq<SlotLock>
    requires n > 0
    decreases n, 0
  {
    match TakeLock(b)
    case None => []
    case Some((l, b1)) => [l] + TakeLocks(b1, n - 1)
  }

  function DecodeLocks(b: seq<byte>): seq<SlotLock> {
    match TakeU32(b)
    case None => []
    case Some((n, b1)) => TakeLocks(b1, n)
  }

  predicate CertFits(cert: seq<Vote>) {
    forall i :: 0 <= i < |cert| ==> VoteFits(cert[i]) && |EncodeVote(cert[i])| < LIMIT
  }

  predicate LockFits(l: Lock) {
    |l.value| < LIMIT && |l.cert| < LIMIT && CertFits(l.cert)
  }

  lemma TakeFrontVote(v: Vote, rest: seq<byte>, tail: seq<byte>)
    requires VoteFits(v) && |EncodeVote(v)| < LIMIT
    ensures TakeVote(Chunk(EncodeVote(v)) + rest + tail) == Some((v, rest + tail))
  {
    var c := Chunk(EncodeVote(v));
    assert c + rest + tail == c + (rest + tail);
    TakeFrontChunk(EncodeVote(v), rest + tail);
    DecodeEncodedVote(v);
  }

  lemma TakeCertCons(b: seq<byte>, n: nat, v: Vote, b1: seq<byte>, cert: seq<Vote>, b2: seq<byte>)
    requires n > 0 && TakeVote(b) == Some((v, b1)) && TakeCert(b1, n - 1) == Some((cert, b2))
    ensures TakeCert(b, n) == Some(([v] + cert, b2))
  {
  }

  lemma OneMoreVote(v: Vote, rest: seq<Vote>, tail: seq<byte>)
    requires VoteFits(v) && |EncodeVote(v)| < LIMIT
    requires TakeCert(EncodeCert(rest) + tail, |rest|) == Some((rest, tail))
    ensures TakeCert(EncodeCert([v] + rest) + tail, |rest| + 1) == Some(([v] + rest, tail))
  {
    var code := EncodeCert(rest);
    assert ([v] + rest)[1..] == rest;
    TakeFrontVote(v, code, tail);
    TakeCertCons(Chunk(EncodeVote(v)) + code + tail, |rest| + 1, v, code + tail, rest, tail);
  }

  lemma {:induction false} TakeFrontCert(cert: seq<Vote>, tail: seq<byte>)
    requires CertFits(cert)
    ensures TakeCert(EncodeCert(cert) + tail, |cert|) == Some((cert, tail))
    decreases |cert|
  {
    if cert == [] {
      assert EncodeCert(cert) + tail == tail;
    } else {
      CertFitsTail(cert);
      TakeFrontCert(cert[1..], tail);
      OneMoreVote(cert[0], cert[1..], tail);
      assert cert == [cert[0]] + cert[1..];
    }
  }

  lemma CertFitsTail(cert: seq<Vote>)
    requires CertFits(cert) && cert != []
    ensures VoteFits(cert[0]) && |EncodeVote(cert[0])| < LIMIT && CertFits(cert[1..])
  {
  }

  lemma TakeFrontLock(e: SlotLock, tail: seq<byte>)
    requires LockFits(e.lock)
    ensures TakeLock(EncodeLock(e, tail)) == Some((e, tail))
  {
    var t3 := EncodeCert(e.lock.cert) + tail;
    var t2 := LE(|e.lock.cert|, 4) + t3;
    var t1 := Chunk(e.lock.value) + t2;
    TakeFrontU64(e.slot, LE(e.lock.view, 4) + t1);
    TakeFrontU32(e.lock.view, t1);
    TakeFrontChunk(e.lock.value, t2);
    TakeFrontU32(|e.lock.cert|, t3);
    TakeFrontCert(e.lock.cert, tail);
  }

  ghost predicate AllFit(entries: seq<SlotLock>) {
    forall i :: 0 <= i < |entries| ==> LockFits(entries[i].lock)
  }

  lemma TakeLocksCons(b: seq<byte>, n: nat, l: SlotLock, b1: seq<byte>)
    requires n > 0 && TakeLock(b) == Some((l, b1))
    ensures TakeLocks(b, n) == [l] + TakeLocks(b1, n - 1)
  {
    assert TakeLocks(b, n) == TakeLocksFrom(b, n) == TakeLocksNext(b, n);
  }

  lemma TakeFirstLock(e: SlotLock, tail: seq<byte>, n: nat)
    requires n > 0 && LockFits(e.lock)
    ensures TakeLocks(EncodeLock(e, tail), n) == [e] + TakeLocks(tail, n - 1)
  {
    TakeFrontLock(e, tail);
    TakeLocksCons(EncodeLock(e, tail), n, e, tail);
  }

  lemma {:induction false} TakeFrontLocks(entries: seq<SlotLock>)
    requires AllFit(entries)
    ensures TakeLocks(EncodeEntries(entries), |entries|) == entries
    decreases |entries|
  {
    if entries != [] {
      TakeFrontLocks(entries[1..]);
      TakeFirstLock(entries[0], EncodeEntries(entries[1..]), |entries|);
      assert entries == [entries[0]] + entries[1..];
    }
  }

  /** A view-change payload decodes to exactly the sender's locks, certificates included,
      in slot order. */
  lemma LocksRoundTrip(locked: map<u64, Lock>)
    requires |locked| < LIMIT && forall s :: s in locked ==> LockFits(locked[s])
    ensures DecodeLocks(EncodeLocks(locked)) == Entries(locked)
  {
    EntriesComplete(locked);
    forall i | 0 <= i < |Entries(locked)|
      ensures LockFits(Entries(locked)[i].lock)
    {
      assert Entries(locked)[i] in Entries(locked);
    }
    TakeFrontU32(|locked|, EncodeEntries(Entries(locked)));
    TakeFrontLocks(Entries(locked));
  }

  // ---------- the imperative codec ----------

  method WriteSig(s: M.OtsSig) returns (b: seq<byte>)
    ensures b == EncodeSig(s)
  {
    b := LE(s.index, 4);
    b := b + Chunk(s.sig);
    b := b + Chunk(s.otsPub);
    b := b + LE(|s.path|, 4);
    for i := 0 to |s.path|
      invariant b + Concat(s.path[i..]) == EncodeSig(s)
    {
      assert s.path[i..][1..] == s.path[i + 1..];
      b := b + s.path[i];
    }
  }

  method WriteVote(v: Vote) returns (b: seq<byte>)
    ensures b == EncodeVote(v)
  {
    b := LE(v.view, 4);
    b := b + LE(v.slot, 8);
    b := b + [PhaseTag(v.phase)];
    b := b + v.vhash;
    b := b + Chunk(v.value);
    b := b + LE(v.signer, 4);
    var s := WriteSig(v.sig);
    b := b + s;
  }

  method ReadPath(b: seq<byte>, n: nat) returns (r: Option<seq<Digest>>)
    ensures r == match TakePath(b, n) case None => None case Some((path, _)) => Some(path)
  {
    var path: seq<Digest>, rest := [], b;
    ghost var end := TakePath(b, n);
    for i := 0 to n
      invariant TakePath(rest, n - i).Some? == end.Some?
      invariant end.Some? ==> path + TakePath(rest, n - i).value.0 == end.value.0
    {
      var d :- TakeDigest(rest);
      path, rest := path + [d.0], d.1;
    }
    assert path + [] == path;
    r := Some(path);
  }

  method ReadSig(b: seq<byte>) returns (r: Option<M.OtsSig>)
    ensures r == DecodeSig(b)
  {
    var index :- TakeU32(b);
    var sig :- TakeChunk(index.1);
    var otsPub :- TakeChunk(sig.1);
    var plen :- TakeU32(otsPub.1);
    var path :- ReadPath(plen.1, plen.0);
    r := Some(M.OtsSig(index.0, sig.0, otsPub.0, path));
  }

  method ReadVote(b: seq<byte>) returns (r: Option<Vote>)
    ensures r == DecodeVote(b)
  {
    var view :- TakeU32(b);
    var slot :- TakeU64(view.1);
    var phase :- TakePhase(slot.1);
    var vhash :- TakeDigest(phase.1);
    var value :- TakeChunk(vhash.1);
    var signer :- TakeU32(value.1);
    var sig :- ReadSig(signer.1);
    r := Some(Vote(view.0, slot.0, phase.0, vhash.0, value.0, signer.0, sig));
  }

  method WriteCert(cert: seq<Vote>) returns (b: seq<byte>)
    ensures b == EncodeCert(cert)
  {
    b := [];
    for j := 0 to |cert|
      invariant b + EncodeCert(cert[j..]) == EncodeCert(cert)
    {
      assert cert[j..][1..] == cert[j + 1..];
      var ev := WriteVote(cert[j]);
      b := b + Chunk(ev);
    }
  }

  method WriteLock(e: SlotLock, ghost tail: seq<byte>) returns (b: seq<byte>)
    ensures b + tail == EncodeLock(e, tail)
  {
    b := LE(e.slot, 8);
    b := b + LE(e.lock.view, 4);
    b := b + Chunk(e.lock.value);
    b := b + LE(|e.lock.cert|, 4);
    var cert := WriteCert(e.lock.cert);
    b := b + cert;
  }

  lemma WriteStep(body: seq<byte>, entries: seq<SlotLock>, i: nat, e: seq<byte>, all: seq<byte>)
    requires i < |entries| && body + EncodeEntries(entries[i..]) == all
    requires e + EncodeEntries(entries[i + 1..]) == EncodeLock(entries[i], EncodeEntries(entries[i + 1..]))
    ensures body + e + EncodeEntries(entries[i + 1..]) == all
  {
    assert entries[i..][1..] == entries[i + 1..];
    Assoc(body, e, EncodeEntries(entries[i + 1..]));
  }

  method WriteEntries(entries: seq<SlotLock>) returns (b: seq<byte>)
    ensures b == EncodeEntries(entries)
  {
    b := [];
    for i := 0 to |entries|
      invariant b + EncodeEntries(entries[i..]) == EncodeEntries(entries)
    {
      var e := WriteLock(entries[i], EncodeEntries(entries[i + 1..]));
      WriteStep(b, entries, i, e, EncodeEntries(entries));
      b := b + e;
    }
  }

  method WriteLocks(locked: map<u64, Lock>) returns (b: seq<byte>)
    ensures b == EncodeLocks(locked)
  {
    var entries := WriteEntries(Entries(locked));
    b := LE(|locked|, 4) + entries;
  }

  method ReadEntry(b: seq<byte>) returns (r: Option<(Vote, seq<byte>)>)
    ensures r == TakeVote(b)
  {
    var e :- TakeChunk(b);
    var v :- ReadVote(e.0);
    r := Some((v, e.1));
  }

  method ReadCert(b: seq<byte>, n: nat) returns (r: Option<(seq<Vote>, seq<byte>)>)
    ensures r == TakeCert(b, n)
  {
    var cert: seq<Vote>, rest := [], b;
    ghost var end := TakeCert(b, n);
    for i := 0 to n
      invariant TakeCert(rest, n - i).Some? == end.Some?
      invariant end.Some? ==> cert + TakeCert(rest, n - i).value.0 == end.value.0
      invariant end.Some? ==> TakeCert(rest, n - i).value.1 == end.value.1
    {
      var v :- ReadEntry(rest);
      cert, rest := cert + [v.0], v.1;
    }
    assert cert + [] == cert;
    r := Some((cert, rest));
  }

  method ReadLock(b: seq<byte>) returns (r: Option<(SlotLock, seq<byte>)>)
    ensures r == TakeLock(b)
  {
    var slot :- TakeU64(b);
    var view :- TakeU32(slot.1);
    var value :- TakeChunk(view.1);
    var clen :- TakeU32(value.1);
    var cert :- ReadCert(clen.1, clen.0);
    r := Some((SlotLock(slot.0, Lock(view.0, value.0, cert.0)), cert.1));
  }

  /** What was read and what is left to read make up the whole. */
  ghost predicate Reading(out: seq<SlotLock>, rest: seq<byte>, k: nat, b: seq<byte>, n: nat) {
    out + TakeLocks(rest, k) == TakeLocks(b, n)
  }

  lemma ReadingStarts(b: seq<byte>, n: nat)
    ensures Reading([], b, n, b, n)
  {
    assert [] + TakeLocks(b, n) == TakeLocks(b, n);
  }

  lemma ReadingEnds(out: seq<SlotLock>, rest: seq<byte>, b: seq<byte>, n: nat)
    requires Reading(out, rest, 0, b, n)
    ensures out == TakeLocks(b, n)
  {
    assert TakeLocks(rest, 0) == TakeLocksFrom(rest, 0);
    assert out + [] == out;
  }

  /** One entry more, or a stop at a malformed one. */
  method ReadNextLock(out: seq<SlotLock>, rest: seq<byte>, ghost k: nat, ghost b: seq<byte>, ghost n: nat)
    returns (more: bool, out': seq<SlotLock>, rest': seq<byte>)
    requires k > 0 && Reading(out, rest, k, b, n)
    ensures !more ==> out' == TakeLocks(b, n)
    ensures more ==> Reading(out', rest', k - 1, b, n)
  {
    var l := ReadLock(rest);
    assert TakeLocks(rest, k) == TakeLocksFrom(rest, k) == TakeLocksNext(rest, k);
    if l.None? {
      assert out + [] == out;
      return false, out, rest;
    }
    Assoc(out, [l.value.0], TakeLocks(l.value.1, k - 1));
    return true, out + [l.value.0], l.value.1;
  }

  method ReadEntries(b: seq<byte>, n: nat) returns (out: seq<SlotLock>)
    ensures out == TakeLocks(b, n)
  {
    out := [];
    var rest := b;
    ReadingStarts(b, n);
    ghost var left := n;
    for i := 0 to n
      invariant left == n - i && Reading(out, rest, left, b, n)
    {
      var more;
      more, out, rest := ReadNextLock(out, rest, left, b, n);
      if !more {
        return;
      }
      left := left - 1;
    }
    ReadingEnds(out, rest, b, n);
  }

  method ReadLocks(b: seq<byte>) returns (out: seq<SlotLock>)
    ensures out == DecodeLocks(b)
  {
    var head := TakeU32(b);
    if head.None? {
      return [];
    }
    out := ReadEntries(head.value.1, head.value.0);
  }

  // ---------- layouts ----------

  /** Fields written one behind the other. */
  function Joined(fields: seq<seq<byte>>): seq<byte> {
    if fields == [] then [] else fields[0] + Joined(fields[1..])
  }

  /** Where field i starts. */
  function Offset(fields: seq<seq<byte>>, i: nat): nat
    requires i <= |fields|
  {
    if i == 0 then 0 else |fields[0]| + Offset(fields[1..], i - 1)
  }

  lemma {:induction false} FieldStands(fields: seq<seq<byte>>, i: nat)
    requires i < |fields|
    ensures var at := Offset(fields, i);
      at + |fields[i]| <= |Joined(fields)| && Joined(fields)[at..at + |fields[i]|] == fields[i]
    decreases i
  {
    if i > 0 {
      var rest := Joined(fields[1..]);
      FieldStands(fields[1..], i - 1);
      var at := Offset(fields[1..], i - 1);
      SliceRight(fields[0], rest, at, at + |fields[i]|);
    }
  }

  lemma JoinedOne(f: seq<byte>, rest: seq<seq<byte>>)
    ensures Joined([f] + rest) == f + Joined(rest)
  {
    assert ([f] + rest)[1..] == rest;
  }

  lemma JoinedLast(f: seq<byte>)
    ensures Joined([f]) == f
  {
    assert [f][1..] == [] && f + [] == f;
  }

  /** The fields of a vote, in order. */
  function VoteFieldsOf(v: Vote): seq<seq<byte>> {
    [LE(v.view, 4), LE(v.slot, 8), [PhaseTag(v.phase)], v.vhash, LE(|v.value|, 4), v.value, LE(v.signer, 4), EncodeSig(v.sig)]
  }

  lemma VoteLayout(v: Vote)
    ensures EncodeVote(v) == Joined(VoteFieldsOf(v))
  {
    var f := VoteFieldsOf(v);
    JoinedLast(f[7]);
    Peel(f, 6);
    Peel(f, 5);
    Peel(f, 4);
    Peel(f, 3);
    Peel(f, 2);
    Peel(f, 1);
    Peel(f, 0);
    assert f[7..] == [f[7]];
    Assoc(LE(|v.value|, 4), v.value, LE(v.signer, 4) + EncodeSig(v.sig));
  }

  lemma Peel(f: seq<seq<byte>>, i: nat)
    requires i < |f|
    ensures Joined(f[i..]) == f[i] + Joined(f[i + 1..])
  {
    assert f[i..] == [f[i]] + f[i + 1..];
    JoinedOne(f[i], f[i + 1..]);
  }

  function SigFieldsOf(g: M.OtsSig): seq<seq<byte>> {
    [LE(g.index, 4), LE(|g.sig|, 4), g.sig, LE(|g.otsPub|, 4), g.otsPub, LE(|g.path|, 4), Concat(g.path)]
  }

  lemma SigLayout(g: M.OtsSig)
    ensures EncodeSig(g) == Joined(SigFieldsOf(g))
  {
    var f := SigFieldsOf(g);
    JoinedLast(f[6]);
    Peel(f, 5);
    Peel(f, 4);
    Peel(f, 3);
    Peel(f, 2);
    Peel(f, 1);
    Peel(f, 0);
    assert f[6..] == [f[6]];
    var t3 := LE(|g.path|, 4) + Concat(g.path);
    Assoc(LE(|g.otsPub|, 4), g.otsPub, t3);
    Assoc(LE(|g.sig|, 4), g.sig, Chunk(g.otsPub) + t3);
  }

  /** The fields of a lock in a view-change payload, in order. */
  function LockFieldsOf(e: SlotLock): seq<seq<byte>> {
    [LE(e.slot, 8), LE(e.lock.view, 4), LE(|e.lock.value|, 4), e.lock.value, LE(|e.lock.cert|, 4), EncodeCert(e.lock.cert)]
  }

  lemma LockLayout(e: SlotLock)
    ensures EncodeLock(e, []) == Joined(LockFieldsOf(e))
  {
    var f := LockFieldsOf(e);
    JoinedLast(f[5]);
    Peel(f, 4);
    Peel(f, 3);
    Peel(f, 2);
    Peel(f, 1);
    Peel(f, 0);
    assert f[5..] == [f[5]] && EncodeCert(e.lock.cert) + [] == EncodeCert(e.lock.cert);
    Assoc(LE(|e.lock.value|, 4), e.lock.value, LE(|e.lock.cert|, 4) + EncodeCert(e.lock.cert));
  }

  // ---------- what was read was written ----------

  lemma U32Read(b: seq<byte>)
    requires TakeU32(b).Some?
    ensures b == LE(TakeU32(b).value.0, 4) + TakeU32(b).value.1
  {
    DecodeU32IsFromLE(b[..4]);
    FromLERoundTrip(b[..4]);
  }

  lemma U64Read(b: seq<byte>)
    requires TakeU64(b).Some?
    ensures b == LE(TakeU64(b).value.0, 8) + TakeU64(b).value.1
  {
    var s := b[..8];
    DecodeU64IsFromLE(s);
    FromLERoundTrip(s);
  }

  lemma ChunkRead(b: seq<byte>)
    requires TakeChunk(b).Some?
    ensures b == Chunk(TakeChunk(b).value.0) + TakeChunk(b).value.1
  {
    U32Read(b);
    var (n, rest) := TakeU32(b).value;
    assert rest == rest[..n] + rest[n..];
  }

  lemma {:induction false} PathRead(b: seq<byte>, n: nat)
    requires TakePath(b, n).Some?
    ensures b == Concat(TakePath(b, n).value.0) + TakePath(b, n).value.1
    decreases n
  {
    if n > 0 {
      var (d, b1) := TakeDigest(b).value;
      PathRead(b1, n - 1);
      var path := TakePath(b1, n - 1).value.0;
      assert ([d] + path)[0] == d && ([d] + path)[1..] == path;
    }
  }

  /** A field in front of bytes that start with some encoding. */
  lemma FieldAhead(b: seq<byte>, a: seq<byte>, b1: seq<byte>, enc: seq<byte>, rest: seq<byte>)
    requires b == a + b1 && b1 == enc + rest
    ensures b == (a + enc) + rest
  {
    Assoc(a, enc, rest);
  }

  lemma SigFields(b: seq<byte>) returns (b1: seq<byte>, b2: seq<byte>, b3: seq<byte>, b4: seq<byte>, rest: seq<byte>)
    requires DecodeSig(b).Some?
    ensures var g := DecodeSig(b).value;
      && b == LE(g.index, 4) + b1 && b1 == Chunk(g.sig) + b2 && b2 == Chunk(g.otsPub) + b3
      && b3 == LE(|g.path|, 4) + b4 && b4 == Concat(g.path) + rest
  {
    U32Read(b);
    b1 := TakeU32(b).value.1;
    ChunkRead(b1);
    b2 := TakeChunk(b1).value.1;
    ChunkRead(b2);
    b3 := TakeChunk(b2).value.1;
    U32Read(b3);
    var plen := TakeU32(b3).value.0;
    b4 := TakeU32(b3).value.1;
    PathRead(b4, plen);
    PathLength(b4, plen);
    rest := TakePath(b4, plen).value.1;
  }

  /** Whatever decodes is the encoding of what it decodes to, with perhaps something behind it. */
  lemma SigRead(b: seq<byte>) returns (rest: seq<byte>)
    requires DecodeSig(b).Some?
    ensures b == EncodeSig(DecodeSig(b).value) + rest
  {
    var b1, b2, b3, b4;
    b1, b2, b3, b4, rest := SigFields(b);
    var g := DecodeSig(b).value;
    var e4 := Concat(g.path);
    var e3 := LE(|g.path|, 4) + e4;
    var e2 := Chunk(g.otsPub) + e3;
    var e1 := Chunk(g.sig) + e2;
    FieldAhead(b3, LE(|g.path|, 4), b4, e4, rest);
    FieldAhead(b2, Chunk(g.otsPub), b3, e3, rest);
    FieldAhead(b1, Chunk(g.sig), b2, e2, rest);
    FieldAhead(b, LE(g.index, 4), b1, e1, rest);
  }

  lemma VoteFields(b: seq<byte>)
    returns (b1: seq<byte>, b2: seq<byte>, b3: seq<byte>, b4: seq<byte>, b5: seq<byte>, b6: seq<byte>)
    requires DecodeVote(b).Some?
    ensures var v := DecodeVote(b).value;
      && b == LE(v.view, 4) + b1 && b1 == LE(v.slot, 8) + b2 && b2 == [PhaseTag(v.phase)] + b3 && b3 == v.vhash + b4
      && b4 == Chunk(v.value) + b5 && b5 == LE(v.signer, 4) + b6 && DecodeSig(b6) == Some(v.sig)
  {
    U32Read(b);
    b1 := TakeU32(b).value.1;
    U64Read(b1);
    b2 := TakeU64(b1).value.1;
    PhaseRead(b2);
    b3 := TakePhase(b2).value.1;
    b4 := TakeDigest(b3).value.1;
    assert b3 == b3[..32] + b3[32..];
    ChunkRead(b4);
    b5 := TakeChunk(b4).value.1;
    U32Read(b5);
    b6 := TakeU32(b5).value.1;
  }

  lemma VoteRead(b: seq<byte>) returns (rest: seq<byte>)
    requires DecodeVote(b).Some?
    ensures b == EncodeVote(DecodeVote(b).value) + rest
  {
    var b1, b2, b3, b4, b5, b6 := VoteFields(b);
    rest := SigRead(b6);
    var v := DecodeVote(b).value;
    var e6 := EncodeSig(v.sig);
    var e5 := LE(v.signer, 4) + e6;
    var e4 := Chunk(v.value) + e5;
    var e3 := v.vhash + e4;
    var e2 := [PhaseTag(v.phase)] + e3;
    var e1 := LE(v.slot, 8) + e2;
    FieldAhead(b5, LE(v.signer, 4), b6, e6, rest);
    FieldAhead(b4, Chunk(v.value), b5, e5, rest);
    FieldAhead(b3, v.vhash, b4, e4, rest);
    FieldAhead(b2, [PhaseTag(v.phase)], b3, e3, rest);
    FieldAhead(b1, LE(v.slot, 8), b2, e2, rest);
    FieldAhead(b, LE(v.view, 4), b1, e1, rest);
  }

  lemma PhaseRead(b: seq<byte>)
    requires TakePhase(b).Some?
    ensures b == [PhaseTag(TakePhase(b).value.0)] + TakePhase(b).value.1
  {
    assert b == b[..1] + b[1..];
  }
}
