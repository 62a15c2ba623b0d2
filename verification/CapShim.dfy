/** The capability shim (`capshim.rs`): a confined process's files and mappings, charged
    against its grants. */
module CapShim {
  import opened Bytes
  import opened Capability
  import opened MapSum
  import Arith
  import Bits

  datatype ShimError = NoCapability | OutOfMemory | BadFd | NotFound | Revoked

  type i32 = x: int | -0x8000_0000 <= x < 0x8000_0000

  /** A projected path. */
  type Path = string

  datatype OpenFile = OpenFile(path: Path, offset: nat, writable: bool)

  type Files = map<Path, seq<byte>>

  /** What is read off the file grant at launch and never changes. */
  datatype Cache = Cache(fsRead: bool, fsWrite: bool, fsQuota: u64)

  datatype Shim = Shim(fs: Option<Cap>, mem: Option<Cap>, cache: Cache, files: Files, fds: map<i32, OpenFile>,
                       nextFd: i32, fsUsed: u64, memCursor: u64)

  const LIMIT: nat := 0x1_0000_0000_0000_0000

  /** The longest slice there can be is one byte short of this. */
  const SLICE_LIMIT: nat := 0x8000_0000_0000_0000

  function Len(f: seq<byte>): nat { |f| }

  function CacheOf(fs: Option<Cap>): Cache {
    if fs.None? then Cache(false, false, 0)
    else Cache(Contains(fs.value.rights, READ), Contains(fs.value.rights, WRITE), fs.value.len)
  }

  function Launch(fs: Option<Cap>, mem: Option<Cap>): Shim {
    Shim(fs, mem, CacheOf(fs), map[], map[], 3, 0, if mem.Some? then mem.value.base else 0)
  }

  /** Whether the file grant allows anything: absent, revoked, or in force. */
  function Gate(cap: Option<Cap>): Option<ShimError> {
    if cap.None? then Some(NoCapability) else if !cap.value.tag then Some(Revoked) else None
  }

  function Succ32(x: i32): i32 { if x == 0x7fff_ffff then -0x8000_0000 else x + 1 }

  function Open(s: Shim, path: Path, create: bool): (Shim, Result<i32, ShimError>) {
    if Gate(s.fs).Some? then (s, Err(Gate(s.fs).value))
    else if !(if create then s.cache.fsWrite else s.cache.fsRead) then (s, Err(NoCapability))
    else if path !in s.files && !create then (s, Err(NotFound))
    else
      var files := if path in s.files then s.files else s.files[path := []];
      (s.(files := files, fds := s.fds[s.nextFd := OpenFile(path, 0, s.cache.fsWrite)], nextFd := Succ32(s.nextFd)),
       Ok(s.nextFd))
  }

  /** The file with `data` written at `offset`, zero-filled up to there if it was shorter. */
  function Overwrite(f: seq<byte>, offset: nat, data: seq<byte>): (r: seq<byte>)
    ensures |r| == Max(|f|, offset + |data|)
    ensures r[offset..offset + |data|] == data && r[offset + |data|..] == f[Min(|f|, offset + |data|)..]
    ensures r[..offset] == f[..Min(|f|, offset)] + seq(Max(0, offset - |f|), _ => 0)
  {
    var end := offset + |data|;
    var g := if end > |f| then f + seq(end - |f|, _ => 0) else f;
    g[..offset] + data + g[end..]
  }

  /** How much a write grows its file. */
  function Growth(f: seq<byte>, offset: nat, data: seq<byte>): nat {
    Max(0, offset + |data| - |f|)
  }

  /** The charge; 64-bit addition wraps. */
  function Charge(used: u64, growth: nat): u64 {
    if used + growth < LIMIT then used + growth else (used + growth) % LIMIT
  }

  /** The file behind a descriptor, empty if there is none. */
  function FileAt(files: Files, path: Path): seq<byte> {
    if path in files then files[path] else []
  }

  function Write(s: Shim, fd: i32, data: seq<byte>): (Shim, Result<nat, ShimError>) {
    if Gate(s.fs).Some? then (s, Err(Gate(s.fs).value))
    else if fd !in s.fds then (s, Err(BadFd))
    else if !s.fds[fd].writable then (s, Err(NoCapability))
    else
      var open := s.fds[fd];
      var f := FileAt(s.files, open.path);
      var used := Charge(s.fsUsed, Growth(f, open.offset, data));
      if used > s.cache.fsQuota then (s, Err(OutOfMemory))
      else if open.path !in s.files then (s, Err(BadFd))
      else
        (s.(files := s.files[open.path := Overwrite(f, open.offset, data)], fsUsed := used,
            fds := s.fds[fd := open.(offset := open.offset + |data|)]), Ok(|data|))
  }

  function Read(s: Shim, fd: i32, len: nat): (Shim, Result<seq<byte>, ShimError>) {
    if Gate(s.fs).Some? then (s, Err(Gate(s.fs).value))
    else if !s.cache.fsRead then (s, Err(NoCapability))
    else if fd !in s.fds || s.fds[fd].path !in s.files then (s, Err(BadFd))
    else
      var open := s.fds[fd];
      var f := s.files[open.path];
      var start := Min(open.offset, |f|);
      var stop := Min(start + len, |f|);
      (s.(fds := s.fds[fd := open.(offset := stop)]), Ok(f[start..stop]))
  }

  function Close(s: Shim, fd: i32): (Shim, Option<ShimError>) {
    if fd in s.fds then (s.(fds := s.fds - {fd}), None) else (s, Some(BadFd))
  }

  function Mmap(h: HashFn, s: Shim, bytes: u64): (Shim, Result<Cap, ShimError>) {
    if Gate(s.mem).Some? then (s, Err(Gate(s.mem).value))
    else
      var sub := Derive(h, s.mem.value, s.memCursor, bytes, READ_WRITE);
      if sub.Err? then (s, Err(OutOfMemory)) else (s.(memCursor := s.memCursor as int + bytes), Ok(sub.value))
  }

  function Revoke(s: Shim): Shim {
    s.(fs := if s.fs.Some? then Some(Tamper(s.fs.value)) else None,
       mem := if s.mem.Some? then Some(Tamper(s.mem.value)) else None)
  }

  // ---------- what every operation keeps ----------

  /** Every descriptor is inside a file that exists. */
  predicate OffsetsIn(s: Shim) {
    forall fd :: fd in s.fds ==> s.fds[fd].path in s.files && s.fds[fd].offset <= |s.files[s.fds[fd].path]|
  }

  /** The bytes charged are the bytes held as 64 bits count them, and within the grant. */
  ghost predicate Booked(s: Shim) {
    s.fsUsed == Sum(s.files, Len) % LIMIT && s.fsUsed <= s.cache.fsQuota && s.cache == CacheOf(s.fs)
  }

  /** The bytes held are the bytes charged, so they too are within the grant. */
  ghost predicate Conserved(s: Shim) {
    Booked(s) && Sum(s.files, Len) == s.fsUsed
  }

  /** The regions handed out, in order. */
  ghost predicate MappedInside(s: Shim, mapped: seq<Cap>) {
    && (s.mem.None? ==> mapped == [])
    && (s.mem.Some? ==> WithinGrant(s.mem.value, s.memCursor, mapped))
    && Apart(mapped)
  }

  ghost predicate WithinGrant(grant: Cap, cursor: u64, mapped: seq<Cap>) {
    && grant.base <= cursor && (mapped == [] || cursor <= grant.base as int + grant.len)
    && forall i :: 0 <= i < |mapped| ==> grant.base <= mapped[i].base && mapped[i].base as int + mapped[i].len <= cursor
  }

  /** Each region ends before any later one starts. */
  ghost predicate Apart(mapped: seq<Cap>) {
    forall i, j :: 0 <= i < j < |mapped| ==> mapped[i].base as int + mapped[i].len <= mapped[j].base
  }

  /** Without the WRITE right there is nothing to write to. */
  ghost predicate WritesGranted(s: Shim) {
    && (forall fd :: fd in s.fds && s.fds[fd].writable ==> s.cache.fsWrite)
    && (!s.cache.fsWrite ==> s.files == map[])
  }

  ghost predicate Inv(s: Shim, mapped: seq<Cap>) {
    OffsetsIn(s) && Booked(s) && WritesGranted(s) && MappedInside(s, mapped)
  }

  lemma ChargeWraps(held: nat, growth: nat)
    ensures Charge(held % LIMIT, growth) == (held + growth) % LIMIT
  {
    Arith.ModAdd(held, growth, LIMIT);
  }

  /** A write keeps the books; and it keeps the bytes held within the grant exactly unless the
      64-bit charge wraps and is let through. */
  lemma WriteConserves(s: Shim, fd: i32, data: seq<byte>)
    requires OffsetsIn(s) && Booked(s)
    ensures OffsetsIn(Write(s, fd, data).0) && Booked(Write(s, fd, data).0)
    ensures Write(s, fd, data).1.Err? ==> Write(s, fd, data).0 == s
    ensures Conserved(s) && Write(s, fd, data).1.Ok? ==>
              (Conserved(Write(s, fd, data).0)
               <==> s.fsUsed + Growth(s.files[s.fds[fd].path], s.fds[fd].offset, data) < LIMIT)
  {
    var (t, r) := Write(s, fd, data);
    if r.Ok? {
      var open := s.fds[fd];
      var f := s.files[open.path];
      SumUpdate(s.files, Len, open.path, Overwrite(f, open.offset, data));
      ChargeWraps(Sum(s.files, Len), Growth(f, open.offset, data));
    }
  }

  /** What one descriptor writes, another at the same place in the same file reads back. */
  lemma WriteReadsBack(s: Shim, fd: i32, data: seq<byte>, other: i32)
    requires OffsetsIn(s) && Write(s, fd, data).1.Ok? && s.cache.fsRead
    requires other in s.fds && other != fd && s.fds[other].path == s.fds[fd].path && s.fds[other].offset == s.fds[fd].offset
    ensures Read(Write(s, fd, data).0, other, |data|).1 == Ok(data)
  {
    var f := Overwrite(s.files[s.fds[fd].path], s.fds[fd].offset, data);
    assert Write(s, fd, data).0.files[s.fds[fd].path] == f;
  }

  lemma OpenKeeps(s: Shim, path: Path, create: bool, mapped: seq<Cap>)
    requires Inv(s, mapped)
    ensures Inv(Open(s, path, create).0, mapped)
  {
    SumUpdate(s.files, Len, path, []);
  }

  lemma MmapKeeps(h: HashFn, s: Shim, bytes: u64, mapped: seq<Cap>)
    requires Inv(s, mapped)
    ensures var (t, r) := Mmap(h, s, bytes); Inv(t, if r.Ok? then mapped + [r.value] else mapped)
  {
  }

  // ---------- runs ----------

  datatype Op =
    | OpenOp(path: Path, create: bool)
    | WriteOp(wfd: i32, data: seq<byte>)
    | ReadOp(rfd: i32, len: nat)
    | CloseOp(cfd: i32)
    | MmapOp(bytes: u64)
    | RevokeOp

  datatype World = World(shim: Shim, mapped: seq<Cap>)

  predicate Legal(op: Op) { op.WriteOp? ==> |op.data| < SLICE_LIMIT }

  function Step(h: HashFn, w: World, op: Op): World {
    match op
    case OpenOp(p, c) => w.(shim := Open(w.shim, p, c).0)
    case WriteOp(fd, data) => w.(shim := Write(w.shim, fd, data).0)
    case ReadOp(fd, n) => w.(shim := Read(w.shim, fd, n).0)
    case CloseOp(fd) => w.(shim := Close(w.shim, fd).0)
    case MmapOp(n) =>
      var (t, r) := Mmap(h, w.shim, n);
      World(t, if r.Ok? then w.mapped + [r.value] else w.mapped)
    case RevokeOp => w.(shim := Revoke(w.shim))
  }

  lemma StepKeeps(h: HashFn, w: World, op: Op)
    requires Inv(w.shim, w.mapped)
    ensures var v := Step(h, w, op); Inv(v.shim, v.mapped)
  {
    match op
    case OpenOp(p, c) => OpenKeeps(w.shim, p, c, w.mapped);
    case WriteOp(fd, data) => WriteConserves(w.shim, fd, data);
    case MmapOp(n) => MmapKeeps(h, w.shim, n, w.mapped);
    case _ =>
  }

  /** The worlds of a run, from launch with these grants. */
  ghost predicate IsRun(h: HashFn, fs: Option<Cap>, mem: Option<Cap>, worlds: seq<World>, ops: seq<Op>) {
    && |worlds| == |ops| + 1 && worlds[0] == World(Launch(fs, mem), [])
    && forall i :: 0 <= i < |ops| ==> worlds[i + 1] == Step(h, worlds[i], ops[i])
  }

  /** In every reachable state the charge is the bytes held modulo 2^64 and stays within the grant, every
      offset lies within its file, all mapped regions are disjoint and inside the memory grant, and
      without the WRITE right no file exists. */
  lemma {:induction false} RunKeeps(
      h: HashFn, fs: Option<Cap>, mem: Option<Cap>, worlds: seq<World>, ops: seq<Op>, j: nat)
    requires IsRun(h, fs, mem, worlds, ops) && j < |worlds|
    ensures Inv(worlds[j].shim, worlds[j].mapped)
  {
    if j > 0 {
      RunKeeps(h, fs, mem, worlds, ops, j - 1);
      StepKeeps(h, worlds[j - 1], ops[j - 1]);
    }
  }

  /** The operation is an accepted write whose 64-bit charge wraps. */
  predicate ChargeWrapsAt(w: World, op: Op) {
    && op.WriteOp? && Write(w.shim, op.wfd, op.data).1.Ok?
    && var open := w.shim.fds[op.wfd];
       w.shim.fsUsed + Growth(FileAt(w.shim.files, open.path), open.offset, op.data) >= LIMIT
  }

  lemma StepConserves(h: HashFn, w: World, op: Op)
    requires Inv(w.shim, w.mapped) && Conserved(w.shim)
    ensures Conserved(Step(h, w, op).shim) <==> !ChargeWrapsAt(w, op)
    ensures Step(h, w, op).shim.cache == w.shim.cache
  {
    StepKeeps(h, w, op);
    match op
    case OpenOp(p, c) => SumUpdate(w.shim.files, Len, p, []);
    case WriteOp(fd, data) => WriteConserves(w.shim, fd, data);
    case _ =>
  }

  /** One of the first j operations was such a write. */
  ghost predicate Overcharged(worlds: seq<World>, ops: seq<Op>, j: nat)
    requires |worlds| == |ops| + 1 && j <= |ops|
  {
    exists m :: 0 <= m < j && ChargeWrapsAt(worlds[m], ops[m])
  }

  /** Under any grant the charge is exactly what the files hold, so they stay within the grant, until
      an accepted write wraps it. */
  lemma {:induction false} RunConserves(
      h: HashFn, fs: Option<Cap>, mem: Option<Cap>, worlds: seq<World>, ops: seq<Op>, j: nat)
    requires IsRun(h, fs, mem, worlds, ops) && j < |worlds|
    ensures Overcharged(worlds, ops, j) || Conserved(worlds[j].shim)
  {
    if j > 0 && !Overcharged(worlds, ops, j) {
      RunConserves(h, fs, mem, worlds, ops, j - 1);
      RunKeeps(h, fs, mem, worlds, ops, j - 1);
      StepConserves(h, worlds[j - 1], ops[j - 1]);
      assert !ChargeWrapsAt(worlds[j - 1], ops[j - 1]);
    }
  }

  lemma SmallGrantCounts(w: World, op: Op)
    requires Inv(w.shim, w.mapped) && Legal(op) && w.shim.cache.fsQuota <= SLICE_LIMIT
    ensures !ChargeWrapsAt(w, op)
  {
  }

  lemma {:induction false} RunCache(
      h: HashFn, fs: Option<Cap>, mem: Option<Cap>, worlds: seq<World>, ops: seq<Op>, j: nat)
    requires IsRun(h, fs, mem, worlds, ops) && j < |worlds|
    ensures worlds[j].shim.cache == CacheOf(fs)
  {
    if j > 0 {
      RunCache(h, fs, mem, worlds, ops, j - 1);
    }
  }

  /** Under a grant of at most 2^63 bytes no write of a slice ever does. */
  lemma SmallGrantConserves(
      h: HashFn, fs: Option<Cap>, mem: Option<Cap>, worlds: seq<World>, ops: seq<Op>, j: nat)
    requires IsRun(h, fs, mem, worlds, ops) && j < |worlds| && forall i :: 0 <= i < |ops| ==> Legal(ops[i])
    requires CacheOf(fs).fsQuota <= SLICE_LIMIT
    ensures Conserved(worlds[j].shim)
  {
    RunConserves(h, fs, mem, worlds, ops, j);
    forall m | 0 <= m < j
      ensures !ChargeWrapsAt(worlds[m], ops[m])
    {
      RunKeeps(h, fs, mem, worlds, ops, m);
      RunCache(h, fs, mem, worlds, ops, m);
      SmallGrantCounts(worlds[m], ops[m]);
    }
  }

  // ---------- what each call does ----------

  /** At launch nothing is open or charged, the cursor stands at the memory grant, and the cache holds
      what the file grant allows: bit 0 to read, bit 1 to write, its length as the quota. */
  lemma LaunchExactly(fs: Option<Cap>, mem: Option<Cap>)
    ensures var s := Launch(fs, mem);
      && s.fs == fs && s.mem == mem && s.files == map[] && s.fds == map[] && s.fsUsed == 0 && s.nextFd == 3
      && s.memCursor == (if mem.Some? then mem.value.base else 0)
      && (fs.None? ==> !s.cache.fsRead && !s.cache.fsWrite && s.cache.fsQuota == 0)
      && (fs.Some? ==> s.cache.fsQuota == fs.value.len
                       && (s.cache.fsRead <==> Has(fs.value.rights, 0)) && (s.cache.fsWrite <==> Has(fs.value.rights, 1)))
  {
    if fs.Some? {
      RightsAreSets(READ, fs.value.rights, 0);
      RightsAreSets(WRITE, fs.value.rights, 0);
      forall i
        ensures (Has(READ, i) <==> i == 0) && (Has(WRITE, i) <==> i == 1)
      {
        SmallBits(i);
      }
    }
  }

  lemma SmallBits(i: nat)
    ensures (Has(1, i) <==> i == 0) && (Has(2, i) <==> i == 1)
  {
    assert Bits.Pow2(0) == 1 && Bits.Pow2(1) == 2;
    if i > 1 {
      Beyond(i);
      Arith.DivUnique(1, Bits.Pow2(i), 0, 1);
      Arith.DivUnique(2, Bits.Pow2(i), 0, 2);
    }
  }

  lemma {:induction false} Beyond(i: nat)
    requires i > 1
    ensures Bits.Pow2(i) >= 4
  {
    if i > 2 {
      Beyond(i - 1);
    } else {
      assert Bits.Pow2(1) == 2;
    }
  }

  /** The file grant is in force. */
  predicate Granted(cap: Option<Cap>) { cap.Some? && cap.value.tag }

  function GateError(cap: Option<Cap>): ShimError { if cap.None? then NoCapability else Revoked }

  /** `open`: exactly with the right it needs and a file that exists or may be created. A file that
      exists is left as it is; a new one is empty. The descriptor is the next one, at the start. */
  lemma OpenExactly(s: Shim, path: Path, create: bool, t: Shim, r: Result<i32, ShimError>)
    requires (t, r) == Open(s, path, create)
    ensures r.Ok? <==> Granted(s.fs) && (if create then s.cache.fsWrite else s.cache.fsRead) && (path in s.files || create)
    ensures r.Err? ==> t == s && r.error == if !Granted(s.fs) then GateError(s.fs)
                                            else if !(if create then s.cache.fsWrite else s.cache.fsRead) then NoCapability else NotFound
    ensures r.Ok? ==>
      && r.value == s.nextFd && t.fds == s.fds[s.nextFd := OpenFile(path, 0, s.cache.fsWrite)]
      && t.files.Keys == s.files.Keys + {path} && (forall p :: p in s.files ==> t.files[p] == s.files[p])
      && (path !in s.files ==> t.files[path] == [])
      && t == s.(files := t.files, fds := t.fds, nextFd := t.nextFd)
      && (s.nextFd < 0x7fff_ffff ==> t.nextFd == s.nextFd + 1)
  {
  }

  /** `write`: exactly through a writable descriptor and within the grant. It overwrites and grows its
      own file, moves its own offset past what it wrote, and charges the growth. */
  lemma WriteExactly(s: Shim, fd: i32, data: seq<byte>, t: Shim, r: Result<nat, ShimError>)
    requires OffsetsIn(s) && (t, r) == Write(s, fd, data)
    ensures r.Err? ==> t == s && r.error == if !Granted(s.fs) then GateError(s.fs) else if fd !in s.fds then BadFd
                                            else if !s.fds[fd].writable then NoCapability else OutOfMemory
    ensures r.Ok? ==> Granted(s.fs) && fd in s.fds && s.fds[fd].writable
    ensures r.Ok? ==>
      var open, f := s.fds[fd], s.files[s.fds[fd].path];
      && r.value == |data| && t.files == s.files[open.path := f[..open.offset] + data + f[Min(|f|, open.offset + |data|)..]]
      && t.fds == s.fds[fd := open.(offset := open.offset + |data|)]
      && t == s.(files := t.files, fds := t.fds, fsUsed := t.fsUsed)
    ensures Granted(s.fs) && fd in s.fds && s.fds[fd].writable ==>
      var growth := Max(0, s.fds[fd].offset + |data| - |s.files[s.fds[fd].path]|);
      && (r.Ok? <==> (s.fsUsed + growth) % LIMIT <= s.cache.fsQuota)
      && (r.Ok? ==> t.fsUsed == (s.fsUsed + growth) % LIMIT)
  {
    if r.Ok? {
      var open, f := s.fds[fd], s.files[s.fds[fd].path];
      var g := Overwrite(f, open.offset, data);
      assert g == g[..open.offset] + g[open.offset..open.offset + |data|] + g[open.offset + |data|..];
      assert f[..open.offset] + seq(0, _ => 0) == f[..open.offset];
    }
  }

  /** `read`: the bytes from the offset on, at most `len` and no more than there are; only this
      descriptor moves, by what it read. */
  lemma ReadExactly(s: Shim, fd: i32, len: nat, t: Shim, r: Result<seq<byte>, ShimError>)
    requires OffsetsIn(s) && (t, r) == Read(s, fd, len)
    ensures r.Ok? <==> Granted(s.fs) && s.cache.fsRead && fd in s.fds
    ensures r.Err? ==> t == s && r.error == if !Granted(s.fs) then GateError(s.fs) else if !s.cache.fsRead then NoCapability else BadFd
    ensures r.Ok? ==>
      var open, f := s.fds[fd], s.files[s.fds[fd].path];
      && |r.value| == Min(len, |f| - open.offset) && r.value == f[open.offset..open.offset + |r.value|]
      && t == s.(fds := s.fds[fd := open.(offset := open.offset + |r.value|)])
  {
  }

  /** Reading m and then n bytes is reading m + n. */
  lemma ReadsJoin(s: Shim, fd: i32, m: nat, n: nat)
    requires OffsetsIn(s) && Read(s, fd, m).1.Ok?
    ensures var (t, a) := Read(s, fd, m);
      var (u, b) := Read(t, fd, n);
      b.Ok? && Read(s, fd, m + n) == (u, Ok(a.value + b.value))
  {
    var f, o := s.files[s.fds[fd].path], s.fds[fd].offset;
    var i, j := Min(o + m, |f|), Min(o + m + n, |f|);
    assert f[o..i] + f[i..j] == f[o..j];
    var t := Read(s, fd, m).0;
    assert t.fds[fd].offset == i;
    assert s.fds[fd := s.fds[fd].(offset := i)][fd := s.fds[fd].(offset := j)] == s.fds[fd := s.fds[fd].(offset := j)];
  }

  /** `close`: the descriptor is gone, and nothing else changes. */
  lemma CloseExactly(s: Shim, fd: i32, t: Shim, r: Option<ShimError>)
    requires (t, r) == Close(s, fd)
    ensures r == if fd in s.fds then None else Some(BadFd)
    ensures fd !in t.fds && t == s.(fds := t.fds) && forall x :: x != fd ==> (x in t.fds <==> x in s.fds) && (x in s.fds ==> t.fds[x] == s.fds[x])
  {
  }

  /** `mmap`: the next `bytes` of the memory grant, readable and writable, exactly if they are there. */
  lemma MmapExactly(h: HashFn, s: Shim, bytes: u64, t: Shim, r: Result<Cap, ShimError>)
    requires (t, r) == Mmap(h, s, bytes) && (s.mem.Some? ==> s.mem.value.base <= s.memCursor)
    ensures r.Ok? <==> Granted(s.mem) && SubsetOf(READ_WRITE, s.mem.value.rights) && Ranges(s.mem.value.base, s.mem.value.len)
                       && s.memCursor as int + bytes <= s.mem.value.base as int + s.mem.value.len
    ensures r.Err? ==> t == s && r.error == if !Granted(s.mem) then GateError(s.mem) else OutOfMemory
    ensures r.Ok? ==>
      && r.value.base == s.memCursor && r.value.len == bytes && r.value.rights == READ_WRITE && r.value.tag
      && t.memCursor == s.memCursor as int + bytes && t == s.(memCursor := t.memCursor)
  {
    if Granted(s.mem) {
      DeriveExactly(h, s.mem.value, s.memCursor, bytes, READ_WRITE, Derive(h, s.mem.value, s.memCursor, bytes, READ_WRITE));
    }
  }

  /** `revoke`: both grants are dead, and what the process holds stays. */
  lemma RevokeExactly(s: Shim)
    ensures !Granted(Revoke(s).fs) && !Granted(Revoke(s).mem)
    ensures Revoke(s) == s.(fs := Revoke(s).fs, mem := Revoke(s).mem) && CacheOf(Revoke(s).fs) == CacheOf(s.fs)
  {
  }

  /** After revocation no operation but `close` changes anything. */
  lemma RevokedIsInert(h: HashFn, w: World, op: Op)
    requires !op.CloseOp? && !op.RevokeOp?
    ensures Step(h, w.(shim := Revoke(w.shim)), op) == w.(shim := Revoke(w.shim))
  {
  }

  class Process {
    var fs: Option<Cap>
    var mem: Option<Cap>
    const cache: Cache
    var files: Files
    var fds: map<i32, OpenFile>
    var nextFd: i32
    var fsUsed: u64
    var memCursor: u64

    ghost function Model(): Shim
      reads this
    {
      Shim(fs, mem, cache, files, fds, nextFd, fsUsed, memCursor)
    }

    constructor (fsGrant: Option<Cap>, memGrant: Option<Cap>)
      ensures Model() == Launch(fsGrant, memGrant)
    {
      fs, mem, cache := fsGrant, memGrant, CacheOf(fsGrant);
      files, fds, nextFd, fsUsed := map[], map[], 3, 0;
      memCursor := if memGrant.Some? then memGrant.value.base else 0;
    }

    method OpenPath(path: Path, create: bool) returns (r: Result<i32, ShimError>)
      modifies this
      ensures (Model(), r) == Open(old(Model()), path, create)
    {
      if fs.None? {
        return Err(NoCapability);
      }
      if !fs.value.tag {
        return Err(Revoked);
      }
      var have := if create then cache.fsWrite else cache.fsRead;
      if !have {
        return Err(NoCapability);
      }
      if path !in files {
        if !create {
          return Err(NotFound);
        }
        files := files[path := []];
      }
      var fd := nextFd;
      nextFd := Succ32(nextFd);
      fds := fds[fd := OpenFile(path, 0, cache.fsWrite)];
      r := Ok(fd);
    }

    method WriteFd(fd: i32, data: seq<byte>) returns (r: Result<nat, ShimError>)
      modifies this
      ensures (Model(), r) == Write(old(Model()), fd, data)
    {
      if fs.None? {
        return Err(NoCapability);
      }
      if !fs.value.tag {
        return Err(Revoked);
      }
      if fd !in fds {
        return Err(BadFd);
      }
      var open := fds[fd];
      if !open.writable {
        return Err(NoCapability);
      }
      var fileLen := if open.path in files then |files[open.path]| else 0;
      var end := open.offset + |data|;
      var growth := if end > fileLen then end - fileLen else 0;
      var charged := Charge(fsUsed, growth);
      if charged > cache.fsQuota {
        return Err(OutOfMemory);
      }
      if open.path !in files {
        return Err(BadFd);
      }
      files := files[open.path := Overwrite(files[open.path], open.offset, data)];
      fsUsed := charged;
      fds := fds[fd := open.(offset := end)];
      r := Ok(|data|);
    }

    method ReadFd(fd: i32, len: nat) returns (r: Result<seq<byte>, ShimError>)
      modifies this
      ensures (Model(), r) == Read(old(Model()), fd, len)
    {
      if fs.None? {
        return Err(NoCapability);
      }
      if !fs.value.tag {
        return Err(Revoked);
      }
      if !cache.fsRead {
        return Err(NoCapability);
      }
      if fd !in fds || fds[fd].path !in files {
        return Err(BadFd);
      }
      var f := files[fds[fd].path];
      var start := Min(fds[fd].offset, |f|);
      var stop := Min(start + len, |f|);
      fds := fds[fd := fds[fd].(offset := stop)];
      r := Ok(f[start..stop]);
    }

    method CloseFd(fd: i32) returns (refused: Option<ShimError>)
      modifies this
      ensures (Model(), refused) == Close(old(Model()), fd)
    {
      if fd !in fds {
        return Some(BadFd);
      }
      fds := fds - {fd};
      refused := None;
    }

    method Map(h: HashFn, bytes: u64) returns (r: Result<Cap, ShimError>)
      modifies this
      ensures (Model(), r) == Mmap(h, old(Model()), bytes)
    {
      if mem.None? {
        return Err(NoCapability);
      }
      if !mem.value.tag {
        return Err(Revoked);
      }
      var sub := Derive(h, mem.value, memCursor, bytes, READ_WRITE);
      if sub.Err? {
        return Err(OutOfMemory);
      }
      memCursor := memCursor as int + bytes;
      r := Ok(sub.value);
    }

    method RevokeAll()
      modifies this
      ensures Model() == Revoke(old(Model()))
    {
      fs := if fs.Some? then Some(Tamper(fs.value)) else None;
      mem := if mem.Some? then Some(Tamper(mem.value)) else None;
    }
  }
}
