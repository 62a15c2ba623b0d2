/** The packed, cache-blocked, tiled matrix product of `datatypes.rs`. The scalar operations
    are parameters, so every equation below is about the exact order of operations. */
module Matmul {
  import opened Arith
  import opened Bytes

  const MR: nat := 4
  const NR: nat := 8
  const KC: nat := 256
  const NC: nat := 128

  /** `0.0`, `+` and `madd(a, b, c)`. */
  datatype Ops<!T> = Ops(zero: T, add: (T, T) -> T, madd: (T, T, T) -> T)

  // ---------- row-major positions ----------

  /** i * w + j, by repeated addition; `FlatExact` has the product. */
  function Flat(i: nat, j: nat, w: nat): nat
    decreases i, 1
  {
    FlatRows(i, j, w)
  }

  function FlatRows(i: nat, j: nat, w: nat): nat
    decreases i, 0
  {
    if i == 0 then j else w + Flat(i - 1, j, w)
  }

  lemma {:induction false} FlatExact(i: nat, j: nat, w: nat)
    ensures Flat(i, j, w) == i * w + j
    decreases i
  {
    assert Flat(i, j, w) == FlatRows(i, j, w);
    if i > 0 {
      FlatExact(i - 1, j, w);
      assert (i - 1) * w == i * w - w;
    }
  }

  lemma FlatBound(i: nat, j: nat, h: nat, w: nat)
    requires i < h && j < w
    ensures Flat(i, j, w) < h * w
  {
    FlatExact(i, j, w);
    MulBound(i, w, h - 1, w);
    assert (h - 1) * w == h * w - w;
  }

  /** Every position of a row-major buffer lies inside it. */
  lemma FlatInside(h: nat, w: nat)
    ensures forall i, j :: 0 <= i < h && 0 <= j < w ==> Flat(i, j, w) < h * w
  {
    forall i, j | 0 <= i < h && 0 <= j < w
      ensures Flat(i, j, w) < h * w
    {
      FlatBound(i, j, h, w);
    }
  }

  lemma FlatDivMod(i: nat, j: nat, w: nat)
    requires j < w
    ensures Flat(i, j, w) / w == i && Flat(i, j, w) % w == j
  {
    FlatExact(i, j, w);
    assert i * w == w * i;
    DivUnique(Flat(i, j, w), w, i, j);
  }

  /** Different cells have different positions. */
  lemma FlatDistinct(w: nat)
    ensures forall i: nat, j, i': nat, j' :: 0 <= j < w && 0 <= j' < w && Flat(i, j, w) == Flat(i', j', w) ==>
      i == i' && j == j'
  {
    forall i: nat, j, i': nat, j' | 0 <= j < w && 0 <= j' < w && Flat(i, j, w) == Flat(i', j', w)
      ensures i == i' && j == j'
    {
      FlatDivMod(i, j, w);
      FlatDivMod(i', j', w);
    }
  }

  // ---------- the fixed order of operations ----------

  /** (m x k) times (k x n), both row-major. */
  datatype Problem<!T> = Problem(ops: Ops<T>, a: seq<T>, b: seq<T>, m: nat, k: nat, n: nat) {
    predicate Valid() {
      |a| == m * k && |b| == k * n
    }

    function A(i: nat, p: nat): T
      requires Valid() && i < m && p < k
    {
      FlatBound(i, p, m, k);
      a[Flat(i, p, k)]
    }

    function B(p: nat, j: nat): T
      requires Valid() && p < k && j < n
    {
      FlatBound(p, j, k, n);
      b[Flat(p, j, n)]
    }

    predicate Cell(i: int, j: int) {
      0 <= i < m && 0 <= j < n
    }

    /** `madd` over p = lo, lo + 1, .., hi - 1, starting from `init`. */
    function Run(i: nat, j: nat, lo: nat, hi: nat, init: T): T
      requires Valid() && Cell(i, j) && lo <= hi <= k
      decreases hi - lo
    {
      if hi == lo then init else ops.madd(A(i, hi - 1), B(hi - 1, j), Run(i, j, lo, hi - 1, init))
    }

    /** Where the last block of `kc` before position p > 0 starts. */
    function BlockStart(p: nat, kc: nat): (s: nat)
      requires p > 0 && kc > 0
      ensures s < p
    {
      DivMod(p - 1, kc);
      assert kc * ((p - 1) / kc) == (p - 1) / kc * kc;
      (p - 1) / kc * kc
    }

    /** The running value of entry (i, j) once positions below p are done: each block of `kc`
        is summed from zero and then added. */
    function Partial(kc: nat, i: nat, j: nat, p: nat): T
      requires Valid() && Cell(i, j) && p <= k && kc > 0
      decreases p
    {
      if p == 0 then ops.zero else
        var s := BlockStart(p, kc);
        ops.add(Partial(kc, i, j, s), Run(i, j, s, p, ops.zero))
    }

    /** Entry (i, j) of the product. */
    function Entry(i: nat, j: nat): T
      requires Valid() && Cell(i, j)
    {
      Partial(KC, i, j, k)
    }
  }

  lemma PartialStep<T>(pr: Problem<T>, i: nat, j: nat, p: nat, kc: nat)
    requires pr.Valid() && pr.Cell(i, j) && p % KC == 0 && 0 < kc <= KC && p + kc <= pr.k
    ensures pr.Partial(KC, i, j, p + kc)
         == pr.ops.add(pr.Partial(KC, i, j, p), pr.Run(i, j, p, p + kc, pr.ops.zero))
  {
    assert pr.BlockStart(p + kc, KC) == p;
  }

  // ---------- packing and the micro-kernel ----------

  /** The panel holds A[row0 + di, pc + pp] at [pp][di], and zero past the band. */
  ghost predicate PackedA<T>(pr: Problem<T>, ap: array<T>, row0: nat, mr: nat, pc: nat, kc: nat)
    requires pr.Valid() && row0 + mr <= pr.m && pc + kc <= pr.k
    reads ap
  {
    forall pp, di :: 0 <= pp < kc && 0 <= di < MR ==>
      Flat(pp, di, MR) < ap.Length
      && ap[Flat(pp, di, MR)] == if di < mr then pr.A(row0 + di, pc + pp) else pr.ops.zero
  }

  /** One depth position of the panel. */
  method PackColumn<T>(pr: Problem<T>, row0: nat, mr: nat, p: nat, pp: nat, dst: array<T>)
    requires pr.Valid() && row0 + mr <= pr.m && mr <= MR && p < pr.k
    requires forall d :: 0 <= d < MR ==> Flat(pp, d, MR) < dst.Length
    modifies dst
    ensures forall d :: 0 <= d < MR ==> dst[Flat(pp, d, MR)] == if d < mr then pr.A(row0 + d, p) else pr.ops.zero
    ensures forall q: nat, x :: 0 <= x < MR && Flat(q, x, MR) < dst.Length && q != pp ==>
      dst[Flat(q, x, MR)] == old(dst[Flat(q, x, MR)])
  {
    FlatDistinct(MR);
    for di := 0 to MR
      invariant forall d :: 0 <= d < di ==> dst[Flat(pp, d, MR)] == if d < mr then pr.A(row0 + d, p) else pr.ops.zero
      invariant forall q: nat, x :: 0 <= x < MR && Flat(q, x, MR) < dst.Length && q != pp ==>
        dst[Flat(q, x, MR)] == old(dst[Flat(q, x, MR)])
    {
      dst[Flat(pp, di, MR)] := if di < mr then pr.A(row0 + di, p) else pr.ops.zero;
    }
  }

  method PackA<T>(pr: Problem<T>, row0: nat, mr: nat, pc: nat, kc: nat, dst: array<T>)
    requires pr.Valid() && row0 + mr <= pr.m && mr <= MR && pc + kc <= pr.k
    requires kc * MR <= dst.Length
    modifies dst
    ensures PackedA(pr, dst, row0, mr, pc, kc)
  {
    FlatInside(kc, MR);
    for pp := 0 to kc
      invariant PackedA(pr, dst, row0, mr, pc, pp)
    {
      PackColumn(pr, row0, mr, pc + pp, pp, dst);
    }
  }

  /** One panel of a packed block: B[pc + pp, j0 + dj] at [pp][dj], zero from `cols` on. */
  ghost predicate PackedPanel<T>(
      pr: Problem<T>, bp: array<T>, jp: nat, kc: nat, pc: nat, j0: nat, cols: nat, upTo: nat)
    requires pr.Valid() && pc + kc <= pr.k && j0 + cols <= pr.n && upTo <= kc
    reads bp
  {
    forall pp, dj :: 0 <= pp < upTo && 0 <= dj < NR ==>
      Flat(jp, Flat(pp, dj, NR), kc * NR) < bp.Length
      && bp[Flat(jp, Flat(pp, dj, NR), kc * NR)] == if dj < cols then pr.B(pc + pp, j0 + dj) else pr.ops.zero
  }

  /** How many of the NR columns of a panel exist. */
  function PanelCols(nc: nat, jp: nat): (c: nat)
    requires jp * NR < nc
    ensures 0 < c <= NR && jp * NR + c <= nc
  {
    Min(NR, nc - jp * NR)
  }

  function Panels(nc: nat): nat { (nc + NR - 1) / NR }

  /** One row of a panel. */
  method PackPanelRow<T>(
      pr: Problem<T>, p: nat, j0: nat, cols: nat, jp: nat, pp: nat, w: nat, dst: array<T>)
    requires pr.Valid() && p < pr.k && j0 + cols <= pr.n && cols <= NR
    requires forall dj :: 0 <= dj < NR ==> Flat(pp, dj, NR) < w && Flat(jp, Flat(pp, dj, NR), w) < dst.Length
    modifies dst
    ensures forall dj :: 0 <= dj < NR ==>
      dst[Flat(jp, Flat(pp, dj, NR), w)] == if dj < cols then pr.B(p, j0 + dj) else pr.ops.zero
    ensures forall q: nat, x :: 0 <= x < w && Flat(q, x, w) < dst.Length && (q != jp || x < Flat(pp, 0, NR)) ==>
      dst[Flat(q, x, w)] == old(dst[Flat(q, x, w)])
  {
    FlatDistinct(NR);
    FlatDistinct(w);
    FlatRow(pp, NR);
    for dj := 0 to NR
      invariant forall d :: 0 <= d < dj ==>
        dst[Flat(jp, Flat(pp, d, NR), w)] == if d < cols then pr.B(p, j0 + d) else pr.ops.zero
      invariant forall q: nat, x :: 0 <= x < w && Flat(q, x, w) < dst.Length && (q != jp || x < Flat(pp, 0, NR)) ==>
        dst[Flat(q, x, w)] == old(dst[Flat(q, x, w)])
    {
      dst[Flat(jp, Flat(pp, dj, NR), w)] := if dj < cols then pr.B(p, j0 + dj) else pr.ops.zero;
    }
  }

  /** Rows follow one another. */
  lemma FlatRow(i: nat, w: nat)
    ensures forall j: nat {:trigger Flat(i, j, w)} :: Flat(i, j, w) == Flat(i, 0, w) + j
    ensures forall q: nat, j: nat :: q < i && j < w ==> Flat(q, j, w) < Flat(i, 0, w)
  {
    FlatExact(i, 0, w);
    forall j: nat ensures Flat(i, j, w) == Flat(i, 0, w) + j {
      FlatExact(i, j, w);
    }
    forall q: nat, j: nat | q < i && j < w ensures Flat(q, j, w) < Flat(i, 0, w) {
      FlatBound(q, j, i, w);
    }
  }

  method PackPanel<T>(
      pr: Problem<T>, pc: nat, kc: nat, j0: nat, cols: nat, jp: nat, ghost panels: nat, dst: array<T>)
    requires pr.Valid() && pc + kc <= pr.k && j0 + cols <= pr.n && cols <= NR
    requires jp < panels && panels * (kc * NR) <= dst.Length
    modifies dst
    ensures PackedPanel(pr, dst, jp, kc, pc, j0, cols, kc)
    ensures forall q: nat, x :: q != jp && 0 <= x < kc * NR && Flat(q, x, kc * NR) < dst.Length ==>
      dst[Flat(q, x, kc * NR)] == old(dst[Flat(q, x, kc * NR)])
  {
    var w := kc * NR;
    FlatInside(kc, NR);
    FlatInside(panels, w);
    for pp := 0 to kc
      invariant PackedPanel(pr, dst, jp, kc, pc, j0, cols, pp)
      invariant forall q: nat, x :: q != jp && 0 <= x < w && Flat(q, x, w) < dst.Length ==>
        dst[Flat(q, x, w)] == old(dst[Flat(q, x, w)])
    {
      FlatRow(pp, NR);
      PackPanelRow(pr, pc + pp, j0, cols, jp, pp, w, dst);
    }
  }

  /** The first `panels` panels of the columns jc .. jc + nc are packed. */
  ghost predicate PackedB<T>(pr: Problem<T>, bp: array<T>, pc: nat, kc: nat, jc: nat, nc: nat, panels: nat)
    requires pr.Valid() && pc + kc <= pr.k && jc + nc <= pr.n && panels <= Panels(nc)
    reads bp
  {
    forall jp :: 0 <= jp < panels ==>
      PackedPanel(pr, bp, jp, kc, pc, jc + jp * NR, PanelCols(nc, jp), kc)
  }

  method PackB<T>(pr: Problem<T>, pc: nat, kc: nat, jc: nat, nc: nat, dst: array<T>)
    requires pr.Valid() && pc + kc <= pr.k && jc + nc <= pr.n
    requires Panels(nc) * (kc * NR) <= dst.Length
    modifies dst
    ensures PackedB(pr, dst, pc, kc, jc, nc, Panels(nc))
  {
    FlatInside(kc, NR);
    for jp := 0 to Panels(nc)
      invariant PackedB(pr, dst, pc, kc, jc, nc, jp)
    {
      PackPanel(pr, pc, kc, jc + jp * NR, PanelCols(nc, jp), jp, Panels(nc), dst);
    }
  }

  /** `acc[di][dj]` has run over positions pc .. pc + done, from `init`. */
  ghost predicate Accumulated<T>(
      pr: Problem<T>, acc: array2<T>, init: seq<seq<T>>, row0: nat, mr: nat, j0: nat, cols: nat, pc: nat, done: nat)
    requires pr.Valid() && row0 + mr <= pr.m && j0 + cols <= pr.n && pc + done <= pr.k
    requires mr <= MR && cols <= NR && acc.Length0 == MR && acc.Length1 == NR
    requires |init| == MR && forall di :: 0 <= di < MR ==> |init[di]| == NR
    reads acc
  {
    forall di, dj :: 0 <= di < mr && 0 <= dj < cols ==>
      acc[di, dj] == pr.Run(row0 + di, j0 + dj, pc, pc + done, init[di][dj])
  }

  /** One position p: every accumulator takes one `madd`. */
  method KernelStep<T>(ops: Ops<T>, ap: array<T>, bp: array<T>, pp: nat, jp: nat, kc: nat, acc: array2<T>)
    requires acc.Length0 == MR && acc.Length1 == NR
    requires forall di :: 0 <= di < MR ==> Flat(pp, di, MR) < ap.Length
    requires forall dj :: 0 <= dj < NR ==> Flat(jp, Flat(pp, dj, NR), kc * NR) < bp.Length
    modifies acc
    ensures forall di, dj :: 0 <= di < MR && 0 <= dj < NR ==>
      acc[di, dj] == ops.madd(ap[Flat(pp, di, MR)], bp[Flat(jp, Flat(pp, dj, NR), kc * NR)], old(acc[di, dj]))
  {
    for di := 0 to MR
      invariant forall r, c :: di <= r < MR && 0 <= c < NR ==> acc[r, c] == old(acc[r, c])
      invariant forall r, c :: 0 <= r < di && 0 <= c < NR ==>
        acc[r, c] == ops.madd(ap[Flat(pp, r, MR)], bp[Flat(jp, Flat(pp, c, NR), kc * NR)], old(acc[r, c]))
    {
      var a := ap[Flat(pp, di, MR)];
      for dj := 0 to NR
        invariant forall r, c :: 0 <= r < MR && 0 <= c < NR && r != di ==>
          acc[r, c] == if r < di
            then ops.madd(ap[Flat(pp, r, MR)], bp[Flat(jp, Flat(pp, c, NR), kc * NR)], old(acc[r, c]))
            else old(acc[r, c])
        invariant forall c :: dj <= c < NR ==> acc[di, c] == old(acc[di, c])
        invariant forall c :: 0 <= c < dj ==>
          acc[di, c] == ops.madd(a, bp[Flat(jp, Flat(pp, c, NR), kc * NR)], old(acc[di, c]))
      {
        acc[di, dj] := ops.madd(a, bp[Flat(jp, Flat(pp, dj, NR), kc * NR)], acc[di, dj]);
      }
    }
  }

  method Microkernel<T>(
      pr: Problem<T>, ap: array<T>, bp: array<T>, jp: nat, kc: nat, acc: array2<T>,
      ghost init: seq<seq<T>>, ghost row0: nat, ghost mr: nat, ghost j0: nat, ghost cols: nat, ghost pc: nat)
    requires pr.Valid() && row0 + mr <= pr.m && j0 + cols <= pr.n && pc + kc <= pr.k
    requires mr <= MR && cols <= NR && acc.Length0 == MR && acc.Length1 == NR
    requires |init| == MR && forall di :: 0 <= di < MR ==> |init[di]| == NR
    requires PackedA(pr, ap, row0, mr, pc, kc) && PackedPanel(pr, bp, jp, kc, pc, j0, cols, kc)
    requires Accumulated(pr, acc, init, row0, mr, j0, cols, pc, 0)
    modifies acc
    ensures Accumulated(pr, acc, init, row0, mr, j0, cols, pc, kc)
  {
    for pp := 0 to kc
      invariant Accumulated(pr, acc, init, row0, mr, j0, cols, pc, pp)
    {
      KernelStep(pr.ops, ap, bp, pp, jp, kc, acc);
    }
  }

  // ---------- one rectangle of the product ----------

  /** Rows r0 .. r0 + rows and columns c0 .. c0 + cols of the product. */
  datatype Rect = Rect(r0: nat, c0: nat, rows: nat, cols: nat) {
    predicate Within<T>(pr: Problem<T>) {
      pr.Valid() && r0 + rows <= pr.m && c0 + cols <= pr.n
    }
  }

  ghost predicate Fits<T>(t: Rect, s: seq<T>) {
    |s| == t.rows * t.cols
    && forall i, j :: 0 <= i < t.rows && 0 <= j < t.cols ==> Flat(i, j, t.cols) < |s|
  }

  lemma RectFits<T>(t: Rect, s: seq<T>)
    requires |s| == t.rows * t.cols
    ensures Fits(t, s)
  {
    FlatInside(t.rows, t.cols);
  }

  /** What cell (i, j) of the rectangle gains from positions pc .. pc + kc. */
  function Gain<T>(pr: Problem<T>, t: Rect, i: nat, j: nat, pc: nat, kc: nat): T
    requires t.Within(pr) && i < t.rows && j < t.cols && pc + kc <= pr.k
  {
    pr.Run(t.r0 + i, t.c0 + j, pc, pc + kc, pr.ops.zero)
  }

  /** From s to s', the cells of rows i0 .. i1 and columns j0 .. j1 each gained the run over
      pc .. pc + kc, and nothing else changed. */
  ghost predicate Added<T>(pr: Problem<T>, t: Rect, s: seq<T>, s': seq<T>,
                           i0: nat, i1: nat, j0: nat, j1: nat, pc: nat, kc: nat)
    requires t.Within(pr) && Fits(t, s) && Fits(t, s') && pc + kc <= pr.k
  {
    forall i, j :: 0 <= i < t.rows && 0 <= j < t.cols ==>
      s'[Flat(i, j, t.cols)] ==
        if i0 <= i < i1 && j0 <= j < j1
        then pr.ops.add(s[Flat(i, j, t.cols)], Gain(pr, t, i, j, pc, kc))
        else s[Flat(i, j, t.cols)]
  }

  /** `out[..] += acc` over the part of the micro-tile that exists. */
  method AddTile<T>(ops: Ops<T>, out: array<T>, t: Rect, ir: nat, mr: nat, j0: nat, cols: nat, acc: array2<T>)
    requires Fits(t, out[..]) && acc.Length0 == MR && acc.Length1 == NR && mr <= MR && cols <= NR
    requires ir + mr <= t.rows && j0 + cols <= t.cols
    modifies out
    ensures Fits(t, out[..])
    ensures forall i, j :: 0 <= i < t.rows && 0 <= j < t.cols ==>
      out[Flat(i, j, t.cols)] ==
        if ir <= i < ir + mr && j0 <= j < j0 + cols
        then ops.add(old(out[Flat(i, j, t.cols)]), acc[i - ir, j - j0])
        else old(out[Flat(i, j, t.cols)])
  {
    FlatDistinct(t.cols);
    for di := 0 to mr
      invariant forall i, j :: 0 <= i < t.rows && 0 <= j < t.cols ==>
        out[Flat(i, j, t.cols)] ==
          if ir <= i < ir + di && j0 <= j < j0 + cols
          then ops.add(old(out[Flat(i, j, t.cols)]), acc[i - ir, j - j0])
          else old(out[Flat(i, j, t.cols)])
    {
      for dj := 0 to cols
        invariant forall i, j :: 0 <= i < t.rows && 0 <= j < t.cols ==>
          out[Flat(i, j, t.cols)] ==
            if (ir <= i < ir + di && j0 <= j < j0 + cols) || (i == ir + di && j0 <= j < j0 + dj)
            then ops.add(old(out[Flat(i, j, t.cols)]), acc[i - ir, j - j0])
            else old(out[Flat(i, j, t.cols)])
      {
        var x := Flat(ir + di, j0 + dj, t.cols);
        out[x] := ops.add(out[x], acc[di, dj]);
      }
    }
  }

  /** Every panel of one band of at most MR rows. */
  method AddBand<T>(pr: Problem<T>, t: Rect, jc: nat, nc: nat, pc: nat, kc: nat, ir: nat, mr: nat,
                    ap: array<T>, bp: array<T>, out: array<T>)
    requires t.Within(pr) && Fits(t, out[..]) && pc + kc <= pr.k && ir + mr <= t.rows && mr <= MR
    requires nc == Min(NC, t.cols - jc) && jc <= t.cols && PackedB(pr, bp, pc, kc, t.c0 + jc, nc, Panels(nc))
    requires kc * MR <= ap.Length && ap != bp && ap != out && bp != out
    modifies ap, out
    ensures Fits(t, out[..])
    ensures Added(pr, t, old(out[..]), out[..], ir, ir + mr, jc, jc + nc, pc, kc)
  {
    PackA(pr, t.r0 + ir, mr, pc, kc, ap);
    for jp := 0 to Panels(nc)
      invariant Fits(t, out[..])
      invariant PackedA(pr, ap, t.r0 + ir, mr, pc, kc)
      invariant Added(pr, t, old(out[..]), out[..], ir, ir + mr, jc, jc + Min(jp * NR, nc), pc, kc)
    {
      AddPanel(pr, t, jc, nc, pc, kc, ir, mr, jp, ap, bp, out);
    }
  }

  method AddPanel<T>(pr: Problem<T>, t: Rect, jc: nat, nc: nat, pc: nat, kc: nat, ir: nat, mr: nat, jp: nat,
                     ap: array<T>, bp: array<T>, out: array<T>)
    requires t.Within(pr) && Fits(t, out[..]) && pc + kc <= pr.k && ir + mr <= t.rows && mr <= MR
    requires nc == Min(NC, t.cols - jc) && jc <= t.cols && jp < Panels(nc) && out != ap && out != bp
    requires PackedPanel(pr, bp, jp, kc, pc, t.c0 + jc + jp * NR, PanelCols(nc, jp), kc)
    requires PackedA(pr, ap, t.r0 + ir, mr, pc, kc)
    modifies out
    ensures Fits(t, out[..])
    ensures Added(pr, t, old(out[..]), out[..], ir, ir + mr, jc + jp * NR, jc + jp * NR + PanelCols(nc, jp), pc, kc)
  {
    var j0 := jc + jp * NR;
    var cols := Min(NR, t.cols - j0);
    var acc := new T[MR, NR]((_, _) => pr.ops.zero);
    ghost var init := seq(MR, _ => seq(NR, _ => pr.ops.zero));
    Microkernel(pr, ap, bp, jp, kc, acc, init, t.r0 + ir, mr, t.c0 + j0, cols, pc);
    assert forall i, j :: ir <= i < ir + mr && j0 <= j < j0 + cols ==>
      acc[i - ir, j - j0] == Gain(pr, t, i, j, pc, kc);
    AddTile(pr.ops, out, t, ir, mr, j0, cols, acc);
  }

  /** One KC x NC block of B against every row of the rectangle. */
  method AddBlock<T>(pr: Problem<T>, t: Rect, jc: nat, nc: nat, pc: nat, kc: nat,
                     ap: array<T>, bp: array<T>, out: array<T>)
    requires t.Within(pr) && Fits(t, out[..]) && pc + kc <= pr.k && nc == Min(NC, t.cols - jc) && jc <= t.cols
    requires kc * MR <= ap.Length && Panels(nc) * (kc * NR) <= bp.Length && ap != bp && ap != out && bp != out
    modifies ap, bp, out
    ensures Fits(t, out[..])
    ensures Added(pr, t, old(out[..]), out[..], 0, t.rows, jc, jc + nc, pc, kc)
  {
    PackB(pr, pc, kc, t.c0 + jc, nc, bp);
    var ir := 0;
    while ir < t.rows
      invariant Fits(t, out[..])
      invariant PackedB(pr, bp, pc, kc, t.c0 + jc, nc, Panels(nc))
      invariant Added(pr, t, old(out[..]), out[..], 0, Min(ir, t.rows), jc, jc + nc, pc, kc)
    {
      AddBand(pr, t, jc, nc, pc, kc, ir, Min(MR, t.rows - ir), ap, bp, out);
      ir := ir + MR;
    }
  }

  /** Columns j0 .. j1 have every position below p behind them; the rest is as in s. */
  ghost predicate Advanced<T>(pr: Problem<T>, t: Rect, s: seq<T>, s': seq<T>, j0: nat, j1: nat, p: nat)
    requires t.Within(pr) && Fits(t, s) && Fits(t, s') && p <= pr.k
  {
    forall i, j :: 0 <= i < t.rows && 0 <= j < t.cols ==>
      s'[Flat(i, j, t.cols)] ==
        if j0 <= j < j1 then pr.Partial(KC, t.r0 + i, t.c0 + j, p) else s[Flat(i, j, t.cols)]
  }

  lemma AdvanceCell<T>(pr: Problem<T>, t: Rect, i: nat, j: nat, p: nat, kc: nat)
    requires t.Within(pr) && i < t.rows && j < t.cols && p % KC == 0 && 0 < kc <= KC && p + kc <= pr.k
    ensures pr.ops.add(pr.Partial(KC, t.r0 + i, t.c0 + j, p), Gain(pr, t, i, j, p, kc))
         == pr.Partial(KC, t.r0 + i, t.c0 + j, p + kc)
  {
    PartialStep(pr, t.r0 + i, t.c0 + j, p, kc);
  }

  lemma AdvanceBlock<T>(pr: Problem<T>, t: Rect, s: seq<T>, s': seq<T>, s'': seq<T>, j0: nat, j1: nat, p: nat, kc: nat)
    requires t.Within(pr) && Fits(t, s) && Fits(t, s') && Fits(t, s'')
    requires p % KC == 0 && 0 < kc <= KC && p + kc <= pr.k
    requires Advanced(pr, t, s, s', j0, j1, p) && Added(pr, t, s', s'', 0, t.rows, j0, j1, p, kc)
    ensures Advanced(pr, t, s, s'', j0, j1, p + kc)
  {
    forall i, j | 0 <= i < t.rows && 0 <= j < t.cols
      ensures s''[Flat(i, j, t.cols)] ==
        if j0 <= j < j1 then pr.Partial(KC, t.r0 + i, t.c0 + j, p + kc) else s[Flat(i, j, t.cols)]
    {
      AdvanceCell(pr, t, i, j, p, kc);
    }
  }

  lemma BufferFits(nc: nat, kc: nat)
    requires nc <= NC && kc <= KC
    ensures Panels(nc) * (kc * NR) <= KC * Panels(NC) * NR
  {
    MulBound(Panels(nc), kc * NR, Panels(NC), KC * NR);
  }

  /** One block of positions of a strip. */
  method AdvanceStrip<T>(pr: Problem<T>, t: Rect, ghost s: seq<T>, jc: nat, nc: nat, pc: nat, kc: nat,
                         ap: array<T>, bp: array<T>, out: array<T>)
    requires t.Within(pr) && Fits(t, s) && Fits(t, out[..]) && nc == Min(NC, t.cols - jc) && jc <= t.cols
    requires ap.Length == KC * MR && bp.Length == KC * Panels(NC) * NR && ap != bp && ap != out && bp != out
    requires pc % KC == 0 && 0 < kc <= KC && pc + kc <= pr.k && Advanced(pr, t, s, out[..], jc, jc + nc, pc)
    modifies ap, bp, out
    ensures Fits(t, out[..]) && Advanced(pr, t, s, out[..], jc, jc + nc, pc + kc)
  {
    ghost var before := out[..];
    BufferFits(nc, kc);
    AddBlock(pr, t, jc, nc, pc, kc, ap, bp, out);
    AdvanceBlock(pr, t, s, before, out[..], jc, jc + nc, pc, kc);
  }

  /** One strip of at most NC columns, block after block of positions. */
  method FillStrip<T>(pr: Problem<T>, t: Rect, jc: nat, nc: nat, ap: array<T>, bp: array<T>, out: array<T>)
    requires t.Within(pr) && Fits(t, out[..]) && nc == Min(NC, t.cols - jc) && jc <= t.cols
    requires ap.Length == KC * MR && bp.Length == KC * Panels(NC) * NR && ap != bp && ap != out && bp != out
    requires Advanced(pr, t, out[..], out[..], jc, jc + nc, 0)
    modifies ap, bp, out
    ensures Fits(t, out[..])
    ensures Advanced(pr, t, old(out[..]), out[..], jc, jc + nc, pr.k)
  {
    var pc := 0;
    while pc < pr.k
      invariant pc % KC == 0 && Fits(t, out[..])
      invariant Advanced(pr, t, old(out[..]), out[..], jc, jc + nc, Min(pc, pr.k))
    {
      AdvanceStrip(pr, t, old(out[..]), jc, nc, pc, Min(KC, pr.k - pc), ap, bp, out);
      pc := pc + KC;
    }
  }

  /** The buffer holds the entries of its rectangle. */
  ghost predicate Computed<T>(pr: Problem<T>, t: Rect, tile: seq<T>)
    requires t.Within(pr)
  {
    Fits(t, tile) && forall i, j :: 0 <= i < t.rows && 0 <= j < t.cols ==>
      tile[Flat(i, j, t.cols)] == pr.Entry(t.r0 + i, t.c0 + j)
  }

  ghost predicate AllZero<T>(pr: Problem<T>, s: seq<T>) {
    forall x :: 0 <= x < |s| ==> s[x] == pr.ops.zero
  }

  /** A strip not yet reached is still zero, which is where its fold starts. */
  lemma StripUntouched<T>(pr: Problem<T>, t: Rect, s0: seq<T>, s: seq<T>, jc: nat, j1: nat)
    requires t.Within(pr) && Fits(t, s0) && Fits(t, s) && AllZero(pr, s0)
    requires Advanced(pr, t, s0, s, 0, jc, pr.k)
    ensures Advanced(pr, t, s, s, jc, j1, 0)
  {
  }

  lemma StripDone<T>(pr: Problem<T>, t: Rect, s0: seq<T>, s: seq<T>, s': seq<T>, jc: nat, j1: nat)
    requires t.Within(pr) && Fits(t, s0) && Fits(t, s) && Fits(t, s') && jc <= j1
    requires Advanced(pr, t, s0, s, 0, jc, pr.k) && Advanced(pr, t, s, s', jc, j1, pr.k)
    ensures Advanced(pr, t, s0, s', 0, j1, pr.k)
  {
  }

  /** The strips of a rectangle, left to right. */
  method FillRect<T>(pr: Problem<T>, t: Rect, ap: array<T>, bp: array<T>, out: array<T>)
    requires t.Within(pr) && Fits(t, out[..]) && AllZero(pr, out[..])
    requires ap.Length == KC * MR && bp.Length == KC * Panels(NC) * NR && ap != bp && ap != out && bp != out
    modifies ap, bp, out
    ensures Fits(t, out[..])
    ensures Advanced(pr, t, old(out[..]), out[..], 0, t.cols, pr.k)
  {
    var jc := 0;
    while jc < t.cols
      invariant Fits(t, out[..])
      invariant Advanced(pr, t, old(out[..]), out[..], 0, Min(jc, t.cols), pr.k)
    {
      var nc := Min(NC, t.cols - jc);
      ghost var before := out[..];
      StripUntouched(pr, t, old(out[..]), before, jc, jc + nc);
      FillStrip(pr, t, jc, nc, ap, bp, out);
      StripDone(pr, t, old(out[..]), before, out[..], jc, jc + nc);
      jc := jc + NC;
    }
  }

  /** `matmul_rect`: every cell of the rectangle is the entry of the product, whatever the rectangle. */
  method MatmulRect<T>(pr: Problem<T>, t: Rect) returns (tile: seq<T>)
    requires t.Within(pr)
    ensures Computed(pr, t, tile)
  {
    var out := new T[t.rows * t.cols](_ => pr.ops.zero);
    RectFits(t, out[..]);
    if t.rows == 0 || t.cols == 0 {
      return out[..];
    }
    var bpack := new T[KC * Panels(NC) * NR](_ => pr.ops.zero);
    var apack := new T[KC * MR](_ => pr.ops.zero);
    FillRect(pr, t, apack, bpack, out);
    tile := out[..];
  }

  // ---------- the grid of tiles ----------

  function CeilDiv(a: nat, b: nat): nat
    requires b > 0
  {
    (a + b - 1) / b
  }

  /** Where band q starts. */
  function Start(q: nat, band: nat): nat { Flat(q, 0, band) }

  /** Bands of size `band` cover 0 .. total: `count` of them, none starting past the end. */
  ghost predicate Covers(total: nat, band: nat, count: nat) {
    band > 0 && Start(count, band) >= total && forall q: nat :: q < count ==> Start(q, band) < total
  }

  lemma CeilCovers(total: nat, band: nat)
    requires band > 0
    ensures Covers(total, band, CeilDiv(total, band))
  {
    var count := CeilDiv(total, band);
    DivMod(total + band - 1, band);
    FlatExact(count, 0, band);
    assert band * count == count * band;
    forall q: nat | q < count
      ensures Start(q, band) < total
    {
      FlatExact(q, 0, band);
      MulBound(q, band, count - 1, band);
      assert (count - 1) * band == count * band - band;
    }
  }

  lemma NextStart(q: nat, band: nat)
    ensures Start(0, band) == 0 && Start(q + 1, band) == Start(q, band) + band
  {
    FlatExact(0, 0, band);
    FlatExact(q, 0, band);
    FlatExact(q + 1, 0, band);
    assert (q + 1) * band == q * band + band;
  }

  datatype Grid = Grid(mBand: nat, nBand: nat, mCount: nat, nCount: nat)

  /** How the product is cut up for a number of workers; `flops` is reduced modulo 2^64. */
  function GridFor(m: nat, k: nat, n: nat, maxWorkers: nat): (g: Grid)
    ensures g.mBand > 0 && g.nBand > 0
    ensures g.mCount == CeilDiv(m, g.mBand) && g.nCount == CeilDiv(n, g.nBand)
  {
    var flops := 2 * m * k * n % 0x1_0000_0000_0000_0000;
    var workers := Max(Min(Max(maxWorkers, 1), flops / 0x80_0000), 1);
    var nBands := if workers >= 8 && n >= 256 then Min(4, workers / 2)
                  else if workers >= 4 && n >= 128 then Min(2, workers / 2) else 1;
    var mWorkers := Max(workers / nBands, 1);
    var mBand, nBand := Max(CeilDiv(m, mWorkers), MR), Max(CeilDiv(n, nBands), NR);
    Grid(mBand, nBand, CeilDiv(m, mBand), CeilDiv(n, nBand))
  }

  /** The tile in row mi and column ni of the grid. */
  function TileRect(m: nat, n: nat, g: Grid, mi: nat, ni: nat): (t: Rect)
    requires Start(mi, g.mBand) < m && Start(ni, g.nBand) < n
    ensures t.r0 == Start(mi, g.mBand) && t.c0 == Start(ni, g.nBand)
    ensures t.r0 + t.rows == Min(t.r0 + g.mBand, m) && t.c0 + t.cols == Min(t.c0 + g.nBand, n)
  {
    var r0, c0 := Start(mi, g.mBand), Start(ni, g.nBand);
    Rect(r0, c0, Min(r0 + g.mBand, m) - r0, Min(c0 + g.nBand, n) - c0)
  }

  ghost predicate GridOf<T>(pr: Problem<T>, g: Grid) {
    pr.Valid() && Covers(pr.m, g.mBand, g.mCount) && Covers(pr.n, g.nBand, g.nCount)
  }

  method Plan<T>(pr: Problem<T>, maxWorkers: nat) returns (g: Grid)
    requires pr.Valid()
    ensures GridOf(pr, g)
  {
    g := GridFor(pr.m, pr.k, pr.n, maxWorkers);
    CeilCovers(pr.m, g.mBand);
    CeilCovers(pr.n, g.nBand);
  }

  ghost predicate TileDone<T>(pr: Problem<T>, g: Grid, mi: nat, ni: nat, tile: seq<T>)
    requires GridOf(pr, g) && mi < g.mCount && ni < g.nCount
  {
    Computed(pr, TileRect(pr.m, pr.n, g, mi, ni), tile)
  }

  /** The tiles so far, in task order. */
  ghost predicate TilesDone<T>(pr: Problem<T>, g: Grid, tiles: seq<seq<T>>)
    requires GridOf(pr, g)
  {
    forall mi: nat, ni: nat :: mi < g.mCount && ni < g.nCount && Flat(mi, ni, g.nCount) < |tiles| ==>
      TileDone(pr, g, mi, ni, tiles[Flat(mi, ni, g.nCount)])
  }

  lemma OneMoreTile<T>(pr: Problem<T>, g: Grid, tiles: seq<seq<T>>, mi: nat, ni: nat, tile: seq<T>)
    requires GridOf(pr, g) && mi < g.mCount && ni < g.nCount && |tiles| == Flat(mi, ni, g.nCount)
    requires TilesDone(pr, g, tiles) && TileDone(pr, g, mi, ni, tile)
    ensures TilesDone(pr, g, tiles + [tile])
  {
    FlatDistinct(g.nCount);
  }

  /** `spawn.run`: result t is that of task t. */
  method RunTasks<T>(pr: Problem<T>, g: Grid) returns (tiles: seq<seq<T>>)
    requires GridOf(pr, g)
    ensures |tiles| == g.mCount * g.nCount && TilesDone(pr, g, tiles)
  {
    tiles := [];
    for x := 0 to g.mCount * g.nCount
      invariant |tiles| == x && TilesDone(pr, g, tiles)
    {
      var mi, ni := TaskCell(x, g);
      var tile := MatmulRect(pr, TileRect(pr.m, pr.n, g, mi, ni));
      OneMoreTile(pr, g, tiles, mi, ni, tile);
      tiles := tiles + [tile];
    }
  }

  method TaskCell(x: nat, g: Grid) returns (mi: nat, ni: nat)
    requires x < g.mCount * g.nCount
    ensures mi < g.mCount && ni < g.nCount && x == Flat(mi, ni, g.nCount)
  {
    assert g.nCount > 0;
    DivMod(x, g.nCount);
    mi, ni := x / g.nCount, x % g.nCount;
    FlatExact(mi, ni, g.nCount);
    assert g.nCount * mi == mi * g.nCount;
    if mi >= g.mCount {
      MulBound(g.mCount, g.nCount, mi, g.nCount);
      assert false;
    }
  }

  ghost predicate Whole<T>(pr: Problem<T>, s: seq<T>) {
    forall i, j :: pr.Cell(i, j) ==> Flat(i, j, pr.n) < |s|
  }

  /** Copies row r of a tile to its place in the full-width output. */
  method PlaceRow<T>(pr: Problem<T>, t: Rect, tile: seq<T>, r: nat, out: array<T>)
    requires t.Within(pr) && Computed(pr, t, tile) && Whole(pr, out[..]) && r < t.rows
    modifies out
    ensures forall i, j :: pr.Cell(i, j) ==>
      out[Flat(i, j, pr.n)] ==
        if i == t.r0 + r && t.c0 <= j < t.c0 + t.cols then pr.Entry(i, j) else old(out[Flat(i, j, pr.n)])
  {
    FlatDistinct(pr.n);
    for c := 0 to t.cols
      invariant forall i, j :: pr.Cell(i, j) ==>
        out[Flat(i, j, pr.n)] ==
          if i == t.r0 + r && t.c0 <= j < t.c0 + c then pr.Entry(i, j) else old(out[Flat(i, j, pr.n)])
    {
      assert pr.Cell(t.r0 + r, t.c0 + c);
      out[Flat(t.r0 + r, t.c0 + c, pr.n)] := tile[Flat(r, c, t.cols)];
    }
  }

  method PlaceTile<T>(pr: Problem<T>, t: Rect, tile: seq<T>, out: array<T>)
    requires t.Within(pr) && Computed(pr, t, tile) && Whole(pr, out[..])
    modifies out
    ensures forall i, j :: pr.Cell(i, j) ==>
      out[Flat(i, j, pr.n)] ==
        if t.r0 <= i < t.r0 + t.rows && t.c0 <= j < t.c0 + t.cols then pr.Entry(i, j) else old(out[Flat(i, j, pr.n)])
  {
    for r := 0 to t.rows
      invariant forall i, j :: pr.Cell(i, j) ==>
        out[Flat(i, j, pr.n)] ==
          if t.r0 <= i < t.r0 + r && t.c0 <= j < t.c0 + t.cols then pr.Entry(i, j) else old(out[Flat(i, j, pr.n)])
    {
      PlaceRow(pr, t, tile, r, out);
    }
  }

  /** Rows below r, and in rows r .. r1 the columns below c, hold their entries. */
  ghost predicate Filled<T>(pr: Problem<T>, s: seq<T>, r: nat, r1: nat, c: nat)
    requires pr.Valid()
  {
    forall i, j :: pr.Cell(i, j) && (i < r || (i < r1 && j < c)) ==>
      Flat(i, j, pr.n) < |s| && s[Flat(i, j, pr.n)] == pr.Entry(i, j)
  }

  /** One row of tiles. */
  method PlaceBand<T>(pr: Problem<T>, g: Grid, tiles: seq<seq<T>>, mi: nat, out: array<T>)
    requires GridOf(pr, g) && TilesDone(pr, g, tiles) && |tiles| == g.mCount * g.nCount
    requires mi < g.mCount && out.Length == pr.m * pr.n
    requires Filled(pr, out[..], Start(mi, g.mBand), 0, 0)
    modifies out
    ensures Filled(pr, out[..], Start(mi + 1, g.mBand), 0, 0)
  {
    FlatInside(g.mCount, g.nCount);
    FlatInside(pr.m, pr.n);
    NextStart(mi, g.mBand);
    ghost var r, r1 := Start(mi, g.mBand), Start(mi + 1, g.mBand);
    NextStart(0, g.nBand);
    for ni := 0 to g.nCount
      invariant Filled(pr, out[..], r, r1, Start(ni, g.nBand))
    {
      NextStart(ni, g.nBand);
      var t := TileRect(pr.m, pr.n, g, mi, ni);
      assert TileDone(pr, g, mi, ni, tiles[Flat(mi, ni, g.nCount)]);
      PlaceTile(pr, t, tiles[Flat(mi, ni, g.nCount)], out);
    }
  }

  // ---------- the whole product ----------

  datatype Tensor<T> = Tensor(shape: seq<nat>, data: seq<T>) {
    ghost predicate Valid() {
      |data| == Volume(shape)
    }
  }

  function Volume(shape: seq<nat>): nat {
    if shape == [] then 1 else shape[0] * Volume(shape[1..])
  }

  lemma VolumeOfMatrix(m: nat, n: nat)
    ensures Volume([m, n]) == m * n
  {
    assert [m, n][1..] == [n] && [n][1..] == [];
    assert Volume([n]) == n * Volume([]);
  }

  ghost predicate Compatible<T(!new)>(x: Tensor<T>, y: Tensor<T>) {
    |x.shape| == 2 && |y.shape| == 2 && x.shape[1] == y.shape[0]
  }

  function ProblemOf<T(!new)>(ops: Ops<T>, x: Tensor<T>, y: Tensor<T>): (pr: Problem<T>)
    requires x.Valid() && y.Valid() && Compatible(x, y)
    ensures pr.Valid()
  {
    assert x.shape == [x.shape[0], x.shape[1]] && y.shape == [y.shape[0], y.shape[1]];
    VolumeOfMatrix(x.shape[0], x.shape[1]);
    VolumeOfMatrix(y.shape[0], y.shape[1]);
    Problem(ops, x.data, y.data, x.shape[0], x.shape[1], y.shape[1])
  }

  /** `t` is the product: the right shape and, cell by cell, the fixed fold. */
  ghost predicate IsProduct<T(!new)>(ops: Ops<T>, x: Tensor<T>, y: Tensor<T>, t: Tensor<T>)
    requires x.Valid() && y.Valid() && Compatible(x, y)
  {
    var pr := ProblemOf(ops, x, y);
    && t.shape == [pr.m, pr.n] && |t.data| == pr.m * pr.n
    && Filled(pr, t.data, pr.m, 0, 0)
  }

  /** `Tensor::matmul_with`. Nothing in the result depends on `maxWorkers`. */
  method MatmulWith<T(!new)>(ops: Ops<T>, x: Tensor<T>, y: Tensor<T>, maxWorkers: nat) returns (r: Option<Tensor<T>>)
    requires x.Valid() && y.Valid()
    ensures r.Some? <==> Compatible(x, y)
    ensures r.Some? ==> IsProduct(ops, x, y, r.value)
  {
    if |x.shape| != 2 || |y.shape| != 2 || x.shape[1] != y.shape[0] {
      return None;
    }
    var pr := ProblemOf(ops, x, y);
    var g := Plan(pr, maxWorkers);
    var tiles := RunTasks(pr, g);
    var out := new T[pr.m * pr.n](_ => ops.zero);
    NextStart(0, g.mBand);
    for mi := 0 to g.mCount
      invariant Filled(pr, out[..], Start(mi, g.mBand), 0, 0)
    {
      PlaceBand(pr, g, tiles, mi, out);
    }
    r := Some(Tensor([pr.m, pr.n], out[..]));
  }

  /** There is one product, so any two worker counts give the same tensor, bit for bit. */
  lemma WorkerCountIrrelevant<T(!new)>(ops: Ops<T>, x: Tensor<T>, y: Tensor<T>, t: Tensor<T>, t': Tensor<T>)
    requires x.Valid() && y.Valid() && Compatible(x, y)
    requires IsProduct(ops, x, y, t) && IsProduct(ops, x, y, t')
    ensures t == t'
  {
    var pr := ProblemOf(ops, x, y);
    forall p | 0 <= p < pr.m * pr.n
      ensures t.data[p] == t'.data[p]
    {
      var i, j := CellAt(p, pr.m, pr.n);
      assert pr.Cell(i, j);
    }
  }

  lemma CellAt(p: nat, m: nat, n: nat) returns (i: nat, j: nat)
    requires p < m * n
    ensures i < m && j < n && p == Flat(i, j, n)
  {
    assert n > 0;
    DivMod(p, n);
    i, j := p / n, p % n;
    FlatExact(i, j, n);
    assert n * i == i * n;
    if i >= m {
      MulBound(m, n, i, n);
      assert false;
    }
  }

  // ---------- exact arithmetic, and block sizes ----------

  /** What makes adding a block the same as running on into it. */
  ghost predicate Exact<T(!new)>(ops: Ops<T>) {
    && (forall s :: ops.add(s, ops.zero) == s)
    && (forall s, a, b, t :: ops.add(s, ops.madd(a, b, t)) == ops.madd(a, b, ops.add(s, t)))
  }

  lemma {:induction false} AddRun<T(!new)>(pr: Problem<T>, i: nat, j: nat, lo: nat, hi: nat, init: T)
    requires Exact(pr.ops) && pr.Valid() && pr.Cell(i, j) && lo <= hi <= pr.k
    ensures pr.ops.add(init, pr.Run(i, j, lo, hi, pr.ops.zero)) == pr.Run(i, j, lo, hi, init)
    decreases hi - lo
  {
    if lo < hi {
      AddRun(pr, i, j, lo, hi - 1, init);
    }
  }

  lemma {:induction false} RunOn<T(!new)>(pr: Problem<T>, i: nat, j: nat, lo: nat, mid: nat, hi: nat, init: T)
    requires pr.Valid() && pr.Cell(i, j) && lo <= mid <= hi <= pr.k
    ensures pr.Run(i, j, mid, hi, pr.Run(i, j, lo, mid, init)) == pr.Run(i, j, lo, hi, init)
    decreases hi - mid
  {
    if mid < hi {
      RunOn(pr, i, j, lo, mid, hi - 1, init);
    }
  }

  /** Under exact operations the blocks do not show: every block size gives one straight run. */
  lemma {:induction false} BlocksVanish<T(!new)>(pr: Problem<T>, kc: nat, i: nat, j: nat, p: nat)
    requires Exact(pr.ops) && pr.Valid() && pr.Cell(i, j) && p <= pr.k && kc > 0
    ensures pr.Partial(kc, i, j, p) == pr.Run(i, j, 0, p, pr.ops.zero)
    decreases p
  {
    if p > 0 {
      var s := pr.BlockStart(p, kc);
      BlocksVanish(pr, kc, i, j, s);
      AddRun(pr, i, j, s, p, pr.Partial(kc, i, j, s));
      RunOn(pr, i, j, 0, s, p, pr.ops.zero);
    }
  }

  function RealOps(): Ops<real> {
    Ops(0.0, (x, y) => x + y, (a, b, c) => a * b + c)
  }

  /** The sum over q < p of A[i, q] * B[q, j]. */
  function Sum(pr: Problem<real>, i: nat, j: nat, p: nat): real
    requires pr.Valid() && pr.Cell(i, j) && p <= pr.k
  {
    if p == 0 then 0.0 else Sum(pr, i, j, p - 1) + pr.A(i, p - 1) * pr.B(p - 1, j)
  }

  lemma RealOpsExact()
    ensures Exact(RealOps())
  {
  }

  lemma {:induction false} RunIsSum(pr: Problem<real>, i: nat, j: nat, p: nat)
    requires pr.ops == RealOps() && pr.Valid() && pr.Cell(i, j) && p <= pr.k
    ensures pr.Run(i, j, 0, p, 0.0) == Sum(pr, i, j, p)
    decreases p
  {
    if p > 0 {
      RunIsSum(pr, i, j, p - 1);
    }
  }

  /** In exact arithmetic each entry is the textbook sum of products. */
  lemma EntryIsSum(pr: Problem<real>, i: nat, j: nat)
    requires pr.ops == RealOps() && pr.Valid() && pr.Cell(i, j)
    ensures pr.Entry(i, j) == Sum(pr, i, j, pr.k)
  {
    RealOpsExact();
    BlocksVanish(pr, KC, i, j, pr.k);
    RunIsSum(pr, i, j, pr.k);
  }

  // ---------- exactly when block sizes show ----------

  /** `madd` is a multiplication and then an addition that commutes and has a neutral zero; and
      there is a unit. */
  ghost predicate MulThenAdd<T(!new)>(ops: Ops<T>, mul: (T, T) -> T, one: T) {
    && (forall a, b, c :: ops.madd(a, b, c) == ops.add(mul(a, b), c))
    && (forall x, y :: ops.add(x, y) == ops.add(y, x))
    && (forall x :: ops.add(x, ops.zero) == x)
    && (forall x :: mul(x, one) == x)
  }

  ghost predicate Associative<T(!new)>(ops: Ops<T>) {
    forall x, y, z :: ops.add(x, ops.add(y, z)) == ops.add(ops.add(x, y), z)
  }

  /** Cutting the depth into blocks of kc changes no entry of any product. */
  ghost predicate BlocksNeverShow<T(!new)>(ops: Ops<T>, kc: nat)
    requires kc > 0
  {
    forall pr: Problem<T>, i: nat, j: nat :: pr.ops == ops && pr.Valid() && pr.Cell(i, j) ==>
      pr.Partial(kc, i, j, pr.k) == pr.Run(i, j, 0, pr.k, ops.zero)
  }

  lemma AssociativeIsExact<T(!new)>(ops: Ops<T>, mul: (T, T) -> T, one: T)
    requires MulThenAdd(ops, mul, one) && Associative(ops)
    ensures Exact(ops)
  {
    forall s, a, b, t
      ensures ops.add(s, ops.madd(a, b, t)) == ops.madd(a, b, ops.add(s, t))
    {
      var m := mul(a, b);
      assert ops.add(s, ops.add(m, t)) == ops.add(ops.add(s, m), t);
      assert ops.add(m, ops.add(s, t)) == ops.add(ops.add(m, s), t);
    }
  }

  /** The product of the row [x, 0, .., 0, y, z], with y at position kc, and a column of ones. */
  function Probe<T>(ops: Ops<T>, one: T, kc: nat, x: T, y: T, z: T): (pr: Problem<T>)
    requires kc > 0
    ensures pr.Valid() && pr.Cell(0, 0) && pr.k == kc + 2 && pr.ops == ops
  {
    Problem(ops, [x] + seq(kc - 1, _ => ops.zero) + [y, z], seq(kc + 2, _ => one), 1, kc + 2, 1)
  }

  lemma ProbeCell<T>(ops: Ops<T>, one: T, kc: nat, x: T, y: T, z: T, p: nat)
    requires kc > 0 && p < kc + 2
    ensures var pr := Probe(ops, one, kc, x, y, z);
            pr.A(0, p) == (if p == 0 then x else if p < kc then ops.zero else if p == kc then y else z)
            && pr.B(p, 0) == one
  {
    FlatExact(0, p, kc + 2);
    FlatExact(p, 0, 1);
  }

  /** One more position of the probe. */
  lemma ProbeRun<T(!new)>(ops: Ops<T>, mul: (T, T) -> T, one: T, kc: nat, x: T, y: T, z: T, lo: nat, p: nat)
    requires MulThenAdd(ops, mul, one) && kc > 0 && lo <= p < kc + 2
    ensures var pr := Probe(ops, one, kc, x, y, z);
            pr.Run(0, 0, lo, p + 1, ops.zero) == ops.add(pr.A(0, p), pr.Run(0, 0, lo, p, ops.zero))
  {
    ProbeCell(ops, one, kc, x, y, z, p);
  }

  /** The first block of the probe sums to x. */
  lemma {:induction false} ProbeFirst<T(!new)>(ops: Ops<T>, mul: (T, T) -> T, one: T, kc: nat, x: T, y: T, z: T, p: nat)
    requires MulThenAdd(ops, mul, one) && 0 < p <= kc
    ensures Probe(ops, one, kc, x, y, z).Run(0, 0, 0, p, ops.zero) == x
    decreases p
  {
    ProbeRun(ops, mul, one, kc, x, y, z, 0, p - 1);
    ProbeCell(ops, one, kc, x, y, z, p - 1);
    if p > 1 {
      ProbeFirst(ops, mul, one, kc, x, y, z, p - 1);
      assert ops.add(ops.zero, x) == ops.add(x, ops.zero);
    }
  }

  lemma ProbeRest<T(!new)>(ops: Ops<T>, mul: (T, T) -> T, one: T, kc: nat, x: T, y: T, z: T)
    requires MulThenAdd(ops, mul, one) && kc > 0
    ensures var pr := Probe(ops, one, kc, x, y, z);
            && pr.Run(0, 0, kc, kc + 2, ops.zero) == ops.add(z, y)
            && pr.Run(0, 0, 0, kc + 2, ops.zero) == ops.add(z, ops.add(y, x))
  {
    ProbeCell(ops, one, kc, x, y, z, kc);
    ProbeCell(ops, one, kc, x, y, z, kc + 1);
    ProbeRun(ops, mul, one, kc, x, y, z, kc, kc);
    ProbeRun(ops, mul, one, kc, x, y, z, kc, kc + 1);
    ProbeFirst(ops, mul, one, kc, x, y, z, kc);
    ProbeRun(ops, mul, one, kc, x, y, z, 0, kc);
    ProbeRun(ops, mul, one, kc, x, y, z, 0, kc + 1);
  }

  lemma ProbeBlocks<T>(pr: Problem<T>, kc: nat)
    requires kc >= 2
    ensures pr.BlockStart(kc, kc) == 0 && pr.BlockStart(kc + 2, kc) == kc
  {
    DivUnique(kc - 1, kc, 0, kc - 1);
    DivUnique(kc + 1, kc, 1, 1);
  }

  lemma PartialBlock<T>(pr: Problem<T>, kc: nat, p: nat)
    requires pr.Valid() && pr.Cell(0, 0) && 0 < p <= pr.k && kc > 0
    ensures var s := pr.BlockStart(p, kc);
            pr.Partial(kc, 0, 0, p) == pr.ops.add(pr.Partial(kc, 0, 0, s), pr.Run(0, 0, s, p, pr.ops.zero))
  {
  }

  /** In blocks of kc the probe sums to x + (z + y); in one run, to z + (y + x). */
  lemma ProbeSums<T(!new)>(ops: Ops<T>, mul: (T, T) -> T, one: T, kc: nat, x: T, y: T, z: T)
    requires MulThenAdd(ops, mul, one) && kc >= 2
    ensures var pr := Probe(ops, one, kc, x, y, z);
            && pr.Partial(kc, 0, 0, pr.k) == ops.add(x, ops.add(z, y))
            && pr.Run(0, 0, 0, pr.k, ops.zero) == ops.add(z, ops.add(y, x))
  {
    var pr := Probe(ops, one, kc, x, y, z);
    ProbeFirst(ops, mul, one, kc, x, y, z, kc);
    ProbeRest(ops, mul, one, kc, x, y, z);
    ProbeBlocks(pr, kc);
    PartialBlock(pr, kc, kc);
    PartialBlock(pr, kc, kc + 2);
    assert ops.add(ops.zero, x) == ops.add(x, ops.zero);
  }

  /** For every block size from two up, the code's KC among them, blocks never show if and only if
      addition is associative. */
  lemma BlocksNeverShowIff<T(!new)>(ops: Ops<T>, mul: (T, T) -> T, one: T, kc: nat)
    requires MulThenAdd(ops, mul, one) && kc >= 2
    ensures BlocksNeverShow(ops, kc) <==> Associative(ops)
  {
    if Associative(ops) {
      AssociativeIsExact(ops, mul, one);
      forall pr: Problem<T>, i: nat, j: nat | pr.ops == ops && pr.Valid() && pr.Cell(i, j)
        ensures pr.Partial(kc, i, j, pr.k) == pr.Run(i, j, 0, pr.k, ops.zero)
      {
        BlocksVanish(pr, kc, i, j, pr.k);
      }
    }
    if BlocksNeverShow(ops, kc) {
      forall x, y, z
        ensures ops.add(x, ops.add(y, z)) == ops.add(ops.add(x, y), z)
      {
        ProbeSums(ops, mul, one, kc, x, y, z);
        var pr := Probe(ops, one, kc, x, y, z);
        assert pr.Partial(kc, 0, 0, pr.k) == pr.Run(0, 0, 0, pr.k, ops.zero);
        Reorder(ops, mul, one, x, y, z);
      }
    }
  }

  lemma Reorder<T(!new)>(ops: Ops<T>, mul: (T, T) -> T, one: T, x: T, y: T, z: T)
    requires MulThenAdd(ops, mul, one) && ops.add(x, ops.add(z, y)) == ops.add(z, ops.add(y, x))
    ensures ops.add(x, ops.add(y, z)) == ops.add(ops.add(x, y), z)
  {
    assert ops.add(z, y) == ops.add(y, z) && ops.add(y, x) == ops.add(x, y);
    assert ops.add(z, ops.add(x, y)) == ops.add(ops.add(x, y), z);
  }

  /** Blocks of one never show. */
  lemma {:induction false} SingleBlocksVanish<T(!new)>(pr: Problem<T>, mul: (T, T) -> T, one: T, i: nat, j: nat, p: nat)
    requires MulThenAdd(pr.ops, mul, one) && pr.Valid() && pr.Cell(i, j) && p <= pr.k
    ensures pr.Partial(1, i, j, p) == pr.Run(i, j, 0, p, pr.ops.zero)
    decreases p
  {
    if p > 0 {
      var ops, m := pr.ops, mul(pr.A(i, p - 1), pr.B(p - 1, j));
      SingleBlocksVanish(pr, mul, one, i, j, p - 1);
      DivUnique(p - 1, 1, p - 1, 0);
      assert pr.BlockStart(p, 1) == p - 1;
      assert pr.Run(i, j, p - 1, p, ops.zero) == ops.madd(pr.A(i, p - 1), pr.B(p - 1, j), pr.Run(i, j, p - 1, p - 1, ops.zero));
      assert ops.add(pr.Partial(1, i, j, p - 1), m) == ops.add(m, pr.Partial(1, i, j, p - 1));
    }
  }

  // ---------- an addition that rounds ----------

  /** The two leading decimal digits of n, the rest rounded away to zeros. */
  function TwoDigits(n: nat): nat {
    if n < 100 then n else 10 * TwoDigits(n / 10)
  }

  lemma {:induction false} TwoDigitsTwice(n: nat)
    ensures TwoDigits(TwoDigits(n)) == TwoDigits(n)
  {
    if n >= 100 {
      TwoDigitsTwice(n / 10);
      TwoDigitsLarge(n / 10);
    }
  }

  lemma {:induction false} TwoDigitsLarge(n: nat)
    requires n >= 10
    ensures TwoDigits(n) >= 10
  {
    if n >= 100 {
      TwoDigitsLarge(n / 10);
    }
  }

  /** Numbers of two significant digits. */
  type Short = n: nat | TwoDigits(n) == n

  function Rounded(n: nat): Short {
    TwoDigitsTwice(n);
    TwoDigits(n)
  }

  function AddShort(x: Short, y: Short): Short { Rounded(x as int + y as int) }
  function MulShort(x: Short, y: Short): Short { Rounded(x as int * y as int) }
  function MaddShort(a: Short, b: Short, c: Short): Short { AddShort(MulShort(a, b), c) }

  function ShortOps(): Ops<Short> { Ops(0, AddShort, MaddShort) }

  lemma ShortNeutral(x: Short)
    ensures AddShort(x, 0) == x && MulShort(x, 1) == x
  {
    assert x as int + 0 == x && x as int * 1 == x;
  }

  lemma ShortCommutes(x: Short, y: Short)
    ensures AddShort(x, y) == AddShort(y, x)
  {
    assert x as int + y as int == y as int + x as int;
  }

  lemma ShortArithmetic()
    ensures MulThenAdd(ShortOps(), MulShort, 1)
  {
    var ops := ShortOps();
    forall x: Short
      ensures ops.add(x, ops.zero) == x && MulShort(x, 1) == x
    {
      ShortNeutral(x);
    }
    forall x: Short, y: Short
      ensures ops.add(x, y) == ops.add(y, x)
    {
      ShortCommutes(x, y);
    }
    forall a: Short, b: Short, c: Short
      ensures ops.madd(a, b, c) == ops.add(MulShort(a, b), c)
    {
    }
  }

  /** Rounding makes block sizes show: 100 + (5 + 5) is 110, and (100 + 5) + 5 is 100. */
  lemma BlockSizeMatters(kc: nat)
    requires kc >= 2
    ensures var pr := Probe(ShortOps(), 1, kc, 100, 5, 5);
            pr.Partial(kc, 0, 0, pr.k) == 110 && pr.Partial(pr.k, 0, 0, pr.k) == 100
  {
    ShortArithmetic();
    assert TwoDigits(10) == 10 && TwoDigits(11) == 11;
    assert TwoDigits(100) == 100 && TwoDigits(105) == 100 && TwoDigits(110) == 110;
    ProbeSums(ShortOps(), MulShort, 1, kc, 100, 5, 5);
    var pr := Probe(ShortOps(), 1, kc, 100, 5, 5);
    DivUnique(pr.k - 1, pr.k, 0, pr.k - 1);
    PartialBlock(pr, pr.k, pr.k);
    assert AddShort(0, 100) == 100;
  }

  // ---------- the order of operations, spelled out ----------

  /** Up to depth 256 an entry is one run added to zero. */
  lemma OneBlock<T>(pr: Problem<T>, i: nat, j: nat)
    requires pr.Valid() && pr.Cell(i, j) && 0 < pr.k <= 256
    ensures pr.Entry(i, j) == pr.ops.add(pr.ops.zero, pr.Run(i, j, 0, pr.k, pr.ops.zero))
  {
    var p := pr.k;
    DivUnique(p - 1, KC, 0, p - 1);
    assert pr.BlockStart(p, KC) == 0 && pr.Partial(KC, i, j, 0) == pr.ops.zero;
    assert pr.Partial(KC, i, j, p) == pr.ops.add(pr.Partial(KC, i, j, 0), pr.Run(i, j, 0, p, pr.ops.zero));
  }

  /** Up to 512 it is two: the first 256 positions, then the rest, each summed from zero. */
  lemma TwoBlocks<T>(pr: Problem<T>, i: nat, j: nat)
    requires pr.Valid() && pr.Cell(i, j) && 256 < pr.k <= 512
    ensures pr.Entry(i, j) == pr.ops.add(pr.ops.add(pr.ops.zero, pr.Run(i, j, 0, 256, pr.ops.zero)), pr.Run(i, j, 256, pr.k, pr.ops.zero))
  {
    DivUnique(pr.k - 1, KC, 1, pr.k - 1 - 256);
    assert pr.BlockStart(pr.k, KC) == 256;
    DivUnique(255, KC, 0, 255);
    assert pr.BlockStart(256, KC) == 0;
    assert pr.Partial(KC, i, j, 256) == pr.ops.add(pr.Partial(KC, i, j, 0), pr.Run(i, j, 0, 256, pr.ops.zero));
  }

  /** A run takes the positions in ascending order, the entry of A before that of B. */
  lemma TwoTerms<T>(pr: Problem<T>, i: nat, j: nat, p: nat)
    requires pr.Valid() && pr.Cell(i, j) && p + 2 <= pr.k
    ensures var ops := pr.ops;
      pr.Run(i, j, p, p + 2, ops.zero) == ops.madd(pr.A(i, p + 1), pr.B(p + 1, j), ops.madd(pr.A(i, p), pr.B(p, j), ops.zero))
  {
    assert pr.Run(i, j, p, p + 1, pr.ops.zero) == pr.ops.madd(pr.A(i, p), pr.B(p, j), pr.Run(i, j, p, p, pr.ops.zero));
  }
}
