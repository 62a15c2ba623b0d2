/** The compute graph of `dcg.rs`: lowering straight-line integer functions to nodes, and
    evaluating the graph with a memo. */
module Dcg {
  import opened Bytes
  import opened Capability
  import Bits
  import Arith

  // ---------- 64-bit wrapping arithmetic ----------

  type i64 = x: int | -0x8000_0000_0000_0000 <= x < 0x8000_0000_0000_0000

  function Wrap(x: int): i64 {
    (x + 0x8000_0000_0000_0000) % 0x1_0000_0000_0000_0000 - 0x8000_0000_0000_0000
  }

  /** Division truncating toward zero, as the machine does. */
  function Quot(x: int, y: int): int
    requires y != 0
  {
    if x >= 0 && y > 0 then x / y
    else if x >= 0 then -(x / -y)
    else if y > 0 then -(-x / y)
    else -x / -y
  }

  function Flag(b: bool): i64 { if b then 1 else 0 }

  datatype BinOp = Add | Sub | Mul | Div | Rem | Lt | Gt | Le | Ge | Eq | Ne | AndOp | OrOp

  /** `eval_bin`: None for a zero divisor. */
  function Apply(op: BinOp, x: i64, y: i64): Option<i64> {
    match op
    case Add => Some(Wrap(x as int + y as int))
    case Sub => Some(Wrap(x as int - y as int))
    case Mul => Some(Wrap(x as int * y as int))
    case Div => if y == 0 then None else Some(Wrap(Quot(x, y)))
    case Rem => if y == 0 then None else Some(Wrap(x as int - y as int * Quot(x, y)))
    case Lt => Some(Flag(x < y))
    case Gt => Some(Flag(x > y))
    case Le => Some(Flag(x <= y))
    case Ge => Some(Flag(x >= y))
    case Eq => Some(Flag(x == y))
    case Ne => Some(Flag(x != y))
    case AndOp => Some(Flag(x != 0 && y != 0))
    case OrOp => Some(Flag(x != 0 || y != 0))
  }

  /** Wrapping changes a number by a multiple of 2^64, and nothing that fits. */
  lemma WrapExact(x: int)
    ensures (Wrap(x) - x) % 0x1_0000_0000_0000_0000 == 0
    ensures -0x8000_0000_0000_0000 <= x < 0x8000_0000_0000_0000 ==> Wrap(x) == x
  {
  }

  /** v is x in 64 bits: it differs by a multiple of 2^64, and not at all if x fits. */
  ghost predicate InBits(v: Option<i64>, x: int) {
    && v.Some? && (v.value as int - x) % 0x1_0000_0000_0000_0000 == 0
    && (-0x8000_0000_0000_0000 <= x < 0x8000_0000_0000_0000 ==> v.value == x)
  }

  /** Sums, differences, products and negations are exact in 64 bits. */
  lemma ArithmeticExact(x: i64, y: i64)
    ensures InBits(Apply(Add, x, y), x as int + y as int) && InBits(Apply(Sub, x, y), x as int - y as int)
    ensures InBits(Apply(Mul, x, y), x as int * y as int) && InBits(Some(Negate(x)), 0 - x as int)
  {
    WrapInBits(Apply(Add, x, y), x as int + y as int);
    WrapInBits(Apply(Sub, x, y), x as int - y as int);
    WrapInBits(Apply(Mul, x, y), x as int * y as int);
    WrapInBits(Some(Negate(x)), 0 - x as int);
  }

  lemma WrapInBits(v: Option<i64>, x: int)
    requires v == Some(Wrap(x))
    ensures InBits(v, x)
  {
    WrapExact(x);
  }

  /** Subtraction is undone by addition, and negation by itself. */
  lemma SubtractionUndone(x: i64, y: i64)
    ensures Apply(Sub, x, y).Some? && Apply(Add, Apply(Sub, x, y).value, y) == Some(x)
    ensures Negate(Negate(x)) == x && Apply(Add, x, Negate(x)) == Some(0)
  {
    AddedBack(x, y as int);
    AddedBack(0, x as int);
    NegatedBack(x);
  }

  lemma AddedBack(x: i64, y: int)
    ensures Wrap(Wrap(x as int - y) as int + y) == x && Wrap(y + Wrap(x as int - y) as int) == x
  {
    var k := Turns(x as int - y);
    TurnsVanish(x, -k);
  }

  lemma NegatedBack(x: i64)
    ensures Wrap(0 - Wrap(0 - x as int) as int) == x
  {
    var k := Turns(0 - x as int);
    TurnsVanish(x, k);
  }

  /** How many times 2^64 wrapping takes away. */
  lemma Turns(x: int) returns (k: int)
    ensures Wrap(x) as int == x - 0x1_0000_0000_0000_0000 * k
  {
    k := (x + 0x8000_0000_0000_0000) / 0x1_0000_0000_0000_0000;
  }

  /** A number congruent to one that fits wraps to it. */
  lemma TurnsVanish(v: i64, k: int)
    ensures Wrap(v as int + 0x1_0000_0000_0000_0000 * k) == v
  {
  }

  /** Quotients truncate toward zero: the remainder is smaller than the divisor and has the sign
      of the dividend. */
  lemma QuotTruncates(x: int, y: int)
    requires y != 0
    ensures var r := x - y * Quot(x, y);
            Abs(r) < Abs(y) && (x >= 0 ==> r >= 0) && (x <= 0 ==> r <= 0)
  {
    var a, b := Abs(x), Abs(y);
    Arith.DivMod(a, b);
    Signs(b, a / b);
  }

  lemma Signs(b: int, q: int)
    ensures (-b) * (-q) == b * q && b * (-q) == -(b * q) && (-b) * q == -(b * q)
  {
  }

  function Abs(x: int): nat { if x < 0 then -x else x }

  const LEAST: i64 := -0x8000_0000_0000_0000

  /** Division wraps for exactly one pair, to the dividend itself; remainders never do. */
  lemma DivisionWraps(x: i64, y: i64)
    requires y != 0
    ensures Apply(Div, x, y) == Some(if x == LEAST && y == -1 then LEAST else Quot(x, y))
    ensures Apply(Rem, x, y) == Some(x as int - y as int * Quot(x, y))
  {
    QuotTruncates(x, y);
    QuotFits(x, y);
    WrapExact(Quot(x, y));
    WrapExact(x as int - y as int * Quot(x, y));
  }

  lemma QuotFits(x: i64, y: i64)
    requires y != 0
    ensures LEAST <= Quot(x, y) <= -(LEAST as int)
    ensures Quot(x, y) == -(LEAST as int) <==> x == LEAST && y == -1
  {
    QuotientShrinks(Abs(x), Abs(y));
  }

  lemma QuotientShrinks(a: nat, b: nat)
    requires b > 0
    ensures a / b <= a && (b > 1 && a > 0 ==> a / b < a) && (b == 1 ==> a / b == a)
  {
    var q := a / b;
    Arith.DivMod(a, b);
    if b > 1 {
      Arith.MulBound(2, q, b, q);
    }
  }

  function Negate(x: i64): i64 { Wrap(-(x as int)) }

  // ---------- the language ----------

  /** `Foreign` stands for every construct outside the compilable subset. */
  datatype Expr =
    | Int(n: i64)
    | Bool(b: bool)
    | Ident(name: string)
    | Neg(inner: Expr)
    | Binary(op: BinOp, l: Expr, r: Expr)
    | Foreign

  datatype Stmt =
    | Let(name: string, e: Expr)
    | Linear(name: string, e: Expr)
    | Return(e: Expr)
    | Bare(e: Expr)
    | Control

  datatype FnDef = FnDef(name: string, params: seq<string>, body: seq<Stmt>)

  type Values = map<string, i64>

  /** Strict evaluation of an expression: None when a division fails or a name is unbound. */
  function EvalExpr(e: Expr, env: Values): Option<i64> {
    match e
    case Int(n) => Some(n)
    case Bool(b) => Some(Flag(b))
    case Ident(x) => if x in env then Some(env[x]) else None
    case Neg(a) =>
      var v := EvalExpr(a, env);
      if v.None? then None else Some(Negate(v.value))
    case Binary(op, l, r) =>
      var x, y := EvalExpr(l, env), EvalExpr(r, env);
      if x.None? || y.None? then None else Apply(op, x.value, y.value)
    case Foreign => None
  }

  /** Strict statement-by-statement evaluation: a failing statement fails the function. The result
      is that of `return`, else of the last bare expression. */
  function EvalBody(body: seq<Stmt>, env: Values, last: Option<i64>): Option<i64> {
    if body == [] then last else
      match body[0]
      case Let(x, e) =>
        var v := EvalExpr(e, env);
        if v.None? then None else EvalBody(body[1..], env[x := v.value], last)
      case Linear(x, e) =>
        var v := EvalExpr(e, env);
        if v.None? then None else EvalBody(body[1..], env[x := v.value], last)
      case Return(e) => EvalExpr(e, env)
      case Bare(e) =>
        var v := EvalExpr(e, env);
        if v.None? then None else EvalBody(body[1..], env, v)
      case Control => None
  }

  /** Parameters bound in order, a repeated name to its last argument. */
  function Bind(params: seq<string>, args: seq<i64>): Values
    requires |params| == |args|
  {
    if params == [] then map[] else
      var n := |params| - 1;
      Bind(params[..n], args[..n])[params[n] := args[n]]
  }

  function EvalFn(f: FnDef, args: seq<i64>): Option<i64>
    requires |args| == |f.params|
  {
    EvalBody(f.body, Bind(f.params, args), None)
  }

  // ---------- graphs ----------

  datatype Node = Const(n: i64) | Param(index: nat) | NegNode(a: nat) | BinNode(op: BinOp, a: nat, b: nat)

  /** Operands come before the node that uses them. */
  predicate Ordered(nodes: seq<Node>, params: nat) {
    forall i :: 0 <= i < |nodes| ==> NodeOrdered(nodes[i], i, params)
  }

  predicate NodeOrdered(n: Node, i: nat, params: nat) {
    match n
    case Const(_) => true
    case Param(p) => p < params
    case NegNode(a) => a < i
    case BinNode(_, a, b) => a < i && b < i
  }

  /** The value of a node, computed afresh from its operands. */
  function NodeValue(nodes: seq<Node>, args: seq<i64>, id: nat): Option<i64>
    requires Ordered(nodes, |args|) && id < |nodes|
    decreases id
  {
    assert NodeOrdered(nodes[id], id, |args|);
    match nodes[id]
    case Const(n) => Some(n)
    case Param(p) => Some(args[p])
    case NegNode(a) =>
      var v := NodeValue(nodes, args, a);
      if v.None? then None else Some(Negate(v.value))
    case BinNode(op, a, b) =>
      var x, y := NodeValue(nodes, args, a), NodeValue(nodes, args, b);
      if x.None? || y.None? then None else Apply(op, x.value, y.value)
  }

  /** Appending nodes changes no earlier value. */
  lemma {:induction false} PrefixStable(nodes: seq<Node>, more: seq<Node>, args: seq<i64>, id: nat)
    requires Ordered(nodes, |args|) && Ordered(nodes + more, |args|) && id < |nodes|
    ensures NodeValue(nodes + more, args, id) == NodeValue(nodes, args, id)
    decreases id
  {
    assert (nodes + more)[id] == nodes[id] && NodeOrdered(nodes[id], id, |args|);
    match nodes[id]
    case NegNode(a) => PrefixStable(nodes, more, args, a);
    case BinNode(_, a, b) =>
      PrefixStable(nodes, more, args, a);
      PrefixStable(nodes, more, args, b);
    case _ =>
  }

  // ---------- lowering ----------

  datatype Error = Unsupported | UnknownName(name: string) | Unauthorized

  type Env = map<string, nat>

  datatype Lowered = Lowered(nodes: seq<Node>, id: nat)

  /** `Builder::lower`. */
  function Lower(nodes: seq<Node>, env: Env, e: Expr): Result<Lowered, Error>
    decreases e
  {
    match e
    case Int(n) => Ok(Lowered(nodes + [Const(n)], |nodes|))
    case Bool(b) => Ok(Lowered(nodes + [Const(Flag(b))], |nodes|))
    case Ident(x) => if x in env then Ok(Lowered(nodes, env[x])) else Err(UnknownName(x))
    case Neg(inner) =>
      var a := Lower(nodes, env, inner);
      if a.Err? then Err(a.error) else Ok(Lowered(a.value.nodes + [NegNode(a.value.id)], |a.value.nodes|))
    case Binary(op, l, r) =>
      var a := Lower(nodes, env, l);
      if a.Err? then Err(a.error) else
        var b := Lower(a.value.nodes, env, r);
        if b.Err? then Err(b.error)
        else Ok(Lowered(b.value.nodes + [BinNode(op, a.value.id, b.value.id)], |b.value.nodes|))
    case Foreign => Err(Unsupported)
  }

  datatype Compiled = Compiled(nodes: seq<Node>, env: Env, root: Option<nat>)

  /** The statement loop of `compile`. */
  function LowerBody(body: seq<Stmt>, c: Compiled): Result<Compiled, Error> {
    if body == [] then Ok(c) else
      match body[0]
      case Let(x, e) =>
        var r := Lower(c.nodes, c.env, e);
        if r.Err? then Err(r.error) else LowerBody(body[1..], Compiled(r.value.nodes, c.env[x := r.value.id], c.root))
      case Linear(x, e) =>
        var r := Lower(c.nodes, c.env, e);
        if r.Err? then Err(r.error) else LowerBody(body[1..], Compiled(r.value.nodes, c.env[x := r.value.id], c.root))
      case Return(e) =>
        var r := Lower(c.nodes, c.env, e);
        if r.Err? then Err(r.error) else Ok(Compiled(r.value.nodes, c.env, Some(r.value.id)))
      case Bare(e) =>
        var r := Lower(c.nodes, c.env, e);
        if r.Err? then Err(r.error) else LowerBody(body[1..], Compiled(r.value.nodes, c.env, Some(r.value.id)))
      case Control => Err(Unsupported)
  }

  datatype Graph = Graph(nodes: seq<Node>, root: nat, params: nat, required: Rights)

  function ParamNodes(params: seq<string>): Compiled {
    if params == [] then Compiled([], map[], None) else
      var n := |params| - 1;
      var c := ParamNodes(params[..n]);
      Compiled(c.nodes + [Param(n)], c.env[params[n] := |c.nodes|], None)
  }

  const PRIVILEGED: string := "priv_"

  function Required(name: string): Rights {
    if |name| >= |PRIVILEGED| && name[..|PRIVILEGED|] == PRIVILEGED then EXECUTE else NONE
  }

  /** `Dcg::compile`. */
  function Compile(f: FnDef, granted: Rights): Result<Graph, Error> {
    var required := Required(f.name);
    if !Contains(granted, required) then Err(Unauthorized) else
      var c := LowerBody(f.body, ParamNodes(f.params));
      if c.Err? then Err(c.error)
      else if c.value.root.None? then Err(Unsupported)
      else Ok(Graph(c.value.nodes, c.value.root.value, |f.params|, required))
  }

  // ---------- lowering preserves meaning ----------

  /** Names bound to nodes, seen through the values of those nodes. */
  ghost predicate Sees(nodes: seq<Node>, args: seq<i64>, env: Env, vals: map<string, Option<i64>>) {
    && Ordered(nodes, |args|) && env.Keys == vals.Keys
    && forall x :: x in env ==> env[x] < |nodes| && NodeValue(nodes, args, env[x]) == vals[x]
  }

  /** Evaluation on demand: a name may stand for a failure, which matters only where it is used. */
  function Demand(e: Expr, vals: map<string, Option<i64>>): Option<i64> {
    match e
    case Int(n) => Some(n)
    case Bool(b) => Some(Flag(b))
    case Ident(x) => if x in vals then vals[x] else None
    case Neg(a) =>
      var v := Demand(a, vals);
      if v.None? then None else Some(Negate(v.value))
    case Binary(op, l, r) =>
      var x, y := Demand(l, vals), Demand(r, vals);
      if x.None? || y.None? then None else Apply(op, x.value, y.value)
    case Foreign => None
  }

  lemma SeesMore(nodes: seq<Node>, more: seq<Node>, args: seq<i64>, env: Env, vals: map<string, Option<i64>>)
    requires Sees(nodes, args, env, vals) && Ordered(nodes + more, |args|)
    ensures Sees(nodes + more, args, env, vals)
  {
    forall x | x in env
      ensures NodeValue(nodes + more, args, env[x]) == vals[x]
    {
      PrefixStable(nodes, more, args, env[x]);
    }
  }

  lemma OrderedPush(nodes: seq<Node>, n: Node, params: nat)
    requires Ordered(nodes, params) && NodeOrdered(n, |nodes|, params)
    ensures Ordered(nodes + [n], params)
  {
  }

  /** A lowered expression sits behind the old nodes, in order, and its node has its value. */
  lemma {:induction false} LowerMeans(nodes: seq<Node>, env: Env, e: Expr, args: seq<i64>, vals: map<string, Option<i64>>)
    requires Sees(nodes, args, env, vals) && Lower(nodes, env, e).Ok?
    ensures var r := Lower(nodes, env, e).value;
            && |nodes| <= |r.nodes| && nodes == r.nodes[..|nodes|] && r.id < |r.nodes|
            && Sees(r.nodes, args, env, vals) && NodeValue(r.nodes, args, r.id) == Demand(e, vals)
    decreases e
  {
    match e
    case Int(n) => PushMeans(nodes, Const(n), args, env, vals);
    case Bool(b) => PushMeans(nodes, Const(Flag(b)), args, env, vals);
    case Ident(x) =>
    case Neg(inner) =>
      LowerMeans(nodes, env, inner, args, vals);
      var a := Lower(nodes, env, inner).value;
      PushMeans(a.nodes, NegNode(a.id), args, env, vals);
      PrefixStable(a.nodes, [NegNode(a.id)], args, a.id);
    case Binary(op, l, r) =>
      LowerMeans(nodes, env, l, args, vals);
      var a := Lower(nodes, env, l).value;
      LowerMeans(a.nodes, env, r, args, vals);
      var b := Lower(a.nodes, env, r).value;
      BinaryMeans(a, b, op, args, env, vals);
  }

  lemma BinaryMeans(a: Lowered, b: Lowered, op: BinOp, args: seq<i64>, env: Env, vals: map<string, Option<i64>>)
    requires Sees(a.nodes, args, env, vals) && Sees(b.nodes, args, env, vals)
    requires a.id < |a.nodes| <= |b.nodes| && a.nodes == b.nodes[..|a.nodes|] && b.id < |b.nodes|
    ensures var nodes := b.nodes + [BinNode(op, a.id, b.id)];
            && Sees(nodes, args, env, vals)
            && NodeValue(nodes, args, |b.nodes|)
            == var x, y := NodeValue(a.nodes, args, a.id), NodeValue(b.nodes, args, b.id);
               if x.None? || y.None? then None else Apply(op, x.value, y.value)
  {
    assert b.nodes == a.nodes + b.nodes[|a.nodes|..];
    PrefixStable(a.nodes, b.nodes[|a.nodes|..], args, a.id);
    var n := BinNode(op, a.id, b.id);
    PushMeans(b.nodes, n, args, env, vals);
    PrefixStable(b.nodes, [n], args, a.id);
    PrefixStable(b.nodes, [n], args, b.id);
  }

  lemma PushMeans(nodes: seq<Node>, n: Node, args: seq<i64>, env: Env, vals: map<string, Option<i64>>)
    requires Sees(nodes, args, env, vals) && NodeOrdered(n, |nodes|, |args|)
    ensures Sees(nodes + [n], args, env, vals) && nodes == (nodes + [n])[..|nodes|]
  {
    OrderedPush(nodes, n, |args|);
    SeesMore(nodes, [n], args, env, vals);
  }

  /** The body on demand: bindings are not forced. */
  function DemandBody(body: seq<Stmt>, vals: map<string, Option<i64>>, last: Option<i64>): Option<i64> {
    if body == [] then last else
      match body[0]
      case Let(x, e) => DemandBody(body[1..], vals[x := Demand(e, vals)], last)
      case Linear(x, e) => DemandBody(body[1..], vals[x := Demand(e, vals)], last)
      case Return(e) => Demand(e, vals)
      case Bare(e) => DemandBody(body[1..], vals, Demand(e, vals))
      case Control => None
  }

  /** The root, if there is one yet, is worth `last`. */
  ghost predicate Rooted(c: Compiled, args: seq<i64>, last: Option<i64>)
    requires Ordered(c.nodes, |args|)
  {
    if c.root.None? then last == None
    else c.root.value < |c.nodes| && NodeValue(c.nodes, args, c.root.value) == last
  }

  lemma RootedMore(c: Compiled, nodes: seq<Node>, args: seq<i64>, last: Option<i64>)
    requires Ordered(c.nodes, |args|) && Rooted(c, args, last) && Ordered(nodes, |args|)
    requires |c.nodes| <= |nodes| && c.nodes == nodes[..|c.nodes|]
    ensures Rooted(c.(nodes := nodes), args, last)
  {
    if c.root.Some? {
      assert nodes == c.nodes + nodes[|c.nodes|..];
      PrefixStable(c.nodes, nodes[|c.nodes|..], args, c.root.value);
    }
  }

  lemma {:induction false} BodyMeans(
      body: seq<Stmt>, c: Compiled, args: seq<i64>, vals: map<string, Option<i64>>, last: Option<i64>)
    requires Sees(c.nodes, args, c.env, vals) && Rooted(c, args, last) && LowerBody(body, c).Ok?
    ensures var d := LowerBody(body, c).value;
            Ordered(d.nodes, |args|) && Rooted(d, args, if d.root.None? then None else DemandBody(body, vals, last))
    decreases |body|
  {
    if body != [] && body[0] != Control {
      var e := body[0].e;
      LowerMeans(c.nodes, c.env, e, args, vals);
      var r := Lower(c.nodes, c.env, e).value;
      RootedMore(c, r.nodes, args, last);
      match body[0]
      case Let(x, _) =>
        BodyMeans(body[1..], Compiled(r.nodes, c.env[x := r.id], c.root), args, vals[x := Demand(e, vals)], last);
      case Linear(x, _) =>
        BodyMeans(body[1..], Compiled(r.nodes, c.env[x := r.id], c.root), args, vals[x := Demand(e, vals)], last);
      case Return(_) =>
      case Bare(_) =>
        BodyMeans(body[1..], Compiled(r.nodes, c.env, Some(r.id)), args, vals, Demand(e, vals));
    }
  }

  function Lift(env: Values): map<string, Option<i64>> {
    map x | x in env :: Some(env[x])
  }

  lemma {:induction false} ParamsMean(params: seq<string>, args: seq<i64>, all: seq<i64>)
    requires |params| == |args| && args <= all
    ensures var c := ParamNodes(params);
            |c.nodes| == |params| && c.root == None && Sees(c.nodes, all, c.env, Lift(Bind(params, args)))
    decreases |params|
  {
    if params != [] {
      var n := |params| - 1;
      ParamsMean(params[..n], args[..n], all);
      var c := ParamNodes(params[..n]);
      PushMeans(c.nodes, Param(n), all, c.env, Lift(Bind(params[..n], args[..n])));
    }
  }

  function DemandFn(f: FnDef, args: seq<i64>): Option<i64>
    requires |args| == |f.params|
  {
    DemandBody(f.body, Lift(Bind(f.params, args)), None)
  }

  /** `Dcg::eval`, without the memo. */
  ghost function EvalGraph(g: Graph, args: seq<i64>): Option<i64>
    requires Ordered(g.nodes, g.params) && g.root < |g.nodes|
  {
    if |args| != g.params then None else NodeValue(g.nodes, args, g.root)
  }

  /** In every compiled graph operands precede their node, so evaluation ends. */
  lemma CompiledOrdered(f: FnDef, granted: Rights)
    requires Compile(f, granted).Ok?
    ensures var g := Compile(f, granted).value;
            Ordered(g.nodes, g.params) && g.root < |g.nodes| && g.params == |f.params|
  {
    CompiledMeans(f, granted, seq(|f.params|, _ => 0));
  }

  lemma CompiledMeans(f: FnDef, granted: Rights, args: seq<i64>)
    requires Compile(f, granted).Ok? && |args| == |f.params|
    ensures var g := Compile(f, granted).value;
            && Ordered(g.nodes, g.params) && g.root < |g.nodes| && g.params == |f.params|
            && EvalGraph(g, args) == DemandFn(f, args)
  {
    ParamsMean(f.params, args, args);
    BodyMeans(f.body, ParamNodes(f.params), args, Lift(Bind(f.params, args)), None);
  }

  // ---------- strict evaluation against the graph ----------

  /** Every statement that strict evaluation reaches succeeds. */
  predicate AllSucceed(body: seq<Stmt>, vals: map<string, Option<i64>>) {
    body == [] || match body[0]
      case Let(x, e) => Demand(e, vals).Some? && AllSucceed(body[1..], vals[x := Demand(e, vals)])
      case Linear(x, e) => Demand(e, vals).Some? && AllSucceed(body[1..], vals[x := Demand(e, vals)])
      case Return(e) => Demand(e, vals).Some?
      case Bare(e) => Demand(e, vals).Some? && AllSucceed(body[1..], vals)
      case Control => false
  }

  lemma {:induction false} ExprAgrees(e: Expr, env: Values)
    ensures EvalExpr(e, env) == Demand(e, Lift(env))
  {
    match e
    case Neg(a) => ExprAgrees(a, env);
    case Binary(_, l, r) =>
      ExprAgrees(l, env);
      ExprAgrees(r, env);
    case _ =>
  }

  lemma LiftUpdate(env: Values, x: string, v: i64)
    ensures Lift(env[x := v]) == Lift(env)[x := Some(v)]
  {
  }

  lemma {:induction false} BodyAgrees(body: seq<Stmt>, env: Values, last: Option<i64>)
    ensures EvalBody(body, env, last) == if AllSucceed(body, Lift(env)) then DemandBody(body, Lift(env), last) else None
    decreases |body|
  {
    if body != [] && body[0] != Control {
      var e := body[0].e;
      ExprAgrees(e, env);
      var v := EvalExpr(e, env);
      if v.Some? {
        match body[0]
        case Let(x, _) =>
          LiftUpdate(env, x, v.value);
          BodyAgrees(body[1..], env[x := v.value], last);
        case Linear(x, _) =>
          LiftUpdate(env, x, v.value);
          BodyAgrees(body[1..], env[x := v.value], last);
        case Bare(_) => BodyAgrees(body[1..], env, v);
        case Return(_) =>
      }
    }
  }

  /** Compilation preserves meaning: whatever strict evaluation yields, the graph yields. */
  lemma CompileRefines(f: FnDef, granted: Rights, args: seq<i64>)
    requires Compile(f, granted).Ok? && |args| == |f.params| && EvalFn(f, args).Some?
    ensures Ordered(Compile(f, granted).value.nodes, |args|)
    ensures var g := Compile(f, granted).value;
            Ordered(g.nodes, g.params) && g.root < |g.nodes| && EvalGraph(g, args) == EvalFn(f, args)
  {
    CompiledMeans(f, granted, args);
    BodyAgrees(f.body, Bind(f.params, args), None);
  }

  // ---------- where a graph can fail ----------

  predicate Divides(n: Node) { n.BinNode? && (n.op == Div || n.op == Rem) }

  /** The guard of the one branch that fails: a division whose divisor is zero. */
  predicate ZeroDivisorAt(nodes: seq<Node>, args: seq<i64>, id: nat)
    requires Ordered(nodes, |args|) && id < |nodes|
  {
    Divides(nodes[id]) && (assert NodeOrdered(nodes[id], id, |args|); NodeValue(nodes, args, nodes[id].b) == Some(0))
  }

  /** Node `id` is in the cone of `root`: `root` itself, or an operand of a node in it. */
  predicate InCone(nodes: seq<Node>, params: nat, id: nat, root: nat)
    requires Ordered(nodes, params) && root < |nodes|
    decreases root
  {
    id == root || (assert NodeOrdered(nodes[root], root, params); match nodes[root]
      case NegNode(a) => InCone(nodes, params, id, a)
      case BinNode(_, a, b) => InCone(nodes, params, id, a) || InCone(nodes, params, id, b)
      case _ => false)
  }

  /** A zero divisor anywhere in its cone fails a node. */
  lemma {:induction false} ZeroFails(nodes: seq<Node>, args: seq<i64>, id: nat, root: nat)
    requires Ordered(nodes, |args|) && root < |nodes| && id < |nodes|
    requires InCone(nodes, |args|, id, root) && ZeroDivisorAt(nodes, args, id)
    ensures NodeValue(nodes, args, root) == None
    decreases root
  {
    assert NodeOrdered(nodes[root], root, |args|);
    if id != root {
      match nodes[root]
      case NegNode(a) => ZeroFails(nodes, args, id, a);
      case BinNode(_, a, b) =>
        if InCone(nodes, |args|, id, a) {
          ZeroFails(nodes, args, id, a);
        } else {
          ZeroFails(nodes, args, id, b);
        }
    }
  }

  /** And nothing else does. */
  lemma {:induction false} FailureIsZero(nodes: seq<Node>, args: seq<i64>, root: nat) returns (id: nat)
    requires Ordered(nodes, |args|) && root < |nodes| && NodeValue(nodes, args, root) == None
    ensures id < |nodes| && InCone(nodes, |args|, id, root) && ZeroDivisorAt(nodes, args, id)
    decreases root
  {
    assert NodeOrdered(nodes[root], root, |args|);
    match nodes[root]
    case NegNode(a) => id := FailureIsZero(nodes, args, a);
    case BinNode(_, a, b) =>
      if NodeValue(nodes, args, a) == None {
        id := FailureIsZero(nodes, args, a);
      } else if NodeValue(nodes, args, b) == None {
        id := FailureIsZero(nodes, args, b);
      } else {
        id := root;
      }
  }

  /** Every node of the graph has a value. */
  ghost predicate Total(nodes: seq<Node>, args: seq<i64>)
    requires Ordered(nodes, |args|)
  {
    forall id :: 0 <= id < |nodes| ==> NodeValue(nodes, args, id).Some?
  }

  lemma TotalIffNoZero(nodes: seq<Node>, args: seq<i64>)
    requires Ordered(nodes, |args|)
    ensures Total(nodes, args) <==> forall id :: 0 <= id < |nodes| ==> !ZeroDivisorAt(nodes, args, id)
  {
    if Total(nodes, args) {
      forall id | 0 <= id < |nodes|
        ensures !ZeroDivisorAt(nodes, args, id)
      {
        if ZeroDivisorAt(nodes, args, id) {
          ZeroFails(nodes, args, id, id);
        }
      }
    } else {
      var root :| 0 <= root < |nodes| && NodeValue(nodes, args, root) == None;
      var id := FailureIsZero(nodes, args, root);
    }
  }

  lemma TotalPush(nodes: seq<Node>, n: Node, args: seq<i64>)
    requires Ordered(nodes, |args|) && NodeOrdered(n, |nodes|, |args|) && Total(nodes, args)
    ensures Ordered(nodes + [n], |args|)
    ensures NodeValue(nodes + [n], args, |nodes|).Some? ==> Total(nodes + [n], args)
  {
    OrderedPush(nodes, n, |args|);
    forall id | 0 <= id < |nodes|
      ensures NodeValue(nodes + [n], args, id).Some?
    {
      PrefixStable(nodes, [n], args, id);
    }
  }

  /** An expression that succeeds leaves no failing node behind. */
  lemma {:induction false} LowerTotal(nodes: seq<Node>, env: Env, e: Expr, args: seq<i64>, vals: map<string, Option<i64>>)
    requires Sees(nodes, args, env, vals) && Lower(nodes, env, e).Ok? && Total(nodes, args) && Demand(e, vals).Some?
    ensures Ordered(Lower(nodes, env, e).value.nodes, |args|) && Total(Lower(nodes, env, e).value.nodes, args)
    decreases e
  {
    LowerMeans(nodes, env, e, args, vals);
    match e
    case Int(n) => TotalPush(nodes, Const(n), args);
    case Bool(b) => TotalPush(nodes, Const(Flag(b)), args);
    case Ident(x) =>
    case Neg(inner) =>
      LowerMeans(nodes, env, inner, args, vals);
      LowerTotal(nodes, env, inner, args, vals);
      var a := Lower(nodes, env, inner).value;
      TotalPush(a.nodes, NegNode(a.id), args);
    case Binary(op, l, r) =>
      LowerMeans(nodes, env, l, args, vals);
      LowerTotal(nodes, env, l, args, vals);
      var a := Lower(nodes, env, l).value;
      LowerMeans(a.nodes, env, r, args, vals);
      LowerTotal(a.nodes, env, r, args, vals);
      var b := Lower(a.nodes, env, r).value;
      TotalPush(b.nodes, BinNode(op, a.id, b.id), args);
  }

  lemma {:induction false} LowerExtends(nodes: seq<Node>, env: Env, e: Expr)
    requires Lower(nodes, env, e).Ok?
    ensures nodes <= Lower(nodes, env, e).value.nodes
    decreases e
  {
    match e
    case Neg(inner) => LowerExtends(nodes, env, inner);
    case Binary(op, l, r) =>
      LowerExtends(nodes, env, l);
      LowerExtends(Lower(nodes, env, l).value.nodes, env, r);
    case _ =>
  }

  lemma {:induction false} BodyExtends(body: seq<Stmt>, c: Compiled)
    requires LowerBody(body, c).Ok?
    ensures c.nodes <= LowerBody(body, c).value.nodes
    decreases |body|
  {
    if body != [] && body[0] != Control {
      var e := body[0].e;
      LowerExtends(c.nodes, c.env, e);
      var r := Lower(c.nodes, c.env, e).value;
      match body[0]
      case Let(x, _) => BodyExtends(body[1..], Compiled(r.nodes, c.env[x := r.id], c.root));
      case Linear(x, _) => BodyExtends(body[1..], Compiled(r.nodes, c.env[x := r.id], c.root));
      case Return(_) =>
      case Bare(_) => BodyExtends(body[1..], Compiled(r.nodes, c.env, Some(r.id)));
    }
  }

  lemma FailingPrefix(nodes: seq<Node>, all: seq<Node>, args: seq<i64>, id: nat)
    requires nodes <= all && Ordered(nodes, |args|) && Ordered(all, |args|)
    requires id < |nodes| && NodeValue(nodes, args, id) == None
    ensures !Total(all, args)
  {
    assert all == nodes + all[|nodes|..];
    PrefixStable(nodes, all[|nodes|..], args, id);
  }

  /** Every statement succeeds exactly when every node of the compiled graph has a value. */
  lemma {:induction false} BodyTotal(
      body: seq<Stmt>, c: Compiled, args: seq<i64>, vals: map<string, Option<i64>>, last: Option<i64>)
    requires Sees(c.nodes, args, c.env, vals) && Rooted(c, args, last) && LowerBody(body, c).Ok? && Total(c.nodes, args)
    ensures Ordered(LowerBody(body, c).value.nodes, |args|)
    ensures Total(LowerBody(body, c).value.nodes, args) <==> AllSucceed(body, vals)
    decreases |body|
  {
    BodyMeans(body, c, args, vals, last);
    if body != [] && body[0] != Control {
      var e := body[0].e;
      var r := Lower(c.nodes, c.env, e).value;
      LowerMeans(c.nodes, c.env, e, args, vals);
      RootedMore(c, r.nodes, args, last);
      if Demand(e, vals).None? {
        BodyExtends(body, c);
        StatementExtends(body, c);
        FailingPrefix(r.nodes, LowerBody(body, c).value.nodes, args, r.id);
      } else {
        LowerTotal(c.nodes, c.env, e, args, vals);
        match body[0]
        case Let(x, _) =>
          BodyTotal(body[1..], Compiled(r.nodes, c.env[x := r.id], c.root), args, vals[x := Demand(e, vals)], last);
        case Linear(x, _) =>
          BodyTotal(body[1..], Compiled(r.nodes, c.env[x := r.id], c.root), args, vals[x := Demand(e, vals)], last);
        case Return(_) =>
        case Bare(_) =>
          BodyTotal(body[1..], Compiled(r.nodes, c.env, Some(r.id)), args, vals, Demand(e, vals));
      }
    }
  }

  lemma StatementExtends(body: seq<Stmt>, c: Compiled)
    requires LowerBody(body, c).Ok? && body != [] && body[0] != Control
    ensures Lower(c.nodes, c.env, body[0].e).Ok?
    ensures Lower(c.nodes, c.env, body[0].e).value.nodes <= LowerBody(body, c).value.nodes
  {
    var r := Lower(c.nodes, c.env, body[0].e).value;
    match body[0]
    case Let(x, _) => BodyExtends(body[1..], Compiled(r.nodes, c.env[x := r.id], c.root));
    case Linear(x, _) => BodyExtends(body[1..], Compiled(r.nodes, c.env[x := r.id], c.root));
    case Return(_) =>
    case Bare(_) => BodyExtends(body[1..], Compiled(r.nodes, c.env, Some(r.id)));
  }

  lemma {:induction false} ParamsTotal(params: seq<string>, args: seq<i64>)
    requires |params| <= |args|
    ensures var c := ParamNodes(params); Ordered(c.nodes, |args|) && |c.nodes| == |params| && Total(c.nodes, args)
    decreases |params|
  {
    if params != [] {
      var n := |params| - 1;
      ParamsTotal(params[..n], args);
      TotalPush(ParamNodes(params[..n]).nodes, Param(n), args);
    }
  }

  lemma StrictIsTotal(f: FnDef, granted: Rights, args: seq<i64>)
    requires Compile(f, granted).Ok? && |args| == |f.params|
    ensures var g := Compile(f, granted).value;
            && Ordered(g.nodes, g.params) && g.root < |g.nodes| && g.params == |args|
            && EvalFn(f, args) == if Total(g.nodes, args) then EvalGraph(g, args) else None
  {
    CompiledMeans(f, granted, args);
    ParamsMean(f.params, args, args);
    ParamsTotal(f.params, args);
    BodyTotal(f.body, ParamNodes(f.params), args, Lift(Bind(f.params, args)), None);
    BodyAgrees(f.body, Bind(f.params, args), None);
  }

  /** Some division in the cone of the root has a zero divisor. */
  ghost predicate ZeroNeeded(g: Graph, args: seq<i64>)
    requires Ordered(g.nodes, g.params) && g.root < |g.nodes| && g.params == |args|
  {
    exists id :: 0 <= id < |g.nodes| && InCone(g.nodes, g.params, id, g.root) && ZeroDivisorAt(g.nodes, args, id)
  }

  /** Some division outside it has. */
  ghost predicate ZeroUnneeded(g: Graph, args: seq<i64>)
    requires Ordered(g.nodes, g.params) && g.root < |g.nodes| && g.params == |args|
  {
    exists id :: 0 <= id < |g.nodes| && !InCone(g.nodes, g.params, id, g.root) && ZeroDivisorAt(g.nodes, args, id)
  }

  /** Graph and strict evaluation differ exactly when a division the root does not need has a zero
      divisor and none that it needs has. */
  lemma DifferExactly(f: FnDef, granted: Rights, args: seq<i64>)
    requires Compile(f, granted).Ok? && |args| == |f.params|
    ensures var g := Compile(f, granted).value;
            && Ordered(g.nodes, g.params) && g.root < |g.nodes| && g.params == |args|
            && (EvalGraph(g, args) == EvalFn(f, args) <==> !ZeroUnneeded(g, args) || ZeroNeeded(g, args))
  {
    StrictIsTotal(f, granted, args);
    var g := Compile(f, granted).value;
    TotalIffNoZero(g.nodes, args);
    if ZeroNeeded(g, args) {
      var id :| 0 <= id < |g.nodes| && InCone(g.nodes, g.params, id, g.root) && ZeroDivisorAt(g.nodes, args, id);
      ZeroFails(g.nodes, args, id, g.root);
    } else if NodeValue(g.nodes, args, g.root) == None {
      var id := FailureIsZero(g.nodes, args, g.root);
    }
  }

  /** A function whose divisions all feed its result means the same to both, for all arguments. */
  lemma NoDeadDivisionAgrees(f: FnDef, granted: Rights, args: seq<i64>)
    requires Compile(f, granted).Ok? && |args| == |f.params|
    requires var g := Compile(f, granted).value;
             Ordered(g.nodes, g.params) && g.root < |g.nodes|
             && forall id :: 0 <= id < |g.nodes| && Divides(g.nodes[id]) ==> InCone(g.nodes, g.params, id, g.root)
    ensures EvalGraph(Compile(f, granted).value, args) == EvalFn(f, args)
  {
    DifferExactly(f, granted, args);
  }

  /** A dead division by zero fails in strict evaluation only. */
  lemma DeadDivision()
    ensures exists f: FnDef :: f.params == [] && Compile(f, NONE).Ok? && EvalFn(f, []) == None && GraphYields(f, 2)
  {
    var bad := Binary(Div, Int(1), Int(0));
    var f := FnDef("f", [], [Let("x", bad), Return(Int(2))]);
    assert f.body[1..] == [Return(Int(2))];
    assert EvalExpr(bad, map[]) == None;
    assert EvalFn(f, []) == None;
    assert DemandBody(f.body[1..], map["x" := None], None) == Some(2);
    assert DemandFn(f, []) == Some(2);
    var low := Lower([], map[], bad);
    assert low.Ok?;
    assert LowerBody(f.body[1..], Compiled(low.value.nodes, map["x" := low.value.id], None)).Ok?;
    Bits.ZeroAnd(NONE);
    assert Compile(f, NONE).Ok?;
    CompiledMeans(f, NONE, []);
    assert GraphYields(f, 2);
  }

  ghost predicate GraphYields(f: FnDef, v: i64)
    requires Compile(f, NONE).Ok?
  {
    var g := Compile(f, NONE).value;
    Ordered(g.nodes, g.params) && g.root < |g.nodes| && EvalGraph(g, []) == Some(v)
  }

  // ---------- what compiles ----------

  /** Integers, booleans, bound names, negation and binary operators, and nothing else. */
  predicate Supported(e: Expr, names: set<string>) {
    match e
    case Int(_) => true
    case Bool(_) => true
    case Ident(x) => x in names
    case Neg(a) => Supported(a, names)
    case Binary(_, l, r) => Supported(l, names) && Supported(r, names)
    case Foreign => false
  }

  /** Bindings and expressions up to the first `return` or the end, with a value somewhere. */
  predicate Straight(body: seq<Stmt>, names: set<string>, valued: bool) {
    if body == [] then valued else
      match body[0]
      case Let(x, e) => Supported(e, names) && Straight(body[1..], names + {x}, valued)
      case Linear(x, e) => Supported(e, names) && Straight(body[1..], names + {x}, valued)
      case Return(e) => Supported(e, names)
      case Bare(e) => Supported(e, names) && Straight(body[1..], names, true)
      case Control => false
  }

  lemma {:induction false} LowersExactly(nodes: seq<Node>, env: Env, e: Expr)
    ensures Lower(nodes, env, e).Ok? <==> Supported(e, env.Keys)
    ensures Lower(nodes, env, e).Err? ==> Lower(nodes, env, e).error != Unauthorized
    decreases e
  {
    match e
    case Neg(a) => LowersExactly(nodes, env, a);
    case Binary(_, l, r) =>
      LowersExactly(nodes, env, l);
      if Lower(nodes, env, l).Ok? {
        LowersExactly(Lower(nodes, env, l).value.nodes, env, r);
      }
    case _ =>
  }

  lemma {:induction false} BodyLowersExactly(body: seq<Stmt>, c: Compiled)
    ensures (LowerBody(body, c).Ok? && LowerBody(body, c).value.root.Some?) <==> Straight(body, c.env.Keys, c.root.Some?)
    ensures LowerBody(body, c).Err? ==> LowerBody(body, c).error != Unauthorized
    decreases |body|
  {
    if body != [] && body[0] != Control {
      var e := body[0].e;
      LowersExactly(c.nodes, c.env, e);
      var r := Lower(c.nodes, c.env, e);
      if r.Ok? {
        assert body[0].Let? || body[0].Linear? ==> c.env[body[0].name := r.value.id].Keys == c.env.Keys + {body[0].name};
        match body[0]
        case Let(x, _) => BodyLowersExactly(body[1..], Compiled(r.value.nodes, c.env[x := r.value.id], c.root));
        case Linear(x, _) => BodyLowersExactly(body[1..], Compiled(r.value.nodes, c.env[x := r.value.id], c.root));
        case Bare(_) => BodyLowersExactly(body[1..], Compiled(r.value.nodes, c.env, Some(r.value.id)));
        case Return(_) =>
      }
    }
  }

  lemma {:induction false} ParamNames(params: seq<string>)
    ensures ParamNodes(params).env.Keys == set x | x in params
    ensures ParamNodes(params).root == None
  {
    if params != [] {
      var n := |params| - 1;
      ParamNames(params[..n]);
      assert params == params[..n] + [params[n]];
    }
  }

  /** The name asks for authority and the grant does not hold it. */
  predicate Unentitled(f: FnDef, granted: Rights) {
    |f.name| >= 5 && f.name[..5] == "priv_" && !Has(granted, 2)
  }

  /** What compiles is exactly the straight-line subset, for callers entitled to it. */
  lemma CompilesExactly(f: FnDef, granted: Rights)
    ensures Compile(f, granted).Ok? <==> !Unentitled(f, granted) && Straight(f.body, set x | x in f.params, false)
    ensures Compile(f, granted) == Err(Unauthorized) <==> Unentitled(f, granted)
  {
    BodyLowersExactly(f.body, ParamNodes(f.params));
    ParamNames(f.params);
    Entitlement(granted);
  }

  lemma Entitlement(granted: Rights)
    ensures Contains(granted, NONE) && (Contains(granted, EXECUTE) <==> Has(granted, 2))
  {
    RightsAreSets(NONE, granted, 0);
    RightsAreSets(EXECUTE, granted, 0);
    forall i
      ensures !Has(NONE, i) && (Has(EXECUTE, i) <==> i == 2)
    {
      OneBit(i);
    }
  }

  lemma OneBit(i: nat)
    ensures !Has(0, i) && (Has(4, i) <==> i == 2)
  {
    assert Bits.Pow2(0) == 1 && Bits.Pow2(1) == 2 && Bits.Pow2(2) == 4 && Bits.Pow2(3) == 8;
    if i > 2 {
      Wide(i);
      Arith.DivUnique(4, Bits.Pow2(i), 0, 4);
    }
    Arith.DivUnique(0, Bits.Pow2(i), 0, 0);
  }

  lemma {:induction false} Wide(i: nat)
    requires i > 2
    ensures Bits.Pow2(i) >= 8
  {
    if i > 3 {
      Wide(i - 1);
    } else {
      assert Bits.Pow2(2) == 4;
    }
  }

  // ---------- the code ----------

  /** The memo holds only values the nodes have. */
  ghost predicate MemoSound(nodes: seq<Node>, args: seq<i64>, memo: seq<Option<i64>>)
    requires Ordered(nodes, |args|)
  {
    |memo| == |nodes| && forall i :: 0 <= i < |memo| && memo[i].Some? ==> NodeValue(nodes, args, i) == memo[i]
  }

  /** `eval_node`: memoised evaluation equals evaluation afresh. */
  method EvalNode(nodes: seq<Node>, args: seq<i64>, id: nat, memo: array<Option<i64>>) returns (r: Option<i64>)
    requires Ordered(nodes, |args|) && id < |nodes| && MemoSound(nodes, args, memo[..])
    modifies memo
    ensures MemoSound(nodes, args, memo[..]) && r == NodeValue(nodes, args, id)
    ensures r.Some? ==> memo[id] == r
    decreases id
  {
    if memo[id].Some? {
      return memo[id];
    }
    assert NodeOrdered(nodes[id], id, |args|);
    match nodes[id] {
      case Const(n) => r := Some(n);
      case Param(p) => r := Some(args[p]);
      case NegNode(a) =>
        var v := EvalNode(nodes, args, a, memo);
        if v.None? {
          return None;
        }
        r := Some(Negate(v.value));
      case BinNode(op, a, b) =>
        var x := EvalNode(nodes, args, a, memo);
        if x.None? {
          return None;
        }
        var y := EvalNode(nodes, args, b, memo);
        if y.None? {
          return None;
        }
        r := Apply(op, x.value, y.value);
        if r.None? {
          return None;
        }
    }
    memo[id] := r;
  }

  /** `Dcg::eval`. */
  method Eval(g: Graph, args: seq<i64>) returns (r: Option<i64>)
    requires Ordered(g.nodes, g.params) && g.root < |g.nodes|
    ensures r == EvalGraph(g, args)
  {
    if |args| != g.params {
      return None;
    }
    var memo := new Option<i64>[|g.nodes|](_ => None);
    r := EvalNode(g.nodes, args, g.root, memo);
  }

  class Builder {
    var nodes: seq<Node>
    var env: Env

    constructor ()
      ensures nodes == [] && env == map[]
    {
      nodes, env := [], map[];
    }

    method Push(n: Node) returns (id: nat)
      modifies this`nodes
      ensures nodes == old(nodes) + [n] && id == |old(nodes)|
    {
      nodes := nodes + [n];
      id := |nodes| - 1;
    }

    /** What `LowerExpr` promises of its result. */
    ghost predicate Done(was: seq<Node>, e: Expr, r: Result<nat, Error>)
      reads this
    {
      Lower(was, env, e) == if r.Ok? then Ok(Lowered(nodes, r.value)) else Err(r.error)
    }

    method LowerExpr(e: Expr) returns (r: Result<nat, Error>)
      modifies this`nodes
      ensures Done(old(nodes), e, r)
      decreases e
    {
      match e
      case Int(n) =>
        var id := Push(Const(n));
        r := Ok(id);
      case Bool(b) =>
        var id := Push(Const(Flag(b)));
        r := Ok(id);
      case Ident(x) => r := if x in env then Ok(env[x]) else Err(UnknownName(x));
      case Neg(inner) =>
        var a := LowerExpr(inner);
        if a.Err? {
          return a;
        }
        var id := Push(NegNode(a.value));
        r := Ok(id);
      case Binary(op, l, right) =>
        var a := LowerExpr(l);
        if a.Err? {
          return a;
        }
        var b := LowerExpr(right);
        if b.Err? {
          return b;
        }
        var id := Push(BinNode(op, a.value, b.value));
        r := Ok(id);
      case Foreign => r := Err(Unsupported);
    }
  }

  method BindParams(f: FnDef, b: Builder)
    requires b.nodes == [] && b.env == map[]
    modifies b
    ensures Compiled(b.nodes, b.env, None) == ParamNodes(f.params)
  {
    for i := 0 to |f.params|
      invariant Compiled(b.nodes, b.env, None) == ParamNodes(f.params[..i])
    {
      assert f.params[..i + 1][..i] == f.params[..i];
      var id := b.Push(Param(i));
      b.env := b.env[f.params[i] := id];
    }
    assert f.params[..|f.params|] == f.params;
  }

  /** `Dcg::compile`. */
  method CompileFn(f: FnDef, granted: Rights) returns (r: Result<Graph, Error>)
    ensures r == Compile(f, granted)
  {
    var required := Required(f.name);
    if !Contains(granted, required) {
      return Err(Unauthorized);
    }
    var b := new Builder();
    BindParams(f, b);
    var root: Option<nat> := None;
    var i := 0;
    while i < |f.body|
      invariant i <= |f.body|
      decreases |f.body| - i
      invariant LowerBody(f.body, ParamNodes(f.params)) == LowerBody(f.body[i..], Compiled(b.nodes, b.env, root))
    {
      var stmt := f.body[i];
      assert f.body[i..][0] == stmt && f.body[i..][1..] == f.body[i + 1..];
      if stmt.Control? {
        return Err(Unsupported);
      }
      var id := b.LowerExpr(stmt.e);
      if id.Err? {
        return Err(id.error);
      }
      match stmt {
        case Let(x, _) => b.env := b.env[x := id.value];
        case Linear(x, _) => b.env := b.env[x := id.value];
        case Bare(_) => root := Some(id.value);
        case Return(_) => return Ok(Graph(b.nodes, id.value, |f.params|, required));
      }
      i := i + 1;
    }
    if root.None? {
      return Err(Unsupported);
    }
    r := Ok(Graph(b.nodes, root.value, |f.params|, required));
  }
}
