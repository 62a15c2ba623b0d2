/** The tree-walking interpreter (`lang/interp.rs`) on the functions `Dcg::compile` accepts, called
    where no affine binding is in scope: integers and booleans are different values, `&&` and `||`
    stop early, and an affine name can be read once. When the graph yields what it does. */
module DcgInterp {
  import opened Bytes
  import opened Capability
  import opened Dcg
  import Bits

  datatype Value = IntV(n: i64) | BoolV(b: bool) | UnitV

  /** A value as the graph stores it. */
  function Code(v: Value): i64 {
    match v
    case IntV(n) => n
    case BoolV(b) => Flag(b)
    case UnitV => 0
  }

  predicate Truthy(v: Value) {
    match v
    case IntV(n) => n != 0
    case BoolV(b) => b
    case UnitV => false
  }

  predicate Ints(l: Value, r: Value) { l.IntV? && r.IntV? }

  predicate Arithmetic(op: BinOp) { op == Add || op == Sub || op == Mul || op == Div || op == Rem }

  predicate Ordering(op: BinOp) { op == Lt || op == Gt || op == Le || op == Ge }

  /** The interpreter's own 64-bit arithmetic: the representative of x between -2^63 and 2^63. */
  function Wrapping(x: int): i64 {
    var r := x % 0x1_0000_0000_0000_0000;
    if r < 0x8000_0000_0000_0000 then r else r - 0x1_0000_0000_0000_0000
  }

  /** The quotient of the magnitudes, with the sign of the quotient. */
  function Truncated(x: int, y: int): int
    requires y != 0
  {
    var q := Abs(x) / Abs(y);
    if (x < 0) == (y < 0) then q else 0 - q
  }

  /** `wrapping_add` to `wrapping_rem`, with the test for a zero divisor. */
  function Computed(op: BinOp, x: i64, y: i64): Option<i64>
    requires Arithmetic(op)
  {
    match op
    case Add => Some(Wrapping(x as int + y as int))
    case Sub => Some(Wrapping(x as int - y as int))
    case Mul => Some(Wrapping(x as int * y as int))
    case Div => if y == 0 then None else Some(Wrapping(Truncated(x, y)))
    case Rem => if y == 0 then None else Some(Wrapping(x as int - y as int * Truncated(x, y)))
  }

  lemma WrappingIsWrap(x: int)
    ensures Wrapping(x) == Wrap(x)
  {
  }

  lemma TruncatedIsQuot(x: int, y: int)
    requires y != 0
    ensures Truncated(x, y) == Quot(x, y)
  {
  }

  /** The interpreter and the graph compute the same integers. */
  lemma SameArithmetic(op: BinOp, x: i64, y: i64)
    requires Arithmetic(op)
    ensures Computed(op, x, y) == Apply(op, x, y)
  {
    WrappingIsWrap(x as int + y as int);
    WrappingIsWrap(x as int - y as int);
    WrappingIsWrap(x as int * y as int);
    if y != 0 {
      TruncatedIsQuot(x, y);
      WrappingIsWrap(Quot(x, y));
      WrappingIsWrap(x as int - y as int * Quot(x, y));
    }
  }

  function Negated(x: i64): i64 { Wrapping(0 - x as int) }

  lemma SameNegation(x: i64)
    ensures Negated(x) == Negate(x)
  {
    WrappingIsWrap(0 - x as int);
  }

  /** `binary`, on integers and booleans. */
  function Operated(op: BinOp, l: Value, r: Value): Option<Value> {
    match op
    case Eq => Some(BoolV(l == r))
    case Ne => Some(BoolV(l != r))
    case AndOp => Some(BoolV(Truthy(l) && Truthy(r)))
    case OrOp => Some(BoolV(Truthy(l) || Truthy(r)))
    case Lt => if Ints(l, r) then Some(BoolV(l.n < r.n)) else None
    case Gt => if Ints(l, r) then Some(BoolV(l.n > r.n)) else None
    case Le => if Ints(l, r) then Some(BoolV(l.n <= r.n)) else None
    case Ge => if Ints(l, r) then Some(BoolV(l.n >= r.n)) else None
    case _ =>
      if !Ints(l, r) then None else
        var v := Computed(op, l.n, r.n);
        if v.None? then None else Some(IntV(v.value))
  }

  /** What the interpreter does on its way, in order. */
  datatype Act =
    | Operate(op: BinOp, l: Value, r: Value)
    | Invert(v: Value)
    | Read(name: string, found: Option<Value>)
    | Rebind(name: string, affine: bool)
    | Leave

  /** It fails here: a boolean where an integer must be, a zero divisor, a name that is gone or was
      never bound, a construct outside the subset. */
  predicate Refused(a: Act) {
    match a
    case Operate(op, l, r) =>
      (Arithmetic(op) || Ordering(op)) && (!Ints(l, r) || ((op == Div || op == Rem) && r.n == 0))
    case Invert(v) => !v.IntV?
    case Read(_, found) => found.None?
    case Rebind(_, _) => false
    case Leave => true
  }

  /** It goes on here with another value than the graph: an integer and a boolean that the graph
      stores alike are compared, or a `let` stays hidden behind an affine name. */
  predicate Confusing(a: Act) {
    match a
    case Operate(op, l, r) => (op == Eq || op == Ne) && l != r && Code(l) == Code(r)
    case Rebind(_, affine) => affine
    case _ => false
  }

  ghost predicate Faulted(acts: seq<Act>) { exists a :: a in acts && Refused(a) }

  ghost predicate Confused(acts: seq<Act>) { exists a :: a in acts && Confusing(a) }

  /** The bindings of a call: ordinary ones, and affine ones, which shadow them and may be spent. */
  datatype Scope = Scope(lets: map<string, Value>, affine: map<string, Option<Value>>)

  datatype Outcome = Outcome(value: Option<Value>, scope: Scope, acts: seq<Act>)

  /** `resolve`: reading an affine name spends it. */
  function Resolve(x: string, s: Scope): Outcome {
    if x in s.affine then Outcome(s.affine[x], s.(affine := s.affine[x := None]), [Read(x, s.affine[x])])
    else if x in s.lets then Outcome(Some(s.lets[x]), s, [Read(x, Some(s.lets[x]))])
    else Outcome(None, s, [Read(x, None)])
  }

  /** `eval`. */
  function Interp(e: Expr, s: Scope): Outcome {
    match e
    case Int(n) => Outcome(Some(IntV(n)), s, [])
    case Bool(b) => Outcome(Some(BoolV(b)), s, [])
    case Ident(x) => Resolve(x, s)
    case Neg(inner) =>
      var o := Interp(inner, s);
      if o.value.None? then o else
        Outcome(if o.value.value.IntV? then Some(IntV(Negated(o.value.value.n))) else None, o.scope, o.acts + [Invert(o.value.value)])
    case Binary(op, l, r) =>
      var o := Interp(l, s);
      if o.value.None? then o
      else if op == AndOp && !Truthy(o.value.value) then o.(value := Some(BoolV(false)))
      else if op == OrOp && Truthy(o.value.value) then o.(value := Some(BoolV(true)))
      else Second(op, o.value.value, o.acts, Interp(r, o.scope))
    case Foreign => Outcome(None, s, [Leave])
  }

  /** The right operand has been evaluated too. */
  function Second(op: BinOp, l: Value, acts: seq<Act>, o: Outcome): Outcome {
    if o.value.None? then o.(acts := acts + o.acts)
    else Outcome(Operated(op, l, o.value.value), o.scope, acts + o.acts + [Operate(op, l, o.value.value)])
  }

  /** `exec_block` on a function body: the value of `return`, else of the last statement. */
  function InterpBody(body: seq<Stmt>, s: Scope, last: Value): Outcome {
    if body == [] then Outcome(Some(last), s, []) else
      match body[0]
      case Let(x, e) =>
        var o := Interp(e, s);
        if o.value.None? then o else
          var s1 := o.scope.(lets := o.scope.lets[x := o.value.value]);
          After(o.acts + [Rebind(x, x in o.scope.affine)], InterpBody(body[1..], s1, UnitV))
      case Linear(x, e) =>
        var o := Interp(e, s);
        if o.value.None? then o else
          var s1 := o.scope.(affine := o.scope.affine[x := o.value]);
          After(o.acts, InterpBody(body[1..], s1, UnitV))
      case Return(e) => Interp(e, s)
      case Bare(e) =>
        var o := Interp(e, s);
        if o.value.None? then o else After(o.acts, InterpBody(body[1..], o.scope, o.value.value))
      case Control => Outcome(None, s, [Leave])
  }

  function After(acts: seq<Act>, o: Outcome): Outcome { o.(acts := acts + o.acts) }

  function BindValues(params: seq<string>, args: seq<i64>): map<string, Value>
    requires |params| == |args|
  {
    if params == [] then map[] else
      var n := |params| - 1;
      BindValues(params[..n], args[..n])[params[n] := IntV(args[n])]
  }

  /** `call_function` with integer arguments. */
  function Interpret(f: FnDef, args: seq<i64>): Outcome
    requires |args| == |f.params|
  {
    InterpBody(f.body, Scope(BindValues(f.params, args), map[]), UnitV)
  }

  /** Both fail, or both yield the same, a boolean standing for its code. */
  predicate Same(d: Option<i64>, v: Option<Value>) {
    if d.None? then v.None? else v.Some? && !v.value.UnitV? && Code(v.value) == d.value
  }

  // ---------- failures ----------

  lemma FaultedBoth(a: seq<Act>, b: seq<Act>)
    ensures Faulted(a + b) <==> Faulted(a) || Faulted(b)
    ensures Confused(a + b) <==> Confused(a) || Confused(b)
  {
    assert forall x :: x in a + b <==> x in a || x in b;
    if Faulted(a) {
      var x :| x in a && Refused(x);
      assert x in a + b;
    }
    if Faulted(b) {
      var x :| x in b && Refused(x);
      assert x in a + b;
    }
    if Confused(a) {
      var x :| x in a && Confusing(x);
      assert x in a + b;
    }
    if Confused(b) {
      var x :| x in b && Confusing(x);
      assert x in a + b;
    }
  }

  lemma OneAct(a: Act)
    ensures Faulted([a]) <==> Refused(a)
    ensures Confused([a]) <==> Confusing(a)
  {
    assert a in [a];
  }

  lemma OperatedFails(op: BinOp, l: Value, r: Value)
    ensures Operated(op, l, r).None? <==> Refused(Operate(op, l, r))
  {
  }

  /** The interpreter fails exactly when something it reached is refused. */
  lemma {:induction false} FaultIsFailure(e: Expr, s: Scope)
    ensures Interp(e, s).value.None? <==> Faulted(Interp(e, s).acts)
    decreases e
  {
    match e
    case Ident(x) => OneAct(Resolve(x, s).acts[0]);
    case Neg(inner) =>
      FaultIsFailure(inner, s);
      var o := Interp(inner, s);
      if o.value.Some? {
        FaultedBoth(o.acts, [Invert(o.value.value)]);
        OneAct(Invert(o.value.value));
      }
    case Binary(op, l, r) =>
      FaultIsFailure(l, s);
      var o := Interp(l, s);
      if o.value.Some? {
        FaultIsFailure(r, o.scope);
        SecondFault(op, o.value.value, o.acts, Interp(r, o.scope));
      }
    case Foreign => OneAct(Leave);
    case _ =>
  }

  lemma SecondFault(op: BinOp, l: Value, acts: seq<Act>, o: Outcome)
    requires !Faulted(acts) && (o.value.None? <==> Faulted(o.acts))
    ensures Second(op, l, acts, o).value.None? <==> Faulted(Second(op, l, acts, o).acts)
  {
    FaultedBoth(acts, o.acts);
    if o.value.Some? {
      var a := Operate(op, l, o.value.value);
      FaultedBoth(acts + o.acts, [a]);
      OneAct(a);
      OperatedFails(op, l, o.value.value);
    }
  }

  lemma {:induction false} BodyFault(body: seq<Stmt>, s: Scope, last: Value)
    ensures InterpBody(body, s, last).value.None? <==> Faulted(InterpBody(body, s, last).acts)
    decreases |body|
  {
    if body != [] && body[0] == Control {
      OneAct(Leave);
    } else if body != [] {
      var e := body[0].e;
      FaultIsFailure(e, s);
      var o := Interp(e, s);
      if o.value.Some? {
        match body[0]
        case Let(x, _) =>
          var s1 := o.scope.(lets := o.scope.lets[x := o.value.value]);
          var a := Rebind(x, x in o.scope.affine);
          BodyFault(body[1..], s1, UnitV);
          FaultedBoth(o.acts, [a]);
          OneAct(a);
          FaultedBoth(o.acts + [a], InterpBody(body[1..], s1, UnitV).acts);
        case Linear(x, _) =>
          var s1 := o.scope.(affine := o.scope.affine[x := o.value]);
          BodyFault(body[1..], s1, UnitV);
          FaultedBoth(o.acts, InterpBody(body[1..], s1, UnitV).acts);
        case Bare(_) =>
          BodyFault(body[1..], o.scope, o.value.value);
          FaultedBoth(o.acts, InterpBody(body[1..], o.scope, o.value.value).acts);
        case Return(_) =>
      }
    }
  }

  // ---------- the graph beside the interpreter ----------

  /** If the graph has a value here, it is the code of this one. */
  predicate Means(d: Option<i64>, v: Value) {
    d.Some? ==> !v.UnitV? && Code(v) == d.value
  }

  ghost predicate Linked(s: Scope, vals: map<string, Option<i64>>) {
    forall x :: x in vals ==>
      && (x in s.affine && s.affine[x].Some? ==> Means(vals[x], s.affine[x].value))
      && (x !in s.affine && x in s.lets ==> Means(vals[x], s.lets[x]))
  }

  /** On codes the operations are the graph's, mixed equality aside. */
  lemma OperatedMeans(op: BinOp, l: Value, r: Value)
    requires !l.UnitV? && !r.UnitV? && Operated(op, l, r).Some? && !Confusing(Operate(op, l, r))
    ensures Means(Apply(op, Code(l), Code(r)), Operated(op, l, r).value)
  {
    if Arithmetic(op) {
      ArithmeticOperated(op, l, r);
    }
  }

  /** On integers, arithmetic is the graph's. */
  lemma ArithmeticOperated(op: BinOp, l: Value, r: Value)
    requires Arithmetic(op)
    ensures Operated(op, l, r).Some? <==> Ints(l, r) && Apply(op, l.n, r.n).Some?
    ensures Operated(op, l, r).Some? ==> Operated(op, l, r).value == IntV(Apply(op, l.n, r.n).value)
  {
    if Ints(l, r) {
      SameArithmetic(op, l.n, r.n);
    }
  }

  /** Where both have a value they agree, unless the interpreter was confused. */
  lemma {:induction false} Simulates(e: Expr, s: Scope, vals: map<string, Option<i64>>)
    requires Linked(s, vals)
    ensures Linked(Interp(e, s).scope, vals)
    ensures Interp(e, s).value.Some? && !Confused(Interp(e, s).acts) ==> Means(Demand(e, vals), Interp(e, s).value.value)
    decreases e
  {
    match e
    case Neg(inner) =>
      Simulates(inner, s, vals);
      var o := Interp(inner, s);
      if o.value.Some? && o.value.value.IntV? {
        SameNegation(o.value.value.n);
      }
      if o.value.Some? {
        FaultedBoth(o.acts, [Invert(o.value.value)]);
      }
    case Binary(op, l, r) =>
      Simulates(l, s, vals);
      var o := Interp(l, s);
      if o.value.Some? {
        Simulates(r, o.scope, vals);
        SecondMeans(op, o.value.value, o.acts, Interp(r, o.scope), Demand(l, vals), Demand(r, vals));
      }
    case _ =>
  }

  lemma SecondMeans(op: BinOp, l: Value, acts: seq<Act>, o: Outcome, x: Option<i64>, y: Option<i64>)
    requires !Confused(acts) ==> Means(x, l)
    requires o.value.Some? && !Confused(o.acts) ==> Means(y, o.value.value)
    ensures Confused(Second(op, l, acts, o).acts) || Second(op, l, acts, o).value.None? || x.None? || y.None?
         || Means(Apply(op, x.value, y.value), Second(op, l, acts, o).value.value)
    ensures Confused(acts) ==> Confused(Second(op, l, acts, o).acts)
  {
    FaultedBoth(acts, o.acts);
    if o.value.Some? {
      var a := Operate(op, l, o.value.value);
      FaultedBoth(acts + o.acts, [a]);
      OneAct(a);
      if !Confused(Second(op, l, acts, o).acts) && Operated(op, l, o.value.value).Some? && x.Some? && y.Some? {
        OperatedMeans(op, l, o.value.value);
      }
    }
  }

  /** The statement that gives the function its value is the last one reached. */
  predicate EndsInValue(body: seq<Stmt>) {
    body != [] && (body[0].Return? || if |body| == 1 then body[0].Bare? else EndsInValue(body[1..]))
  }

  lemma LetConfused(acts: seq<Act>, x: string, s: Scope, o: Outcome)
    requires !Confused(After(acts + [Rebind(x, x in s.affine)], o).acts)
    ensures !Confused(acts) && !Confused(o.acts) && x !in s.affine
  {
    var a := Rebind(x, x in s.affine);
    FaultedBoth(acts, [a]);
    OneAct(a);
    FaultedBoth(acts + [a], o.acts);
  }

  lemma LetLinked(s: Scope, vals: map<string, Option<i64>>, x: string, v: Value, d: Option<i64>)
    requires Linked(s, vals) && x !in s.affine && Means(d, v)
    ensures Linked(s.(lets := s.lets[x := v]), vals[x := d])
  {
  }

  lemma {:induction false} BodySimulates(
      body: seq<Stmt>, s: Scope, vals: map<string, Option<i64>>, lastV: Value, last: Option<i64>)
    requires Linked(s, vals) && EndsInValue(body)
    ensures var o := InterpBody(body, s, lastV);
            o.value.Some? && !Confused(o.acts) ==> Means(DemandBody(body, vals, last), o.value.value)
    decreases |body|
  {
    if body[0] != Control {
      var e := body[0].e;
      Simulates(e, s, vals);
      var o, d := Interp(e, s), Demand(e, vals);
      if o.value.Some? && !Confused(InterpBody(body, s, lastV).acts) {
        match body[0]
        case Let(x, _) =>
          var s1 := o.scope.(lets := o.scope.lets[x := o.value.value]);
          LetConfused(o.acts, x, o.scope, InterpBody(body[1..], s1, UnitV));
          LetLinked(o.scope, vals, x, o.value.value, d);
          BodySimulates(body[1..], s1, vals[x := d], UnitV, last);
        case Linear(x, _) =>
          var s1 := o.scope.(affine := o.scope.affine[x := o.value]);
          FaultedBoth(o.acts, InterpBody(body[1..], s1, UnitV).acts);
          BodySimulates(body[1..], s1, vals[x := d], UnitV, last);
        case Bare(_) =>
          FaultedBoth(o.acts, InterpBody(body[1..], o.scope, o.value.value).acts);
          if |body| > 1 {
            BodySimulates(body[1..], o.scope, vals, o.value.value, d);
          } else {
            assert body[1..] == [];
            assert DemandBody(body[1..], vals, d) == d;
          }
        case Return(_) =>
      }
    }
  }

  /** A function that ends in a binding yields the unit value. */
  lemma {:induction false} EndsInUnit(body: seq<Stmt>, s: Scope, last: Value)
    requires body != [] && !EndsInValue(body) && InterpBody(body, s, last).value.Some?
    ensures InterpBody(body, s, last).value.value == UnitV
    decreases |body|
  {
    var o := Interp(body[0].e, s);
    if |body| > 1 {
      match body[0]
      case Let(x, _) => EndsInUnit(body[1..], o.scope.(lets := o.scope.lets[x := o.value.value]), UnitV);
      case Linear(x, _) => EndsInUnit(body[1..], o.scope.(affine := o.scope.affine[x := o.value]), UnitV);
      case Bare(_) => EndsInUnit(body[1..], o.scope, o.value.value);
    }
  }

  lemma {:induction false} ParamsLinked(params: seq<string>, args: seq<i64>)
    requires |params| == |args|
    ensures BindValues(params, args).Keys == Bind(params, args).Keys
    ensures forall x :: x in Bind(params, args) ==> BindValues(params, args)[x] == IntV(Bind(params, args)[x])
  {
    if params != [] {
      ParamsLinked(params[..|params| - 1], args[..|params| - 1]);
    }
  }

  /** The graph fails exactly when a division it needs has a zero divisor. */
  lemma GraphFailsExactly(f: FnDef, granted: Rights, args: seq<i64>)
    requires Compile(f, granted).Ok? && |args| == |f.params|
    ensures var g := Compile(f, granted).value;
            && Ordered(g.nodes, g.params) && g.root < |g.nodes| && g.params == |args|
            && (EvalGraph(g, args).None? <==> ZeroNeeded(g, args))
  {
    CompiledOrdered(f, granted);
    var g := Compile(f, granted).value;
    if ZeroNeeded(g, args) {
      var id :| 0 <= id < |g.nodes| && InCone(g.nodes, g.params, id, g.root) && ZeroDivisorAt(g.nodes, args, id);
      ZeroFails(g.nodes, args, id, g.root);
    } else if NodeValue(g.nodes, args, g.root) == None {
      var id := FailureIsZero(g.nodes, args, g.root);
    }
  }

  /** When the graph yields what the interpreter does. If either fails, or the function ends in a
      binding: exactly when the interpreter reaches something it refuses and the graph needs a zero
      divisor. Otherwise always, unless the interpreter is confused on the way. */
  lemma InterpretsExactly(f: FnDef, granted: Rights, args: seq<i64>)
    requires Compile(f, granted).Ok? && |args| == |f.params|
    ensures var g, o := Compile(f, granted).value, Interpret(f, args);
            && Ordered(g.nodes, g.params) && g.root < |g.nodes| && g.params == |args|
            && (Faulted(o.acts) || ZeroNeeded(g, args) || !EndsInValue(f.body) ==>
                  (Same(EvalGraph(g, args), o.value) <==> Faulted(o.acts) && ZeroNeeded(g, args)))
            && (!Faulted(o.acts) && !ZeroNeeded(g, args) && EndsInValue(f.body) && !Confused(o.acts) ==>
                  Same(EvalGraph(g, args), o.value))
  {
    GraphFailsExactly(f, granted, args);
    CompiledMeans(f, granted, args);
    var s, vals := Scope(BindValues(f.params, args), map[]), Lift(Bind(f.params, args));
    BodyFault(f.body, s, UnitV);
    assert f.body != [];
    if EndsInValue(f.body) {
      ParamsLinked(f.params, args);
      BodySimulates(f.body, s, vals, UnitV, None);
    } else if Interpret(f, args).value.Some? {
      EndsInUnit(f.body, s, UnitV);
    }
  }

  // ---------- functions that are plain ----------

  datatype Type = IntT | BoolT

  predicate HasType(v: Value, t: Type) { if t.IntT? then v.IntV? else v.BoolV? }

  /** The type of an expression in which no boolean is used as an integer or compared with one. */
  function TypeOf(e: Expr, types: map<string, Type>): Option<Type> {
    match e
    case Int(_) => Some(IntT)
    case Bool(_) => Some(BoolT)
    case Ident(x) => if x in types then Some(types[x]) else None
    case Neg(a) => if TypeOf(a, types) == Some(IntT) then Some(IntT) else None
    case Binary(op, l, r) =>
      var a, b := TypeOf(l, types), TypeOf(r, types);
      if a.None? || b.None? then None
      else if op == AndOp || op == OrOp then Some(BoolT)
      else if op == Eq || op == Ne then if a == b then Some(BoolT) else None
      else if a.value.BoolT? || b.value.BoolT? then None
      else Some(if Ordering(op) then BoolT else IntT)
    case Foreign => None
  }

  predicate DivisionFree(e: Expr) {
    match e
    case Neg(a) => DivisionFree(a)
    case Binary(op, l, r) => op != Div && op != Rem && DivisionFree(l) && DivisionFree(r)
    case _ => true
  }

  /** No division stands to the right of an `&&` or `||`. */
  predicate Unguarded(e: Expr) {
    match e
    case Neg(a) => Unguarded(a)
    case Binary(op, l, r) => Unguarded(l) && Unguarded(r) && (op == AndOp || op == OrOp ==> DivisionFree(r))
    case _ => true
  }

  predicate PlainExpr(e: Expr, types: map<string, Type>) { TypeOf(e, types).Some? && Unguarded(e) }

  /** Well typed, without affine names or guarded divisions. */
  predicate PlainBody(body: seq<Stmt>, types: map<string, Type>) {
    body == [] || match body[0]
      case Let(x, e) => PlainExpr(e, types) && PlainBody(body[1..], types[x := TypeOf(e, types).value])
      case Return(e) => PlainExpr(e, types)
      case Bare(e) => PlainExpr(e, types) && PlainBody(body[1..], types)
      case _ => false
  }

  /** What can be read off a function before any call. */
  predicate Plain(f: FnDef) {
    EndsInValue(f.body) && PlainBody(f.body, map x | x in f.params :: IntT)
  }

  ghost predicate Fits(s: Scope, env: Values, types: map<string, Type>) {
    s.affine == map[] && forall x :: x in types ==>
      x in s.lets && x in env && HasType(s.lets[x], types[x]) && env[x] == Code(s.lets[x])
  }

  lemma {:induction false} DivisionFreeSucceeds(e: Expr, s: Scope, env: Values, types: map<string, Type>)
    requires Fits(s, env, types) && TypeOf(e, types).Some? && DivisionFree(e)
    ensures EvalExpr(e, env).Some?
    decreases e
  {
    match e
    case Neg(a) => DivisionFreeSucceeds(a, s, env, types);
    case Binary(op, l, r) =>
      DivisionFreeSucceeds(l, s, env, types);
      DivisionFreeSucceeds(r, s, env, types);
    case _ =>
  }

  /** The same outcome, and a value of this type. */
  predicate Typed(d: Option<i64>, v: Option<Value>, t: Type) {
    Same(d, v) && (v.Some? ==> HasType(v.value, t))
  }

  lemma OperatedTyped(op: BinOp, l: Value, r: Value, a: Type, b: Type)
    requires HasType(l, a) && HasType(r, b)
    requires op == Eq || op == Ne ==> a == b
    requires Arithmetic(op) || Ordering(op) ==> a == b == IntT
    ensures Typed(Apply(op, Code(l), Code(r)), Operated(op, l, r), if Arithmetic(op) then IntT else BoolT)
  {
    if Arithmetic(op) {
      ArithmeticOperated(op, l, r);
    }
  }

  /** The value of a binary expression from those of its operands. */
  function BothValue(op: BinOp, x: Option<Value>, y: Option<Value>): Option<Value> {
    if x.None? then None
    else if op == AndOp && !Truthy(x.value) then Some(BoolV(false))
    else if op == OrOp && Truthy(x.value) then Some(BoolV(true))
    else if y.None? then None else Operated(op, x.value, y.value)
  }

  lemma BinaryValue(op: BinOp, l: Expr, r: Expr, s: Scope)
    requires Interp(l, s).scope == s && Interp(r, s).scope == s
    ensures Interp(Binary(op, l, r), s).value == BothValue(op, Interp(l, s).value, Interp(r, s).value)
    ensures Interp(Binary(op, l, r), s).scope == s
  {
  }

  lemma BothTyped(op: BinOp, c: Option<i64>, d: Option<i64>, x: Option<Value>, y: Option<Value>, a: Type, b: Type)
    requires Typed(c, x, a) && Typed(d, y, b) && (op == AndOp || op == OrOp ==> d.Some?)
    requires op == Eq || op == Ne ==> a == b
    requires Arithmetic(op) || Ordering(op) ==> a == b == IntT
    ensures Typed(if c.None? || d.None? then None else Apply(op, c.value, d.value), BothValue(op, x, y),
                  if Arithmetic(op) then IntT else BoolT)
  {
    if x.Some? && y.Some? {
      OperatedTyped(op, x.value, y.value, a, b);
    }
  }

  /** On plain expressions the interpreter is strict evaluation. */
  lemma {:induction false} PlainInterps(e: Expr, s: Scope, env: Values, types: map<string, Type>)
    requires Fits(s, env, types) && PlainExpr(e, types)
    ensures Interp(e, s).scope == s && Typed(EvalExpr(e, env), Interp(e, s).value, TypeOf(e, types).value)
    decreases e
  {
    match e
    case Neg(a) =>
      PlainInterps(a, s, env, types);
      if Interp(a, s).value.Some? {
        SameNegation(Interp(a, s).value.value.n);
      }
    case Binary(op, l, r) =>
      PlainInterps(l, s, env, types);
      PlainInterps(r, s, env, types);
      if op == AndOp || op == OrOp {
        DivisionFreeSucceeds(r, s, env, types);
      }
      BinaryValue(op, l, r, s);
      BothTyped(op, EvalExpr(l, env), EvalExpr(r, env), Interp(l, s).value, Interp(r, s).value,
                TypeOf(l, types).value, TypeOf(r, types).value);
    case _ =>
  }

  lemma {:induction false} PlainBodyInterps(
      body: seq<Stmt>, s: Scope, env: Values, types: map<string, Type>, lastV: Value, last: Option<i64>)
    requires Fits(s, env, types) && PlainBody(body, types) && EndsInValue(body)
    ensures Same(EvalBody(body, env, last), InterpBody(body, s, lastV).value)
    decreases |body|
  {
    var e := body[0].e;
    PlainInterps(e, s, env, types);
    var o := Interp(e, s);
    if o.value.Some? {
      match body[0]
      case Let(x, _) =>
        PlainBodyInterps(body[1..], s.(lets := s.lets[x := o.value.value]), env[x := EvalExpr(e, env).value],
                         types[x := TypeOf(e, types).value], UnitV, last);
      case Bare(_) =>
        if |body| > 1 {
          PlainBodyInterps(body[1..], s, env, types, o.value.value, EvalExpr(e, env));
        } else {
          assert body[1..] == [] && EvalBody([], env, EvalExpr(e, env)) == EvalExpr(e, env);
          assert InterpBody([], s, o.value.value).value == o.value;
        }
      case Return(_) =>
    }
  }

  /** For a plain function, and all arguments: strict evaluation is the interpreter, so the graph
      yields what the interpreter does exactly unless a division the root does not need has a zero
      divisor and none that it needs has. */
  lemma PlainAgreesExactly(f: FnDef, granted: Rights, args: seq<i64>)
    requires Plain(f) && Compile(f, granted).Ok? && |args| == |f.params|
    ensures Same(EvalFn(f, args), Interpret(f, args).value)
    ensures var g := Compile(f, granted).value;
            && Ordered(g.nodes, g.params) && g.root < |g.nodes| && g.params == |args|
            && (Same(EvalGraph(g, args), Interpret(f, args).value) <==> !ZeroUnneeded(g, args) || ZeroNeeded(g, args))
  {
    ParamsLinked(f.params, args);
    BoundParams(f.params, args);
    PlainBodyInterps(f.body, Scope(BindValues(f.params, args), map[]), Bind(f.params, args),
                     map x | x in f.params :: IntT, UnitV, None);
    DifferExactly(f, granted, args);
  }

  lemma {:induction false} BoundParams(params: seq<string>, args: seq<i64>)
    requires |params| == |args|
    ensures forall x :: x in params ==> x in Bind(params, args)
  {
    if params != [] {
      BoundParams(params[..|params| - 1], args[..|params| - 1]);
    }
  }

  // ---------- where they part ----------

  /** What the two make of a function without parameters. */
  ghost predicate Yields(f: FnDef, graph: Option<i64>, interp: Option<Value>) {
    && f.params == [] && Compile(f, NONE).Ok? && Interpret(f, []).value == interp
    && var g := Compile(f, NONE).value;
       Ordered(g.nodes, g.params) && g.root < |g.nodes| && EvalGraph(g, []) == graph
  }

  lemma WhatYields(f: FnDef)
    requires f.params == [] && f.name == "f" && LowerBody(f.body, Compiled([], map[], None)).Ok?
    requires LowerBody(f.body, Compiled([], map[], None)).value.root.Some?
    ensures Yields(f, DemandBody(f.body, map[], None), InterpBody(f.body, Scope(map[], map[]), UnitV).value)
  {
    Bits.ZeroAnd(NONE);
    assert Compile(f, NONE).Ok?;
    CompiledMeans(f, NONE, []);
    assert Lift(Bind([], [])) == map[];
  }

  /** Without names, an expression of the subset always compiles. */
  predicate Closed(e: Expr) {
    match e
    case Neg(a) => Closed(a)
    case Binary(_, l, r) => Closed(l) && Closed(r)
    case Ident(_) => false
    case Foreign => false
    case _ => true
  }

  lemma {:induction false} ClosedLowers(nodes: seq<Node>, env: Env, e: Expr)
    requires Closed(e)
    ensures Lower(nodes, env, e).Ok?
    decreases e
  {
    match e
    case Neg(a) => ClosedLowers(nodes, env, a);
    case Binary(_, l, r) =>
      ClosedLowers(nodes, env, l);
      ClosedLowers(Lower(nodes, env, l).value.nodes, env, r);
    case _ =>
  }

  function Returning(e: Expr): FnDef { FnDef("f", [], [Return(e)]) }

  /** What they make of a closed expression. */
  ghost predicate Worth(e: Expr, graph: Option<i64>, interp: Option<Value>) {
    Closed(e) && Demand(e, map[]) == graph && Interp(e, Scope(map[], map[])).value == interp
  }

  lemma ReturningYields(e: Expr, graph: Option<i64>, interp: Option<Value>)
    requires Worth(e, graph, interp)
    ensures Yields(Returning(e), graph, interp)
  {
    ClosedLowers([], map[], e);
    WhatYields(Returning(e));
  }

  /** `return 1 || 1 / 0`: the interpreter stops at the left operand, the graph fails. */
  lemma ShortCircuitParts()
    ensures Yields(Returning(Binary(OrOp, Int(1), Binary(Div, Int(1), Int(0)))), None, Some(BoolV(true)))
  {
    var e := Binary(OrOp, Int(1), Binary(Div, Int(1), Int(0)));
    assert Worth(e, None, Some(BoolV(true))) by {
      assert Demand(Binary(Div, Int(1), Int(0)), map[]) == None;
    }
    ReturningYields(e, None, Some(BoolV(true)));
  }

  /** `(1 < 2) == 1`. */
  function Mixed(): Expr { Binary(Eq, Binary(Lt, Int(1), Int(2)), Int(1)) }

  lemma LessValue(s: Scope)
    ensures Demand(Binary(Lt, Int(1), Int(2)), map[]) == Some(1)
    ensures Interp(Binary(Lt, Int(1), Int(2)), s).value == Some(BoolV(true)) && Interp(Binary(Lt, Int(1), Int(2)), s).scope == s
  {
  }

  lemma MixedValue()
    ensures Worth(Mixed(), Some(1), Some(BoolV(false))) && Confused(Interp(Mixed(), Scope(map[], map[])).acts)
  {
    var s := Scope(map[], map[]);
    LessValue(s);
    assert Operate(Eq, BoolV(true), IntV(1)) in Interp(Mixed(), s).acts;
  }

  lemma AndFalse(e: Expr, d: i64, b: bool)
    requires Worth(e, Some(d), Some(BoolV(b)))
    ensures Worth(Binary(AndOp, e, Bool(false)), Some(0), Some(BoolV(false)))
  {
  }

  lemma NegatedLess()
    ensures Worth(Neg(Binary(Lt, Int(1), Int(2))), Some(-1), None)
  {
    LessValue(Scope(map[], map[]));
  }

  /** `return (1 < 2) == 1`: a boolean is no integer to the interpreter, and 1 to the graph. */
  lemma MixedEqualityParts()
    ensures Yields(Returning(Mixed()), Some(1), Some(BoolV(false)))
  {
    MixedValue();
    ReturningYields(Mixed(), Some(1), Some(BoolV(false)));
  }

  /** `return ((1 < 2) == 1) && false`: as confused, and yet they agree. */
  lemma MixedEqualityMayAgree()
    ensures Yields(Returning(Binary(AndOp, Mixed(), Bool(false))), Some(0), Some(BoolV(false)))
    ensures Confused(Interp(Binary(AndOp, Mixed(), Bool(false)), Scope(map[], map[])).acts)
  {
    MixedValue();
    AndFalse(Mixed(), 1, false);
    ReturningYields(Binary(AndOp, Mixed(), Bool(false)), Some(0), Some(BoolV(false)));
  }

  /** `return -(1 < 2)`: the interpreter refuses, the graph yields -1. */
  lemma NegatedBooleanParts()
    ensures Yields(Returning(Neg(Binary(Lt, Int(1), Int(2)))), Some(-1), None)
  {
    NegatedLess();
    ReturningYields(Neg(Binary(Lt, Int(1), Int(2))), Some(-1), None);
  }

  /** `linear x = 1; return x + x;`: the second read finds x spent. */
  lemma AffineParts()
    ensures Yields(FnDef("f", [], [Linear("x", Int(1)), Return(Binary(Add, Ident("x"), Ident("x")))]), Some(2), None)
  {
    var e := Binary(Add, Ident("x"), Ident("x"));
    var f := FnDef("f", [], [Linear("x", Int(1)), Return(e)]);
    assert f.body[1..] == [Return(e)] && [] + [Const(1)] == [Const(1)];
    TwiceSpent(e);
    TwiceRead(e);
    assert LowerBody([Return(e)], Compiled([Const(1)], map["x" := 0], None)).Ok?;
    assert LowerBody(f.body, Compiled([], map[], None)) == LowerBody([Return(e)], Compiled([Const(1)], map["x" := 0], None));
    WhatYields(f);
    assert InterpBody([Return(e)], Scope(map[], map["x" := Some(IntV(1))]), UnitV).value == None;
    assert DemandBody([Return(e)], map["x" := Some(1)], None) == Some(2);
  }

  lemma TwiceSpent(e: Expr)
    requires e == Binary(Add, Ident("x"), Ident("x"))
    ensures Interp(e, Scope(map[], map["x" := Some(IntV(1))])).value == None
  {
    var s := Scope(map[], map["x" := Some(IntV(1))]);
    assert Interp(Ident("x"), s) == Outcome(Some(IntV(1)), Scope(map[], map["x" := None]), [Read("x", Some(IntV(1)))]);
    assert Interp(Ident("x"), Scope(map[], map["x" := None])).value == None;
  }

  lemma TwiceRead(e: Expr)
    requires e == Binary(Add, Ident("x"), Ident("x"))
    ensures Demand(e, map["x" := Some(1)]) == Some(2) && Lower([Const(1)], map["x" := 0], e).Ok?
  {
    assert Demand(Ident("x"), map["x" := Some(1)]) == Some(1);
    assert Lower([Const(1)], map["x" := 0], Ident("x")) == Ok(Lowered([Const(1)], 0));
  }

  /** `1; let x = 2;`: the interpreter yields the unit value of the binding, the graph 1. */
  lemma TrailingBindingParts()
    ensures Yields(FnDef("f", [], [Bare(Int(1)), Let("x", Int(2))]), Some(1), Some(UnitV))
  {
    var f := FnDef("f", [], [Bare(Int(1)), Let("x", Int(2))]);
    var rest := [Let("x", Int(2))];
    assert f.body[1..] == rest && rest[1..] == [] && [] + [Const(1)] == [Const(1)];
    assert LowerBody(rest, Compiled([Const(1)], map[], Some(0))).Ok?;
    assert LowerBody(f.body, Compiled([], map[], None)) == LowerBody(rest, Compiled([Const(1)], map[], Some(0)));
    WhatYields(f);
    assert InterpBody(rest, Scope(map[], map[]), IntV(1)).value == Some(UnitV);
    assert DemandBody(rest, map[], Some(1)) == Some(1);
  }
}
