/** Signed overflow in generated programs: from which operand types on an operator can overflow, and the proof that a
    program that keeps to the other types runs under the strict rules exactly as it does when arithmetic wraps. */
module FuzzOverflow {
  import opened Words
  import opened Wrappers
  import opened FuzzProgram
  import opened FuzzSoundness

  // ---------- operand types ----------

  const UINT16 := Scalar(W2, false)

  /** At most 16 bits: promoted to `int` with room to spare. */
  predicate Narrow(ty: ScalarType) {
    ty.Bit? || ty.width in {W1, W2}
  }

  /** No values of these types overflow the operator. */
  predicate ArithFree(op: ArithOp, a: ScalarType, b: ScalarType) {
    !Common(a, b).signed || match op
      case Add => Narrow(a) && Narrow(b)
      case Sub => Narrow(a) && Narrow(b)
      case Mul => a.Bit? || b.Bit? || (Narrow(a) && Narrow(b) && !(a == UINT16 == b))
      case _ => true
  }

  /** No value of this type overflows when negated or stepped. */
  predicate UnaryFree(a: ScalarType) {
    Narrow(a) || !a.signed
  }

  function Lowest(ty: ScalarType): (n: int)
    ensures InRange(ty, n) && forall m :: InRange(ty, m) ==> n <= m
  {
    if ty.Bit? || !ty.signed then 0 else -(Modulus(ty.width) / 2)
  }

  function Highest(ty: ScalarType): (n: int)
    ensures InRange(ty, n) && n >= 1 && forall m :: InRange(ty, m) ==> m <= n
  {
    if ty.Bit? then 1 else if ty.signed then Modulus(ty.width) / 2 - 1 else Modulus(ty.width) - 1
  }

  lemma ConvertKeeps(ty: ScalarType, n: int)
    requires InRange(ty, n)
    ensures Convert(ty, n) == n
  {
    match ty
    case Bit =>
    case Scalar(w, _) => match w case W1 => case W2 => case W4 => case W8 =>
  }

  /** A signed common type holds every value of both operand types. */
  lemma CommonHolds(a: ScalarType, b: ScalarType, x: int)
    requires Common(a, b).signed && (InRange(a, x) || InRange(b, x))
    ensures InRange(Common(a, b), x) && Convert(Common(a, b), x) == x
  {
    ConvertKeeps(Common(a, b), x);
  }

  lemma NarrowProduct(x: int, y: int)
    requires -32768 <= x <= 32767 && -32768 <= y <= 65535
    ensures -0x8000_0000 <= x * y < 0x8000_0000
  {
    if y >= 0 {
      Scale(-32768, x, y);
      Scale(x, 32767, y);
    } else {
      Scale(-32768, x, -y);
      Scale(x, 32767, -y);
      assert x * (-y) == -(x * y);
    }
  }

  /** Values of free operand types do not overflow. */
  lemma FreeFits(op: ArithOp, a: Value, b: Value)
    requires ArithFree(op, a.ty, b.ty) && InRange(a.ty, a.n) && InRange(b.ty, b.n)
    ensures !ArithOverflows(op, a, b)
  {
    var ty := Common(a.ty, b.ty);
    if ty.signed {
      CommonHolds(a.ty, b.ty, a.n);
      CommonHolds(a.ty, b.ty, b.n);
      if op == Mul {
        if a.ty.Bit? {
          assert a.n * b.n == if a.n == 0 then 0 else b.n;
        } else if b.ty.Bit? {
          assert a.n * b.n == if b.n == 0 then 0 else a.n;
        } else if a.ty == UINT16 {
          NarrowProduct(b.n, a.n);
        } else {
          NarrowProduct(a.n, b.n);
        }
      }
    }
  }

  /** Any other operand types have values that do. */
  lemma NotFreeOverflows(op: ArithOp, a: ScalarType, b: ScalarType) returns (x: int, y: int)
    requires !ArithFree(op, a, b)
    ensures InRange(a, x) && InRange(b, y) && ArithOverflows(op, Value(a, x), Value(b, y))
  {
    hide InRange;
    hide ArithOverflows;
    hide Common;
    if op == Add {
      x, y := SumOverflows(a, b);
    } else if op == Sub {
      x, y := DifferenceOverflows(a, b);
    } else if op == Mul {
      x, y := ProductOverflows(a, b);
    }
    ExactOverflows(op, a, b, x, y);
  }

  lemma ExactOverflows(op: ArithOp, a: ScalarType, b: ScalarType, x: int, y: int)
    requires Common(a, b).signed && InRange(a, x) && InRange(b, y)
    requires !InRange(Common(a, b), if op == Add then x + y else if op == Sub then x - y else x * y) && op in {Add, Sub, Mul}
    ensures ArithOverflows(op, Value(a, x), Value(b, y))
  {
    hide InRange;
    hide Convert;
    CommonHolds(a, b, x);
    CommonHolds(a, b, y);
  }

  lemma SumOverflows(a: ScalarType, b: ScalarType) returns (x: int, y: int)
    requires !ArithFree(Add, a, b)
    ensures InRange(a, x) && InRange(b, y) && !InRange(Common(a, b), x + y)
  {
    x, y := Highest(a), Highest(b);
  }

  lemma DifferenceOverflows(a: ScalarType, b: ScalarType) returns (x: int, y: int)
    requires !ArithFree(Sub, a, b)
    ensures InRange(a, x) && InRange(b, y) && !InRange(Common(a, b), x - y)
  {
    x := if a == Common(a, b) then Lowest(a) else Highest(a);
    y := if a == Common(a, b) then Highest(b) else Lowest(b);
  }

  lemma ProductOverflows(a: ScalarType, b: ScalarType) returns (x: int, y: int)
    requires !ArithFree(Mul, a, b)
    ensures InRange(a, x) && InRange(b, y) && !InRange(Common(a, b), x * y)
  {
    var ty := Common(a, b);
    x := if ty == a || a == b then Highest(a) else 2;
    y := if ty == b || a == b then Highest(b) else 2;
    assert x >= 2 && y >= 2;
    if ty == a {
      Scale(2, y, Highest(ty));
    } else if ty == b {
      Scale(2, x, Highest(ty));
    }
  }

  /** An operator cannot overflow exactly on free operand types. */
  lemma ArithFreeIff(op: ArithOp, a: ScalarType, b: ScalarType)
    ensures ArithFree(op, a, b)
       <==> forall x, y :: InRange(a, x) && InRange(b, y) ==> !ArithOverflows(op, Value(a, x), Value(b, y))
  {
    if ArithFree(op, a, b) {
      forall x, y | InRange(a, x) && InRange(b, y) ensures !ArithOverflows(op, Value(a, x), Value(b, y)) {
        FreeFits(op, Value(a, x), Value(b, y));
      }
    } else {
      var x, y := NotFreeOverflows(op, a, b);
    }
  }

  lemma UnaryFreeFits(a: Value, up: bool)
    requires UnaryFree(a.ty) && InRange(a.ty, a.n)
    ensures !NegOverflows(a) && !StepOverflows(a.ty, a.n, up)
  {
    if Promoted(a.ty).signed {
      ConvertKeeps(Promoted(a.ty), a.n);
    }
  }

  /** Negation, and a step either way, cannot overflow exactly on the same types. */
  lemma UnaryFreeIff(a: ScalarType, up: bool)
    ensures UnaryFree(a) <==> forall x :: InRange(a, x) ==> !NegOverflows(Value(a, x))
    ensures UnaryFree(a) <==> forall x :: InRange(a, x) ==> !StepOverflows(a, x, up)
  {
    if UnaryFree(a) {
      forall x | InRange(a, x) ensures !NegOverflows(Value(a, x)) && !StepOverflows(a, x, up) {
        UnaryFreeFits(Value(a, x), up);
      }
    } else {
      ConvertKeeps(a, Lowest(a));
      assert NegOverflows(Value(a, Lowest(a)));
      assert StepOverflows(a, if up then Highest(a) else Lowest(a), up);
    }
  }

  // ---------- programs ----------

  /** Every operator of the expression has free operand types. */
  ghost predicate QuietExpr(e: Expr, tys: TypeMap, sigs: seq<HelperSig>)
    decreases e
  {
    match e
    case Literal(v, suffix) => LiteralFits(v, suffix)
    case Var(_) => true
    case Input(_) => true
    case Ternary(c, l, r) => QuietExpr(c, tys, sigs) && QuietExpr(l, tys, sigs) && QuietExpr(r, tys, sigs)
    case Cast(_, o) => QuietExpr(o, tys, sigs)
    case Unary(op, o) => QuietExpr(o, tys, sigs) && (op == Neg ==> UnaryFree(StaticType(o, tys, sigs)))
    case HelperCall(_, args) => forall a :: a in args ==> QuietExpr(a, tys, sigs)
    case _ =>
      && QuietExpr(e.left, tys, sigs) && QuietExpr(e.right, tys, sigs)
      && (e.Arith? ==> ArithFree(e.aop, StaticType(e.left, tys, sigs), StaticType(e.right, tys, sigs)))
  }

  /** What a statement adds to the types in scope. */
  function AddType(s: Stmt, tys: TypeMap): TypeMap {
    if s.Decl? then tys[s.v.name := s.v.ty] else tys
  }

  function TypesAfter(stmts: seq<Stmt>, tys: TypeMap): TypeMap {
    if stmts == [] then tys else AddType(stmts[|stmts| - 1], TypesAfter(stmts[..|stmts| - 1], tys))
  }

  ghost predicate QuietStmt(s: Stmt, tys: TypeMap, sigs: seq<HelperSig>)
    decreases s, 0
  {
    match s
    case Decl(_, rhs) => QuietExpr(rhs, tys, sigs)
    case Assign(_, rhs) => QuietExpr(rhs, tys, sigs)
    case Compound(name, op, rhs) =>
      QuietExpr(rhs, tys, sigs) && (name in tys ==> ArithFree(op, tys[name], StaticType(rhs, tys, sigs)))
    case CompoundShift(_, _, rhs) => QuietExpr(rhs, tys, sigs)
    case Step(name, _) => name in tys ==> UnaryFree(tys[name])
    case StepInto(_, name, _, _, addend) =>
      && (name in tys ==> UnaryFree(tys[name]))
      && (addend.Some? && name in tys ==>
            QuietExpr(addend.value, tys, sigs) && ArithFree(Add, tys[name], StaticType(addend.value, tys, sigs)))
    case If(c, thn, els) => QuietExpr(c, tys, sigs) && QuietStmts(thn, tys, sigs) && QuietStmts(els, tys, sigs)
    case For(counter, bound, body) => bound < 0x8000_0000 && QuietStmts(body, tys[counter := SINT32], sigs)
    case Switch(subject, _, cases, fallback) =>
      && QuietExpr(subject, tys, sigs)
      && (forall c :: c in cases ==> QuietStmts(c.stmts, tys, sigs) && forall t :: t in c.stmts ==> t.Assign?)
      && fallback.Assign? && QuietStmt(fallback, tys, sigs)
    case Block(body) => QuietStmts(body, tys, sigs)
  }

  ghost predicate QuietStmts(stmts: seq<Stmt>, tys: TypeMap, sigs: seq<HelperSig>)
    decreases stmts, 1
  {
    stmts == [] ||
    var last := |stmts| - 1;
    QuietStmts(stmts[..last], tys, sigs) && QuietStmt(stmts[last], TypesAfter(stmts[..last], tys), sigs)
  }

  function ParamTypeMap(params: seq<Param>): TypeMap {
    if params == [] then map[]
    else ParamTypeMap(params[..|params| - 1])[params[|params| - 1].name := params[|params| - 1].ty]
  }

  ghost predicate QuietHelper(h: Helper, sigs: seq<HelperSig>) {
    var tys := ParamTypeMap(h.sig.params);
    QuietStmts(h.body, tys, sigs) && QuietExpr(h.result, TypesAfter(h.body, tys), sigs)
  }

  /** Every arithmetic operator, negation, step and compound assignment of the program has free operand types. */
  ghost predicate QuietProgram(p: Program) {
    && (forall j :: 0 <= j < |p.helpers| ==> QuietHelper(p.helpers[j], Sigs(p.helpers)))
    && QuietStmts(p.body, map[], Sigs(p.helpers))
  }

  // ---------- strict and wrapping runs agree ----------

  ghost predicate Ranged(env: Env) {
    forall n :: n in env ==> InRange(env[n].ty, env[n].n)
  }

  /** A value, if there is one, has the static type and fits it. */
  ghost predicate Typed(o: Outcome<Value>, ty: ScalarType) {
    o.Success? ==> o.value.ty == ty && InRange(ty, o.value.n)
  }

  /** An environment, if there is one, has these types, fits them, and keeps the types and the
      read-only names of `env`. */
  ghost predicate Carries(o: Outcome<Env>, env: Env, tys: TypeMap) {
    o.Success? ==> Ranged(o.value) && Types(o.value) == tys && KeepsReadOnly(env, o.value) && KeepsTypes(env, o.value)
  }

  ghost predicate KeepsTypes(env: Env, env': Env) {
    forall n :: n in env ==> n in env' && env'[n].ty == env[n].ty
  }

  /** The two runs of an expression agree, and its value has the static type. */
  ghost predicate SameValue(p: Program, k: nat, e: Expr, env: Env, input: Option<seq<int>>, fuel: nat)
  {
    && Eval(p, k, e, env, input, Rules(fuel, true)) == Eval(p, k, e, env, input, Rules(fuel, false))
    && Typed(Eval(p, k, e, env, input, Rules(fuel, false)), StaticType(e, Types(env), Sigs(p.helpers)))
  }

  ghost predicate Quiet(p: Program, k: nat, e: Expr, env: Env) {
    QuietProgram(p) && Ranged(env) && QuietExpr(e, Types(env), Sigs(p.helpers))
  }

  lemma {:induction false} SameExpr(p: Program, k: nat, e: Expr, env: Env, input: Option<seq<int>>, fuel: nat)
    requires Quiet(p, k, e, env)
    ensures SameValue(p, k, e, env, input, fuel)
    decreases k, 0, e
  {
    hide QuietProgram;
    hide StaticType;
    hide SameValue;
    match e
    case Literal(_, _) => SameNode(p, k, e, env, input, fuel);
    case Var(_) => SameNode(p, k, e, env, input, fuel);
    case Input(_) => SameNode(p, k, e, env, input, fuel);
    case Ternary(c, l, r) =>
      SameExpr(p, k, c, env, input, fuel);
      SameExpr(p, k, l, env, input, fuel);
      SameExpr(p, k, r, env, input, fuel);
      SameParts(p, k, e, env, input, fuel);
    case Cast(_, o) =>
      SameExpr(p, k, o, env, input, fuel);
      SameNode(p, k, e, env, input, fuel);
    case Unary(_, o) =>
      SameExpr(p, k, o, env, input, fuel);
      SameNode(p, k, e, env, input, fuel);
    case HelperCall(_, args) =>
      SameCall(p, k, e, env, input, fuel);
    case _ =>
      SameExpr(p, k, e.left, env, input, fuel);
      SameExpr(p, k, e.right, env, input, fuel);
      SameParts(p, k, e, env, input, fuel);
  }

  lemma SameNode(p: Program, k: nat, e: Expr, env: Env, input: Option<seq<int>>, fuel: nat)
    requires Quiet(p, k, e, env) && (e.Literal? || e.Var? || e.Input? || e.Cast? || e.Unary?)
    requires e.Cast? || e.Unary? ==> SameValue(p, k, e.operand, env, input, fuel)
    ensures SameValue(p, k, e, env, input, fuel)
  {
    hide QuietProgram;
    hide Resolve;
    hide UnaryOutcome;
    if e.Unary? {
      var o := Eval(p, k, e.operand, env, input, Rules(fuel, false));
      if o.Success? {
        UnaryAgrees(e.uop, o.value, fuel);
      }
    }
  }

  lemma UnaryAgrees(op: UnaryOp, a: Value, fuel: nat)
    requires InRange(a.ty, a.n) && (op == Neg ==> UnaryFree(a.ty))
    ensures UnaryOutcome(op, a, Rules(fuel, true)) == UnaryOutcome(op, a, Rules(fuel, false))
    ensures Typed(UnaryOutcome(op, a, Rules(fuel, false)), if op == Not then Bit else Promoted(a.ty))
  {
    hide UnaryFree;
    if op == Neg {
      UnaryFreeFits(a, true);
    }
  }

  lemma SameParts(p: Program, k: nat, e: Expr, env: Env, input: Option<seq<int>>, fuel: nat)
    requires Quiet(p, k, e, env) && (Binary(e) || e.Logic? || (e.Ternary? && SameValue(p, k, e.cond, env, input, fuel)))
    requires SameValue(p, k, e.left, env, input, fuel) && SameValue(p, k, e.right, env, input, fuel)
    ensures SameValue(p, k, e, env, input, fuel)
  {
    hide QuietProgram;
    hide BinaryOutcome;
    hide Convert;
    hide Resolve;
    hide ArithFree;
    var (x, y) := (Eval(p, k, e.left, env, input, Rules(fuel, false)), Eval(p, k, e.right, env, input, Rules(fuel, false)));
    if Binary(e) && x.Success? && y.Success? {
      BinaryAgrees(e, x.value, y.value, fuel);
    } else if e.Ternary? {
      ConvertFits(StaticType(e, Types(env), Sigs(p.helpers)));
    }
  }

  lemma ConvertFits(ty: ScalarType)
    ensures forall n :: InRange(ty, Convert(ty, n))
  {
  }

  lemma BinaryAgrees(e: Expr, a: Value, b: Value, fuel: nat)
    requires Binary(e) && InRange(a.ty, a.n) && InRange(b.ty, b.n) && (e.Arith? ==> ArithFree(e.aop, a.ty, b.ty))
    ensures BinaryOutcome(e, a, b, Rules(fuel, true)) == BinaryOutcome(e, a, b, Rules(fuel, false))
    ensures Typed(BinaryOutcome(e, a, b, Rules(fuel, false)), BinaryType(e, a.ty, b.ty))
  {
    hide TruncatedDiv;
    hide Power2;
    hide ArithFree;
    hide ArithOverflows;
    hide MathValue;
    match e
    case Arith(op, _, _) => FreeFits(op, a, b);
    case MathCall(fn, _, _) => MathTyped(fn, a, b);
    case _ =>
  }

  lemma MathTyped(fn: MathFn, a: Value, b: Value)
    ensures Typed(Success(MathValue(fn, a, b)), if fn in {SAdd, SMul} then Promoted(a.ty) else a.ty)
  {
  }

  /** As SameValue, for arguments. */
  ghost predicate SameValues(p: Program, k: nat, es: seq<Expr>, env: Env, input: Option<seq<int>>, fuel: nat)
  {
    var (strict, wrapping) := (EvalArgs(p, k, es, env, input, Rules(fuel, true)), EvalArgs(p, k, es, env, input, Rules(fuel, false)));
    && strict == wrapping
    && (wrapping.Success? ==> AllFit(wrapping.value, StaticTypes(es, Types(env), Sigs(p.helpers))))
  }

  ghost predicate AllFit(values: seq<Value>, types: seq<ScalarType>) {
    |values| == |types| && forall i :: 0 <= i < |values| ==> values[i].ty == types[i] && InRange(types[i], values[i].n)
  }

  lemma {:induction false} SameArgs(p: Program, k: nat, es: seq<Expr>, env: Env, input: Option<seq<int>>, fuel: nat)
    requires forall e :: e in es ==> Quiet(p, k, e, env)
    ensures SameValues(p, k, es, env, input, fuel)
    decreases k, 0, es
  {
    hide QuietProgram;
    hide QuietExpr;
    hide StaticType;
    if es != [] {
      SameExpr(p, k, es[0], env, input, fuel);
      SameArgs(p, k, es[1..], env, input, fuel);
    }
  }

  lemma {:induction false} SameCall(p: Program, k: nat, e: Expr, env: Env, input: Option<seq<int>>, fuel: nat)
    requires e.HelperCall? && Quiet(p, k, e, env)
    ensures SameValue(p, k, e, env, input, fuel)
    decreases k, 0, e, 0
  {
    SameArgs(p, k, e.args, env, input, fuel);
    var args := EvalArgs(p, k, e.args, env, input, Rules(fuel, false));
    if args.Success? {
      var types := StaticTypes(e.args, Types(env), Sigs(p.helpers));
      assert ValueTypes(args.value) == types;
      var found := Resolve(Sigs(p.helpers), e.helper, types);
      if found.Some? && found.value < k {
        assert AllFit(args.value, ParamTypes(p.helpers[found.value].sig.params));
        SameInvoke(p, found.value, args.value, fuel);
      }
    }
  }

  lemma {:induction false} BindRanged(params: seq<Param>, values: seq<Value>)
    requires AllFit(values, ParamTypes(params))
    ensures Ranged(BindParams(params, values)) && Types(BindParams(params, values)) == ParamTypeMap(params)
  {
    if params != [] {
      var last := |params| - 1;
      assert AllFit(values[..last], ParamTypes(params[..last]));
      BindRanged(params[..last], values[..last]);
    }
  }

  lemma {:induction false} SameInvoke(p: Program, j: nat, values: seq<Value>, fuel: nat)
    requires QuietProgram(p) && j < |p.helpers| && AllFit(values, ParamTypes(p.helpers[j].sig.params))
    ensures Invoke(p, j, values, Rules(fuel, true)) == Invoke(p, j, values, Rules(fuel, false))
    ensures Typed(Invoke(p, j, values, Rules(fuel, false)), p.helpers[j].sig.ret)
    decreases j, 2
  {
    var h := p.helpers[j];
    assert QuietHelper(h, Sigs(p.helpers));
    BindRanged(h.sig.params, values);
    var env := BindParams(h.sig.params, values);
    SameList(p, j, h.body, env, None, fuel);
    var after := ExecAll(p, j, h.body, env, None, Rules(fuel, false));
    if after.Success? {
      SameExpr(p, j, h.result, after.value, None, fuel);
    }
  }

  // ---------- statements ----------

  /** The two runs of a statement agree, and carry the environment on. */
  ghost predicate SameStep(p: Program, k: nat, s: Stmt, env: Env, input: Option<seq<int>>, fuel: nat)
  {
    && Exec(p, k, s, env, input, Rules(fuel, true)) == Exec(p, k, s, env, input, Rules(fuel, false))
    && Carries(Exec(p, k, s, env, input, Rules(fuel, false)), env, AddType(s, Types(env)))
  }

  ghost predicate QuietAt(p: Program, k: nat, env: Env) {
    QuietProgram(p) && Ranged(env)
  }

  lemma {:induction false} SameStmt(p: Program, k: nat, s: Stmt, env: Env, input: Option<seq<int>>, fuel: nat)
    requires QuietAt(p, k, env) && QuietStmt(s, Types(env), Sigs(p.helpers))
    ensures SameStep(p, k, s, env, input, fuel)
    decreases k, 1, s, fuel + 2
  {
    hide StaticType;
    hide QuietExpr;
    hide QuietProgram;
    hide Store;
    hide ArithFree;
    match s
    case If(c, thn, els) =>
      SameExpr(p, k, c, env, input, fuel);
      SameBlock(p, k, thn, env, input, fuel);
      SameBlock(p, k, els, env, input, fuel);
    case For(_, _, _) =>
      SameFor(p, k, s, env, input, fuel);
    case Switch(subject, mask, cases, _) =>
      SameExpr(p, k, subject, env, input, fuel);
      var o := Eval(p, k, subject, env, input, Rules(fuel, false));
      if o.Success? {
        SameCases(p, k, s, EntryLabel(o.value, mask, |cases|), env, input, fuel);
      }
    case Block(body) =>
      SameBlock(p, k, body, env, input, fuel);
    case StepInto(_, _, _, _, _) =>
      SameStepInto(p, k, s, env, input, fuel);
    case Step(name, up) =>
      if name in env { SameStepSlot(env, name, up, fuel); }
    case _ =>
      SameUpdate(p, k, s, env, input, fuel);
  }

  lemma StoreCarries(env: Env, name: Name, n: int)
    requires Ranged(env)
    ensures Carries(Store(env, name, n), env, Types(env))
  {
  }

  lemma SameStepSlot(env: Env, name: Name, up: bool, fuel: nat)
    requires Ranged(env) && name in env && UnaryFree(env[name].ty)
    ensures StepSlot(env, name, up, Rules(fuel, true)) == StepSlot(env, name, up, Rules(fuel, false))
    ensures Carries(StepSlot(env, name, up, Rules(fuel, false)), env, Types(env))
  {
    UnaryFreeFits(Value(env[name].ty, env[name].n), up);
    StoreCarries(env, name, Stepped(env[name].n, up));
  }

  /** Declarations, assignments and compound assignments. */
  lemma {:induction false} SameUpdate(p: Program, k: nat, s: Stmt, env: Env, input: Option<seq<int>>, fuel: nat)
    requires Update(s) && QuietAt(p, k, env) && QuietStmt(s, Types(env), Sigs(p.helpers))
    ensures SameStep(p, k, s, env, input, fuel)
    decreases k, 1, s, 0
  {
    hide QuietProgram;
    hide StaticType;
    hide QuietExpr;
    hide ArithFree;
    hide Updated;
    SameExpr(p, k, s.rhs, env, input, fuel);
    var o := Eval(p, k, s.rhs, env, input, Rules(fuel, false));
    if o.Success? {
      UpdateAgrees(s, env, o.value, fuel);
    }
  }

  lemma UpdateAgrees(s: Stmt, env: Env, x: Value, fuel: nat)
    requires Update(s) && Ranged(env) && InRange(x.ty, x.n)
    requires s.Compound? && s.name in env ==> ArithFree(s.aop, env[s.name].ty, x.ty)
    ensures Updated(s, env, x, Rules(fuel, true)) == Updated(s, env, x, Rules(fuel, false))
    ensures Carries(Updated(s, env, x, Rules(fuel, false)), env, AddType(s, Types(env)))
  {
    hide ArithValue;
    hide ArithOverflows;
    hide ShiftValue;
    hide ArithFree;
    match s
    case Decl(v, _) =>
      assert v.name !in env ==> Types(env[v.name := Slot(v.ty, v.mutable, Convert(v.ty, x.n))]) == Types(env)[v.name := v.ty];
    case Assign(name, _) =>
      StoreCarries(env, name, x.n);
    case Compound(name, op, _) =>
      if name in env {
        FreeFits(op, Value(env[name].ty, env[name].n), x);
        StoreCarries(env, name, ArithValue(op, Value(env[name].ty, env[name].n), x).n);
      }
    case CompoundShift(name, op, _) =>
      if name in env {
        var o := ShiftValue(op, Value(env[name].ty, env[name].n), x);
        if o.Success? {
          StoreCarries(env, name, o.value.n);
        }
      }
  }

  lemma CarriesOn(env: Env, mid: Env, o: Outcome<Env>, tys: TypeMap)
    requires KeepsReadOnly(env, mid) && KeepsTypes(env, mid) && Carries(o, mid, tys)
    ensures Carries(o, env, tys)
  {
  }

  lemma StepLands(env: Env, name: Name, up: bool, rules: Rules)
    requires name in env && StepSlot(env, name, up, rules).Success?
    ensures var after := StepSlot(env, name, up, rules).value;
      name in after && after[name].ty == env[name].ty && InRange(env[name].ty, after[name].n)
  {
  }

  lemma {:induction false} SameStepInto(p: Program, k: nat, s: Stmt, env: Env, input: Option<seq<int>>, fuel: nat)
    requires s.StepInto? && QuietAt(p, k, env) && QuietStmt(s, Types(env), Sigs(p.helpers))
    ensures SameStep(p, k, s, env, input, fuel)
    decreases k, 1, s, 1
  {
    hide ArithOutcome;
    hide StepSlot;
    hide Store;
    hide StaticType;
    hide QuietExpr;
    hide ArithFree;
    hide QuietProgram;
    hide KeepsTypes;
    hide KeepsReadOnly;
    if s.dst != s.name && s.name in env {
      SameStepSlot(env, s.name, s.up, fuel);
      var o := StepSlot(env, s.name, s.up, Rules(fuel, false));
      if o.Success? {
        StepLands(env, s.name, s.up, Rules(fuel, false));
        var x := Value(env[s.name].ty, if s.prefixed then o.value[s.name].n else env[s.name].n);
        SameAddend(p, k, s, env, o.value, x, input, fuel);
      }
    }
  }

  /** What `dst = ...` stores after the step. */
  ghost function AddendStore(p: Program, k: nat, s: Stmt, mid: Env, x: Value, input: Option<seq<int>>, rules: Rules): Outcome<Env>
    requires s.StepInto?
  {
    match s.addend
    case None => Store(mid, s.dst, x.n)
    case Some(e) =>
      match Eval(p, k, e, mid, input, rules)
      case Failure(f) => Failure(f)
      case Success(y) => StoreOutcome(mid, s.dst, ArithOutcome(Add, x, y, rules))
  }

  lemma {:induction false} SameAddend(p: Program, k: nat, s: Stmt, env: Env, mid: Env, x: Value, input: Option<seq<int>>, fuel: nat)
    requires s.StepInto? && s.name in env && QuietAt(p, k, env) && QuietStmt(s, Types(env), Sigs(p.helpers))
    requires Carries(Success(mid), env, Types(env)) && x.ty == env[s.name].ty && InRange(x.ty, x.n)
    ensures AddendStore(p, k, s, mid, x, input, Rules(fuel, true)) == AddendStore(p, k, s, mid, x, input, Rules(fuel, false))
    ensures Carries(AddendStore(p, k, s, mid, x, input, Rules(fuel, false)), env, Types(env))
    decreases k, 1, s, 0
  {
    if s.addend.None? {
      StoreCarries(mid, s.dst, x.n);
    } else {
      SameExpr(p, k, s.addend.value, mid, input, fuel);
      var y := Eval(p, k, s.addend.value, mid, input, Rules(fuel, false));
      if y.Success? {
        FreeFits(Add, x, y.value);
        StoreCarries(mid, s.dst, ArithValue(Add, x, y.value).n);
      }
    }
    CarriesOn(env, mid, AddendStore(p, k, s, mid, x, input, Rules(fuel, false)), Types(env));
  }

  lemma {:induction false} SameList(p: Program, k: nat, stmts: seq<Stmt>, env: Env, input: Option<seq<int>>, fuel: nat)
    requires QuietAt(p, k, env) && QuietStmts(stmts, Types(env), Sigs(p.helpers))
    ensures ExecAll(p, k, stmts, env, input, Rules(fuel, true)) == ExecAll(p, k, stmts, env, input, Rules(fuel, false))
    ensures Carries(ExecAll(p, k, stmts, env, input, Rules(fuel, false)), env, TypesAfter(stmts, Types(env)))
    decreases k, 1, stmts, 0
  {
    if stmts != [] {
      var last := |stmts| - 1;
      SameList(p, k, stmts[..last], env, input, fuel);
      var o := ExecAll(p, k, stmts[..last], env, input, Rules(fuel, false));
      if o.Success? {
        SameStmt(p, k, stmts[last], o.value, input, fuel);
        CarriesOn(env, o.value, Exec(p, k, stmts[last], o.value, input, Rules(fuel, false)), TypesAfter(stmts, Types(env)));
      }
    }
  }

  /** Leaving a block restores the types in scope. */
  lemma LeaveCarries(inner: Env, env: Env)
    requires Ranged(inner) && KeepsReadOnly(env, inner) && KeepsTypes(env, inner)
    ensures Carries(Success(Leave(inner, env)), env, Types(env))
  {
  }

  lemma {:induction false} SameBlock(p: Program, k: nat, stmts: seq<Stmt>, env: Env, input: Option<seq<int>>, fuel: nat)
    requires QuietAt(p, k, env) && QuietStmts(stmts, Types(env), Sigs(p.helpers))
    ensures ExecBlock(p, k, stmts, env, input, Rules(fuel, true)) == ExecBlock(p, k, stmts, env, input, Rules(fuel, false))
    ensures Carries(ExecBlock(p, k, stmts, env, input, Rules(fuel, false)), env, Types(env))
    decreases k, 1, stmts, 1
  {
    SameList(p, k, stmts, env, input, fuel);
    var o := ExecAll(p, k, stmts, env, input, Rules(fuel, false));
    if o.Success? {
      LeaveCarries(o.value, env);
    }
  }

  lemma {:induction false} SameFor(p: Program, k: nat, s: Stmt, env: Env, input: Option<seq<int>>, fuel: nat)
    requires s.For? && QuietAt(p, k, env) && QuietStmt(s, Types(env), Sigs(p.helpers))
    ensures SameStep(p, k, s, env, input, fuel)
    decreases k, 1, s, fuel + 1
  {
    if s.counter !in env {
      var inner := env[s.counter := Slot(SINT32, false, 0)];
      assert Types(inner) == Types(env)[s.counter := SINT32];
      SameLoop(p, k, s, inner, input, fuel, fuel);
      var o := Iterate(p, k, s, inner, input, Rules(fuel, false), fuel);
      if o.Success? {
        LeaveCarries(o.value, env);
      }
    }
  }

  /** As Carries, but the loop's own counter has moved. */
  ghost predicate LoopCarries(o: Outcome<Env>, env: Env, counter: Name) {
    o.Success? ==>
      && Ranged(o.value) && KeepsTypes(env, o.value)
      && forall n :: n in env && n != counter && !env[n].mutable ==> n in o.value && o.value[n] == env[n]
  }

  lemma LoopNext(env: Env, after: Env, counter: Name, n: int)
    requires counter in env && env[counter] == Slot(SINT32, false, env[counter].n) && Ranged(env)
    requires Carries(Success(after), env, Types(env)) && InRange(SINT32, n)
    ensures counter in after && after[counter] == env[counter]
    ensures var next := after[counter := Slot(SINT32, false, n)];
      && Ranged(next) && Types(next) == Types(env)
      && forall o :: LoopCarries(o, next, counter) ==> LoopCarries(o, env, counter)
  {
    assert Types(after[counter := Slot(SINT32, false, n)]) == Types(env);
  }

  lemma LoopDone(env: Env, counter: Name)
    requires Ranged(env)
    ensures LoopCarries(Success(env), env, counter) && forall f :: LoopCarries(Failure(f), env, counter)
  {
  }

  lemma {:induction false} SameLoop(p: Program, k: nat, s: Stmt, env: Env, input: Option<seq<int>>, fuel: nat, left: nat)
    requires s.For? && s.bound < 0x8000_0000 && QuietAt(p, k, env) && QuietStmts(s.body, Types(env), Sigs(p.helpers))
    requires s.counter in env && env[s.counter] == Slot(SINT32, false, env[s.counter].n)
    ensures Iterate(p, k, s, env, input, Rules(fuel, true), left) == Iterate(p, k, s, env, input, Rules(fuel, false), left)
    ensures LoopCarries(Iterate(p, k, s, env, input, Rules(fuel, false), left), env, s.counter)
    decreases k, 1, s, left
  {
    hide Exec;
    hide Eval;
    hide WFExpr;
    hide ExecBlock;
    hide QuietStmts;
    hide QuietProgram;
    hide Carries;
    hide LoopCarries;
    LoopDone(env, s.counter);
    if env[s.counter].n < s.bound && left != 0 {
      SameBlock(p, k, s.body, env, input, fuel);
      var o := ExecBlock(p, k, s.body, env, input, Rules(fuel, false));
      if o.Success? {
        var n := env[s.counter].n + 1;
        assert InRange(SINT32, env[s.counter].n);
        ConvertKeeps(SINT32, n);
        LoopNext(env, o.value, s.counter, n);
        var next := o.value[s.counter := Slot(SINT32, false, n)];
        SameLoop(p, k, s, next, input, fuel, left - 1);
      }
    }
  }

  lemma {:induction false} SameCases(p: Program, k: nat, s: Stmt, at: nat, env: Env, input: Option<seq<int>>, fuel: nat)
    requires s.Switch? && at <= |s.cases| && QuietAt(p, k, env) && QuietStmt(s, Types(env), Sigs(p.helpers))
    ensures ExecCases(p, k, s, at, env, input, Rules(fuel, true)) == ExecCases(p, k, s, at, env, input, Rules(fuel, false))
    ensures Carries(ExecCases(p, k, s, at, env, input, Rules(fuel, false)), env, Types(env))
    decreases k, 1, s, 0, |s.cases| - at
  {
    if at == |s.cases| {
      SameStmt(p, k, s.fallback, env, input, fuel);
    } else {
      var c := s.cases[at];
      assert c in s.cases;
      SameList(p, k, c.stmts, env, input, fuel);
      AssignsAddNothing(c.stmts, Types(env));
      var o := ExecAll(p, k, c.stmts, env, input, Rules(fuel, false));
      if o.Success? && !c.breaks {
        SameCases(p, k, s, at + 1, o.value, input, fuel);
        CarriesOn(env, o.value, ExecCases(p, k, s, at + 1, o.value, input, Rules(fuel, false)), Types(env));
      }
    }
  }

  lemma {:induction false} AssignsAddNothing(stmts: seq<Stmt>, tys: TypeMap)
    requires forall t :: t in stmts ==> t.Assign?
    ensures TypesAfter(stmts, tys) == tys
  {
    if stmts != [] {
      assert stmts[|stmts| - 1] in stmts;
      AssignsAddNothing(stmts[..|stmts| - 1], tys);
    }
  }

  // ---------- whole runs ----------

  /** A program whose operators all have free operand types behaves the same whether overflow stops it or wraps; and if
      it keeps the generator's rules, it runs to its end without any fault, signed overflow included. */
  lemma QuietRunsStrictly(p: Program, input: seq<int>, fields: seq<int>)
    requires QuietProgram(p) && |fields| == 8
    ensures Run(p, input, fields, STRICT) == Run(p, input, fields, WRAPPING)
    ensures WFProgram(p) && |input| == 4 ==> Run(p, input, fields, STRICT).Success?
  {
    SameList(p, |p.helpers|, p.body, map[], Some(input), MAX_LOOP_BOUND);
    if WFProgram(p) && |input| == 4 {
      ProgramNeverFaults(p, input, fields);
    }
  }

  /** `sint32 l0 = v + w;` */
  function SumProgram(v: nat, w: nat): Program {
    var l0 := LocalVar(Name('l', 0), SINT32, true);
    Program([], [Decl(l0, Arith(Add, Literal(v, NoSuffix), Literal(w, NoSuffix)))], [l0.name])
  }

  /** The generator's rules do not exclude signed overflow: every sum of two `int` literals is a whole program within
      them, and it stops at a signed overflow, on every input, exactly when the sum does not fit. */
  lemma OverflowNotExcluded(v: nat, w: nat, input: seq<int>, fields: seq<int>)
    requires v < 0x8000_0000 && w < 0x8000_0000 && |fields| == 8
    ensures WFProgram(SumProgram(v, w))
    ensures Run(SumProgram(v, w), input, fields, STRICT) == Failure(SignedOverflow) <==> v + w >= 0x8000_0000
  {
    hide ArithOutcome;
    hide ArithValue;
    hide ArithOverflows;
    hide Convert;
    hide Resolve;
    var p := SumProgram(v, w);
    var s := p.body[0];
    assert p.body[..0] == [];
    assert s.rhs.Arith? && WFExpr(s.rhs, {}, Sigs(p.helpers), 4);
    assert {} + DeclaresAll(p.body[..0]) == {};
    assert WFStmts(p.body[..0], {}, Sigs(p.helpers), 4) && WFStmt(s, {}, Sigs(p.helpers), 4);
    LiteralSum(v, w);
    assert ExecAll(p, 0, [], map[], Some(input), STRICT) == Success(map[]);
    assert Eval(p, 0, s.rhs, map[], Some(input), STRICT) == ArithOutcome(Add, Value(SINT32, v), Value(SINT32, w), STRICT);
    var o := Exec(p, 0, s, map[], Some(input), STRICT);
    if o.Success? {
      FoldSafe(p.tops, o.value, fields);
    }
  }

  lemma LiteralSum(v: nat, w: nat)
    requires v < 0x8000_0000 && w < 0x8000_0000
    ensures var o := ArithOutcome(Add, Value(SINT32, v), Value(SINT32, w), STRICT);
      if v + w >= 0x8000_0000 then o == Failure(SignedOverflow) else o.Success?
  {
    hide Convert;
    CommonHolds(SINT32, SINT32, v);
    CommonHolds(SINT32, SINT32, w);
  }
}
