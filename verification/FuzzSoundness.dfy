/** The scoping rules the generator keeps, and the proof that a program obeying them evaluates without a
    fault on every input: no unbound or read-only name, no zero divisor, no shift outside the promoted
    width, no unresolved or recursive call, and no loop running past its bound. */
module FuzzSoundness {
  import opened Words
  import opened Wrappers
  import opened FuzzProgram

  /** The largest loop bound the generator emits; also the fuel every run needs. */
  const MAX_LOOP_BOUND: nat := 8

  const WRAPPING := Rules(MAX_LOOP_BOUND, false)
  const STRICT := Rules(MAX_LOOP_BOUND, true)

  const INT64_MAX: nat := 0x7fff_ffff_ffff_ffff

  type Scope = set<LocalVar>

  ghost function Names(vis: Scope): set<Name> {
    set v | v in vis :: v.name
  }

  function ParamVars(params: seq<Param>): seq<LocalVar> {
    seq(|params|, i requires 0 <= i < |params| => LocalVar(params[i].name, params[i].ty, false))
  }

  ghost function ParamScope(params: seq<Param>): Scope {
    set v | v in ParamVars(params)
  }

  // ---------- static rules ----------

  ghost predicate WFExpr(e: Expr, vis: Scope, sigs: seq<HelperSig>, fields: nat)
    decreases e
  {
    match e
    case Literal(v, suffix) => LiteralFits(v, suffix)
    case Var(name) => exists v :: v in vis && v.name == name
    case Input(field) => field < fields
    case Arith(_, l, r) => WFExpr(l, vis, sigs, fields) && WFExpr(r, vis, sigs, fields)
    case Compare(_, l, r) => WFExpr(l, vis, sigs, fields) && WFExpr(r, vis, sigs, fields)
    case Shift(_, l, c) => WFExpr(l, vis, sigs, fields) && WFExpr(c, vis, sigs, fields) && GuardedShift(c, 31)
    case Quotient(_, l, r) => WFExpr(l, vis, sigs, fields) && WFExpr(r, vis, sigs, fields) && GuardedQuotient(l, r)
    case Ternary(c, l, r) => WFExpr(c, vis, sigs, fields) && WFExpr(l, vis, sigs, fields) && WFExpr(r, vis, sigs, fields)
    case Cast(_, o) => WFExpr(o, vis, sigs, fields)
    case Unary(_, o) => WFExpr(o, vis, sigs, fields)
    case Logic(_, l, r) => WFExpr(l, vis, sigs, fields) && WFExpr(r, vis, sigs, fields)
    case MathCall(_, l, r) => WFExpr(l, vis, sigs, fields) && WFExpr(r, vis, sigs, fields)
    case HelperCall(helper, args) =>
      && (forall a :: a in args ==> a.Cast? && WFExpr(a, vis, sigs, fields))
      && exists j :: 0 <= j < |sigs| && CallsSig(helper, args, sigs[j])
  }

  /** A literal is written so that its own type can hold it. */
  predicate LiteralFits(v: nat, suffix: Suffix) {
    v < 0x1_0000_0000_0000_0000 && (suffix in {NoSuffix, LL} ==> v <= INT64_MAX)
  }

  /** Every argument is cast to exactly the parameter type of the chosen signature. */
  predicate CallsSig(helper: nat, args: seq<Expr>, sig: HelperSig) {
    && sig.name == helper
    && |args| == |sig.params|
    && forall i :: 0 <= i < |args| ==> args[i].Cast? && args[i].ty == sig.params[i].ty
  }

  /** A constant count within the mask, or an expression masked by it. */
  predicate GuardedShift(count: Expr, mask: nat) {
    || (count.Literal? && count.suffix.NoSuffix? && count.value <= mask)
    || (count.Arith? && count.aop == And && count.right == Literal(mask, NoSuffix))
  }

  /** `(T)(a) / (((T)(b)) | 1)` with an unsigned T of 32 or 64 bits. */
  predicate GuardedQuotient(left: Expr, right: Expr) {
    && left.Cast? && left.ty in UNSIGNED_DIV_TYPES
    && right.Arith? && right.aop == Or && right.left.Cast? && right.left.ty == left.ty
    && right.right == Literal(1, if left.ty == UINT64 then ULL else U)
  }

  /** What a statement adds to the scope it stands in. */
  ghost function Declares(s: Stmt): Scope {
    if s.Decl? then {s.v} else {}
  }

  ghost function DeclaresAll(stmts: seq<Stmt>): Scope {
    if stmts == [] then {} else DeclaresAll(stmts[..|stmts| - 1]) + Declares(stmts[|stmts| - 1])
  }

  ghost predicate Mutable(name: Name, vis: Scope) {
    exists v :: v in vis && v.name == name && v.mutable
  }

  ghost predicate WFStmt(s: Stmt, vis: Scope, sigs: seq<HelperSig>, fields: nat)
    decreases s, 0
  {
    match s
    case Decl(v, rhs) => v.name !in Names(vis) && WFExpr(rhs, vis, sigs, fields)
    case Assign(name, rhs) => Mutable(name, vis) && WFExpr(rhs, vis, sigs, fields)
    case Compound(name, _, rhs) => Mutable(name, vis) && WFExpr(rhs, vis, sigs, fields)
    case CompoundShift(name, _, rhs) =>
      && WFExpr(rhs, vis, sigs, fields)
      && exists v :: v in vis && v.name == name && v.mutable
                     && GuardedShift(rhs, if Promoted(v.ty).width == W8 then 63 else 31)
    case Step(name, _) => Mutable(name, vis)
    case StepInto(dst, name, _, _, addend) =>
      && dst != name && Mutable(dst, vis) && Mutable(name, vis)
      && (addend.Some? ==> addend.value.Literal? && LiteralFits(addend.value.value, addend.value.suffix))
    case If(c, thn, els) =>
      WFExpr(c, vis, sigs, fields) && WFStmts(thn, vis, sigs, fields) && WFStmts(els, vis, sigs, fields)
    case For(counter, bound, body) =>
      && counter !in Names(vis)
      && bound <= MAX_LOOP_BOUND
      && WFStmts(body, vis + {LocalVar(counter, SINT32, false)}, sigs, fields)
    case Switch(subject, mask, cases, fallback) =>
      && WFExpr(subject, vis, sigs, fields)
      && (forall c :: c in cases ==>
            WFStmts(c.stmts, vis, sigs, fields) && forall t :: t in c.stmts ==> t.Assign?)
      && fallback.Assign? && WFStmt(fallback, vis, sigs, fields)
    case Block(body) => WFStmts(body, vis, sigs, fields)
  }

  ghost predicate WFStmts(stmts: seq<Stmt>, vis: Scope, sigs: seq<HelperSig>, fields: nat)
    decreases stmts, 1
  {
    stmts == [] ||
    var last := |stmts| - 1;
    && WFStmts(stmts[..last], vis, sigs, fields)
    && WFStmt(stmts[last], vis + DeclaresAll(stmts[..last]), sigs, fields)
  }

  predicate DistinctParams(params: seq<Param>) {
    forall i, j :: 0 <= i < j < |params| ==> params[i].name != params[j].name
  }

  ghost predicate WFHelper(h: Helper, sigs: seq<HelperSig>) {
    && DistinctParams(h.sig.params)
    && WFStmts(h.body, ParamScope(h.sig.params), sigs, 0)
    && WFExpr(h.result, ParamScope(h.sig.params) + DeclaresAll(h.body), sigs, 0)
  }

  predicate DistinctSigs(sigs: seq<HelperSig>) {
    forall i, j :: 0 <= i < j < |sigs| ==>
      sigs[i].name != sigs[j].name || ParamTypes(sigs[i].params) != ParamTypes(sigs[j].params)
  }

  /** What helper `k` may call, or the procedure when there are `k` helpers: the helpers before it. */
  function Earlier(helpers: seq<Helper>, k: nat): seq<HelperSig> {
    if k < |helpers| then Sigs(helpers)[..k] else Sigs(helpers)
  }

  /** Each helper sees only its own parameters and locals, and calls only helpers defined before it. */
  ghost predicate WFHelpers(helpers: seq<Helper>) {
    && DistinctSigs(Sigs(helpers))
    && forall j :: 0 <= j < |helpers| ==> WFHelper(helpers[j], Earlier(helpers, j))
  }

  ghost predicate WFProgram(p: Program) {
    && WFHelpers(p.helpers)
    && WFStmts(p.body, {}, Sigs(p.helpers), 4)
    && forall t :: t in p.tops ==> t in Names(DeclaresAll(p.body))
  }

  // ---------- the environment agrees with the scope ----------

  ghost predicate Agrees(env: Env, vis: Scope) {
    && env.Keys == Names(vis)
    && forall v :: v in vis ==> env[v.name].ty == v.ty && env[v.name].mutable == v.mutable
  }

  /** Nothing in scope that is not mutable has changed: loop counters and parameters in particular. */
  ghost predicate KeepsReadOnly(env: Env, env': Env) {
    forall n :: n in env && !env[n].mutable ==> n in env' && env'[n] == env[n]
  }

  /** The run succeeded in scope `vis` and left every read-only name of `env` alone. */
  ghost predicate RunsTo(o: Outcome<Env>, env: Env, vis: Scope) {
    o.Success? && Agrees(o.value, vis) && KeepsReadOnly(env, o.value)
  }

  lemma StoreSafe(env: Env, vis: Scope, name: Name, n: int)
    requires Agrees(env, vis) && Mutable(name, vis)
    ensures RunsTo(Store(env, name, n), env, vis)
  {
    var v :| v in vis && v.name == name && v.mutable;
  }

  lemma LeaveSafe(inner: Env, env: Env, vis: Scope, declared: Scope)
    requires Agrees(env, vis) && Agrees(inner, vis + declared) && KeepsReadOnly(env, inner)
    ensures Agrees(Leave(inner, env), vis)
    ensures KeepsReadOnly(env, Leave(inner, env))
  {
    forall n | n in env ensures n in inner {
      assert n in Names(vis);
      var v :| v in vis && v.name == n;
      assert v in vis + declared;
    }
  }

  lemma BindSafe(params: seq<Param>, values: seq<Value>)
    requires |params| == |values| && DistinctParams(params)
    ensures Agrees(BindParams(params, values), ParamScope(params))
  {
    if params == [] {
      assert ParamScope(params) == {};
    } else {
      var last := |params| - 1;
      BindSafe(params[..last], values[..last]);
      var all, init := ParamVars(params), ParamVars(params[..last]);
      assert all == init + [LocalVar(params[last].name, params[last].ty, false)];
      assert ParamScope(params) == ParamScope(params[..last]) + {all[last]};
      var env := BindParams(params, values);
      forall v | v in ParamScope(params)
        ensures v.name in env && env[v.name].ty == v.ty && env[v.name].mutable == v.mutable
      {
        var i :| 0 <= i < |all| && all[i] == v;
        if i < last {
          assert init[i] == v;
          assert params[i].name != params[last].name;
        }
      }
      forall n | n in env ensures n in Names(ParamScope(params)) {
        if n != params[last].name {
          var v :| v in ParamScope(params[..last]) && v.name == n;
          assert v in ParamScope(params);
        } else {
          assert all[last] in ParamScope(params);
        }
      }
    }
  }

  // ---------- guarded operands ----------

  /** A guarded count lands in 0..mask whatever the masked expression was worth. */
  lemma GuardedShiftInRange(p: Program, k: nat, c: Expr, mask: nat, env: Env, input: Option<seq<int>>, rules: Rules)
    requires GuardedShift(c, mask) && mask <= 63
    requires Eval(p, k, c, env, input, rules).Success?
    ensures 0 <= Eval(p, k, c, env, input, rules).value.n <= mask
  {
    if c.Arith? {
      var a := Eval(p, k, c.left, env, input, rules).value;
      MaskInRange(a, mask);
      assert Eval(p, k, c.right, env, input, rules) == Success(Value(SINT32, mask));
    }
  }

  lemma MaskInRange(a: Value, mask: nat)
    requires mask <= 63
    ensures 0 <= ArithValue(And, a, Value(SINT32, mask)).n <= mask
  {
    var ty := Common(a.ty, SINT32);
    FitsUnchanged(ty, mask);
    var r := BitAnd(Convert(ty, a.n) % Modulus(ty.width), mask);
    FitsUnchanged(ty, r);
    assert ArithValue(And, a, Value(SINT32, mask)).n == Convert(ty, r);
  }

  /** Converting a value the type can already hold changes nothing. */
  lemma FitsUnchanged(ty: ScalarType, n: nat)
    requires ty.Scalar? && (if ty.signed then 2 * n < Modulus(ty.width) else n < Modulus(ty.width))
    ensures Convert(ty, n) == n && n % Modulus(ty.width) == n
  {
    match ty.width case W1 => case W2 => case W4 => case W8 =>
  }

  /** `x | 1` of an unsigned type is never zero. */
  lemma OddDivisor(a: Value, ty: ScalarType)
    requires ty in UNSIGNED_DIV_TYPES && a.ty == ty && 0 <= a.n < Modulus(ty.width)
    ensures var b := ArithValue(Or, a, Value(ty, 1)); b.ty == ty && 0 < b.n < Modulus(ty.width)
  {
    Power2IsModulus(ty.width);
    OrOneBelow(a.n, Bits(ty.width));
    FitsUnchanged(ty, a.n);
    FitsUnchanged(ty, 1);
    FitsUnchanged(ty, BitOr(a.n, 1));
  }

  lemma {:induction false} OrOneBelow(a: nat, bits: nat)
    requires a < Power2(bits) && bits >= 1
    ensures 0 < BitOr(a, 1) < Power2(bits)
  {
    if a != 0 {
      assert BitOr(a / 2, 0) == a / 2;
      assert BitOr(a, 1) == 2 * BitOr(a / 2, 1 / 2) + 1;
    }
  }

  lemma Power2IsModulus(w: Width)
    ensures Power2(Bits(w)) == Modulus(w)
  {
    match w
    case W1 => Power2Doubled(4, 16);
    case W2 => Power2Doubled(4, 16); Power2Doubled(8, 0x100);
    case W4 => Power2Doubled(4, 16); Power2Doubled(8, 0x100); Power2Doubled(16, 0x1_0000);
    case W8 => Power2Doubled(4, 16); Power2Doubled(8, 0x100); Power2Doubled(16, 0x1_0000); Power2Doubled(32, 0x1_0000_0000);
  }

  // ---------- soundness ----------

  /** Resolution among every helper finds the one signature the arguments were cast to. */
  lemma ResolvesTo(sigs: seq<HelperSig>, j: nat, helper: nat, types: seq<ScalarType>)
    requires DistinctSigs(sigs) && j < |sigs| && Matches(sigs[j], helper, types)
    ensures Resolve(sigs, helper, types) == Some(j)
  {
    assert forall i :: 0 <= i < |sigs| && Matches(sigs[i], helper, types) ==> i == j;
    assert exists j' :: 0 <= j' < |sigs| && Matches(sigs[j'], helper, types)
             && forall i :: 0 <= i < |sigs| && Matches(sigs[i], helper, types) ==> i == j';
  }

  /** Arithmetic wraps, and no loop the generator emits runs out of fuel. */
  predicate Wrapping(rules: Rules) {
    !rules.strict && rules.fuel >= MAX_LOOP_BOUND
  }

  /** The place of an expression: inside helper `k`, or in the procedure. */
  ghost predicate At(p: Program, k: nat, vis: Scope, env: Env, fields: nat, input: Option<seq<int>>, rules: Rules) {
    && WFHelpers(p.helpers)
    && Agrees(env, vis)
    && Wrapping(rules)
    && fields == (if input.Some? then |input.value| else 0)
  }

  lemma {:induction false} ExprSafe(p: Program, k: nat, e: Expr, vis: Scope, env: Env, fields: nat, input: Option<seq<int>>, rules: Rules)
    requires At(p, k, vis, env, fields, input, rules)
    requires WFExpr(e, vis, Earlier(p.helpers, k), fields)
    ensures Eval(p, k, e, env, input, rules).Success?
    decreases k, 0, e
  {
    match e
    case Literal(_, _) =>
    case Var(name) =>
      var v :| v in vis && v.name == name;
    case Input(_) =>
    case Ternary(c, l, r) =>
      ExprSafe(p, k, c, vis, env, fields, input, rules);
      ExprSafe(p, k, l, vis, env, fields, input, rules);
      ExprSafe(p, k, r, vis, env, fields, input, rules);
    case Cast(_, o) =>
      ExprSafe(p, k, o, vis, env, fields, input, rules);
    case Unary(_, o) =>
      ExprSafe(p, k, o, vis, env, fields, input, rules);
    case Logic(_, l, r) =>
      ExprSafe(p, k, l, vis, env, fields, input, rules);
      ExprSafe(p, k, r, vis, env, fields, input, rules);
    case HelperCall(_, _) =>
      CallSafe(p, k, e, vis, env, fields, input, rules);
    case _ =>
      ExprSafe(p, k, e.left, vis, env, fields, input, rules);
      ExprSafe(p, k, e.right, vis, env, fields, input, rules);
      BinarySafe(p, k, e, env, input, rules);
  }

  lemma {:induction false} CallSafe(p: Program, k: nat, e: Expr, vis: Scope, env: Env, fields: nat, input: Option<seq<int>>, rules: Rules)
    requires e.HelperCall? && At(p, k, vis, env, fields, input, rules)
    requires WFExpr(e, vis, Earlier(p.helpers, k), fields)
    ensures Eval(p, k, e, env, input, rules).Success?
    decreases k, 0, e, 0
  {
    ArgsSafe(p, k, e.args, vis, env, fields, input, rules);
    var values := EvalArgs(p, k, e.args, env, input, rules).value;
    var (sigs, seen) := (Sigs(p.helpers), Earlier(p.helpers, k));
    var j :| 0 <= j < |seen| && CallsSig(e.helper, e.args, seen[j]);
    assert seen[j] == sigs[j];
    assert ValueTypes(values) == ParamTypes(sigs[j].params);
    ResolvesTo(sigs, j, e.helper, ValueTypes(values));
    InvokeSafe(p, j, values, rules);
  }

  /** Only shifts and quotients are undefined on some operands, and theirs are guarded. */
  lemma BinarySafe(p: Program, k: nat, e: Expr, env: Env, input: Option<seq<int>>, rules: Rules)
    requires Binary(e) && !rules.strict
    requires e.Shift? ==> GuardedShift(e.right, 31)
    requires e.Quotient? ==> GuardedQuotient(e.left, e.right)
    requires Eval(p, k, e.left, env, input, rules).Success? && Eval(p, k, e.right, env, input, rules).Success?
    ensures Eval(p, k, e, env, input, rules).Success?
  {
    var (a, b) := (Eval(p, k, e.left, env, input, rules).value, Eval(p, k, e.right, env, input, rules).value);
    if e.Shift? {
      GuardedShiftInRange(p, k, e.right, 31, env, input, rules);
      assert ShiftValue(e.sop, a, b).Success?;
    } else if e.Quotient? {
      GuardedDivisor(p, k, e.left, e.right, env, input, rules);
      DivisionDefined(e.qop, a, b, e.left.ty);
    }
  }

  lemma DivisionDefined(op: QuotientOp, a: Value, b: Value, ty: ScalarType)
    requires ty in UNSIGNED_DIV_TYPES && a.ty == ty && b.ty == ty && 0 < b.n < Modulus(ty.width)
    ensures QuotientValue(op, a, b).Success?
  {
    FitsUnchanged(ty, b.n);
  }

  /** Both operands carry the unsigned cast type, and the divisor is not zero. */
  lemma GuardedDivisor(p: Program, k: nat, l: Expr, r: Expr, env: Env, input: Option<seq<int>>, rules: Rules)
    requires GuardedQuotient(l, r)
    requires Eval(p, k, l, env, input, rules).Success? && Eval(p, k, r, env, input, rules).Success?
    ensures Eval(p, k, l, env, input, rules).value.ty == l.ty
    ensures var v := Eval(p, k, r, env, input, rules).value; v.ty == l.ty && 0 < v.n < Modulus(l.ty.width)
  {
    assert Eval(p, k, l.operand, env, input, rules).Success?;
    assert Eval(p, k, r.left, env, input, rules).Success? && Eval(p, k, r.left.operand, env, input, rules).Success?;
    assert Eval(p, k, r.right, env, input, rules) == Success(Value(l.ty, 1));
    OddDivisor(Eval(p, k, r.left, env, input, rules).value, l.ty);
  }

  lemma {:induction false} ArgsSafe(p: Program, k: nat, es: seq<Expr>, vis: Scope, env: Env, fields: nat, input: Option<seq<int>>, rules: Rules)
    requires At(p, k, vis, env, fields, input, rules)
    requires forall e :: e in es ==> e.Cast? && WFExpr(e, vis, Earlier(p.helpers, k), fields)
    ensures EvalArgs(p, k, es, env, input, rules).Success?
    ensures var vs := EvalArgs(p, k, es, env, input, rules).value;
            forall i :: 0 <= i < |es| ==> vs[i].ty == es[i].ty
    decreases k, 0, es
  {
    if es != [] {
      ExprSafe(p, k, es[0], vis, env, fields, input, rules);
      ArgsSafe(p, k, es[1..], vis, env, fields, input, rules);
    }
  }

  lemma {:induction false} InvokeSafe(p: Program, j: nat, values: seq<Value>, rules: Rules)
    requires WFHelpers(p.helpers) && Wrapping(rules)
    requires j < |p.helpers| && |values| == |p.helpers[j].sig.params|
    ensures Invoke(p, j, values, rules).Success?
    decreases j, 2
  {
    var h := p.helpers[j];
    var scope := ParamScope(h.sig.params);
    BindSafe(h.sig.params, values);
    var env := BindParams(h.sig.params, values);
    ListSafe(p, j, h.body, scope, env, 0, None, rules);
    var inner := ExecAll(p, j, h.body, env, None, rules).value;
    ExprSafe(p, j, h.result, scope + DeclaresAll(h.body), inner, 0, None, rules);
  }

  lemma {:induction false} StmtSafe(p: Program, k: nat, s: Stmt, vis: Scope, env: Env, fields: nat, input: Option<seq<int>>, rules: Rules)
    requires At(p, k, vis, env, fields, input, rules)
    requires WFStmt(s, vis, Earlier(p.helpers, k), fields)
    ensures RunsTo(Exec(p, k, s, env, input, rules), env, vis + Declares(s))
    decreases k, 1, s, rules.fuel + 2
  {
    hide WFExpr;
    hide StaticType;
    hide Store;
    hide Eval;
    hide Convert;
    match s
    case If(c, thn, els) =>
      ExprSafe(p, k, c, vis, env, fields, input, rules);
      BlockSafe(p, k, thn, vis, env, fields, input, rules);
      BlockSafe(p, k, els, vis, env, fields, input, rules);
      assert vis + Declares(s) == vis;
    case For(_, _, _) =>
      ForSafe(p, k, s, vis, env, fields, input, rules);
      assert vis + Declares(s) == vis;
    case Switch(_, _, _, _) =>
      SwitchSafe(p, k, s, vis, env, fields, input, rules);
      assert vis + Declares(s) == vis;
    case Block(body) =>
      BlockSafe(p, k, body, vis, env, fields, input, rules);
      assert vis + Declares(s) == vis;
    case _ =>
      SimpleSafe(p, k, s, vis, env, fields, input, rules);
  }

  /** The statements that hold no statements. */
  lemma {:induction false} SimpleSafe(p: Program, k: nat, s: Stmt, vis: Scope, env: Env, fields: nat, input: Option<seq<int>>, rules: Rules)
    requires At(p, k, vis, env, fields, input, rules)
    requires !s.If? && !s.For? && !s.Switch? && !s.Block?
    requires WFStmt(s, vis, Earlier(p.helpers, k), fields)
    ensures RunsTo(Exec(p, k, s, env, input, rules), env, vis + Declares(s))
    decreases k, 1, s, 0
  {
    assert s.Decl? || vis + Declares(s) == vis;
    if s.Step? {
      StoreSafe(env, vis, s.name, Stepped(env[s.name].n, s.up));
    } else if s.StepInto? {
      StepIntoSafe(p, k, s, vis, env, input, rules);
    } else {
      ExprSafe(p, k, s.rhs, vis, env, fields, input, rules);
      if s.CompoundShift? {
        var v :| v in vis && v.name == s.name && v.mutable && GuardedShift(s.rhs, if Promoted(v.ty).width == W8 then 63 else 31);
        GuardedShiftInRange(p, k, s.rhs, if Promoted(v.ty).width == W8 then 63 else 31, env, input, rules);
      }
      UpdateSafe(s, vis, env, Eval(p, k, s.rhs, env, input, rules).value, rules);
    }
  }

  lemma {:induction false} ForSafe(p: Program, k: nat, s: Stmt, vis: Scope, env: Env, fields: nat, input: Option<seq<int>>, rules: Rules)
    requires s.For? && At(p, k, vis, env, fields, input, rules)
    requires WFStmt(s, vis, Earlier(p.helpers, k), fields)
    ensures RunsTo(Exec(p, k, s, env, input, rules), env, vis)
    decreases k, 1, s, rules.fuel + 1
  {
    var inner := env[s.counter := Slot(SINT32, false, 0)];
    var c := LocalVar(s.counter, SINT32, false);
    assert Names(vis + {c}) == Names(vis) + {s.counter};
    LoopSafe(p, k, s, vis, inner, fields, input, rules, rules.fuel);
    LeaveSafe(Iterate(p, k, s, inner, input, rules, rules.fuel).value, env, vis, {c});
  }

  lemma {:induction false} SwitchSafe(p: Program, k: nat, s: Stmt, vis: Scope, env: Env, fields: nat, input: Option<seq<int>>, rules: Rules)
    requires s.Switch? && At(p, k, vis, env, fields, input, rules)
    requires WFStmt(s, vis, Earlier(p.helpers, k), fields)
    ensures RunsTo(Exec(p, k, s, env, input, rules), env, vis)
    decreases k, 1, s, rules.fuel + 1
  {
    ExprSafe(p, k, s.subject, vis, env, fields, input, rules);
    var v := Eval(p, k, s.subject, env, input, rules).value;
    CasesSafe(p, k, s, EntryLabel(v, s.mask, |s.cases|), vis, env, fields, input, rules);
  }

  lemma UpdateSafe(s: Stmt, vis: Scope, env: Env, x: Value, rules: Rules)
    requires Update(s) && !rules.strict && Agrees(env, vis)
    requires if s.Decl? then s.v.name !in Names(vis) else Mutable(s.name, vis)
    requires s.CompoundShift? && s.name in env ==> 0 <= x.n < Bits(Promoted(env[s.name].ty).width)
    ensures RunsTo(Updated(s, env, x, rules), env, vis + Declares(s))
  {
    hide ArithValue;
    hide Convert;
    assert s.Decl? || vis + Declares(s) == vis;
    match s
    case Decl(d, _) =>
      assert Names(vis + {d}) == Names(vis) + {d.name};
      forall v | v in vis + {d} ensures v == d || v.name != d.name {
        if v != d { assert v.name in Names(vis); }
      }
    case Assign(name, _) =>
      StoreSafe(env, vis, name, x.n);
    case Compound(name, op, _) =>
      StoreSafe(env, vis, name, ArithValue(op, Value(env[name].ty, env[name].n), x).n);
    case CompoundShift(name, op, _) =>
      StoreSafe(env, vis, name, ShiftValue(op, Value(env[name].ty, env[name].n), x).value.n);
  }

  lemma RunsOn(env: Env, mid: Env, o: Outcome<Env>, vis: Scope)
    requires RunsTo(Success(mid), env, vis) && RunsTo(o, mid, vis)
    ensures RunsTo(o, env, vis)
  {
  }

  lemma StepIntoSafe(p: Program, k: nat, s: Stmt, vis: Scope, env: Env, input: Option<seq<int>>, rules: Rules)
    requires Wrapping(rules) && Agrees(env, vis) && s.StepInto? && s.dst != s.name
    requires Mutable(s.dst, vis) && Mutable(s.name, vis) && (s.addend.Some? ==> s.addend.value.Literal?)
    ensures RunsTo(Exec(p, k, s, env, input, rules), env, vis)
  {
    hide ArithValue;
    hide Convert;
    hide KeepsReadOnly;
    var n := Stepped(env[s.name].n, s.up);
    StoreSafe(env, vis, s.name, n);
    var stepped := Store(env, s.name, n).value;
    var x := Value(env[s.name].ty, if s.prefixed then stepped[s.name].n else env[s.name].n);
    var m := match s.addend
      case None => x.n
      case Some(e) => ArithValue(Add, x, Value(LiteralType(e.value, e.suffix), e.value)).n;
    StoreSafe(stepped, vis, s.dst, m);
    RunsOn(env, stepped, Store(stepped, s.dst, m), vis);
  }

  lemma {:induction false} ListSafe(p: Program, k: nat, stmts: seq<Stmt>, vis: Scope, env: Env, fields: nat, input: Option<seq<int>>, rules: Rules)
    requires At(p, k, vis, env, fields, input, rules)
    requires WFStmts(stmts, vis, Earlier(p.helpers, k), fields)
    ensures RunsTo(ExecAll(p, k, stmts, env, input, rules), env, vis + DeclaresAll(stmts))
    decreases k, 1, stmts, 0
  {
    if stmts == [] {
      assert vis + DeclaresAll(stmts) == vis;
    } else {
      var last := |stmts| - 1;
      ListSafe(p, k, stmts[..last], vis, env, fields, input, rules);
      var mid := ExecAll(p, k, stmts[..last], env, input, rules).value;
      StmtSafe(p, k, stmts[last], vis + DeclaresAll(stmts[..last]), mid, fields, input, rules);
      assert vis + DeclaresAll(stmts) == vis + DeclaresAll(stmts[..last]) + Declares(stmts[last]);
    }
  }

  lemma {:induction false} BlockSafe(p: Program, k: nat, stmts: seq<Stmt>, vis: Scope, env: Env, fields: nat, input: Option<seq<int>>, rules: Rules)
    requires At(p, k, vis, env, fields, input, rules)
    requires WFStmts(stmts, vis, Earlier(p.helpers, k), fields)
    ensures RunsTo(ExecBlock(p, k, stmts, env, input, rules), env, vis)
    decreases k, 1, stmts, 1
  {
    ListSafe(p, k, stmts, vis, env, fields, input, rules);
    LeaveSafe(ExecAll(p, k, stmts, env, input, rules).value, env, vis, DeclaresAll(stmts));
  }

  /** `counter++` keeps the scope in step. */
  lemma CounterSteps(env: Env, vis: Scope, c: LocalVar, n: int)
    requires c.ty == SINT32 && !c.mutable && c.name !in Names(vis) && Agrees(env, vis + {c})
    ensures Agrees(env[c.name := Slot(SINT32, false, n)], vis + {c})
  {
    forall v | v in vis + {c} ensures v == c || v.name != c.name {
      if v != c { assert v.name in Names(vis); }
    }
    assert c in vis + {c};
  }

  /** The body cannot touch the counter, so `bound - counter` iterations finish the loop. */
  lemma {:induction false} LoopSafe(p: Program, k: nat, s: Stmt, vis: Scope, env: Env, fields: nat, input: Option<seq<int>>, rules: Rules, left: nat)
    requires s.For? && s.bound <= MAX_LOOP_BOUND
    requires At(p, k, vis + {LocalVar(s.counter, SINT32, false)}, env, fields, input, rules)
    requires WFStmts(s.body, vis + {LocalVar(s.counter, SINT32, false)}, Earlier(p.helpers, k), fields)
    requires s.counter !in Names(vis)
    requires s.counter in env && 0 <= env[s.counter].n && s.bound <= env[s.counter].n + left
    requires env[s.counter].n <= MAX_LOOP_BOUND
    ensures LoopsTo(Iterate(p, k, s, env, input, rules, left), env, s.counter, vis + {LocalVar(s.counter, SINT32, false)})
    decreases k, 1, s, left
  {
    hide ExecBlock;
    hide WFStmts;
    hide Earlier;
    hide WFHelpers;
    hide Convert;
    var c := LocalVar(s.counter, SINT32, false);
    assert c in vis + {c};
    if env[s.counter].n < s.bound {
      BlockSafe(p, k, s.body, vis + {c}, env, fields, input, rules);
      var after := ExecBlock(p, k, s.body, env, input, rules).value;
      assert after[s.counter] == env[s.counter];
      FitsUnchanged(SINT32, env[s.counter].n + 1);
      var env' := after[s.counter := Slot(SINT32, false, env[s.counter].n + 1)];
      CounterSteps(after, vis, c, env[s.counter].n + 1);
      LoopSafe(p, k, s, vis, env', fields, input, rules, left - 1);
      assert Iterate(p, k, s, env, input, rules, left) == Iterate(p, k, s, env', input, rules, left - 1);
    }
  }

  /** As RunsTo, but the loop's own counter has moved. */
  ghost predicate LoopsTo(o: Outcome<Env>, env: Env, counter: Name, vis: Scope) {
    && o.Success? && Agrees(o.value, vis)
    && forall n :: n in env && n != counter && !env[n].mutable ==> n in o.value && o.value[n] == env[n]
  }

  lemma {:induction false} CasesSafe(p: Program, k: nat, s: Stmt, at: nat, vis: Scope, env: Env, fields: nat, input: Option<seq<int>>, rules: Rules)
    requires s.Switch? && at <= |s.cases|
    requires At(p, k, vis, env, fields, input, rules)
    requires WFStmt(s, vis, Earlier(p.helpers, k), fields)
    ensures RunsTo(ExecCases(p, k, s, at, env, input, rules), env, vis)
    decreases k, 1, s, 0, |s.cases| - at
  {
    if at == |s.cases| {
      StmtSafe(p, k, s.fallback, vis, env, fields, input, rules);
      assert vis + Declares(s.fallback) == vis;
    } else {
      var c := s.cases[at];
      assert c in s.cases;
      ListSafe(p, k, c.stmts, vis, env, fields, input, rules);
      AssignsDeclareNothing(c.stmts);
      assert vis + DeclaresAll(c.stmts) == vis;
      var after := ExecAll(p, k, c.stmts, env, input, rules).value;
      if !c.breaks {
        CasesSafe(p, k, s, at + 1, vis, after, fields, input, rules);
      }
    }
  }

  lemma AssignsDeclareNothing(stmts: seq<Stmt>)
    requires forall t :: t in stmts ==> t.Assign?
    ensures DeclaresAll(stmts) == {}
  {
    if stmts != [] {
      assert stmts[|stmts| - 1] in stmts;
      AssignsDeclareNothing(stmts[..|stmts| - 1]);
    }
  }

  lemma {:induction false} FoldSafe(tops: seq<Name>, env: Env, fields: seq<int>)
    requires |fields| == 8 && forall t :: t in tops ==> t in env
    ensures Fold(tops, env, fields).Success? && |Fold(tops, env, fields).value| == 8
  {
    if tops != [] {
      FoldSafe(tops[..|tops| - 1], env, fields);
      assert tops[|tops| - 1] in tops;
    }
  }

  /** Every well-formed contract runs to its end on every input and every starting state. */
  lemma ProgramNeverFaults(p: Program, input: seq<int>, fields: seq<int>)
    requires WFProgram(p) && |input| == 4 && |fields| == 8
    ensures Run(p, input, fields, WRAPPING).Success?
  {
    var k := |p.helpers|;
    assert Earlier(p.helpers, k) == Sigs(p.helpers);
    ListSafe(p, k, p.body, {}, map[], 4, Some(input), WRAPPING);
    var env := ExecAll(p, k, p.body, map[], Some(input), WRAPPING).value;
    assert {} + DeclaresAll(p.body) == DeclaresAll(p.body);
    FoldSafe(p.tops, env, fields);
  }
}
