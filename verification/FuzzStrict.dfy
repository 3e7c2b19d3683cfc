/** Signed overflow is all that the strict rules add: a strict run ends as the wrapping run does, or stops at one. */
module FuzzStrict {
  import opened Wrappers
  import opened FuzzProgram
  import opened FuzzSoundness

  ghost predicate Follows<T(!new)>(strict: Outcome<T>, wrapping: Outcome<T>) {
    strict == wrapping || strict == Failure(SignedOverflow)
  }

  ghost predicate ExprFollows(p: Program, k: nat, e: Expr, env: Env, input: Option<seq<int>>, fuel: nat)
  {
    Follows(Eval(p, k, e, env, input, Rules(fuel, true)), Eval(p, k, e, env, input, Rules(fuel, false)))
  }

  lemma {:induction false} FollowExpr(p: Program, k: nat, e: Expr, env: Env, input: Option<seq<int>>, fuel: nat)
    ensures ExprFollows(p, k, e, env, input, fuel)
    decreases k, 0, e
  {
    hide StaticType;
    hide Convert;
    hide NegOverflows;
    match e
    case Literal(_, _) =>
    case Var(_) =>
    case Input(_) =>
    case Ternary(c, l, r) =>
      FollowExpr(p, k, c, env, input, fuel);
      FollowExpr(p, k, l, env, input, fuel);
      FollowExpr(p, k, r, env, input, fuel);
      FollowParts(p, k, e, env, input, fuel);
    case Cast(_, o) => FollowExpr(p, k, o, env, input, fuel);
    case Unary(_, o) => FollowExpr(p, k, o, env, input, fuel);
    case HelperCall(_, args) => FollowCall(p, k, e, env, input, fuel);
    case _ =>
      FollowExpr(p, k, e.left, env, input, fuel);
      FollowExpr(p, k, e.right, env, input, fuel);
      FollowParts(p, k, e, env, input, fuel);
  }

  lemma FollowParts(p: Program, k: nat, e: Expr, env: Env, input: Option<seq<int>>, fuel: nat)
    requires Binary(e) || e.Logic? || (e.Ternary? && ExprFollows(p, k, e.cond, env, input, fuel))
    requires ExprFollows(p, k, e.left, env, input, fuel) && ExprFollows(p, k, e.right, env, input, fuel)
    ensures ExprFollows(p, k, e, env, input, fuel)
  {
    hide ArithOverflows;
    hide ArithValue;
    hide CompareValue;
    hide ShiftValue;
    hide QuotientValue;
    hide MathValue;
    hide StaticType;
    hide Convert;
  }

  lemma {:induction false} FollowArgs(p: Program, k: nat, es: seq<Expr>, env: Env, input: Option<seq<int>>, fuel: nat)
    ensures Follows(EvalArgs(p, k, es, env, input, Rules(fuel, true)), EvalArgs(p, k, es, env, input, Rules(fuel, false)))
    decreases k, 0, es
  {
    if es != [] {
      FollowExpr(p, k, es[0], env, input, fuel);
      FollowArgs(p, k, es[1..], env, input, fuel);
    }
  }

  lemma {:induction false} FollowCall(p: Program, k: nat, e: Expr, env: Env, input: Option<seq<int>>, fuel: nat)
    requires e.HelperCall?
    ensures ExprFollows(p, k, e, env, input, fuel)
    decreases k, 0, e, 0
  {
    FollowArgs(p, k, e.args, env, input, fuel);
    var args := EvalArgs(p, k, e.args, env, input, Rules(fuel, false));
    if args.Success? {
      var found := Resolve(Sigs(p.helpers), e.helper, ValueTypes(args.value));
      if found.Some? && found.value < k {
        FollowInvoke(p, found.value, args.value, fuel);
      }
    }
  }

  lemma {:induction false} FollowInvoke(p: Program, j: nat, values: seq<Value>, fuel: nat)
    requires j < |p.helpers| && |values| == |p.helpers[j].sig.params|
    ensures Follows(Invoke(p, j, values, Rules(fuel, true)), Invoke(p, j, values, Rules(fuel, false)))
    decreases j, 2
  {
    var h := p.helpers[j];
    var env := BindParams(h.sig.params, values);
    FollowList(p, j, h.body, env, None, fuel);
    var after := ExecAll(p, j, h.body, env, None, Rules(fuel, false));
    if after.Success? {
      FollowExpr(p, j, h.result, after.value, None, fuel);
    }
  }

  ghost predicate StmtFollows(p: Program, k: nat, s: Stmt, env: Env, input: Option<seq<int>>, fuel: nat)
  {
    Follows(Exec(p, k, s, env, input, Rules(fuel, true)), Exec(p, k, s, env, input, Rules(fuel, false)))
  }

  lemma {:induction false} FollowStmt(p: Program, k: nat, s: Stmt, env: Env, input: Option<seq<int>>, fuel: nat)
    ensures StmtFollows(p, k, s, env, input, fuel)
    decreases k, 1, s, fuel + 2
  {
    match s
    case If(c, thn, els) =>
      FollowExpr(p, k, c, env, input, fuel);
      FollowBlock(p, k, thn, env, input, fuel);
      FollowBlock(p, k, els, env, input, fuel);
    case For(counter, _, _) =>
      FollowLoop(p, k, s, env[counter := Slot(SINT32, false, 0)], input, fuel, fuel);
    case Switch(subject, mask, cases, _) =>
      FollowExpr(p, k, subject, env, input, fuel);
      var o := Eval(p, k, subject, env, input, Rules(fuel, false));
      if o.Success? {
        FollowCases(p, k, s, EntryLabel(o.value, mask, |cases|), env, input, fuel);
      }
    case Block(body) =>
      FollowBlock(p, k, body, env, input, fuel);
    case _ =>
      FollowSimple(p, k, s, env, input, fuel);
  }

  lemma {:induction false} FollowSimple(p: Program, k: nat, s: Stmt, env: Env, input: Option<seq<int>>, fuel: nat)
    requires !s.If? && !s.For? && !s.Switch? && !s.Block?
    ensures StmtFollows(p, k, s, env, input, fuel)
    decreases k, 1, s, 1
  {
    hide ArithOverflows;
    hide ArithValue;
    hide ShiftValue;
    hide Convert;
    hide StepOverflows;
    if s.StepInto? {
      if s.name in env && s.addend.Some? {
        var o := StepSlot(env, s.name, s.up, Rules(fuel, false));
        if o.Success? {
          FollowExpr(p, k, s.addend.value, o.value, input, fuel);
        }
      }
    } else if !s.Step? {
      FollowExpr(p, k, s.rhs, env, input, fuel);
    }
  }

  lemma {:induction false} FollowList(p: Program, k: nat, stmts: seq<Stmt>, env: Env, input: Option<seq<int>>, fuel: nat)
    ensures Follows(ExecAll(p, k, stmts, env, input, Rules(fuel, true)), ExecAll(p, k, stmts, env, input, Rules(fuel, false)))
    decreases k, 1, stmts, 0
  {
    if stmts != [] {
      var last := |stmts| - 1;
      FollowList(p, k, stmts[..last], env, input, fuel);
      var o := ExecAll(p, k, stmts[..last], env, input, Rules(fuel, false));
      if o.Success? {
        FollowStmt(p, k, stmts[last], o.value, input, fuel);
      }
    }
  }

  lemma {:induction false} FollowBlock(p: Program, k: nat, stmts: seq<Stmt>, env: Env, input: Option<seq<int>>, fuel: nat)
    ensures Follows(ExecBlock(p, k, stmts, env, input, Rules(fuel, true)), ExecBlock(p, k, stmts, env, input, Rules(fuel, false)))
    decreases k, 1, stmts, 1
  {
    FollowList(p, k, stmts, env, input, fuel);
  }

  lemma {:induction false} FollowLoop(p: Program, k: nat, s: Stmt, env: Env, input: Option<seq<int>>, fuel: nat, left: nat)
    requires s.For?
    ensures Follows(Iterate(p, k, s, env, input, Rules(fuel, true), left), Iterate(p, k, s, env, input, Rules(fuel, false), left))
    decreases k, 1, s, left
  {
    hide ExecBlock;
    hide StepOverflows;
    if s.counter in env && env[s.counter].n < s.bound && left != 0 {
      FollowBlock(p, k, s.body, env, input, fuel);
      var o := ExecBlock(p, k, s.body, env, input, Rules(fuel, false));
      if o.Success? && s.counter in o.value {
        var next := Slot(SINT32, false, Convert(SINT32, o.value[s.counter].n + 1));
        FollowLoop(p, k, s, o.value[s.counter := next], input, fuel, left - 1);
      }
    }
  }

  lemma {:induction false} FollowCases(p: Program, k: nat, s: Stmt, at: nat, env: Env, input: Option<seq<int>>, fuel: nat)
    requires s.Switch? && at <= |s.cases|
    ensures Follows(ExecCases(p, k, s, at, env, input, Rules(fuel, true)), ExecCases(p, k, s, at, env, input, Rules(fuel, false)))
    decreases k, 1, s, 0, |s.cases| - at
  {
    if at == |s.cases| {
      FollowStmt(p, k, s.fallback, env, input, fuel);
    } else {
      var c := s.cases[at];
      FollowList(p, k, c.stmts, env, input, fuel);
      var o := ExecAll(p, k, c.stmts, env, input, Rules(fuel, false));
      if o.Success? && !c.breaks {
        FollowCases(p, k, s, at + 1, o.value, input, fuel);
      }
    }
  }

  /** Under the strict rules, as in C++, a program within the generator's rules either runs to its end, with the result
      of the wrapping run, or stops at a signed overflow: no other fault is possible. */
  lemma OnlyOverflowStops(p: Program, input: seq<int>, fields: seq<int>)
    requires WFProgram(p) && |input| == 4 && |fields| == 8
    ensures Run(p, input, fields, STRICT).Success? ==> Run(p, input, fields, STRICT) == Run(p, input, fields, WRAPPING)
    ensures Run(p, input, fields, STRICT).Failure? ==> Run(p, input, fields, STRICT) == Failure(SignedOverflow)
  {
    ProgramNeverFaults(p, input, fields);
    FollowList(p, |p.helpers|, p.body, map[], Some(input), MAX_LOOP_BOUND);
  }
}
