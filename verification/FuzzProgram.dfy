/** The programs the differential fuzzer emits (packages/compiler/tools/fuzz-gen.ts), as syntax trees
    instead of text, with the meaning C++20 gives them: usual arithmetic conversions, block scoping, switch
    fall-through, overloads resolved by exact parameter types. Whatever the generator must avoid is a fault. */
module FuzzProgram {
  import opened Words
  import opened Wrappers

  datatype Width = W1 | W2 | W4 | W8

  /** `bit` is QPI's spelling of bool, so it is also the type of a comparison. */
  datatype ScalarType = Scalar(width: Width, signed: bool) | Bit

  const SINT32 := Scalar(W4, true)
  const UINT64 := Scalar(W8, false)

  const TYPES: seq<ScalarType> := [
    Scalar(W1, true), Scalar(W1, false), Scalar(W2, true), Scalar(W2, false),
    Scalar(W4, true), Scalar(W4, false), Scalar(W8, true), Scalar(W8, false)]
  const SAFE_MATH_TYPES: seq<ScalarType> := TYPES[4..]
  const UNSIGNED_DIV_TYPES: seq<ScalarType> := [Scalar(W4, false), Scalar(W8, false)]

  /** `l3`, `i4`, `p0`: one prefix letter and the value the name counter had. */
  datatype Name = Name(prefix: char, id: nat)
  datatype LocalVar = LocalVar(name: Name, ty: ScalarType, mutable: bool)
  datatype Param = Param(name: Name, ty: ScalarType)

  datatype Suffix = NoSuffix | U | LL | ULL
  datatype ArithOp = Add | Sub | Mul | And | Or | Xor
  datatype CompareOp = Lt | Gt | Le | Ge | Eq | Ne
  datatype ShiftOp = Shl | Shr
  datatype QuotientOp = Div | Mod
  datatype UnaryOp = Neg | Inv | Not
  datatype LogicOp = AndAlso | OrElse
  datatype MathFn = SAdd | SMul | SafeDiv | SafeMod | Min | Max

  datatype Expr =
    | Literal(value: nat, suffix: Suffix)
    | Var(name: Name)
    | Input(field: nat)
    | Arith(aop: ArithOp, left: Expr, right: Expr)
    | Compare(cop: CompareOp, left: Expr, right: Expr)
    | Shift(sop: ShiftOp, left: Expr, right: Expr)
    | Quotient(qop: QuotientOp, left: Expr, right: Expr)
    | Ternary(cond: Expr, left: Expr, right: Expr)
    | Cast(ty: ScalarType, operand: Expr)
    | Unary(uop: UnaryOp, operand: Expr)
    | Logic(lop: LogicOp, left: Expr, right: Expr)
    | MathCall(fn: MathFn, left: Expr, right: Expr)
    | HelperCall(helper: nat, args: seq<Expr>)

  datatype Stmt =
    | Decl(v: LocalVar, rhs: Expr)
    | Assign(name: Name, rhs: Expr)
    | Compound(name: Name, aop: ArithOp, rhs: Expr)
    | CompoundShift(name: Name, sop: ShiftOp, rhs: Expr)
    | Step(name: Name, up: bool)
    /** `dst = name++;` or `dst = (++name) + addend;` */
    | StepInto(dst: Name, name: Name, up: bool, prefixed: bool, addend: Option<Expr>)
    | If(cond: Expr, thn: seq<Stmt>, els: seq<Stmt>)
    | For(counter: Name, bound: nat, body: seq<Stmt>)
    | Switch(subject: Expr, mask: nat, cases: seq<Case>, fallback: Stmt)
    | Block(body: seq<Stmt>)
  datatype Case = Case(stmts: seq<Stmt>, breaks: bool)

  datatype HelperSig = HelperSig(name: nat, ret: ScalarType, params: seq<Param>)
  datatype Helper = Helper(sig: HelperSig, body: seq<Stmt>, result: Expr)
  /** `tops` are the procedure's top-level locals, folded into the eight state fields at the end. */
  datatype Program = Program(helpers: seq<Helper>, body: seq<Stmt>, tops: seq<Name>)

  // ---------- values ----------

  datatype Value = Value(ty: ScalarType, n: int)

  function Modulus(w: Width): (m: int)
    ensures m >= 256
  {
    match w
    case W1 => 0x100
    case W2 => 0x1_0000
    case W4 => 0x1_0000_0000
    case W8 => 0x1_0000_0000_0000_0000
  }

  function Bits(w: Width): nat {
    match w case W1 => 8 case W2 => 16 case W4 => 32 case W8 => 64
  }

  /** C++ conversion of an integer to a type; two's complement for the signed ones. */
  function Convert(ty: ScalarType, n: int): (r: int)
    ensures ty.Scalar? && ty.signed ==> -Modulus(ty.width) <= 2 * r < Modulus(ty.width)
    ensures ty.Scalar? && !ty.signed ==> 0 <= r < Modulus(ty.width)
  {
    match ty
    case Bit => if n != 0 then 1 else 0
    case Scalar(w, signed) =>
      var m := n % Modulus(w);
      if signed && 2 * m >= Modulus(w) then m - Modulus(w) else m
  }

  /** What integral promotion leaves: sint32 for everything narrower. */
  function Promoted(ty: ScalarType): (r: ScalarType)
    ensures r.Scalar? && r.width in {W4, W8}
  {
    if ty.Scalar? && ty.width in {W4, W8} then ty else SINT32
  }

  /** The usual arithmetic conversions. */
  function Common(a: ScalarType, b: ScalarType): (r: ScalarType)
    ensures r.Scalar? && r.width in {W4, W8}
  {
    var (x, y) := (Promoted(a), Promoted(b));
    if x.width == y.width then Scalar(x.width, x.signed && y.signed)
    else if x.width == W8 then x else y
  }

  function LiteralType(v: nat, suffix: Suffix): ScalarType {
    match suffix
    case NoSuffix => if v < 0x8000_0000 then SINT32 else Scalar(W8, true)
    case U => if v < 0x1_0000_0000 then Scalar(W4, false) else UINT64
    case LL => Scalar(W8, true)
    case ULL => UINT64
  }

  function ArithValue(op: ArithOp, a: Value, b: Value): Value {
    var ty := Common(a.ty, b.ty);
    var m := Modulus(ty.width);
    var (x, y) := (Convert(ty, a.n), Convert(ty, b.n));
    Value(ty, Convert(ty, match op
      case Add => x + y
      case Sub => x - y
      case Mul => x * y
      case And => BitAnd(x % m, y % m)
      case Or => BitOr(x % m, y % m)
      case Xor => BitXor(x % m, y % m)))
  }

  /** The type can hold the value. */
  predicate InRange(ty: ScalarType, n: int) {
    match ty
    case Bit => 0 <= n <= 1
    case Scalar(w, signed) => if signed then -Modulus(w) <= 2 * n < Modulus(w) else 0 <= n < Modulus(w)
  }

  /** The exact sum, difference or product does not fit a signed common type. */
  predicate ArithOverflows(op: ArithOp, a: Value, b: Value) {
    var ty := Common(a.ty, b.ty);
    var (x, y) := (Convert(ty, a.n), Convert(ty, b.n));
    ty.signed && match op
      case Add => !InRange(ty, x + y)
      case Sub => !InRange(ty, x - y)
      case Mul => !InRange(ty, x * y)
      case _ => false
  }

  predicate NegOverflows(a: Value) {
    var ty := Promoted(a.ty);
    ty.signed && !InRange(ty, -Convert(ty, a.n))
  }

  function Stepped(n: int, up: bool): int {
    if up then n + 1 else n - 1
  }

  /** `++` and `--` step in the promoted type. */
  predicate StepOverflows(ty: ScalarType, n: int, up: bool) {
    Promoted(ty).signed && !InRange(Promoted(ty), Stepped(n, up))
  }

  function CompareValue(op: CompareOp, a: Value, b: Value): Value {
    var ty := Common(a.ty, b.ty);
    var (x, y) := (Convert(ty, a.n), Convert(ty, b.n));
    var holds := match op
      case Lt => x < y case Gt => x > y case Le => x <= y
      case Ge => x >= y case Eq => x == y case Ne => x != y;
    Value(Bit, if holds then 1 else 0)
  }

  function UnaryValue(op: UnaryOp, a: Value): Value {
    var ty := Promoted(a.ty);
    match op
    case Neg => Value(ty, Convert(ty, -Convert(ty, a.n)))
    case Inv => Value(ty, Convert(ty, -1 - Convert(ty, a.n)))
    case Not => Value(Bit, if a.n == 0 then 1 else 0)
  }

  function Clamp(ty: ScalarType, n: int): int
    requires ty.Scalar?
  {
    var lo := if ty.signed then -(Modulus(ty.width) / 2) else 0;
    var hi := if ty.signed then Modulus(ty.width) / 2 - 1 else Modulus(ty.width) - 1;
    if n < lo then lo else if n > hi then hi else n
  }

  /** The QPI helpers: sadd/smul saturate, div/mod answer 0 for a zero divisor. Both operands carry the cast type. */
  function MathValue(fn: MathFn, a: Value, b: Value): Value {
    var ty := Promoted(a.ty);
    match fn
    case SAdd => Value(ty, Clamp(ty, a.n + b.n))
    case SMul => Value(ty, Clamp(ty, a.n * b.n))
    case SafeDiv => Value(a.ty, Convert(a.ty, if b.n == 0 then 0 else a.n / b.n))
    case SafeMod => Value(a.ty, Convert(a.ty, if b.n == 0 then 0 else a.n % b.n))
    case Min => Value(a.ty, Convert(a.ty, if a.n < b.n then a.n else b.n))
    case Max => Value(a.ty, Convert(a.ty, if a.n > b.n then a.n else b.n))
  }

  // ---------- evaluation ----------

  datatype Fault =
    | Unbound | ReadOnly | Redeclared | NoInput
    | DivisionByZero | ShiftOutOfRange | Unsequenced
    | UnresolvedCall | RecursiveCall | RunawayLoop | SignedOverflow

  /** How to run: `fuel` bounds the iterations of one loop, nothing else. A strict run stops where a signed sum,
      difference, product or negation does not fit its type, which C++ leaves undefined; otherwise the result wraps. */
  datatype Rules = Rules(fuel: nat, strict: bool)

  datatype Slot = Slot(ty: ScalarType, mutable: bool, n: int)
  type Env = map<Name, Slot>
  type Outcome<T> = Result<T, Fault>

  function ArithOutcome(op: ArithOp, a: Value, b: Value, rules: Rules): Outcome<Value> {
    if rules.strict && ArithOverflows(op, a, b) then Failure(SignedOverflow) else Success(ArithValue(op, a, b))
  }

  function UnaryOutcome(op: UnaryOp, a: Value, rules: Rules): Outcome<Value> {
    if rules.strict && op == Neg && NegOverflows(a) then Failure(SignedOverflow) else Success(UnaryValue(op, a))
  }

  function ShiftValue(op: ShiftOp, a: Value, count: Value): Outcome<Value> {
    var ty := Promoted(a.ty);
    if !(0 <= count.n < Bits(ty.width)) then Failure(ShiftOutOfRange)
    else
      var x := Convert(ty, a.n);
      var p := Power2(count.n);
      Success(Value(ty, Convert(ty, if op == Shl then x * p else x / p)))
  }

  function QuotientValue(op: QuotientOp, a: Value, b: Value): Outcome<Value> {
    var ty := Common(a.ty, b.ty);
    var (x, y) := (Convert(ty, a.n), Convert(ty, b.n));
    if y == 0 then Failure(DivisionByZero)
    else Success(Value(ty, Convert(ty, if op == Div then TruncatedDiv(x, y) else x - y * TruncatedDiv(x, y))))
  }

  /** C++ division truncates toward zero. */
  function TruncatedDiv(x: int, y: int): int
    requires y != 0
  {
    if x >= 0 then x / y else -((-x) / y)
  }

  function Sigs(helpers: seq<Helper>): (r: seq<HelperSig>)
    ensures |r| == |helpers|
    ensures forall i :: 0 <= i < |r| ==> r[i] == helpers[i].sig
  {
    seq(|helpers|, i requires 0 <= i < |helpers| => helpers[i].sig)
  }

  function ParamTypes(params: seq<Param>): (r: seq<ScalarType>)
    ensures |r| == |params|
    ensures forall i :: 0 <= i < |r| ==> r[i] == params[i].ty
  {
    seq(|params|, i requires 0 <= i < |params| => params[i].ty)
  }

  predicate Matches(sig: HelperSig, helper: nat, types: seq<ScalarType>) {
    sig.name == helper && ParamTypes(sig.params) == types
  }

  /** Overload resolution among every helper of the contract: exactly one exact match, or none. */
  ghost function Resolve(sigs: seq<HelperSig>, helper: nat, types: seq<ScalarType>): (r: Option<nat>)
    ensures r.Some? ==> r.value < |sigs| && Matches(sigs[r.value], helper, types)
  {
    if exists j :: 0 <= j < |sigs| && Matches(sigs[j], helper, types)
                   && forall i :: 0 <= i < |sigs| && Matches(sigs[i], helper, types) ==> i == j
    then
      var j :| 0 <= j < |sigs| && Matches(sigs[j], helper, types)
               && forall i :: 0 <= i < |sigs| && Matches(sigs[i], helper, types) ==> i == j;
      Some(j)
    else None
  }

  function ValueTypes(values: seq<Value>): (r: seq<ScalarType>)
    ensures |r| == |values|
    ensures forall i :: 0 <= i < |r| ==> r[i] == values[i].ty
  {
    seq(|values|, i requires 0 <= i < |values| => values[i].ty)
  }

  function BindParams(params: seq<Param>, values: seq<Value>): Env
    requires |params| == |values|
  {
    if params == [] then map[]
    else
      var last := |params| - 1;
      BindParams(params[..last], values[..last])[params[last].name :=
        Slot(params[last].ty, false, values[last].n)]
  }

  // ---------- static types ----------

  type TypeMap = map<Name, ScalarType>

  function Types(env: Env): TypeMap {
    map n | n in env :: env[n].ty
  }

  /** The type of `c ? a : b`: the branches' own type when it is the same, otherwise their common type. */
  function BranchType(a: ScalarType, b: ScalarType): ScalarType {
    if a == b then a else Common(a, b)
  }

  /** Operators that always evaluate both operands. */
  predicate Binary(e: Expr) {
    e.Arith? || e.Compare? || e.Shift? || e.Quotient? || e.MathCall?
  }

  function BinaryType(e: Expr, a: ScalarType, b: ScalarType): ScalarType
    requires Binary(e)
  {
    match e
    case Compare(_, _, _) => Bit
    case Shift(_, _, _) => Promoted(a)
    case MathCall(fn, _, _) => if fn in {SAdd, SMul} then Promoted(a) else a
    case _ => Common(a, b)
  }

  ghost function StaticType(e: Expr, tys: TypeMap, sigs: seq<HelperSig>): ScalarType
    decreases e
  {
    match e
    case Literal(v, suffix) => LiteralType(v, suffix)
    case Var(name) => if name in tys then tys[name] else SINT32
    case Input(_) => UINT64
    case Ternary(_, l, r) => BranchType(StaticType(l, tys, sigs), StaticType(r, tys, sigs))
    case Cast(ty, _) => ty
    case Unary(op, o) => if op == Not then Bit else Promoted(StaticType(o, tys, sigs))
    case Logic(_, _, _) => Bit
    case HelperCall(helper, args) =>
      (match Resolve(sigs, helper, StaticTypes(args, tys, sigs))
       case Some(j) => sigs[j].ret
       case None => SINT32)
    case _ => BinaryType(e, StaticType(e.left, tys, sigs), StaticType(e.right, tys, sigs))
  }

  ghost function StaticTypes(es: seq<Expr>, tys: TypeMap, sigs: seq<HelperSig>): (r: seq<ScalarType>)
    ensures |r| == |es|
    decreases es
  {
    if es == [] then [] else [StaticType(es[0], tys, sigs)] + StaticTypes(es[1..], tys, sigs)
  }

  // ---------- expressions and statements ----------

  function BinaryOutcome(e: Expr, a: Value, b: Value, rules: Rules): Outcome<Value>
    requires Binary(e)
  {
    match e
    case Arith(op, _, _) => ArithOutcome(op, a, b, rules)
    case Compare(op, _, _) => Success(CompareValue(op, a, b))
    case Shift(op, _, _) => ShiftValue(op, a, b)
    case Quotient(op, _, _) => QuotientValue(op, a, b)
    case MathCall(fn, _, _) => Success(MathValue(fn, a, b))
  }

  /** Evaluation inside helper number `k`, or inside the procedure when `k` is the number of helpers.
      Only the procedure has an input. */
  ghost function Eval(p: Program, k: nat, e: Expr, env: Env, input: Option<seq<int>>, rules: Rules): Outcome<Value>
    decreases k, 0, e
  {
    match e
    case Literal(v, suffix) => Success(Value(LiteralType(v, suffix), v))
    case Var(name) => if name in env then Success(Value(env[name].ty, env[name].n)) else Failure(Unbound)
    case Input(field) =>
      if input.Some? && field < |input.value| then Success(Value(UINT64, Convert(UINT64, input.value[field])))
      else Failure(NoInput)
    case Ternary(c, l, r) =>
      (match Eval(p, k, c, env, input, rules)
       case Failure(f) => Failure(f)
       case Success(v) =>
         match Eval(p, k, if v.n != 0 then l else r, env, input, rules)
         case Failure(f) => Failure(f)
         case Success(x) =>
           var (tys, sigs) := (Types(env), Sigs(p.helpers));
           var ty := BranchType(StaticType(l, tys, sigs), StaticType(r, tys, sigs));
           Success(Value(ty, Convert(ty, x.n))))
    case Cast(ty, o) =>
      (match Eval(p, k, o, env, input, rules)
       case Failure(f) => Failure(f)
       case Success(v) => Success(Value(ty, Convert(ty, v.n))))
    case Unary(op, o) =>
      (match Eval(p, k, o, env, input, rules)
       case Failure(f) => Failure(f)
       case Success(v) => UnaryOutcome(op, v, rules))
    case Logic(op, l, r) =>
      (match Eval(p, k, l, env, input, rules)
       case Failure(f) => Failure(f)
       case Success(a) =>
         if (op == AndAlso) == (a.n == 0) then Success(Value(Bit, if op == AndAlso then 0 else 1))
         else
           match Eval(p, k, r, env, input, rules)
           case Failure(f) => Failure(f)
           case Success(b) => Success(Value(Bit, if b.n != 0 then 1 else 0)))
    case HelperCall(helper, args) =>
      (match EvalArgs(p, k, args, env, input, rules)
       case Failure(f) => Failure(f)
       case Success(values) =>
         match Resolve(Sigs(p.helpers), helper, ValueTypes(values))
         case None => Failure(UnresolvedCall)
         case Some(j) => if j >= k then Failure(RecursiveCall) else Invoke(p, j, values, rules))
    case _ =>
      match Eval(p, k, e.left, env, input, rules)
      case Failure(f) => Failure(f)
      case Success(a) =>
        match Eval(p, k, e.right, env, input, rules)
        case Failure(f) => Failure(f)
        case Success(b) => BinaryOutcome(e, a, b, rules)
  }

  ghost function EvalArgs(p: Program, k: nat, es: seq<Expr>, env: Env, input: Option<seq<int>>, rules: Rules): (r: Outcome<seq<Value>>)
    ensures r.Success? ==> |r.value| == |es|
    decreases k, 0, es
  {
    if es == [] then Success([])
    else
      match Eval(p, k, es[0], env, input, rules)
      case Failure(f) => Failure(f)
      case Success(v) =>
        match EvalArgs(p, k, es[1..], env, input, rules)
        case Failure(f) => Failure(f)
        case Success(vs) => Success([v] + vs)
  }

  /** Runs helper number `j`; it may call only the helpers before it. */
  ghost function Invoke(p: Program, j: nat, values: seq<Value>, rules: Rules): Outcome<Value>
    requires j < |p.helpers| && |values| == |p.helpers[j].sig.params|
    decreases j, 2
  {
    var h := p.helpers[j];
    match ExecAll(p, j, h.body, BindParams(h.sig.params, values), None, rules)
    case Failure(f) => Failure(f)
    case Success(env) =>
      match Eval(p, j, h.result, env, None, rules)
      case Failure(f) => Failure(f)
      case Success(v) => Success(Value(h.sig.ret, Convert(h.sig.ret, v.n)))
  }

  /** Leaving a block: the names it declared go out of scope. */
  function Leave(inner: Env, outer: Env): Env {
    map n | n in inner && n in outer :: inner[n]
  }

  function Store(env: Env, name: Name, n: int): Outcome<Env> {
    if name !in env then Failure(Unbound)
    else if !env[name].mutable then Failure(ReadOnly)
    else Success(env[name := Slot(env[name].ty, true, Convert(env[name].ty, n))])
  }

  function StepSlot(env: Env, name: Name, up: bool, rules: Rules): Outcome<Env>
    requires name in env
  {
    if rules.strict && StepOverflows(env[name].ty, env[name].n, up) then Failure(SignedOverflow)
    else Store(env, name, Stepped(env[name].n, up))
  }

  function StoreOutcome(env: Env, name: Name, o: Outcome<Value>): Outcome<Env> {
    match o
    case Failure(f) => Failure(f)
    case Success(x) => Store(env, name, x.n)
  }

  /** Statements that evaluate one operand and write one name. */
  predicate Update(s: Stmt) {
    s.Decl? || s.Assign? || s.Compound? || s.CompoundShift?
  }

  /** What such a statement does with its operand's value. */
  function Updated(s: Stmt, env: Env, x: Value, rules: Rules): Outcome<Env>
    requires Update(s)
  {
    match s
    case Decl(v, _) =>
      if v.name in env then Failure(Redeclared) else Success(env[v.name := Slot(v.ty, v.mutable, Convert(v.ty, x.n))])
    case Assign(name, _) => Store(env, name, x.n)
    case Compound(name, op, _) =>
      if name !in env then Failure(Unbound)
      else StoreOutcome(env, name, ArithOutcome(op, Value(env[name].ty, env[name].n), x, rules))
    case CompoundShift(name, op, _) =>
      if name !in env then Failure(Unbound)
      else StoreOutcome(env, name, ShiftValue(op, Value(env[name].ty, env[name].n), x))
  }

  /** Where `switch ((sint32)((subject) & mask))` enters: a case label, or the default. */
  function EntryLabel(subject: Value, mask: nat, cases: nat): (at: nat)
    ensures at <= cases
  {
    var entry := Convert(SINT32, ArithValue(And, subject, Value(LiteralType(mask, NoSuffix), mask)).n);
    if 0 <= entry < cases then entry else cases
  }

  ghost function Exec(p: Program, k: nat, s: Stmt, env: Env, input: Option<seq<int>>, rules: Rules): Outcome<Env>
    decreases k, 1, s, rules.fuel + 1
  {
    match s
    case Step(name, up) =>
      if name !in env then Failure(Unbound) else StepSlot(env, name, up, rules)
    case StepInto(dst, name, up, prefixed, addend) =>
      if dst == name then Failure(Unsequenced)
      else if name !in env then Failure(Unbound)
      else
        (match StepSlot(env, name, up, rules)
         case Failure(f) => Failure(f)
         case Success(stepped) =>
           var x := Value(env[name].ty, if prefixed then stepped[name].n else env[name].n);
           match addend
           case None => Store(stepped, dst, x.n)
           case Some(e) =>
             match Eval(p, k, e, stepped, input, rules)
             case Failure(f) => Failure(f)
             case Success(y) => StoreOutcome(stepped, dst, ArithOutcome(Add, x, y, rules)))
    case If(c, thn, els) =>
      (match Eval(p, k, c, env, input, rules)
       case Failure(f) => Failure(f)
       case Success(v) => ExecBlock(p, k, if v.n != 0 then thn else els, env, input, rules))
    case For(counter, bound, body) =>
      if counter in env then Failure(Redeclared)
      else
        (match Iterate(p, k, s, env[counter := Slot(SINT32, false, 0)], input, rules, rules.fuel)
         case Failure(f) => Failure(f)
         case Success(after) => Success(Leave(after, env)))
    case Switch(subject, mask, cases, fallback) =>
      (match Eval(p, k, subject, env, input, rules)
       case Failure(f) => Failure(f)
       case Success(v) => ExecCases(p, k, s, EntryLabel(v, mask, |cases|), env, input, rules))
    case Block(body) => ExecBlock(p, k, body, env, input, rules)
    case _ =>
      match Eval(p, k, s.rhs, env, input, rules)
      case Failure(f) => Failure(f)
      case Success(x) => Updated(s, env, x, rules)
  }

  ghost function ExecBlock(p: Program, k: nat, stmts: seq<Stmt>, env: Env, input: Option<seq<int>>, rules: Rules): Outcome<Env>
    decreases k, 1, stmts, 1
  {
    match ExecAll(p, k, stmts, env, input, rules)
    case Failure(f) => Failure(f)
    case Success(inner) => Success(Leave(inner, env))
  }

  /** A statement list, written from its end because the generator appends. */
  ghost function ExecAll(p: Program, k: nat, stmts: seq<Stmt>, env: Env, input: Option<seq<int>>, rules: Rules): Outcome<Env>
    decreases k, 1, stmts, 0
  {
    if stmts == [] then Success(env)
    else
      var last := |stmts| - 1;
      match ExecAll(p, k, stmts[..last], env, input, rules)
      case Failure(f) => Failure(f)
      case Success(mid) => Exec(p, k, stmts[last], mid, input, rules)
  }

  /** The loop test, body and `counter++`; it reads the counter each time round, so a body that wrote it could run on. */
  ghost function Iterate(p: Program, k: nat, s: Stmt, env: Env, input: Option<seq<int>>, rules: Rules, left: nat): Outcome<Env>
    requires s.For?
    decreases k, 1, s, left
  {
    if s.counter !in env then Failure(Unbound)
    else if env[s.counter].n >= s.bound then Success(env)
    else if left == 0 then Failure(RunawayLoop)
    else
      match ExecBlock(p, k, s.body, env, input, rules)
      case Failure(f) => Failure(f)
      case Success(after) =>
        if s.counter !in after then Failure(Unbound)
        else if rules.strict && StepOverflows(SINT32, after[s.counter].n, true) then Failure(SignedOverflow)
        else
          var next := Slot(SINT32, false, Convert(SINT32, after[s.counter].n + 1));
          Iterate(p, k, s, after[s.counter := next], input, rules, left - 1)
  }

  /** Entering a switch at label `at`: fall through until a break, or into the default, which always breaks. */
  ghost function ExecCases(p: Program, k: nat, s: Stmt, at: nat, env: Env, input: Option<seq<int>>, rules: Rules): Outcome<Env>
    requires s.Switch? && at <= |s.cases|
    decreases k, 1, s, 0, |s.cases| - at
  {
    if at == |s.cases| then Exec(p, k, s.fallback, env, input, rules)
    else
      var c := s.cases[at];
      match ExecAll(p, k, c.stmts, env, input, rules)
      case Failure(f) => Failure(f)
      case Success(after) => if c.breaks then Success(after) else ExecCases(p, k, s, at + 1, after, input, rules)
  }

  /** The tail of `Go`: top-level local number idx goes to field idx % 8, assigned first, xored afterwards. */
  ghost function Fold(tops: seq<Name>, env: Env, fields: seq<int>): Outcome<seq<int>>
    requires |fields| == 8
  {
    if tops == [] then Success(fields)
    else
      var last := |tops| - 1;
      match Fold(tops[..last], env, fields)
      case Failure(f) => Failure(f)
      case Success(done) =>
        if tops[last] !in env || |done| != 8 then Failure(Unbound)
        else
          var x := Convert(UINT64, env[tops[last]].n);
          var at := last % 8;
          Success(done[at := if last < 8 then x else ArithValue(Xor, Value(UINT64, done[at]), Value(UINT64, x)).n])
  }

  /** One run of the procedure `Go`. */
  ghost function Run(p: Program, input: seq<int>, fields: seq<int>, rules: Rules): Outcome<seq<int>>
    requires |fields| == 8
  {
    match ExecAll(p, |p.helpers|, p.body, map[], Some(input), rules)
    case Failure(f) => Failure(f)
    case Success(env) => Fold(p.tops, env, fields)
  }
}
