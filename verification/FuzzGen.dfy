/** The generator of packages/compiler/tools/fuzz-gen.ts. Its random numbers are arbitrary, so what is
    proved of a generated contract holds for every seed and every generator of numbers in [0, 1). */
module FuzzGen {
  import opened Sequences
  import opened Wrappers
  import opened FuzzProgram
  import opened FuzzSoundness
  import opened FuzzStrict

  const BOUNDARY_VALUES: seq<nat> := [
    0, 1, 2, 3, 7, 8, 15, 31, 42, 63, 100, 127, 128, 255, 256, 1000, 32767, 32768, 65535, 65536, 1000000,
    2147483647, 2147483648, 4294967295, 4294967296, 9223372036854775807, 18446744073709551615]

  // ---------- what a statement declares and costs ----------

  /** Every name declared in a statement, nested blocks included, in source order. */
  function DeclaredNames(s: Stmt): seq<Name>
    decreases s, 0
  {
    match s
    case Decl(v, _) => [v.name]
    case If(_, thn, els) => AllDeclaredNames(thn) + AllDeclaredNames(els)
    case For(counter, _, body) => [counter] + AllDeclaredNames(body)
    case Switch(_, _, cases, fallback) => CaseNames(cases) + DeclaredNames(fallback)
    case Block(body) => AllDeclaredNames(body)
    case _ => []
  }

  function AllDeclaredNames(stmts: seq<Stmt>): seq<Name>
    decreases stmts, 1
  {
    if stmts == [] then []
    else AllDeclaredNames(stmts[..|stmts| - 1]) + DeclaredNames(stmts[|stmts| - 1])
  }

  function CaseNames(cases: seq<Case>): seq<Name>
    decreases cases, 1
  {
    if cases == [] then []
    else CaseNames(cases[..|cases| - 1]) + AllDeclaredNames(cases[|cases| - 1].stmts)
  }

  /** How many statements the budget is charged for. */
  function Count(s: Stmt): nat
    decreases s, 0
  {
    match s
    case If(_, thn, els) => 1 + CountAll(thn) + CountAll(els)
    case For(_, _, body) => 1 + CountAll(body)
    case Switch(_, _, cases, fallback) => 1 + CountCases(cases) + Count(fallback)
    case Block(body) => 1 + CountAll(body)
    case _ => 1
  }

  function CountAll(stmts: seq<Stmt>): nat
    decreases stmts, 1
  {
    if stmts == [] then 0 else CountAll(stmts[..|stmts| - 1]) + Count(stmts[|stmts| - 1])
  }

  function CountCases(cases: seq<Case>): nat
    decreases cases, 1
  {
    if cases == [] then 0 else CountCases(cases[..|cases| - 1]) + CountAll(cases[|cases| - 1].stmts)
  }

  /** Distinct names, each numbered in lo..hi-1. */
  ghost predicate Numbered(names: seq<Name>, lo: nat, hi: nat) {
    NoRepeats(names) && forall n :: n in names ==> lo <= n.id < hi
  }

  lemma NumberedJoin(a: seq<Name>, b: seq<Name>, lo: nat, mid: nat, hi: nat)
    requires lo <= mid <= hi && Numbered(a, lo, mid) && Numbered(b, mid, hi)
    ensures Numbered(a + b, lo, hi)
  {
    var names := a + b;
    forall i, j | 0 <= i < j < |names| ensures names[i] != names[j] {
      if i < |a| <= j {
        assert names[i] in a && names[j] in b;
      }
    }
  }

  /** The parameters and locals of every helper. */
  function HelperNames(helpers: seq<Helper>): seq<Name> {
    if helpers == [] then []
    else
      var last := helpers[|helpers| - 1];
      HelperNames(helpers[..|helpers| - 1]) + ParamNames(last.sig.params) + AllDeclaredNames(last.body)
  }

  function ParamNames(params: seq<Param>): seq<Name> {
    seq(|params|, i requires 0 <= i < |params| => params[i].name)
  }

  // ---------- scopes ----------

  /** The scope stack laid out from the outermost scope, as `scopes.flat()`. */
  function Flat(scopes: seq<seq<LocalVar>>): seq<LocalVar> {
    if scopes == [] then [] else Flat(scopes[..|scopes| - 1]) + scopes[|scopes| - 1]
  }

  ghost function Visible(scopes: seq<seq<LocalVar>>): Scope {
    set v | v in Flat(scopes)
  }

  function Pushed(scopes: seq<seq<LocalVar>>, v: LocalVar): (r: seq<seq<LocalVar>>)
    requires |scopes| > 0
    ensures |r| == |scopes| && r[..|r| - 1] == scopes[..|scopes| - 1]
    ensures Visible(r) == Visible(scopes) + {v}
  {
    var top := |scopes| - 1;
    var r := scopes[..top] + [scopes[top] + [v]];
    assert r[..top] == scopes[..top];
    assert Flat(r) == Flat(scopes) + [v];
    r
  }

  lemma Opened(scopes: seq<seq<LocalVar>>, top: seq<LocalVar>)
    ensures Visible(scopes + [top]) == Visible(scopes) + (set v | v in top)
  {
    assert (scopes + [top])[..|scopes|] == scopes;
  }

  function MutableOf(vars: seq<LocalVar>): (r: seq<LocalVar>)
    ensures forall v :: v in r <==> v in vars && v.mutable
  {
    if vars == [] then []
    else (if vars[0].mutable then [vars[0]] else []) + MutableOf(vars[1..])
  }

  function NotBit(vars: seq<LocalVar>): (r: seq<LocalVar>)
    ensures forall v :: v in r <==> v in vars && v.ty != Bit
  {
    if vars == [] then []
    else (if vars[0].ty != Bit then [vars[0]] else []) + NotBit(vars[1..])
  }

  function OtherThan(vars: seq<LocalVar>, name: Name): (r: seq<LocalVar>)
    ensures forall v :: v in r <==> v in vars && v.name != name
  {
    if vars == [] then []
    else (if vars[0].name != name then [vars[0]] else []) + OtherThan(vars[1..], name)
  }

  function IndexIn(types: seq<ScalarType>, ty: ScalarType): (i: nat)
    requires ty in types
    ensures i < |types| && types[i] == ty
  {
    if types[0] == ty then 0 else 1 + IndexIn(types[1..], ty)
  }

  /** A draw from 0..n-1. */
  function Scaled(r: real, n: nat): (k: nat)
    requires 0.0 <= r < 1.0 && n > 0
    ensures k < n
  {
    assert 0.0 <= r * n as real < n as real;
    (r * n as real).Floor
  }

  /** An expression stays well formed where more names are visible. */
  lemma {:induction false} WidenExpr(e: Expr, vis: Scope, wider: Scope, sigs: seq<HelperSig>, fields: nat)
    requires WFExpr(e, vis, sigs, fields) && vis <= wider
    ensures WFExpr(e, wider, sigs, fields)
    decreases e
  {
    match e
    case Literal(_, _) =>
    case Var(_) =>
    case Input(_) =>
    case Ternary(c, l, r) =>
      WidenExpr(c, vis, wider, sigs, fields);
      WidenExpr(l, vis, wider, sigs, fields);
      WidenExpr(r, vis, wider, sigs, fields);
    case Cast(_, o) => WidenExpr(o, vis, wider, sigs, fields);
    case Unary(_, o) => WidenExpr(o, vis, wider, sigs, fields);
    case HelperCall(_, args) =>
      forall a | a in args ensures WFExpr(a, wider, sigs, fields) {
        WidenExpr(a, vis, wider, sigs, fields);
      }
    case Shift(_, l, c) =>
      WidenExpr(l, vis, wider, sigs, fields);
      WidenExpr(c, vis, wider, sigs, fields);
    case Arith(_, l, r) => WidenPair(e, l, r, vis, wider, sigs, fields);
    case Compare(_, l, r) => WidenPair(e, l, r, vis, wider, sigs, fields);
    case Quotient(_, l, r) => WidenPair(e, l, r, vis, wider, sigs, fields);
    case Logic(_, l, r) => WidenPair(e, l, r, vis, wider, sigs, fields);
    case MathCall(_, l, r) => WidenPair(e, l, r, vis, wider, sigs, fields);
  }

  lemma {:induction false} WidenPair(e: Expr, l: Expr, r: Expr, vis: Scope, wider: Scope, sigs: seq<HelperSig>, fields: nat)
    requires l < e && r < e
    requires WFExpr(l, vis, sigs, fields) && WFExpr(r, vis, sigs, fields) && vis <= wider
    ensures WFExpr(l, wider, sigs, fields) && WFExpr(r, wider, sigs, fields)
    decreases e, 0
  {
    WidenExpr(l, vis, wider, sigs, fields);
    WidenExpr(r, vis, wider, sigs, fields);
  }

  /** One more statement at the end of a list. */
  lemma AppendWF(stmts: seq<Stmt>, s: Stmt, vis: Scope, sigs: seq<HelperSig>, fields: nat)
    requires WFStmts(stmts, vis, sigs, fields) && WFStmt(s, vis + DeclaresAll(stmts), sigs, fields)
    ensures WFStmts(stmts + [s], vis, sigs, fields)
    ensures DeclaresAll(stmts + [s]) == DeclaresAll(stmts) + Declares(s)
    ensures CountAll(stmts + [s]) == CountAll(stmts) + Count(s)
    ensures AllDeclaredNames(stmts + [s]) == AllDeclaredNames(stmts) + DeclaredNames(s)
  {
    assert (stmts + [s])[..|stmts|] == stmts;
  }

  lemma AppendCase(cases: seq<Case>, c: Case)
    ensures CountCases(cases + [c]) == CountCases(cases) + CountAll(c.stmts)
    ensures CaseNames(cases + [c]) == CaseNames(cases) + AllDeclaredNames(c.stmts)
  {
    assert (cases + [c])[..|cases|] == cases;
  }

  lemma ParamVarNamed(params: seq<Param>, v: LocalVar)
    requires v in ParamScope(params)
    ensures v.name in ParamNames(params)
  {
    var i :| 0 <= i < |params| && ParamVars(params)[i] == v;
    assert ParamNames(params)[i] == v.name;
  }

  lemma ParamsDistinct(params: seq<Param>)
    requires NoRepeats(ParamNames(params))
    ensures DistinctParams(params)
  {
    forall i, j | 0 <= i < j < |params| ensures params[i].name != params[j].name {
      assert ParamNames(params)[i] != ParamNames(params)[j];
    }
  }

  lemma OtherType(index: nat, offset: nat)
    requires index < 8 && offset < 7
    ensures (index + 1 + offset) % 8 < |TYPES| && TYPES[(index + 1 + offset) % 8] != TYPES[index]
  {
  }

  lemma RetypeFirst(p2: seq<Param>, params: seq<Param>, ty: ScalarType)
    requires |p2| == |params| > 0 && ty != params[0].ty
    ensures ParamNames(p2[0 := Param(p2[0].name, ty)]) == ParamNames(p2)
    ensures ParamTypes(p2[0 := Param(p2[0].name, ty)]) != ParamTypes(params)
  {
    assert ParamTypes(p2[0 := Param(p2[0].name, ty)])[0] == ty;
  }

  function VarNames(vars: seq<LocalVar>): seq<Name> {
    seq(|vars|, i requires 0 <= i < |vars| => vars[i].name)
  }

  lemma TopsAreDeclared(scopes: seq<seq<LocalVar>>, p: Program)
    requires |scopes| == 1 && p.tops == VarNames(scopes[0]) && Visible(scopes) == DeclaresAll(p.body)
    ensures (set t | t in p.tops) == Names(DeclaresAll(p.body))
  {
    assert scopes[..0] == [];
    assert Flat(scopes) == scopes[0];
    forall v | v in DeclaresAll(p.body) ensures v.name in p.tops {
      var i :| 0 <= i < |scopes[0]| && scopes[0][i] == v;
      assert p.tops[i] == v.name;
    }
  }

  /** A helper whose signature is new joins the table: earlier helpers still see only those before them. */
  lemma AppendHelper(defs: seq<Helper>, h: Helper, lo: nat, mid: nat, hi: nat)
    requires WFHelpers(defs) && WFHelper(h, Sigs(defs))
    requires forall sig :: sig in Sigs(defs) ==> sig.name != h.sig.name || ParamTypes(sig.params) != ParamTypes(h.sig.params)
    requires Numbered(HelperNames(defs), 0, lo) && lo <= mid <= hi
    requires Numbered(ParamNames(h.sig.params), lo, mid) && Numbered(AllDeclaredNames(h.body), mid, hi)
    ensures WFHelpers(defs + [h]) && Sigs(defs + [h]) == Sigs(defs) + [h.sig]
    ensures Numbered(HelperNames(defs + [h]), 0, hi)
  {
    var all := defs + [h];
    assert Sigs(all) == Sigs(defs) + [h.sig];
    forall j | 0 <= j < |all| ensures WFHelper(all[j], Earlier(all, j)) {
      assert Earlier(all, j) == Sigs(defs)[..j];
    }
    assert all[..|defs|] == defs;
    NumberedJoin(HelperNames(defs), ParamNames(h.sig.params), 0, lo, mid);
    NumberedJoin(HelperNames(defs) + ParamNames(h.sig.params), AllDeclaredNames(h.body), 0, mid, hi);
  }

  // ---------- which form a draw gives ----------

  datatype StmtForm = DeclForm | AssignForm | CompoundForm | StepForm | IfForm | ForForm | SwitchForm | BlockForm

  function FormOf(s: Stmt): StmtForm {
    match s
    case Decl(_, _) => DeclForm
    case Assign(_, _) => AssignForm
    case Compound(_, _, _) => CompoundForm
    case CompoundShift(_, _, _) => CompoundForm
    case Step(_, _) => StepForm
    case StepInto(_, _, _, _, _) => StepForm
    case If(_, _, _) => IfForm
    case For(_, _, _) => ForForm
    case Switch(_, _, _, _) => SwitchForm
    case Block(_) => BlockForm
  }

  /** The form of a statement, by its first draw, its depth, and whether anything in scope can be assigned to. */
  function DrawnForm(r: real, depth: nat, canMutate: bool): StmtForm {
    if !canMutate || r < 0.22 then DeclForm
    else if r < 0.44 then AssignForm
    else if r < 0.58 then CompoundForm
    else if r < 0.68 then StepForm
    else if depth == 0 then AssignForm
    else if r < 0.78 then IfForm
    else if r < 0.86 then ForForm
    else if r < 0.93 then SwitchForm
    else BlockForm
  }

  /** Every form comes out for some draw, except that with nothing to assign to there are only declarations, and at the
      bottom nothing that nests. */
  lemma FormsDrawn(form: StmtForm, depth: nat, canMutate: bool)
    ensures (exists r :: 0.0 <= r < 1.0 && DrawnForm(r, depth, canMutate) == form) <==>
      form == DeclForm || (canMutate && (depth > 0 || form in {AssignForm, CompoundForm, StepForm}))
  {
    var r := match form
      case DeclForm => 0.1 case AssignForm => 0.3 case CompoundForm => 0.5 case StepForm => 0.6
      case IfForm => 0.7 case ForForm => 0.8 case SwitchForm => 0.9 case BlockForm => 0.95;
    assert canMutate && (depth > 0 || r < 0.68) ==> DrawnForm(r, depth, canMutate) == form;
    assert DrawnForm(0.1, depth, canMutate) == DeclForm;
  }

  datatype ExprForm = ArithForm | CompareForm | ShiftForm | QuotientForm | TernaryForm | CastForm | UnaryForm | LogicForm
    | SaturatingForm | SafeDivisionForm | MinMaxForm | CallForm | LeafForm

  function ExprFormOf(e: Expr): ExprForm {
    match e
    case Arith(_, _, _) => ArithForm
    case Compare(_, _, _) => CompareForm
    case Shift(_, _, _) => ShiftForm
    case Quotient(_, _, _) => QuotientForm
    case Ternary(_, _, _) => TernaryForm
    case Cast(_, _) => CastForm
    case Unary(_, _) => UnaryForm
    case Logic(_, _, _) => LogicForm
    case MathCall(fn, _, _) => if fn in {SAdd, SMul} then SaturatingForm else if fn in {SafeDiv, SafeMod} then SafeDivisionForm else MinMaxForm
    case HelperCall(_, _) => CallForm
    case _ => LeafForm
  }

  /** The form of an expression above the bottom, by its first draw and whether there is a helper to call. */
  function DrawnExpr(r: real, canCall: bool): ExprForm {
    if r < 0.28 then ArithForm
    else if r < 0.36 then CompareForm
    else if r < 0.42 then ShiftForm
    else if r < 0.47 then QuotientForm
    else if r < 0.53 then TernaryForm
    else if r < 0.6 then CastForm
    else if r < 0.67 then UnaryForm
    else if r < 0.72 then LogicForm
    else if r < 0.79 then SaturatingForm
    else if r < 0.86 then SafeDivisionForm
    else if r < 0.93 then MinMaxForm
    else if r < 0.98 && canCall then CallForm
    else LeafForm
  }

  /** Every form of expression comes out for some draw, a call only if there is a helper to call. */
  lemma ExprFormsDrawn(form: ExprForm, canCall: bool)
    ensures (exists r :: 0.0 <= r < 1.0 && DrawnExpr(r, canCall) == form) <==> form != CallForm || canCall
  {
    var r := match form
      case ArithForm => 0.1 case CompareForm => 0.3 case ShiftForm => 0.4 case QuotientForm => 0.45 case TernaryForm => 0.5
      case CastForm => 0.55 case UnaryForm => 0.65 case LogicForm => 0.7 case SaturatingForm => 0.75 case SafeDivisionForm => 0.8
      case MinMaxForm => 0.9 case CallForm => 0.95 case LeafForm => 0.99;
    assert form != CallForm || canCall ==> DrawnExpr(r, canCall) == form;
  }

  class Gen {
    var nameCounter: nat
    var scopes: seq<seq<LocalVar>>
    var stmtBudget: int
    var avail: seq<HelperSig>
    var inHelper: bool
    /** The random numbers, and how many of them are used up. */
    const draws: nat -> real
    var at: nat

    /** Every visible name is numbered below the counter, so a fresh name never shadows. */
    ghost predicate Valid()
      reads `scopes, `nameCounter
    {
      |scopes| > 0 && forall v :: v in Visible(scopes) ==> v.name.id < nameCounter
    }

    ghost function Vis(): Scope
      reads `scopes
    {
      Visible(scopes)
    }

    /** What an expression may read: bit locals are left out. */
    ghost function Readable(): Scope
      reads `scopes
    {
      set v | v in Flat(scopes) && v.ty != Bit
    }

    function Fields(): nat
      reads `inHelper
    {
      if inHelper then 0 else 4
    }

    constructor (draws: nat -> real)
      ensures nameCounter == 0 && scopes == [] && stmtBudget == 0 && avail == [] && !inHelper
      ensures this.draws == draws && at == 0
    {
      this.draws := draws;
      nameCounter, scopes, stmtBudget, avail, inHelper, at := 0, [], 0, [], false, 0;
    }

    // ---------- random choices ----------

    /** The k-th number of the stream, which lies between 0 and 1. */
    function Draw(k: nat): (r: real)
      ensures 0.0 <= r < 1.0
    {
      if 0.0 <= draws(k) < 1.0 then draws(k) else 0.0
    }

    method Next() returns (r: real)
      modifies `at
      ensures r == Draw(old(at)) && at == old(at) + 1
    {
      r := Draw(at);
      at := at + 1;
    }

    method Int(n: nat) returns (k: nat)
      requires n > 0
      modifies `at
      ensures k < n && k == Scaled(Draw(old(at)), n) && at == old(at) + 1
    {
      var r := Next();
      k := Scaled(r, n);
    }

    method Pick<T(==)>(choices: seq<T>) returns (x: T)
      requires |choices| > 0
      modifies `at
      ensures x in choices && x == choices[Scaled(Draw(old(at)), |choices|)] && at == old(at) + 1
    {
      var i := Int(|choices|);
      x := choices[i];
    }

    method Chance(p: real) returns (b: bool)
      modifies `at
      ensures b == (Draw(old(at)) < p) && at == old(at) + 1
    {
      var r := Next();
      b := r < p;
    }

    method U64() returns (v: nat)
      modifies `at
      ensures v < 0x1_0000_0000_0000_0000
    {
      var hi := Int(0x1_0000_0000);
      var lo := Int(0x1_0000_0000);
      v := hi * 0x1_0000_0000 + lo;
    }

    method FreshName(prefix: char) returns (name: Name)
      modifies `nameCounter
      ensures name == Name(prefix, old(nameCounter)) && nameCounter == old(nameCounter) + 1
    {
      name := Name(prefix, nameCounter);
      nameCounter := nameCounter + 1;
    }

    // ---------- expressions ----------

    method LiteralExpr() returns (e: Expr)
      modifies `at
      ensures e.Literal? && LiteralFits(e.value, e.suffix)
    {
      var v: nat;
      var boundary := Chance(0.7);
      if boundary {
        v := Pick(BOUNDARY_VALUES);
      } else {
        var small := Chance(0.4);
        if small {
          v := Int(256);
        } else {
          var word := Chance(0.5);
          if word {
            v := Int(0x1_0000_0000);
          } else {
            v := U64();
          }
        }
      }
      var suffix := Pick(if v > INT64_MAX then [U, ULL] else [NoSuffix, NoSuffix, NoSuffix, U, LL, ULL]);
      e := Literal(v, suffix);
    }

    method Leaf() returns (e: Expr)
      modifies `at
      ensures WFExpr(e, Readable(), avail, Fields()) && ExprFormOf(e) == LeafForm
    {
      var vars := NotBit(Flat(scopes));
      var r := Next();
      if r < 0.3 && |vars| > 0 {
        var v := Pick(vars);
        return Var(v.name);
      }
      if r < 0.45 && !inHelper {
        var field := Int(4);
        return Input(field);
      }
      e := LiteralExpr();
    }

    method ShiftCount(depth: nat) returns (e: Expr)
      modifies `at
      ensures WFExpr(e, Readable(), avail, Fields()) && GuardedShift(e, 31)
      decreases depth, 2
    {
      var masked := Chance(0.4);
      if masked {
        var x := Expression(depth);
        return Arith(And, x, Literal(31, NoSuffix));
      }
      var n := Int(32);
      e := Literal(n, NoSuffix);
    }

    method Expression(depth: nat) returns (e: Expr)
      modifies `at
      ensures WFExpr(e, Readable(), avail, Fields())
      ensures ExprFormOf(e) == if depth == 0 then LeafForm else DrawnExpr(Draw(old(at)), |avail| > 0)
      decreases depth, 1
    {
      if depth == 0 {
        e := Leaf();
        return;
      }
      var r := Next();
      if r < 0.47 {
        e := OperatorExpr(r, depth - 1);
      } else if r < 0.72 {
        e := OtherExpr(r, depth - 1);
      } else if r < 0.79 {
        e := MathExpr([SAdd, SMul], SAFE_MATH_TYPES, depth - 1);
      } else if r < 0.86 {
        e := MathExpr([SafeDiv, SafeMod], UNSIGNED_DIV_TYPES, depth - 1);
      } else if r < 0.93 {
        e := MathExpr([Min, Max], TYPES, depth - 1);
      } else if r < 0.98 && |avail| > 0 {
        e := HelperCallExpr(depth - 1);
      } else {
        e := Leaf();
      }
    }

    /** Arithmetic, comparison, shift or division. */
    method OperatorExpr(r: real, d: nat) returns (e: Expr)
      requires r < 0.47
      modifies `at
      ensures WFExpr(e, Readable(), avail, Fields()) && ExprFormOf(e) == DrawnExpr(r, |avail| > 0)
      decreases d, 4
    {
      if r < 0.28 {
        var op := Pick([Add, Sub, Mul, And, Or, Xor]);
        var a, b := Two(d);
        e := Arith(op, a, b);
      } else if r < 0.36 {
        var op := Pick([Lt, Gt, Le, Ge, Eq, Ne]);
        var a, b := Two(d);
        e := Compare(op, a, b);
      } else if r < 0.42 {
        var op := Pick([Shl, Shr]);
        var a := Expression(d);
        var c := ShiftCount(d);
        e := Shift(op, a, c);
      } else {
        var t := Pick(UNSIGNED_DIV_TYPES);
        var op := Pick([Div, Mod]);
        var a, b := Two(d);
        e := Quotient(op, Cast(t, a), Arith(Or, Cast(t, b), Literal(1, if t.width == W4 then U else ULL)));
      }
    }

    /** A choice, a cast, or a unary or logical operator. */
    method OtherExpr(r: real, d: nat) returns (e: Expr)
      requires 0.47 <= r < 0.72
      modifies `at
      ensures WFExpr(e, Readable(), avail, Fields()) && ExprFormOf(e) == DrawnExpr(r, |avail| > 0)
      decreases d, 4
    {
      if r < 0.53 {
        var c := Expression(d);
        var a, b := Two(d);
        e := Ternary(c, a, b);
      } else if r < 0.6 {
        var t := Pick(TYPES);
        var a := Expression(d);
        e := Cast(t, a);
      } else if r < 0.67 {
        var op := Pick([Neg, Inv, Not]);
        var a := Expression(d);
        e := Unary(op, a);
      } else {
        var op := Pick([AndAlso, OrElse]);
        var a, b := Two(d);
        e := Logic(op, a, b);
      }
    }

    method Two(depth: nat) returns (a: Expr, b: Expr)
      modifies `at
      ensures WFExpr(a, Readable(), avail, Fields()) && WFExpr(b, Readable(), avail, Fields())
      decreases depth, 2
    {
      a := Expression(depth);
      b := Expression(depth);
    }

    method MathExpr(fns: seq<MathFn>, types: seq<ScalarType>, depth: nat) returns (e: Expr)
      requires |fns| > 0 && |types| > 0
      modifies `at
      ensures WFExpr(e, Readable(), avail, Fields()) && e.MathCall? && e.fn in fns
      decreases depth, 3
    {
      var t := Pick(types);
      var fn := Pick(fns);
      var a, b := Two(depth);
      e := MathCall(fn, Cast(t, a), Cast(t, b));
    }

    method HelperCallExpr(depth: nat) returns (e: Expr)
      requires |avail| > 0
      modifies `at
      ensures WFExpr(e, Readable(), avail, Fields()) && e.HelperCall?
      decreases depth, 2
    {
      var at := Int(|avail|);
      var sig := avail[at];
      var args: seq<Expr> := [];
      for i := 0 to |sig.params|
        invariant |args| == i
        invariant forall j :: 0 <= j < i ==>
          args[j].Cast? && args[j].ty == sig.params[j].ty && WFExpr(args[j], Readable(), avail, Fields())
      {
        var a := Expression(depth);
        args := args + [Cast(sig.params[i].ty, a)];
      }
      assert CallsSig(sig.name, args, avail[at]);
      e := HelperCall(sig.name, args);
    }

    // ---------- statements ----------

    /** What every statement generator keeps: the enclosing scopes, the helper table, and the numbering. */
    twostate predicate Keeps()
      reads this
    {
      && avail == old(avail) && inHelper == old(inHelper)
      && nameCounter >= old(nameCounter)
      && |scopes| == |old(scopes)| > 0
      && scopes[..|scopes| - 1] == old(scopes)[..|scopes| - 1]
    }

    method DeclStmt() returns (s: Stmt)
      requires Valid()
      modifies `nameCounter, `scopes, `at
      ensures Valid() && Keeps() && nameCounter == old(nameCounter) + 1
      ensures s.Decl? && s.v.name.id == old(nameCounter)
      ensures WFStmt(s, old(Vis()), avail, Fields()) && Vis() == old(Vis()) + {s.v}
    {
      var bitDecl := Chance(0.05);
      var name := FreshName('l');
      if bitDecl {
        s := BitDecl(name);
      } else {
        s := TypedDecl(name);
      }
    }

    /** The name is the newest one. */
    ghost predicate Newest(name: Name)
      reads `scopes, `nameCounter
    {
      Valid() && name.id < nameCounter && forall v :: v in Vis() ==> v.name.id < name.id
    }

    /** A declaration under construction: the name is new, one variable more is in scope afterwards. */
    twostate predicate AddsOne(s: Stmt, name: Name)
      reads this
    {
      && Valid() && Keeps() && nameCounter == old(nameCounter)
      && s.Decl? && s.v.name == name && WFStmt(s, old(Vis()), avail, Fields()) && Vis() == old(Vis()) + {s.v}
    }

    method BitDecl(name: Name) returns (s: Stmt)
      requires Newest(name)
      modifies `scopes, `at
      ensures AddsOne(s, name)
    {
      // the name is already in scope while its initializer is generated, but no expression reads a bit local
      var v := LocalVar(name, Bit, false);
      scopes := Pushed(scopes, v);
      var init := Expression(3);
      WidenExpr(init, Readable(), old(Vis()), avail, Fields());
      s := Decl(v, Cast(Bit, init));
    }

    method TypedDecl(name: Name) returns (s: Stmt)
      requires Newest(name)
      modifies `scopes, `at
      ensures AddsOne(s, name)
    {
      var t := Pick(TYPES);
      var cast := Chance(0.5);
      var init := Expression(3);
      WidenExpr(init, Readable(), Vis(), avail, Fields());
      var v := LocalVar(name, t, true);
      scopes := Pushed(scopes, v);
      s := Decl(v, if cast then Cast(t, init) else init);
    }

    ghost predicate CanMutate()
      reads `scopes
    {
      exists v :: v in Vis() && v.mutable
    }

    method PickMutable() returns (v: LocalVar)
      requires CanMutate()
      modifies `at
      ensures v in Vis() && v.mutable
    {
      v := Pick(MutableOf(Flat(scopes)));
    }

    method AssignStmt() returns (s: Stmt)
      requires CanMutate()
      modifies `at
      ensures s.Assign? && WFStmt(s, Vis(), avail, Fields())
    {
      var v := PickMutable();
      var cast := Chance(0.4);
      var rhs := Expression(3);
      WidenExpr(rhs, Readable(), Vis(), avail, Fields());
      s := Assign(v.name, if cast then Cast(v.ty, rhs) else rhs);
    }

    method CompoundStmt() returns (s: Stmt)
      requires CanMutate()
      modifies `at
      ensures FormOf(s) == CompoundForm && WFStmt(s, Vis(), avail, Fields())
    {
      var v := PickMutable();
      var op := Int(8);
      var rhs := Expression(2);
      WidenExpr(rhs, Readable(), Vis(), avail, Fields());
      if op >= 6 {
        var mask := if v.ty.Scalar? && v.ty.width == W8 then 63 else 31;
        s := CompoundShift(v.name, if op == 6 then Shl else Shr, Arith(And, rhs, Literal(mask, NoSuffix)));
      } else {
        s := Compound(v.name, [Add, Sub, Mul, And, Or, Xor][op], rhs);
      }
    }

    method IncDecStmt() returns (s: Stmt)
      requires CanMutate()
      modifies `at
      ensures FormOf(s) == StepForm && WFStmt(s, Vis(), avail, Fields())
    {
      var v := PickMutable();
      var up := Pick([true, false]);
      var r := Next();
      if r < 0.5 {
        s := Step(v.name, up);
      } else {
        s := StepIntoStmt(v, up);
      }
    }

    /** A step whose value goes to another name, if there is one that can be assigned to. */
    method StepIntoStmt(v: LocalVar, up: bool) returns (s: Stmt)
      requires v in Vis() && v.mutable
      modifies `at
      ensures FormOf(s) == StepForm && WFStmt(s, Vis(), avail, Fields())
    {
      var targets := OtherThan(MutableOf(Flat(scopes)), v.name);
      if |targets| == 0 {
        return Step(v.name, up);
      }
      var dst := Pick(targets);
      var postfix := Chance(0.5);
      var plain := Chance(0.5);
      if plain {
        return StepInto(dst.name, v.name, up, !postfix, None);
      }
      var addend := LiteralExpr();
      s := StepInto(dst.name, v.name, up, !postfix, Some(addend));
    }

    /** The contract of a compound statement: well formed where it stands, nothing left in scope, names fresh,
        budget charged one per statement inside it and never below -9. */
    twostate predicate Emits(s: Stmt, charged: nat)
      reads this
    {
      && Valid() && Keeps() && scopes == old(scopes)
      && WFStmt(s, old(Vis()), avail, Fields())
      && Numbered(DeclaredNames(s), old(nameCounter), nameCounter)
      && stmtBudget == old(stmtBudget) - charged && stmtBudget >= -9
    }

    method IfStmt(depth: nat) returns (s: Stmt)
      requires Valid() && depth > 0 && stmtBudget >= 0
      modifies `nameCounter, `scopes, `stmtBudget, `at
      ensures s.If? && Emits(s, Count(s) - 1)
      decreases depth, 2
    {
      var condition := Expression(2);
      WidenExpr(condition, Readable(), Vis(), avail, Fields());
      var n := Int(3);
      var thn := BlockOf(depth, 1 + n);
      label afterThen:
      var els := ElseOf(depth);
      NumberedJoin(AllDeclaredNames(thn), AllDeclaredNames(els), old(nameCounter), old@afterThen(nameCounter), nameCounter);
      s := If(condition, thn, els);
    }

    /** Now and then an else branch of one or two statements. */
    method ElseOf(depth: nat) returns (els: seq<Stmt>)
      requires Valid() && depth > 0 && stmtBudget >= -9
      modifies `nameCounter, `scopes, `stmtBudget, `at
      ensures Emits(Block(els), CountAll(els))
      decreases depth, 2, 0
    {
      els := [];
      var hasElse := Chance(0.4);
      if hasElse {
        var m := Int(2);
        els := BlockOf(depth, 1 + m);
      }
    }

    method ForStmt(depth: nat) returns (s: Stmt)
      requires Valid() && depth > 0 && stmtBudget >= 0
      modifies `nameCounter, `scopes, `stmtBudget, `at
      ensures s.For? && Emits(s, Count(s) - 1)
      decreases depth, 2
    {
      var counter := FreshName('i');
      label named:
      var bound := Int(8);
      var v := LocalVar(counter, SINT32, false);
      assert (set x | x in [v]) == {v};
      var n := Int(3);
      var body := ScopedList([v], depth, 1 + n);
      NumberedJoin([counter], AllDeclaredNames(body), old(nameCounter), old@named(nameCounter), nameCounter);
      s := For(counter, 1 + bound, body);
    }

    ghost predicate AssignsOnly(stmts: seq<Stmt>)
      reads `scopes, `avail, `inHelper
    {
      WFStmts(stmts, Vis(), avail, Fields()) && forall t :: t in stmts ==> t.Assign?
    }

    /** One or two assignments, each charged to the budget without asking whether any is left. */
    method CaseBody() returns (stmts: seq<Stmt>)
      requires CanMutate()
      modifies `stmtBudget, `at
      ensures AssignsOnly(stmts) && AllDeclaredNames(stmts) == []
      ensures stmtBudget == old(stmtBudget) - CountAll(stmts) >= old(stmtBudget) - 2
    {
      var n := Int(2);
      stmts := [];
      for k := 0 to 1 + n
        invariant |stmts| == k && AssignsOnly(stmts)
        invariant DeclaresAll(stmts) == {} && AllDeclaredNames(stmts) == []
        invariant stmtBudget == old(stmtBudget) - CountAll(stmts) == old(stmtBudget) - k
      {
        stmtBudget := stmtBudget - 1;
        var t := AssignStmt();
        assert Vis() + DeclaresAll(stmts) == Vis();
        AppendWF(stmts, t, Vis(), avail, Fields());
        stmts := stmts + [t];
      }
    }

    method SwitchCases(caseCount: nat) returns (cases: seq<Case>)
      requires CanMutate() && caseCount <= 4 && stmtBudget >= 0
      modifies `stmtBudget, `at
      ensures forall k :: k in cases ==> AssignsOnly(k.stmts)
      ensures CaseNames(cases) == [] && stmtBudget == old(stmtBudget) - CountCases(cases) >= -8
    {
      cases := [];
      for c := 0 to caseCount
        invariant |cases| == c
        invariant forall k :: k in cases ==> AssignsOnly(k.stmts)
        invariant stmtBudget == old(stmtBudget) - CountCases(cases) && stmtBudget >= -2 * c
        invariant CaseNames(cases) == []
      {
        hide WFStmts;
        var stmts := CaseBody();
        var breaks := Chance(0.8);
        AppendCase(cases, Case(stmts, breaks));
        cases := cases + [Case(stmts, breaks)];
      }
    }

    method SwitchStmt() returns (s: Stmt)
      requires Valid() && CanMutate() && stmtBudget >= 0
      modifies `stmtBudget, `at
      ensures s.Switch? && Emits(s, Count(s) - 1)
    {
      var extra := Int(3);
      var caseCount := 2 + extra;
      var mask := if caseCount == 2 then 1 else 3;
      var subject := Expression(2);
      WidenExpr(subject, Readable(), Vis(), avail, Fields());
      var cases := SwitchCases(caseCount);
      stmtBudget := stmtBudget - 1;
      var fallback := AssignStmt();
      s := Switch(subject, mask, cases, fallback);
    }

    /** `block`: up to `count` statements in a scope of their own. */
    method BlockOf(depth: nat, count: nat) returns (body: seq<Stmt>)
      requires Valid() && depth > 0 && stmtBudget >= -9
      modifies `nameCounter, `scopes, `stmtBudget, `at
      ensures Emits(Block(body), CountAll(body)) && |body| <= count && (|body| < count ==> stmtBudget <= 0)
      decreases depth, 1
    {
      ghost var vis := Vis();
      assert vis + (set v: LocalVar | v in []) == vis;
      body := ScopedList([], depth, count);
    }

    /** A list under construction: within the rules in scope `inner`, everything it declares in scope after it, its names
        numbered from `lo`, and its statements taken off a budget of `total`. */
    ghost predicate Growing(body: seq<Stmt>, inner: Scope, lo: nat, total: int)
      reads `scopes, `nameCounter, `avail, `inHelper, `stmtBudget
    {
      && Valid() && lo <= nameCounter
      && WFStmts(body, inner, avail, Fields()) && Vis() == inner + DeclaresAll(body)
      && Numbered(AllDeclaredNames(body), lo, nameCounter)
      && stmtBudget == total - CountAll(body) && stmtBudget >= -9
    }

    /** One more statement at the end of a list. */
    method Grow(body: seq<Stmt>, depth: nat, ghost inner: Scope, ghost lo: nat, ghost total: int) returns (more: seq<Stmt>)
      requires Growing(body, inner, lo, total) && stmtBudget > 0
      modifies `nameCounter, `scopes, `stmtBudget, `at
      ensures Growing(more, inner, lo, total) && Keeps() && |more| == |body| + 1 && body <= more
      decreases depth, 5
    {
      hide WFStmt;
      ghost var counter := nameCounter;
      assert Vis() == inner + DeclaresAll(body);
      var s := Statement(depth);
      AppendWF(body, s, inner, avail, Fields());
      NumberedJoin(AllDeclaredNames(body), DeclaredNames(s), lo, counter, nameCounter);
      more := body + [s];
    }

    /** As Grow, for a declaration. */
    method GrowDecl(body: seq<Stmt>, ghost inner: Scope, ghost lo: nat, ghost total: int) returns (more: seq<Stmt>)
      requires Growing(body, inner, lo, total) && stmtBudget > 0
      modifies `nameCounter, `scopes, `stmtBudget, `at
      ensures Growing(more, inner, lo, total) && Keeps() && stmtBudget == old(stmtBudget) - 1
      ensures |more| == |body| + 1 && body <= more && more[|body|].Decl?
    {
      hide WFStmt;
      ghost var counter := nameCounter;
      assert Vis() == inner + DeclaresAll(body);
      stmtBudget := stmtBudget - 1;
      var s := DeclStmt();
      AppendWF(body, s, inner, avail, Fields());
      NumberedJoin(AllDeclaredNames(body), DeclaredNames(s), lo, counter, nameCounter);
      more := body + [s];
    }

    /** Pushes a scope holding `top`, generates into it while the budget lasts, and pops it. */
    method ScopedList(top: seq<LocalVar>, depth: nat, count: nat) returns (body: seq<Stmt>)
      requires Valid() && depth > 0 && stmtBudget >= -9
      requires forall v :: v in top ==> v.name.id < nameCounter
      modifies `nameCounter, `scopes, `stmtBudget, `at
      ensures Valid() && Keeps() && scopes == old(scopes)
      ensures WFStmts(body, old(Vis()) + (set v | v in top), avail, Fields())
      ensures Numbered(AllDeclaredNames(body), old(nameCounter), nameCounter)
      ensures stmtBudget == old(stmtBudget) - CountAll(body) && stmtBudget >= -9
      ensures |body| <= count && (|body| < count ==> stmtBudget <= 0)
      decreases depth, 0
    {
      Opened(scopes, top);
      scopes := scopes + [top];
      ghost var inner := Vis();
      body := [];
      var k := 0;
      while k < count && stmtBudget > 0
        invariant avail == old(avail) && inHelper == old(inHelper)
        invariant |scopes| == |old(scopes)| + 1 && scopes[..|old(scopes)|] == old(scopes)
        invariant Growing(body, inner, old(nameCounter), old(stmtBudget)) && |body| == k <= count
        decreases count - k
      {
        body := Grow(body, depth - 1, inner, old(nameCounter), old(stmtBudget));
        k := k + 1;
      }
      scopes := scopes[..|scopes| - 1];
    }

    /** A statement that holds no others and declares nothing. */
    method PlainStmt(r: real) returns (s: Stmt)
      requires CanMutate()
      modifies `at
      ensures FormOf(s) == if 0.44 <= r < 0.58 then CompoundForm else if 0.58 <= r < 0.68 then StepForm else AssignForm
      ensures WFStmt(s, Vis(), avail, Fields())
    {
      if 0.44 <= r < 0.58 {
        s := CompoundStmt();
      } else if 0.58 <= r < 0.68 {
        s := IncDecStmt();
      } else {
        s := AssignStmt();
      }
    }

    /** A statement with a scope of its own inside it, or a switch. */
    method NestedStmt(r: real, depth: nat) returns (s: Stmt)
      requires Valid() && CanMutate() && depth > 0 && stmtBudget >= 0
      modifies `nameCounter, `scopes, `stmtBudget, `at
      ensures FormOf(s) == if r < 0.78 then IfForm else if r < 0.86 then ForForm else if r < 0.93 then SwitchForm else BlockForm
      ensures Emits(s, Count(s) - 1)
      decreases depth, 3
    {
      if r < 0.78 {
        s := IfStmt(depth);
      } else if r < 0.86 {
        s := ForStmt(depth);
      } else if r < 0.93 {
        s := SwitchStmt();
      } else {
        var n := Int(3);
        var body := BlockOf(depth, 1 + n);
        s := Block(body);
      }
    }

    method Statement(depth: nat) returns (s: Stmt)
      requires Valid() && stmtBudget > 0
      modifies `nameCounter, `scopes, `stmtBudget, `at
      ensures Valid() && Keeps()
      ensures WFStmt(s, old(Vis()), avail, Fields()) && Vis() == old(Vis()) + Declares(s)
      ensures Numbered(DeclaredNames(s), old(nameCounter), nameCounter)
      ensures stmtBudget == old(stmtBudget) - Count(s) && stmtBudget >= -9
      ensures FormOf(s) == DrawnForm(Draw(old(at)), depth, old(CanMutate()))
      decreases depth, 4
    {
      stmtBudget := stmtBudget - 1;
      var canMutate := |MutableOf(Flat(scopes))| > 0;
      var r := Next();
      if !canMutate || r < 0.22 {
        s := DeclStmt();
        return;
      }
      hide WFStmt;
      assert CanMutate() by {
        assert MutableOf(Flat(scopes))[0] in MutableOf(Flat(scopes));
      }
      if r < 0.68 || depth == 0 {
        s := PlainStmt(r);
      } else {
        s := NestedStmt(r, depth);
      }
      assert old(Vis()) + {} == old(Vis());
    }

    // ---------- helper functions ----------

    /** One to two parameters of random types. */
    method BaseParams() returns (params: seq<Param>)
      modifies `nameCounter, `at
      ensures |params| > 0 && nameCounter >= old(nameCounter)
      ensures forall p :: p in params ==> p.ty in TYPES
      ensures Numbered(ParamNames(params), old(nameCounter), nameCounter)
    {
      var extra := Int(2);
      params := [];
      for i := 0 to 1 + extra
        invariant |params| == i && nameCounter >= old(nameCounter)
        invariant forall p :: p in params ==> p.ty in TYPES
        invariant Numbered(ParamNames(params), old(nameCounter), nameCounter)
      {
        ghost var counter := nameCounter;
        var name := FreshName('p');
        var ty := Pick(TYPES);
        NumberedJoin(ParamNames(params), [name], old(nameCounter), counter, nameCounter);
        assert ParamNames(params + [Param(name, ty)]) == ParamNames(params) + [name];
        params := params + [Param(name, ty)];
      }
    }

    /** The same types under fresh names, but for the first, which moves to another type so the overload stays distinct. */
    method OverloadParams(params: seq<Param>) returns (p2: seq<Param>)
      requires |params| > 0 && forall p :: p in params ==> p.ty in TYPES
      modifies `nameCounter, `at
      ensures ParamTypes(p2) != ParamTypes(params) && nameCounter >= old(nameCounter)
      ensures Numbered(ParamNames(p2), old(nameCounter), nameCounter)
    {
      p2 := [];
      for i := 0 to |params|
        invariant |p2| == i && nameCounter >= old(nameCounter)
        invariant Numbered(ParamNames(p2), old(nameCounter), nameCounter)
      {
        ghost var counter := nameCounter;
        var name := FreshName('p');
        NumberedJoin(ParamNames(p2), [name], old(nameCounter), counter, nameCounter);
        assert ParamNames(p2 + [Param(name, params[i].ty)]) == ParamNames(p2) + [name];
        p2 := p2 + [Param(name, params[i].ty)];
      }
      var index := IndexIn(TYPES, params[0].ty);
      var offset := Int(7);
      var ty := TYPES[(index + 1 + offset) % 8];
      OtherType(index, offset);
      RetypeFirst(p2, params, ty);
      p2 := p2[0 := Param(p2[0].name, ty)];
    }

    /** Generates the body of `sig`; it may call only what is in `avail`, which does not hold `sig` yet. */
    method HelperDef(sig: HelperSig) returns (h: Helper)
      requires NoRepeats(ParamNames(sig.params))
      requires forall n :: n in ParamNames(sig.params) ==> n.id < nameCounter
      modifies this
      ensures avail == old(avail) && !inHelper && nameCounter >= old(nameCounter)
      ensures h.sig == sig && WFHelper(h, avail)
      ensures Numbered(AllDeclaredNames(h.body), old(nameCounter), nameCounter)
      ensures CountAll(h.body) <= 14
    {
      stmtBudget := 5;
      inHelper := true;
      scopes := [ParamVars(sig.params)];
      ParamsDistinct(sig.params);
      ghost var params := ParamScope(sig.params);
      assert Vis() == params by {
        Opened([], ParamVars(sig.params));
        assert [] + scopes == scopes;
      }
      assert Valid() by {
        forall v | v in Vis() ensures v.name.id < nameCounter { assert v.name in ParamNames(sig.params) by { ParamVarNamed(sig.params, v); } }
      }
      var lines: seq<Stmt> := [];
      var count := Int(3);
      var k := 0;
      while k < count && stmtBudget > 0
        invariant avail == old(avail) && inHelper && |scopes| == 1 && k <= count
        invariant Growing(lines, params, old(nameCounter), 5)
        decreases count - k
      {
        lines := Grow(lines, 1, params, old(nameCounter), 5);
        k := k + 1;
      }
      var cast := Chance(0.5);
      var ret := Expression(3);
      WidenExpr(ret, Readable(), Vis(), avail, 0);
      inHelper := false;
      h := Helper(sig, lines, if cast then Cast(sig.ret, ret) else ret);
    }

    /** The helpers defined so far: callable, within the rules, their names numbered, their bodies small. */
    ghost predicate Ready(defs: seq<Helper>)
      reads `avail, `inHelper, `nameCounter
    {
      && avail == Sigs(defs) && WFHelpers(defs) && !inHelper
      && Numbered(HelperNames(defs), 0, nameCounter)
      && forall h :: h in defs ==> CountAll(h.body) <= 14
    }

    /** As Ready, after the first `k` families. */
    ghost predicate HelpersReady(defs: seq<Helper>, k: nat)
      reads `avail, `inHelper, `nameCounter
    {
      Ready(defs) && k <= |defs| <= 2 * k && forall sig :: sig in avail ==> sig.name < k
    }

    /** One to three helpers, each perhaps with an overload. */
    method GenHelpers() returns (defs: seq<Helper>)
      requires avail == [] && nameCounter == 0 && !inHelper
      modifies this
      ensures avail == Sigs(defs) && WFHelpers(defs) && !inHelper
      ensures var n := 1 + Scaled(Draw(old(at)), 3); 1 <= n <= |defs| <= 2 * n <= 6
      ensures Numbered(HelperNames(defs), 0, nameCounter)
      ensures forall h :: h in defs ==> CountAll(h.body) <= 14
    {
      defs := [];
      var count := Int(3);
      for k := 0 to 1 + count
        invariant HelpersReady(defs, k)
      {
        defs := HelperFamily(defs, k);
      }
    }

    /** A helper, and now and then an overload that differs in its first parameter type. */
    method HelperFamily(defs: seq<Helper>, k: nat) returns (more: seq<Helper>)
      requires HelpersReady(defs, k)
      modifies this
      ensures HelpersReady(more, k + 1)
    {
      hide WFHelpers;
      hide CountAll;
      ghost var counter := nameCounter;
      var params := BaseParams();
      var ret := Pick(TYPES);
      more := Define(defs, HelperSig(k, ret, params), counter);
      var overload := Chance(0.3);
      if overload {
        more := Overload(more, params, k);
      }
    }

    method Overload(defs: seq<Helper>, params: seq<Param>, k: nat) returns (more: seq<Helper>)
      requires Ready(defs) && |params| > 0 && forall p :: p in params ==> p.ty in TYPES
      requires forall sig :: sig in avail && sig.name == k ==> sig.params == params
      modifies this
      ensures Ready(more) && |more| == |defs| + 1
      ensures |avail| == |old(avail)| + 1 && avail[..|old(avail)|] == old(avail) && avail[|old(avail)|].name == k
    {
      hide WFHelpers;
      hide CountAll;
      ghost var counter := nameCounter;
      var p2 := OverloadParams(params);
      var ret := Pick(TYPES);
      more := Define(defs, HelperSig(k, ret, p2), counter);
    }

    /** Ready, before the parameters of one more helper took their names from `lo` on. */
    ghost predicate ReadyBefore(defs: seq<Helper>, lo: nat)
      reads `avail, `inHelper, `nameCounter
    {
      && avail == Sigs(defs) && WFHelpers(defs) && !inHelper && lo <= nameCounter
      && Numbered(HelperNames(defs), 0, lo)
      && forall h :: h in defs ==> CountAll(h.body) <= 14
    }

    /** Emits one helper definition and only then makes it callable. */
    method Define(defs: seq<Helper>, sig: HelperSig, ghost lo: nat) returns (all: seq<Helper>)
      requires ReadyBefore(defs, lo) && Numbered(ParamNames(sig.params), lo, nameCounter)
      requires forall other :: other in avail ==> other.name != sig.name || ParamTypes(other.params) != ParamTypes(sig.params)
      modifies this
      ensures avail == old(avail) + [sig] && Ready(all)
      ensures |all| == |defs| + 1 && nameCounter >= old(nameCounter)
    {
      ghost var mid := nameCounter;
      var def := HelperDef(sig);
      AppendHelper(defs, def, lo, mid, nameCounter);
      all := defs + [def];
      avail := avail + [sig];
    }

    // ---------- the contract ----------

    /** The statements of the procedure: two declarations, then five to twenty in all while the budget lasts. */
    method TopList(ghost lo: nat) returns (lines: seq<Stmt>)
      requires Growing([], {}, lo, 48) && stmtBudget == 48 && |scopes| == 1
      modifies `nameCounter, `scopes, `stmtBudget, `at
      ensures Growing(lines, {}, lo, 48) && |scopes| == 1
      ensures 3 <= |lines| <= 20 && lines[0].Decl? && lines[1].Decl?
      ensures var n := 5 + Scaled(Draw(old(at)), 16); |lines| <= n && (|lines| < n ==> CountAll(lines) >= 48)
    {
      hide WFStmts;
      hide CountAll;
      var extra := Int(16);
      var topCount := 5 + extra;
      lines := [];
      assert Growing(lines, {}, lo, 48);
      var k := 0;
      while k < topCount && stmtBudget > 0
        invariant |scopes| == 1 && |lines| == k <= topCount
        invariant Growing(lines, {}, lo, 48)
        invariant k <= 2 ==> stmtBudget == 48 - k
        invariant forall i :: 0 <= i < k && i < 2 ==> lines[i].Decl?
        decreases topCount - k
      {
        if k < 2 {
          lines := GrowDecl(lines, {}, lo, 48);
        } else {
          lines := Grow(lines, 2, {}, lo, 48);
        }
        k := k + 1;
      }
    }

    /** Generates a contract that no input can make fault, whatever the random choices were; in C++, where signed overflow
        is undefined, that is the one thing that can go wrong. */
    method Generate() returns (p: Program)
      requires avail == [] && nameCounter == 0 && !inHelper
      modifies this
      ensures WFProgram(p)
      ensures forall input: seq<int>, fields: seq<int> :: |input| == 4 && |fields| == 8 ==>
        Run(p, input, fields, WRAPPING).Success? && Follows(Run(p, input, fields, STRICT), Run(p, input, fields, WRAPPING))
      ensures Numbered(HelperNames(p.helpers) + AllDeclaredNames(p.body), 0, nameCounter)
      ensures stmtBudget == 48 - CountAll(p.body) && CountAll(p.body) <= 57
      ensures var n := 1 + Scaled(Draw(old(at)), 3); 1 <= n <= |p.helpers| <= 2 * n <= 6
      ensures 3 <= |p.body| <= 20 && p.body[0].Decl? && p.body[1].Decl? && (|p.body| < 5 ==> CountAll(p.body) >= 48)
      ensures forall h :: h in p.helpers ==> CountAll(h.body) <= 14
      ensures (set t | t in p.tops) == Names(DeclaresAll(p.body))
    {
      var helpers := GenHelpers();
      ghost var counter0 := nameCounter;
      stmtBudget := 48;
      scopes := [[]];
      assert Vis() == {} by { assert scopes[..0] == []; }
      var lines := TopList(counter0);
      var tops := VarNames(scopes[0]);
      p := Program(helpers, lines, tops);
      TopsAreDeclared(scopes, p);
      NumberedJoin(HelperNames(helpers), AllDeclaredNames(lines), 0, counter0, nameCounter);
      forall input: seq<int>, fields: seq<int> | |input| == 4 && |fields| == 8
        ensures Run(p, input, fields, WRAPPING).Success? && Follows(Run(p, input, fields, STRICT), Run(p, input, fields, WRAPPING))
      {
        hide Run;
        ProgramNeverFaults(p, input, fields);
        OnlyOverflowStops(p, input, fields);
      }
    }
  }
}
