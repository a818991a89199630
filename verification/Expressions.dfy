/** Three-valued logic and the conditional expressions of a Kconfig file (expr.h, expr.c). */
module Expressions {

  // ---------- tristate values ----------

  type Tri = t: int | 0 <= t <= 2

  const NO: Tri := 0
  const MOD: Tri := 1
  const YES: Tri := 2

  datatype Op = OrOp | AndOp

  function Other(op: Op): Op {
    if op.OrOp? then AndOp else OrOp
  }

  /** EXPR_OR is the maximum and EXPR_AND the minimum. */
  function Join(op: Op, a: Tri, b: Tri): Tri {
    match op
    case OrOp => if a > b then a else b
    case AndOp => if a < b then a else b
  }

  /** EXPR_NOT */
  function Neg(a: Tri): Tri {
    2 - a
  }

  function Unit(op: Op): Tri {
    if op.OrOp? then NO else YES
  }

  function Letter(t: Tri): string {
    if t == NO then "n" else if t == MOD then "m" else "y"
  }

  // ---------- symbols ----------

  datatype SymType = Unknown | Boolean | Tristate | Int | Hex | String | OtherType

  /** sym_lookup turns "y", "m" and "n" into the fixed symbols, so no other constant has such a
      name. */
  type ConstName = s: string | s != "y" && s != "m" && s != "n" witness ""

  /** The three fixed constants, further constants such as "foo", and the named symbols of a
      configuration. Equality stands for identity of `struct symbol` pointers. */
  datatype Sym =
    | SymYes
    | SymMod
    | SymNo
    | Const(text: ConstName)
    | Config(name: string, ty: SymType)
  {
    function Type(): SymType {
      if Config? then ty else Unknown
    }

    /** SYMBOL_CONST */
    predicate IsConst() {
      !Config?
    }

    predicate IsBoolOrTristate() {
      Type().Boolean? || Type().Tristate?
    }

    /** One of the symbols `y`, `m` and `n`. */
    predicate IsFixed() {
      SymYes? || SymMod? || SymNo?
    }
  }

  function UnitSym(op: Op): Sym {
    if op.OrOp? then SymNo else SymYes
  }

  // ---------- expressions ----------

  datatype Expr =
    | Symbol(sym: Sym)
    | Equal(left: Sym, right: Sym)
    | Unequal(left: Sym, right: Sym)
    | Not(arg: Expr)
    | Bin(op: Op, lhs: Expr, rhs: Expr)

  datatype Option<+T> = None | Some(value: T)

  predicate IsOp(op: Op, e: Expr) {
    e.Bin? && e.op == op
  }

  function UnitExpr(op: Op): Expr {
    Symbol(UnitSym(op))
  }

  /** expr_alloc_and and expr_alloc_or, where a null expression adds nothing. */
  function AllocBin(op: Op, a: Option<Expr>, b: Option<Expr>): Option<Expr> {
    if a.None? then b
    else if b.None? then a
    else Some(Bin(op, a.value, b.value))
  }

  function Size(e: Expr): nat
    ensures Size(e) >= 1
  {
    match e
    case Not(a) => 1 + Size(a)
    case Bin(_, l, r) => 1 + Size(l) + Size(r)
    case _ => 1
  }

  /** Symbols and comparisons. */
  function Leaves(e: Expr): nat
    ensures Leaves(e) >= 1
  {
    match e
    case Not(a) => Leaves(a)
    case Bin(_, l, r) => Leaves(l) + Leaves(r)
    case _ => 1
  }

  // ---------- meaning ----------

  datatype Val = Val(tri: Tri, str: string)

  type Env = Sym -> Val

  /** The assignments the symbol table can produce: fixed constants, a boolean symbol that is
      never m, a bool or tristate symbol whose string is the letter of its value, and constants
      told apart by their strings. */
  ghost predicate WellTyped(env: Env) {
    && env(SymYes) == Val(YES, "y")
    && env(SymMod) == Val(MOD, "m")
    && env(SymNo) == Val(NO, "n")
    && (forall s: Sym :: s.Type() == Boolean ==> env(s).tri != MOD)
    && (forall s: Sym :: s.IsBoolOrTristate() ==> env(s).str == Letter(env(s).tri))
    && (forall s: Sym, t: Sym :: s.IsConst() && t.IsConst() && s != t ==> env(s).str != env(t).str)
  }

  /** expr_calc_value on a non-null expression, given the values of all symbols. */
  function Eval(e: Expr, env: Env): Tri {
    match e
    case Symbol(s) => env(s).tri
    case Equal(l, r) => if env(l).str == env(r).str then YES else NO
    case Unequal(l, r) => if env(l).str == env(r).str then NO else YES
    case Not(a) => Neg(Eval(a, env))
    case Bin(op, l, r) => Join(op, Eval(l, env), Eval(r, env))
  }

  /** A null condition is y. */
  function EvalOpt(e: Option<Expr>, env: Env): Tri {
    if e.None? then YES else Eval(e.value, env)
  }

  /** No symbol that the expression uses for its tristate value is at m. */
  predicate NoMod(e: Expr, env: Env) {
    match e
    case Symbol(s) => env(s).tri != MOD
    case Not(a) => NoMod(a, env)
    case Bin(_, l, r) => NoMod(l, env) && NoMod(r, env)
    case _ => true
  }

  lemma {:induction false} NoModIsTwoValued(e: Expr, env: Env)
    requires NoMod(e, env)
    ensures Eval(e, env) != MOD
  {
    match e
    case Not(a) => NoModIsTwoValued(a, env);
    case Bin(_, l, r) =>
      NoModIsTwoValued(l, env);
      NoModIsTwoValued(r, env);
    case _ =>
  }
}
