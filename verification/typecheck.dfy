/** The type pass of the compiler (ResolveTypes in tut_compiler.c): every
    expression gets a type tag or compilation stops at the first error.
    An assignment gets no tag at all, and the source dereferences a missing
    tag where an operand needs one; both show here as `None` and the error
    `Untyped`. Tut_CanAssignTypes, whose body is not part of this model, is
    the parameter `assignable` (from, to). */
module Typecheck {
  import opened Wrappers
  import opened Types
  import opened Tokens
  import opened Syntax
  import Layout
  import Parser

  type Assignable = (Typetag, Typetag) -> bool

  datatype TypeError =
    | Unresolved(name: string)
    | Untyped
    | UnknownUnary(op: Token)
    | BadNegate(operand: Typetag)
    | BadDeref(operand: Typetag)
    | UnspecifiedDeref
    | BadBinaryOperand(op: Token, operand: Typetag)
    | MismatchedBinary(lhs: Typetag, rhs: Typetag)
    | MismatchedAssign(target: Typetag, value: Typetag)
    | NoMembers(tag: Typetag)
    | NotReference(tag: Typetag)
    | UnspecifiedArrow
    | NoSuchMember(tag: Typetag, member: string)
    | NotCallable(tag: Typetag)
    | ArgCount(expected: nat, passed: nat)
    | TooFewArgs(expected: nat, passed: nat)
    | BadArgument(position: nat, want: Typetag, got: Typetag)
    | ReturnMismatch(ret: Typetag, value: Typetag)
    | MissingReturnValue

  /** The outcome for one expression: its tag, `None` for an assignment. */
  type Typed = Result<Option<Typetag>, TypeError>

  /** An operand whose tag the pass goes on to use. */
  function Need(t: Option<Typetag>): Result<Typetag, TypeError> {
    if t.Some? then Success(t.value) else Failure(Untyped)
  }

  /** The binary operators whose result is a `bool` rather than the left
      operand's type. */
  predicate YieldsBool(op: Token) {
    op in {EQUALS, NEQUALS, LT, GT, LTE, GTE, LAND, LOR}
  }

  function TypeOf(assignable: Assignable, e: Expr): Typed
    decreases e, 1
  {
    match e
    case Sizeof(v) =>
      var _ :- TypeOf(assignable, v);
      Success(Some(Int))
    case Null => Success(Some(Ref(None)))
    case True => Success(Some(Bool))
    case False => Success(Some(Bool))
    case IntLit(_) => Success(Some(Int))
    case FloatLit(_) => Success(Some(Float))
    case StrLit(_) => Success(Some(CStr))
    case VarDef(_) => Success(Some(Void))
    case Ident(name, b) => IdentType(name, b)
    case Unary(op, v) =>
      var t :- TypeOf(assignable, v);
      UnaryType(op, t)
    case Bin(op, l, r) =>
      var lt :- TypeOf(assignable, l);
      var rt :- TypeOf(assignable, r);
      BinaryType(assignable, op, l, lt, rt)
    case Paren(v) => TypeOf(assignable, v)
    case Dot(v, m) =>
      var t :- TypeOf(assignable, v);
      MemberType(false, t, m)
    case Arrow(v, m) =>
      var t :- TypeOf(assignable, v);
      MemberType(true, t, m)
    case Call(callee, args) =>
      var ct :- TypeOf(assignable, callee);
      var ft :- Need(ct);
      CallType(assignable, e, ft, args)
    case Cast(v, target) =>
      var _ :- TypeOf(assignable, v);
      Success(Some(target))
    case Block(stmts) =>
      var _ :- TypeAll(assignable, e, stmts);
      Success(Some(Void))
    case If(c, body, alt) =>
      var _ :- TypeOf(assignable, c);
      var _ :- TypeOf(assignable, body);
      if alt.Some? then
        var _ :- TypeOf(assignable, alt.value);
        Success(Some(Void))
      else Success(Some(Void))
    case While(c, body) =>
      var _ :- TypeOf(assignable, c);
      var _ :- TypeOf(assignable, body);
      Success(Some(Void))
    case StructDef => Success(Some(Void))
    case FuncDef(_, body) =>
      var _ :- TypeOf(assignable, body);
      Success(Some(Void))
    case Return(v, ret) =>
      if v.Some? then
        var t :- TypeOf(assignable, v.value);
        var vt :- Need(t);
        if !CompareTypes(ret, vt) then Failure(ReturnMismatch(ret, vt)) else Success(Some(Void))
      else if ret != Void then Failure(MissingReturnValue)
      else Success(Some(Void))
  }

  /** A call once its callee is typed: the callee must be a function, the
      argument count must fit, then the arguments are typed and checked. */
  function CallType(assignable: Assignable, parent: Expr, ft: Typetag, args: seq<Expr>): Typed
    requires forall i :: 0 <= i < |args| ==> args[i] < parent
    decreases parent, 0, |args| + 1
  {
    if !ft.Func? then Failure(NotCallable(ft))
    else if !ft.varargs && |args| != |ft.args| then Failure(ArgCount(|ft.args|, |args|))
    else if ft.varargs && |args| < |ft.args| then Failure(TooFewArgs(|ft.args|, |args|))
    else
      var ats :- TypeAll(assignable, parent, args);
      var _ :- CheckArgs(assignable, ats, ft.args, 0);
      Success(Some(ft.ret))
  }

  /** The children of a call or a block in order; the first error stops the pass. */
  function TypeAll(assignable: Assignable, parent: Expr, es: seq<Expr>): (r: Result<seq<Option<Typetag>>, TypeError>)
    requires forall i :: 0 <= i < |es| ==> es[i] < parent
    ensures r.Success? ==> |r.value| == |es|
    ensures r.Success? ==> forall i :: 0 <= i < |es| ==> TypeOf(assignable, es[i]) == Success(r.value[i])
    ensures r.Failure? ==> exists i :: 0 <= i < |es| && TypeOf(assignable, es[i]).Failure?
    decreases parent, 0, |es|
  {
    if |es| == 0 then Success([])
    else
      var t :- TypeOf(assignable, es[0]);
      var ts :- TypeAll(assignable, parent, es[1..]);
      assert forall i :: 1 <= i < |es| ==> es[i] == es[1..][i - 1];
      Success([t] + ts)
  }

  /** The argument loop of a call: argument `i` must be assignable to
      parameter `i`, for as many pairs as both lists have. */
  function CheckArgs(assignable: Assignable, ats: seq<Option<Typetag>>, ps: seq<Typetag>, i: nat): (r: Result<(), TypeError>)
    requires i <= |ats| && i <= |ps|
    ensures r.Success? <==> forall k :: i <= k < |ats| && k < |ps| ==> ats[k].Some? && assignable(ats[k].value, ps[k])
    decreases |ps| - i
  {
    if i == |ats| || i == |ps| then Success(())
    else
      var t :- Need(ats[i]);
      if !assignable(t, ps[i]) then Failure(BadArgument(i + 1, ps[i], t))
      else CheckArgs(assignable, ats, ps, i + 1)
  }

  /** An identifier has the type of what it names: a variable's declared
      type, a function's type, or the named type itself. */
  function IdentType(name: string, b: Binding): Typed {
    match b
    case ToVar(d) => Success(Some(d.typetag))
    case ToFunc(f) => Success(Some(f.typetag))
    case ToType(t) => Success(Some(t))
    case Unbound => Failure(Unresolved(name))
  }

  /** `&` stores the operand's tag as the pointee without looking at it,
      so the address of an untyped operand is the unspecified reference;
      `-` and `*` read the operand's tag. */
  function UnaryType(op: Token, t: Option<Typetag>): Typed {
    if op == AND then Success(Some(Ref(t)))
    else
      var vt :- Need(t);
      if op == MINUS then
        if !vt.Int? && !vt.Float? then Failure(BadNegate(vt)) else Success(Some(vt))
      else if op == MUL then
        if !vt.Ref? then Failure(BadDeref(vt))
        else if vt.pointee.None? then Failure(UnspecifiedDeref)
        else Success(vt.pointee)
      else Failure(UnknownUnary(op))
  }

  /** A binary node once both operands are typed; `l` is the left operand,
      whose declared type an assignment to a new variable uses. */
  function BinaryType(assignable: Assignable, op: Token, l: Expr, lt: Option<Typetag>, rt: Option<Typetag>): Typed {
    var lv :- Need(lt);
    var rv :- Need(rt);
    if op != ASSIGN then
      if lv.Void? || lv.User? then Failure(BadBinaryOperand(op, lv))
      else if !CompareTypes(lv, rv) then Failure(MismatchedBinary(lv, rv))
      else if YieldsBool(op) then Success(Some(Bool))
      else Success(Some(lv))
    else
      var target := if l.VarDef? then l.decl.typetag else lv;
      if !assignable(rv, target) then Failure(MismatchedAssign(target, rv))
      else Success(None)
  }

  /** `.` and `->`: the struct is the value's type or, through `->`, the
      type a reference points to. */
  function MemberType(arrow: bool, t: Option<Typetag>, m: string): Typed {
    var vt :- Need(t);
    var tag :-
      if !arrow then
        if !vt.User? then Failure(NoMembers(vt)) else Success(vt)
      else if !vt.Ref? then Failure(NotReference(vt))
      else if vt.pointee.None? then Failure(UnspecifiedArrow)
      else if !vt.pointee.value.User? then Failure(NoMembers(vt.pointee.value))
      else Success(vt.pointee.value);
    var found := Layout.GetMember(tag, m);
    if found.None? then Failure(NoSuchMember(tag, m)) else Success(Some(found.value.typetag))
  }

  // ---------------------------------------------------------------------
  // The typing rules

  /** The binary operators typed `bool` are exactly the logical and the
      comparison operators, the two precedence levels between assignment
      and addition. */
  lemma BoolOpsAreComparisons(op: Token)
    ensures YieldsBool(op) <==> Parser.Prec(op) == 1 || Parser.Prec(op) == 2
  {
  }

  /** A binary operation other than assignment is well typed exactly when
      the left operand is neither `void` nor a struct and the operands'
      types compare equal ... */
  lemma BinaryRule(assignable: Assignable, op: Token, l: Expr, r: Expr, lt: Typetag, rt: Typetag)
    requires op != ASSIGN
    requires TypeOf(assignable, l) == Success(Some(lt)) && TypeOf(assignable, r) == Success(Some(rt))
    ensures TypeOf(assignable, Bin(op, l, r)).Success? <==>
      KindOf(lt) != KVoid && KindOf(lt) != KUser && CompareTypes(lt, rt)
  {
    assert TypeOf(assignable, Bin(op, l, r)) == BinaryType(assignable, op, l, Some(lt), Some(rt));
  }

  /** ... and its type is `bool` for a logical or comparison operator and
      the left operand's type otherwise. */
  lemma BinaryResult(assignable: Assignable, op: Token, l: Expr, r: Expr, lt: Typetag)
    requires op != ASSIGN
    requires TypeOf(assignable, l) == Success(Some(lt))
    requires TypeOf(assignable, Bin(op, l, r)).Success?
    ensures TypeOf(assignable, Bin(op, l, r)).value == Some(if Parser.Prec(op) in {1, 2} then Bool else lt)
  {
    BoolOpsAreComparisons(op);
  }

  /** An assignment is well typed exactly when the value is assignable to
      the target: the declared type of a variable being defined, else the
      left side's type. It has no type of its own. */
  lemma AssignRule(assignable: Assignable, l: Expr, r: Expr, lt: Typetag, rt: Typetag)
    requires TypeOf(assignable, l) == Success(Some(lt)) && TypeOf(assignable, r) == Success(Some(rt))
    ensures TypeOf(assignable, Bin(ASSIGN, l, r)) ==
      if assignable(rt, if l.VarDef? then l.decl.typetag else lt) then Success(None)
      else Failure(MismatchedAssign(if l.VarDef? then l.decl.typetag else lt, rt))
  {
  }

  /** So an assignment cannot be the operand of a binary operator ... */
  lemma AssignIsNotAnOperand(assignable: Assignable, op: Token, a: Expr, other: Expr)
    requires a.Bin? && a.op == ASSIGN && TypeOf(assignable, a).Success?
    requires TypeOf(assignable, other).Success?
    ensures TypeOf(assignable, Bin(op, a, other)) == Failure(Untyped)
  {
  }

  /** ... nor of `-` or `*`, which read the operand's tag ... */
  lemma AssignIsNotUnaryOperand(assignable: Assignable, op: Token, a: Expr)
    requires op != AND
    requires a.Bin? && a.op == ASSIGN && TypeOf(assignable, a).Success?
    ensures TypeOf(assignable, Unary(op, a)) == Failure(Untyped)
  {
  }

  /** ... while its address is taken without complaint and is the
      unspecified reference. */
  lemma AddressOfAssign(assignable: Assignable, a: Expr)
    requires a.Bin? && a.op == ASSIGN && TypeOf(assignable, a).Success?
    ensures TypeOf(assignable, Unary(AND, a)) == Success(Some(Ref(None)))
    ensures TypeOf(assignable, Unary(AND, Paren(a))) == Success(Some(Ref(None)))
  {
    assert TypeOf(assignable, a) == Success(None) by { AssignHasNoType(assignable, a); }
    assert TypeOf(assignable, Paren(a)) == TypeOf(assignable, a);
  }

  /** A well-typed assignment has no type of its own. */
  lemma AssignHasNoType(assignable: Assignable, a: Expr)
    requires a.Bin? && a.op == ASSIGN && TypeOf(assignable, a).Success?
    ensures TypeOf(assignable, a) == Success(None)
  {
  }

  /** Negation keeps an `int` or a `float` and rejects anything else. */
  lemma NegateRule(assignable: Assignable, v: Expr, t: Typetag)
    requires TypeOf(assignable, v) == Success(Some(t))
    ensures TypeOf(assignable, Unary(MINUS, v)) ==
      if t == Int || t == Float then Success(Some(t)) else Failure(BadNegate(t))
  {
    assert TypeOf(assignable, Unary(MINUS, v)) == UnaryType(MINUS, Some(t));
  }

  /** Dereferencing needs a reference with a known pointee and gives that
      pointee. */
  lemma DerefRule(assignable: Assignable, v: Expr, t: Typetag)
    requires TypeOf(assignable, v) == Success(Some(t))
    ensures TypeOf(assignable, Unary(MUL, v)).Success? <==> t.Ref? && t.pointee.Some?
    ensures TypeOf(assignable, Unary(MUL, v)).Success? ==> TypeOf(assignable, Unary(MUL, v)).value == t.pointee
  {
    assert TypeOf(assignable, Unary(MUL, v)) == UnaryType(MUL, Some(t));
  }

  /** Taking the address of any typable operand succeeds and gives a
      reference whose pointee is the operand's tag: a specified reference
      for a typed operand, the unspecified one for an assignment. */
  lemma AddressRule(assignable: Assignable, v: Expr)
    requires TypeOf(assignable, v).Success?
    ensures TypeOf(assignable, Unary(AND, v)) == Success(Some(Ref(TypeOf(assignable, v).value)))
    ensures TypeOf(assignable, v).value.Some? ==> TypeOf(assignable, Unary(AND, v)).value.value.pointee.Some?
  {
    assert TypeOf(assignable, Unary(AND, v)) == UnaryType(AND, TypeOf(assignable, v).value);
  }

  /** `v.m` needs `v` to be a struct and `p->m` a reference to a struct,
      which must have a member named `m`; the access has the type of the
      first member of that name. */
  lemma MemberRule(assignable: Assignable, v: Expr, m: string, t: Typetag, arrow: bool)
    requires TypeOf(assignable, v) == Success(Some(t))
    ensures var e := if arrow then Arrow(v, m) else Dot(v, m);
      var s := if arrow && t.Ref? && t.pointee.Some? then t.pointee.value else t;
      && (TypeOf(assignable, e).Success? <==>
            (!arrow || (t.Ref? && t.pointee.Some?)) && s.User?
            && exists i :: 0 <= i < |s.members| && s.members[i].name == m)
      && (TypeOf(assignable, e).Success? ==>
            exists i :: 0 <= i < |s.members| && s.members[i].name == m
                        && TypeOf(assignable, e).value == Some(s.members[i].typetag)
                        && forall j :: 0 <= j < i ==> s.members[j].name != m)
  {
    var e := if arrow then Arrow(v, m) else Dot(v, m);
    var s := if arrow && t.Ref? && t.pointee.Some? then t.pointee.value else t;
    assert TypeOf(assignable, e) == MemberType(arrow, Some(t), m);
    if (!arrow || (t.Ref? && t.pointee.Some?)) && s.User? {
      var found := Layout.GetMember(s, m);
      assert MemberType(arrow, Some(t), m) ==
        if found.None? then Failure(NoSuchMember(s, m)) else Success(Some(found.value.typetag));
    }
  }

  /** A call needs a function: exactly as many arguments as parameters, or
      at least as many for a variadic function, each fixed parameter
      receiving an assignable argument; the call has the return type. */
  lemma CallRule(assignable: Assignable, callee: Expr, args: seq<Expr>, ps: seq<Typetag>, ret: Typetag, va: bool, ats: seq<Typetag>)
    requires TypeOf(assignable, callee) == Success(Some(Func(ps, ret, va)))
    requires |ats| == |args| && forall i :: 0 <= i < |args| ==> TypeOf(assignable, args[i]) == Success(Some(ats[i]))
    ensures TypeOf(assignable, Call(callee, args)).Success? <==>
      && (if va then |args| >= |ps| else |args| == |ps|)
      && forall i :: 0 <= i < |ps| ==> assignable(ats[i], ps[i])
    ensures TypeOf(assignable, Call(callee, args)).Success? ==> TypeOf(assignable, Call(callee, args)).value == Some(ret)
  {
    var e := Call(callee, args);
    assert TypeOf(assignable, e) == CallType(assignable, e, Func(ps, ret, va), args);
    if (if va then |args| >= |ps| else |args| == |ps|) {
      var all := TypeAll(assignable, e, args);
      if all.Success? {
        assert forall i :: 0 <= i < |args| ==> all.value[i] == Some(ats[i]);
      }
    }
  }

  /** A `return` with a value needs the value's type to compare equal to the
      enclosing function's return type; one without needs that type to be
      `void`. */
  lemma ReturnRule(assignable: Assignable, v: Option<Expr>, ret: Typetag, t: Typetag)
    requires v.Some? ==> TypeOf(assignable, v.value) == Success(Some(t))
    ensures TypeOf(assignable, Return(v, ret)).Success? <==>
      if v.Some? then CompareTypes(ret, t) else ret == Void
  {
  }

  /** Statements are typed `void`. */
  lemma StatementsAreVoid(assignable: Assignable, e: Expr)
    requires e.Block? || e.If? || e.While? || e.FuncDef? || e.Return? || e.StructDef? || e.VarDef?
    requires TypeOf(assignable, e).Success?
    ensures TypeOf(assignable, e).value == Some(Void)
  {
  }

  /** The direct sub-expressions of a node, in the order the pass visits them. */
  function Children(e: Expr): (r: seq<Expr>)
    ensures forall i :: 0 <= i < |r| ==> r[i] < e
  {
    match e
    case Sizeof(v) => [v]
    case Unary(_, v) => [v]
    case Bin(_, l, r) => [l, r]
    case Paren(v) => [v]
    case Dot(v, _) => [v]
    case Arrow(v, _) => [v]
    case Call(callee, args) => [callee] + args
    case Cast(v, _) => [v]
    case Block(stmts) => stmts
    case If(c, body, alt) => [c, body] + (if alt.Some? then [alt.value] else [])
    case While(c, body) => [c, body]
    case FuncDef(_, body) => [body]
    case Return(v, _) => if v.Some? then [v.value] else []
    case _ => []
  }

  /** Errors are never masked: a node whose sub-expression fails to type
      fails itself. */
  lemma ChildErrorPropagates(assignable: Assignable, e: Expr, i: nat)
    requires i < |Children(e)| && TypeOf(assignable, Children(e)[i]).Failure?
    ensures TypeOf(assignable, e).Failure?
  {
    match e
    case Call(callee, args) =>
      if i > 0 {
        assert Children(e)[i] == args[i - 1];
      }
    case Block(stmts) =>
    case If(c, body, alt) =>
    case _ =>
  }
}
