/** Code generation of tut_compiler.c: lvalue offsets (GetLvalue), member
    reads, calls, the lowering of `if`/`while`/`func` with backpatched
    jumps, and the `_main` entry jump of Tut_CompileModule.

    The bodies of the Tut_Emit* helpers are not part of this model. Each
    emission appends one abstract instruction; the code size is the number
    of instructions; Tut_EmitGoto returns the index of the jump it emits and
    Tut_PatchGoto replaces that jump's target; Tut_EmitFunctionEntryPoint
    records the entry's index in the function table. The type tags the type
    pass leaves on every node, the slot size of a type, and the compilation
    of the forms outside this model (literals, variables, arithmetic, `->`
    reads and assignment targets) are the parameters in `Backend`. */
module Lowering {
  import opened Wrappers
  import opened Types
  import opened Tokens
  import opened Syntax
  import Layout

  datatype Instr =
    | Goto(conditional: bool, target: int)
    | FunctionEntry
    | Push(count: int)
    | Pop(count: int)
    | Move(count: int, offset: int)
    | Invoke(argSlots: nat)
    | Ret
    | Retval(count: int)
    | MakeVarRef(global: bool, index: int)
    | MakeDynRef(offset: int)

  datatype CompileError =
    | NotAValue
    | NotAStatement
    | AssignAsValue
    | CannotReference
    | Unchecked
    | NoMain
    | MainNotCompiled

  /** `ty`: the tag the type pass put on a node; `sz`: Tut_GetTypetagSize;
      `leaf`: CompileValue for the value forms not modelled here;
      `assign`: CompileAssign for a target. */
  datatype Backend = Backend(
    ty: Expr -> Option<Typetag>,
    sz: Typetag -> nat,
    leaf: Expr -> Result<seq<Instr>, CompileError>,
    assign: Expr -> Result<seq<Instr>, CompileError>)

  // ---------------------------------------------------------------------
  // Lvalues

  /** The storage an lvalue expression names: a root expression, its
      variable when the root is one, and an offset from the root. */
  datatype Lvalue = Lvalue(root: Expr, decl: Option<VarDecl>, offset: int)

  /** `NotAnLvalue` is GetLvalue returning false; `BadPath` stands for a
      failed assertion or a missing member, which the type pass rules out. */
  datatype LvalueError = NotAnLvalue | BadPath

  function MemberOffset(tag: Option<Typetag>, m: string): Result<int, LvalueError> {
    if tag.None? || !tag.value.User? then Failure(BadPath)
    else
      var mem := Layout.GetMember(tag.value, m);
      if mem.None? then Failure(BadPath) else Success(mem.value.offset)
  }

  function Pointee(tag: Option<Typetag>): Option<Typetag> {
    if tag.Some? && tag.value.Ref? then tag.value.pointee else None
  }

  /** The offset of a pending member name, looked up in the node's own type. */
  function Pending(ty: Expr -> Option<Typetag>, e: Expr, mb: Option<string>): Result<int, LvalueError> {
    if mb.None? then Success(0) else MemberOffset(ty(e), mb.value)
  }

  /** The entry assertions of GetLvalue: the node is typed, and it is a
      struct when a member name is pending. */
  predicate EntryOk(ty: Expr -> Option<Typetag>, e: Expr, mb: Option<string>) {
    ty(e).Some? && (mb.Some? ==> ty(e).value.User?)
  }

  /** GetLvalue as written: `->` starts a new root at the reference and
      drops the member name pending from an enclosing `.`. */
  function GetLvalueAsWritten(ty: Expr -> Option<Typetag>, e: Expr, mb: Option<string>, acc: int): (r: Result<Lvalue, LvalueError>)
    decreases e
  {
    if !EntryOk(ty, e, mb) then Failure(BadPath)
    else match e
      case VarDef(d) =>
        var extra :- Pending(ty, e, mb);
        Success(Lvalue(e, Some(d), acc + extra))
      case Ident(_, b) =>
        var extra :- Pending(ty, e, mb);
        Success(Lvalue(e, if b.ToVar? then Some(b.decl) else None, acc + extra))
      case Dot(v, m) =>
        var inner :- GetLvalueAsWritten(ty, v, Some(m), acc);
        var extra :- Pending(ty, e, mb);
        Success(inner.(offset := inner.offset + extra))
      case Arrow(v, m) =>
        var off :- MemberOffset(Pointee(ty(v)), m);
        Success(Lvalue(v, None, acc + off))
      case Paren(v) => GetLvalueAsWritten(ty, v, mb, acc)
      case _ => Failure(NotAnLvalue)
  }

  /** GetLvalue with the pending member name added after `->` as well, as
      the `.` case does. */
  function GetLvalue(ty: Expr -> Option<Typetag>, e: Expr, mb: Option<string>, acc: int): (r: Result<Lvalue, LvalueError>)
    ensures r.Success? ==> r.value.root < e || r.value.root == e
    decreases e
  {
    if !EntryOk(ty, e, mb) then Failure(BadPath)
    else match e
      case VarDef(d) =>
        var extra :- Pending(ty, e, mb);
        Success(Lvalue(e, Some(d), acc + extra))
      case Ident(_, b) =>
        var extra :- Pending(ty, e, mb);
        Success(Lvalue(e, if b.ToVar? then Some(b.decl) else None, acc + extra))
      case Dot(v, m) =>
        var inner :- GetLvalue(ty, v, Some(m), acc);
        var extra :- Pending(ty, e, mb);
        Success(inner.(offset := inner.offset + extra))
      case Arrow(v, m) =>
        var off :- MemberOffset(Pointee(ty(v)), m);
        var extra :- Pending(ty, e, mb);
        Success(Lvalue(v, None, acc + off + extra))
      case Paren(v) => GetLvalue(ty, v, mb, acc)
      case _ => Failure(NotAnLvalue)
  }

  /** Reference definition: the offset of the storage a member path names,
      from its root. A variable is its own root; `.m` adds `m`'s offset in
      the struct; `->m` starts at the struct the reference points to. */
  function PathOffset(ty: Expr -> Option<Typetag>, e: Expr): Result<int, LvalueError> {
    match e
    case VarDef(_) => Success(0)
    case Ident(_, _) => Success(0)
    case Dot(v, m) =>
      var base :- PathOffset(ty, v);
      var off :- MemberOffset(ty(v), m);
      Success(base + off)
    case Arrow(v, m) => MemberOffset(Pointee(ty(v)), m)
    case Paren(v) => PathOffset(ty, v)
    case _ => Failure(NotAnLvalue)
  }

  /** The root of a member path and its variable. */
  function PathRoot(e: Expr): (Expr, Option<VarDecl>) {
    match e
    case VarDef(d) => (e, Some(d))
    case Ident(_, b) => (e, if b.ToVar? then Some(b.decl) else None)
    case Dot(v, _) => PathRoot(v)
    case Arrow(v, _) => (v, None)
    case Paren(v) => PathRoot(v)
    case _ => (e, None)
  }

  /** What the type pass guarantees along a path: every node is typed, the
      value of a `.` is a struct, and a parenthesis has its operand's type. */
  predicate ChainTyped(ty: Expr -> Option<Typetag>, e: Expr) {
    ty(e).Some? &&
    match e
    case Dot(v, _) => ty(v).Some? && ty(v).value.User? && ChainTyped(ty, v)
    case Paren(v) => ty(v) == ty(e) && ChainTyped(ty, v)
    case _ => true
  }

  /** On a well-typed path the corrected GetLvalue finds the path's root
      and adds up the path's offsets, plus any pending member. */
  lemma {:induction false} GetLvalueFollowsPath(ty: Expr -> Option<Typetag>, e: Expr, mb: Option<string>, acc: int)
    requires ChainTyped(ty, e) && (mb.Some? ==> ty(e).value.User?)
    ensures GetLvalue(ty, e, mb, acc) ==
      (var p :- PathOffset(ty, e);
       var x :- Pending(ty, e, mb);
       Success(Lvalue(PathRoot(e).0, PathRoot(e).1, acc + p + x)))
    decreases e
  {
    match e
    case Dot(v, m) =>
      GetLvalueFollowsPath(ty, v, Some(m), acc);
    case Paren(v) =>
      GetLvalueFollowsPath(ty, v, mb, acc);
    case _ =>
  }

  // ---------------------------------------------------------------------
  // Values

  function LvalueFailure(err: LvalueError): CompileError {
    if err == NotAnLvalue then CannotReference else Unchecked
  }

  /** CompileValue: the code that pushes a value. It contains no jumps, so
      it does not depend on where it is placed. */
  function CompileValue(b: Backend, e: Expr): Result<seq<Instr>, CompileError>
    decreases e, 2
  {
    match e
    case Paren(v) => CompileValue(b, v)
    case Cast(v, _) => CompileValue(b, v)
    case Dot(v, m) =>
      var vc :- CompileValue(b, v);
      var rd :- MemberRead(b, v, e, m);
      Success(vc + rd)
    case Unary(op, v) =>
      if op != AND then b.leaf(e)
      else
        var lv := GetLvalue(b.ty, v, None, 0);
        if lv.Failure? then Failure(LvalueFailure(lv.error))
        else if lv.value.decl.Some? then
          Success([MakeVarRef(lv.value.decl.value.global, lv.value.decl.value.index + lv.value.offset)])
        else
          var rc :- CompileValue(b, lv.value.root);
          Success(rc + [MakeDynRef(lv.value.offset)])
    case Call(_, _) => CompileCall(b, e, false)
    case Bin(op, _, _) => if op == ASSIGN then Failure(AssignAsValue) else b.leaf(e)
    case Block(_) => Failure(NotAValue)
    case If(_, _, _) => Failure(NotAValue)
    case While(_, _) => Failure(NotAValue)
    case FuncDef(_, _) => Failure(NotAValue)
    case Return(_, _) => Failure(NotAValue)
    case StructDef => Failure(NotAValue)
    case VarDef(_) => Failure(NotAValue)
    case _ => b.leaf(e)
  }

  /** The `.m` read after the whole struct `v` is on the stack: pop the
      members after `m`, then move `m`'s slots down over the ones before. */
  function MemberRead(b: Backend, v: Expr, e: Expr, m: string): Result<seq<Instr>, CompileError> {
    var tag := b.ty(v);
    if tag.None? || !tag.value.User? || b.ty(e).None? then Failure(Unchecked)
    else
      var mem := Layout.GetMember(tag.value, m);
      if mem.None? then Failure(Unchecked)
      else
        var size := b.sz(tag.value);
        var memberSize := b.sz(b.ty(e).value);
        Success([Pop(size - mem.value.offset - memberSize), Move(memberSize, mem.value.offset)])
  }

  /** CompileCall: the arguments in order, then the callee, then a call
      carrying the arguments' total slot count; a call statement drops a
      non-void result. */
  function CompileCall(b: Backend, e: Expr, discard: bool): Result<seq<Instr>, CompileError>
    requires e.Call?
    decreases e, 1
  {
    var ft := b.ty(e.callee);
    if ft.None? || !ft.value.Func? then Failure(Unchecked)
    else
      var slots :- ArgSlots(b, e.args);
      var ac :- CompileArgs(b, e, e.args);
      var cc :- CompileValue(b, e.callee);
      var drop := if discard && ft.value.ret != Void then [Pop(b.sz(ft.value.ret))] else [];
      Success(ac + cc + [Invoke(slots)] + drop)
  }

  /** The total slot count of the arguments, each of which must be typed. */
  function ArgSlots(b: Backend, args: seq<Expr>): (r: Result<nat, CompileError>)
    ensures r.Success? <==> forall i :: 0 <= i < |args| ==> b.ty(args[i]).Some?
  {
    if |args| == 0 then Success(0)
    else
      var t := b.ty(args[|args| - 1]);
      if t.None? then Failure(Unchecked)
      else
        var rest :- ArgSlots(b, args[..|args| - 1]);
        Success(rest + b.sz(t.value))
  }

  function CompileArgs(b: Backend, parent: Expr, args: seq<Expr>): Result<seq<Instr>, CompileError>
    requires forall i :: 0 <= i < |args| ==> args[i] < parent
    decreases parent, 0, |args|
  {
    if |args| == 0 then Success([])
    else
      var c :- CompileValue(b, args[0]);
      var rest :- CompileArgs(b, parent, args[1..]);
      Success(c + rest)
  }

  /** The slots of one argument: the size of its type. */
  function ArgWidth(b: Backend): Expr -> nat {
    var ty := b.ty;
    var sz := b.sz;
    (a: Expr) => if ty(a).Some? then sz(ty(a).value) else 0
  }

  /** The slot count a call carries is the total width of its arguments,
      the width the callee's frame gives its arguments. */
  lemma {:induction false} ArgSlotsTotal(b: Backend, args: seq<Expr>)
    requires forall i :: 0 <= i < |args| ==> b.ty(args[i]).Some?
    ensures ArgSlots(b, args) == Success(Layout.Total(args, ArgWidth(b)))
  {
    if |args| > 0 {
      var n := |args| - 1;
      ArgSlotsTotal(b, args[..n]);
      Layout.PrefixOfPrefix(args, ArgWidth(b), n, n);
      assert args[..n][..n] == args[..n];
    }
  }

  /** A call's code: the arguments' code, the callee's, the call with the
      arguments' total width, and a pop of the result exactly when it is
      discarded and not void. */
  lemma CallShape(b: Backend, e: Expr, discard: bool)
    requires e.Call? && CompileCall(b, e, discard).Success?
    ensures b.ty(e.callee).Some? && b.ty(e.callee).value.Func?
    ensures CompileArgs(b, e, e.args).Success? && CompileValue(b, e.callee).Success?
    ensures var code := CompileCall(b, e, discard).value;
      var head := CompileArgs(b, e, e.args).value + CompileValue(b, e.callee).value;
      var ret := b.ty(e.callee).value.ret;
      && |head| < |code|
      && code[..|head|] == head
      && code[|head|] == Invoke(Layout.Total(e.args, ArgWidth(b)))
      && (discard && ret != Void <==> |code| == |head| + 2)
      && (|code| == |head| + 2 ==> code[|head| + 1] == Pop(b.sz(ret)))
      && (|code| != |head| + 2 ==> |code| == |head| + 1)
  {
    ArgSlotsTotal(b, e.args);
    var code := CompileCall(b, e, discard).value;
    var head := CompileArgs(b, e, e.args).value + CompileValue(b, e.callee).value;
    assert code[..|head|] == head;
  }

  /** Pop and Move on a stack of slots, as the member read uses them: Pop
      drops slots from the top; Move(n, k) moves the top `n` slots down over
      the `k` slots below them. */
  function RunSlots(stack: seq<int>, code: seq<Instr>): Option<seq<int>>
    decreases |code|
  {
    if |code| == 0 then Some(stack)
    else match code[0]
      case Pop(n) =>
        if 0 <= n <= |stack| then RunSlots(stack[..|stack| - n], code[1..]) else None
      case Move(n, k) =>
        if 0 <= n && 0 <= k && n + k <= |stack|
        then RunSlots(stack[..|stack| - n - k] + stack[|stack| - n..], code[1..])
        else None
      case _ => None
  }

  /** On a laid-out struct, the member read leaves exactly the member's
      slots where the struct started. */
  lemma DotReadLeavesMember(b: Backend, v: Expr, e: Expr, m: string, tag: Typetag, mem: Member, base: seq<int>, slots: seq<int>)
    requires b.ty(v) == Some(tag) && tag.User? && Layout.GetMember(tag, m) == Some(mem)
    requires Layout.RunningOffsets(tag.members, b.sz, 0)
    requires b.sz(tag) == Layout.Total(tag.members, Layout.MemberWidth(b.sz))
    requires b.ty(e) == Some(mem.typetag)
    requires |slots| == b.sz(tag)
    ensures 0 <= mem.offset && mem.offset + b.sz(mem.typetag) <= |slots|
    ensures MemberRead(b, v, e, m).Success?
    ensures RunSlots(base + slots, MemberRead(b, v, e, m).value)
            == Some(base + slots[mem.offset..mem.offset + b.sz(mem.typetag)])
  {
    assert 0 <= mem.offset && mem.offset + b.sz(mem.typetag) <= |slots| by {
      Layout.FoundMemberInside(tag, m, mem, b.sz);
    }
    MemberReadCode(b, v, e, m, tag, mem);
    PopThenMove(base, slots, mem.offset, b.sz(mem.typetag));
  }

  lemma MemberReadCode(b: Backend, v: Expr, e: Expr, m: string, tag: Typetag, mem: Member)
    requires b.ty(v) == Some(tag) && tag.User? && Layout.GetMember(tag, m) == Some(mem)
    requires b.ty(e) == Some(mem.typetag)
    ensures MemberRead(b, v, e, m)
            == Success([Pop(b.sz(tag) - mem.offset - b.sz(mem.typetag)), Move(b.sz(mem.typetag), mem.offset)])
  {
  }

  /** Popping what lies above a window and moving the window down over what
      lies below it leaves the window in the place of the whole. */
  lemma PopThenMove(base: seq<int>, slots: seq<int>, k: nat, n: nat)
    requires k + n <= |slots|
    ensures RunSlots(base + slots, [Pop(|slots| - k - n), Move(n, k)]) == Some(base + slots[k..k + n])
  {
    var stack := base + slots;
    var popped := stack[..|stack| - (|slots| - k - n)];
    assert popped == base + slots[..k + n];
    var moved := popped[..|popped| - n - k] + popped[|popped| - n..];
    assert moved == base + slots[k..k + n];
    assert [Pop(|slots| - k - n), Move(n, k)][1..] == [Move(n, k)];
    assert RunSlots(popped, [Move(n, k)]) == RunSlots(moved, []);
  }

  // ---------------------------------------------------------------------
  // Statements

  /** The code emitted so far and the function table (functionPcs). */
  datatype Code = Code(instrs: seq<Instr>, pcs: seq<int>)

  function Emit(c: Code, i: Instr): Code {
    c.(instrs := c.instrs + [i])
  }

  function Append(c: Code, code: seq<Instr>): Code {
    c.(instrs := c.instrs + code)
  }

  /** Tut_PatchGoto: give the jump at `loc` a new target; anything else is
      left alone. */
  function PatchGoto(c: Code, loc: nat, target: int): Code {
    if loc < |c.instrs| && c.instrs[loc].Goto? then
      c.(instrs := c.instrs[loc := Goto(c.instrs[loc].conditional, target)])
    else c
  }

  /** Code only grows: a statement patches only jumps it emitted itself, so
      earlier instructions and table entries are kept. */
  ghost predicate Extends(c: Code, d: Code) {
    |c.instrs| <= |d.instrs| && d.instrs[..|c.instrs|] == c.instrs
    && |c.pcs| <= |d.pcs| && d.pcs[..|c.pcs|] == c.pcs
  }

  /** Every function table entry is the index of a function entry point. */
  ghost predicate EntriesValid(c: Code) {
    forall k :: 0 <= k < |c.pcs| ==> 0 <= c.pcs[k] < |c.instrs| && c.instrs[c.pcs[k]] == FunctionEntry
  }

  function CompileStatement(b: Backend, c: Code, e: Expr): Result<Code, CompileError>
    decreases e, 1
  {
    match e
    case StructDef => Success(c)
    case VarDef(_) => Success(c)
    case Block(stmts) => CompileBlock(b, c, e, stmts)
    case If(_, _, _) => CompileIf(b, c, e)
    case While(_, _) => CompileWhile(b, c, e)
    case FuncDef(_, _) => CompileFunc(b, c, e)
    case Call(_, _) =>
      var cc :- CompileCall(b, e, true);
      Success(Append(c, cc))
    case Return(v, _) =>
      if v.None? then Success(Emit(c, Ret))
      else
        var vc :- CompileValue(b, v.value);
        var t := b.ty(v.value);
        if t.None? then Failure(Unchecked) else Success(Append(c, vc + [Retval(b.sz(t.value))]))
    case Bin(op, l, rhs) =>
      if op != ASSIGN then Failure(NotAStatement)
      else
        var rc :- CompileValue(b, rhs);
        var ac :- b.assign(l);
        Success(Append(c, rc + ac))
    case _ => Failure(NotAStatement)
  }

  /** `if`: the condition, a conditional jump, the body, an exit jump; the
      conditional jump is patched to just after the exit jump, then the
      alternative follows and the exit jump is patched to the end. */
  function CompileIf(b: Backend, c: Code, e: Expr): Result<Code, CompileError>
    requires e.If?
    decreases e, 0
  {
    match CompileValue(b, e.cond)
    case Failure(err) => Failure(err)
    case Success(cc) =>
      var c1 := Emit(Append(c, cc), Goto(true, 0));
      match CompileStatement(b, c1, e.body)
      case Failure(err) => Failure(err)
      case Success(c2) =>
        var exitLoc := |c2.instrs|;
        var c3 := PatchGoto(Emit(c2, Goto(false, 0)), |c1.instrs| - 1, exitLoc + 1);
        if e.alt.None? then Success(PatchGoto(c3, exitLoc, |c3.instrs|))
        else match CompileStatement(b, c3, e.alt.value)
        case Failure(err) => Failure(err)
        case Success(c4) => Success(PatchGoto(c4, exitLoc, |c4.instrs|))
  }

  /** `while`: the condition, a conditional jump, the body, and a jump back
      to the condition; the conditional jump is patched to the end. */
  function CompileWhile(b: Backend, c: Code, e: Expr): Result<Code, CompileError>
    requires e.While?
    decreases e, 0
  {
    var continueLoc := |c.instrs|;
    var cc :- CompileValue(b, e.cond);
    var c1 := Emit(Append(c, cc), Goto(true, 0));
    var patchLoc := |c1.instrs| - 1;
    var c2 :- CompileStatement(b, c1, e.body);
    var c3 := Emit(c2, Goto(false, continueLoc));
    Success(PatchGoto(c3, patchLoc, |c3.instrs|))
  }

  /** A function: its entry point (recorded in the function table), room
      for its locals when they take any slots, the body, and a return. */
  function CompileFunc(b: Backend, c: Code, e: Expr): Result<Code, CompileError>
    requires e.FuncDef?
    decreases e, 0
  {
    var c1 := Code(c.instrs + [FunctionEntry], c.pcs + [|c.instrs|]);
    var localSize := Layout.Total(e.func.locals, Layout.DeclWidth(b.sz));
    var c2 := if localSize > 0 then Emit(c1, Push(localSize)) else c1;
    var c3 :- CompileStatement(b, c2, e.body);
    Success(Emit(c3, Ret))
  }

  function CompileBlock(b: Backend, c: Code, parent: Expr, stmts: seq<Expr>): Result<Code, CompileError>
    requires forall i :: 0 <= i < |stmts| ==> stmts[i] < parent
    decreases parent, 0, |stmts|
  {
    if |stmts| == 0 then Success(c)
    else
      var c1 :- CompileStatement(b, c, stmts[0]);
      CompileBlock(b, c1, parent, stmts[1..])
  }

  // ---------------------------------------------------------------------
  // Code only grows

  /** Extending is transitive. */
  lemma ExtendsTrans(c: Code, d: Code, e: Code)
    requires Extends(c, d) && Extends(d, e)
    ensures Extends(c, e)
  {
    assert e.instrs[..|c.instrs|] == e.instrs[..|d.instrs|][..|c.instrs|];
    assert e.pcs[..|c.pcs|] == e.pcs[..|d.pcs|][..|c.pcs|];
  }

  /** Patching at or after the end of `c` keeps `c` and the entries. */
  lemma PatchKeeps(c: Code, d: Code, loc: nat, target: int)
    requires Extends(c, d) && |c.instrs| <= loc
    ensures Extends(c, PatchGoto(d, loc, target))
    ensures EntriesValid(d) ==> EntriesValid(PatchGoto(d, loc, target))
  {
    var d' := PatchGoto(d, loc, target);
    assert d'.instrs[..|c.instrs|] == d.instrs[..|c.instrs|];
  }

  /** Appending instructions keeps `c` and the entries. */
  lemma AppendKeeps(c: Code, code: seq<Instr>)
    ensures Extends(c, Append(c, code))
    ensures EntriesValid(c) ==> EntriesValid(Append(c, code))
  {
    assert Append(c, code).instrs[..|c.instrs|] == c.instrs;
  }

  /** A statement's code extends the code before it, and every function
      table entry, old and new, indexes a function entry point. */
  lemma {:induction false} StatementKeeps(b: Backend, c: Code, e: Expr)
    requires CompileStatement(b, c, e).Success?
    ensures Extends(c, CompileStatement(b, c, e).value)
    ensures EntriesValid(c) ==> EntriesValid(CompileStatement(b, c, e).value)
    decreases e, 1
  {
    match e
    case Block(stmts) => BlockKeeps(b, c, e, stmts);
    case If(_, _, _) => IfKeeps(b, c, e);
    case While(_, _) => WhileKeeps(b, c, e);
    case FuncDef(_, _) => FuncKeeps(b, c, e);
    case Call(_, _) => AppendKeeps(c, CompileCall(b, e, true).value);
    case Return(v, _) =>
      if v.None? {
        AppendKeeps(c, [Ret]);
      } else {
        AppendKeeps(c, CompileValue(b, v.value).value + [Retval(b.sz(b.ty(v.value).value))]);
      }
    case Bin(_, l, rhs) => AppendKeeps(c, CompileValue(b, rhs).value + b.assign(l).value);
    case _ =>
  }

  lemma {:induction false} IfKeeps(b: Backend, c: Code, e: Expr)
    requires e.If? && CompileIf(b, c, e).Success?
    ensures Extends(c, CompileIf(b, c, e).value)
    ensures EntriesValid(c) ==> EntriesValid(CompileIf(b, c, e).value)
    decreases e, 0
  {
    var cc := CompileValue(b, e.cond).value;
    var c1 := Emit(Append(c, cc), Goto(true, 0));
    var bodyCode := CompileStatement(b, c1, e.body).value;
    StatementKeeps(b, c1, e.body);
    var r := CompileIf(b, c, e).value;
    var c4 := IfShape(b, c, e.cond, e.body, e.alt, cc, bodyCode, r);
    var c3 := PatchGoto(Emit(bodyCode, Goto(false, 0)), |c.instrs| + |cc|, |bodyCode.instrs| + 1);
    if e.alt.Some? {
      StatementKeeps(b, c3, e.alt.value);
    } else {
      assert c4.instrs[..|c3.instrs|] == c3.instrs;
    }
    IfKeepsLayout(c, cc, bodyCode, c4, r);
  }

  lemma IfKeepsLayout(c: Code, cc: seq<Instr>, bodyCode: Code, c4: Code, r: Code)
    requires Extends(Emit(Append(c, cc), Goto(true, 0)), bodyCode)
    requires EntriesValid(Emit(Append(c, cc), Goto(true, 0))) ==> EntriesValid(bodyCode)
    requires var c3 := PatchGoto(Emit(bodyCode, Goto(false, 0)), |c.instrs| + |cc|, |bodyCode.instrs| + 1);
      Extends(c3, c4) && (EntriesValid(c3) ==> EntriesValid(c4))
    requires r == PatchGoto(c4, |bodyCode.instrs|, |c4.instrs|)
    ensures Extends(c, r)
    ensures EntriesValid(c) ==> EntriesValid(r)
  {
    var c1 := Emit(Append(c, cc), Goto(true, 0));
    AppendKeeps(c, cc + [Goto(true, 0)]);
    ExtendsTrans(c, c1, bodyCode);
    var c2' := Emit(bodyCode, Goto(false, 0));
    AppendKeeps(bodyCode, [Goto(false, 0)]);
    ExtendsTrans(c, bodyCode, c2');
    var c3 := PatchGoto(c2', |c1.instrs| - 1, |bodyCode.instrs| + 1);
    PatchKeeps(c, c2', |c1.instrs| - 1, |bodyCode.instrs| + 1);
    ExtendsTrans(c, c3, c4);
    PatchKeeps(c, c4, |bodyCode.instrs|, |c4.instrs|);
  }

  lemma {:induction false} WhileKeeps(b: Backend, c: Code, e: Expr)
    requires e.While? && CompileWhile(b, c, e).Success?
    ensures Extends(c, CompileWhile(b, c, e).value)
    ensures EntriesValid(c) ==> EntriesValid(CompileWhile(b, c, e).value)
    decreases e, 0
  {
    var cc := CompileValue(b, e.cond).value;
    var c1 := Emit(Append(c, cc), Goto(true, 0));
    AppendKeeps(c, cc + [Goto(true, 0)]);
    var c2 := CompileStatement(b, c1, e.body).value;
    StatementKeeps(b, c1, e.body);
    ExtendsTrans(c, c1, c2);
    var c3 := Emit(c2, Goto(false, |c.instrs|));
    AppendKeeps(c2, [Goto(false, |c.instrs|)]);
    ExtendsTrans(c, c2, c3);
    PatchKeeps(c, c3, |c1.instrs| - 1, |c3.instrs|);
  }

  lemma {:induction false} FuncKeeps(b: Backend, c: Code, e: Expr)
    requires e.FuncDef? && CompileFunc(b, c, e).Success?
    ensures Extends(c, CompileFunc(b, c, e).value)
    ensures EntriesValid(c) ==> EntriesValid(CompileFunc(b, c, e).value)
    decreases e, 0
  {
    var c1 := Code(c.instrs + [FunctionEntry], c.pcs + [|c.instrs|]);
    assert Extends(c, c1) by {
      assert c1.instrs[..|c.instrs|] == c.instrs;
      assert c1.pcs[..|c.pcs|] == c.pcs;
    }
    var localSize := Layout.Total(e.func.locals, Layout.DeclWidth(b.sz));
    var c2 := if localSize > 0 then Emit(c1, Push(localSize)) else c1;
    AppendKeeps(c1, [Push(localSize)]);
    ExtendsTrans(c, c1, c2);
    var c3 := CompileStatement(b, c2, e.body).value;
    StatementKeeps(b, c2, e.body);
    ExtendsTrans(c, c2, c3);
    AppendKeeps(c3, [Ret]);
    ExtendsTrans(c, c3, Emit(c3, Ret));
  }

  lemma {:induction false} BlockKeeps(b: Backend, c: Code, parent: Expr, stmts: seq<Expr>)
    requires forall i :: 0 <= i < |stmts| ==> stmts[i] < parent
    requires CompileBlock(b, c, parent, stmts).Success?
    ensures Extends(c, CompileBlock(b, c, parent, stmts).value)
    ensures EntriesValid(c) ==> EntriesValid(CompileBlock(b, c, parent, stmts).value)
    decreases parent, 0, |stmts|
  {
    if |stmts| > 0 {
      var c1 := CompileStatement(b, c, stmts[0]).value;
      StatementKeeps(b, c, stmts[0]);
      BlockKeeps(b, c1, parent, stmts[1..]);
      ExtendsTrans(c, c1, CompileBlock(b, c1, parent, stmts[1..]).value);
    }
  }

  // ---------------------------------------------------------------------
  // Jump targets

  /** In an `if`, the conditional jump sits right after the condition and
      targets the first instruction after the body's exit jump; the exit
      jump targets the end of the whole statement, which is right after it
      when there is no alternative. */
  lemma IfJumps(b: Backend, c: Code, cond: Expr, body: Expr, alt: Option<Expr>, cc: seq<Instr>, bodyCode: Code, r: Code)
    requires CompileValue(b, cond) == Success(cc)
    requires CompileStatement(b, Emit(Append(c, cc), Goto(true, 0)), body) == Success(bodyCode)
    requires CompileIf(b, c, If(cond, body, alt)) == Success(r)
    ensures var p := |c.instrs| + |cc|;
      var x := |bodyCode.instrs|;
      && p < x < |r.instrs|
      && r.instrs[|c.instrs|..p] == cc
      && r.instrs[p] == Goto(true, x + 1)
      && r.instrs[x] == Goto(false, |r.instrs|)
      && (alt.None? ==> x + 1 == |r.instrs|)
  {
    StatementKeeps(b, Emit(Append(c, cc), Goto(true, 0)), body);
    var c4 := IfShape(b, c, cond, body, alt, cc, bodyCode, r);
    var c3 := PatchGoto(Emit(bodyCode, Goto(false, 0)), |c.instrs| + |cc|, |bodyCode.instrs| + 1);
    if alt.Some? {
      StatementKeeps(b, c3, alt.value);
    } else {
      assert c4.instrs[..|c3.instrs|] == c3.instrs;
    }
    IfLayout(c, cc, bodyCode, c4, r);
  }

  /** Unfolds an `if`: the code is the code after the alternative (or after
      the exit jump when there is none) with the exit jump patched. */
  lemma IfShape(b: Backend, c: Code, cond: Expr, body: Expr, alt: Option<Expr>, cc: seq<Instr>, bodyCode: Code, r: Code)
    returns (c4: Code)
    requires CompileValue(b, cond) == Success(cc)
    requires CompileStatement(b, Emit(Append(c, cc), Goto(true, 0)), body) == Success(bodyCode)
    requires CompileIf(b, c, If(cond, body, alt)) == Success(r)
    ensures var c3 := PatchGoto(Emit(bodyCode, Goto(false, 0)), |c.instrs| + |cc|, |bodyCode.instrs| + 1);
      && (alt.Some? ==> CompileStatement(b, c3, alt.value) == Success(c4))
      && (alt.None? ==> c4 == c3)
      && r == PatchGoto(c4, |bodyCode.instrs|, |c4.instrs|)
  {
    var c3 := PatchGoto(Emit(bodyCode, Goto(false, 0)), |c.instrs| + |cc|, |bodyCode.instrs| + 1);
    c4 := if alt.Some? then CompileStatement(b, c3, alt.value).value else c3;
  }

  /** Where the two jumps of an `if` land, as a fact about code: the body
      extends the condition and its jump, the alternative extends the exit
      jump. */
  lemma IfLayout(c: Code, cc: seq<Instr>, bodyCode: Code, c4: Code, r: Code)
    requires Extends(Emit(Append(c, cc), Goto(true, 0)), bodyCode)
    requires Extends(PatchGoto(Emit(bodyCode, Goto(false, 0)), |c.instrs| + |cc|, |bodyCode.instrs| + 1), c4)
    requires r == PatchGoto(c4, |bodyCode.instrs|, |c4.instrs|)
    ensures var p := |c.instrs| + |cc|;
      var x := |bodyCode.instrs|;
      && p < x < |r.instrs|
      && r.instrs[|c.instrs|..p] == cc
      && r.instrs[p] == Goto(true, x + 1)
      && r.instrs[x] == Goto(false, |r.instrs|)
      && (c4 == PatchGoto(Emit(bodyCode, Goto(false, 0)), |c.instrs| + |cc|, |bodyCode.instrs| + 1) ==> x + 1 == |r.instrs|)
  {
    var c1 := Emit(Append(c, cc), Goto(true, 0));
    var p := |c.instrs| + |cc|;
    var x := |bodyCode.instrs|;
    var c3 := PatchGoto(Emit(bodyCode, Goto(false, 0)), p, x + 1);
    assert bodyCode.instrs[p] == c1.instrs[p];
    assert c3.instrs[..p + 1] == c1.instrs[p := Goto(true, x + 1)] by {
      assert bodyCode.instrs[..|c1.instrs|] == c1.instrs;
    }
    assert c4.instrs[x] == c3.instrs[x];
    assert r.instrs[..p + 1] == c1.instrs[p := Goto(true, x + 1)] by {
      assert c4.instrs[..|c3.instrs|] == c3.instrs;
    }
    assert r.instrs[|c.instrs|..p] == r.instrs[..p + 1][|c.instrs|..p];
  }

  /** In a `while`, the conditional jump sits right after the condition and
      targets the instruction after the back jump, which ends the statement
      and targets the start of the condition. */
  lemma WhileJumps(b: Backend, c: Code, cond: Expr, body: Expr, cc: seq<Instr>, bodyCode: Code, r: Code)
    requires CompileValue(b, cond) == Success(cc)
    requires CompileStatement(b, Emit(Append(c, cc), Goto(true, 0)), body) == Success(bodyCode)
    requires CompileWhile(b, c, While(cond, body)) == Success(r)
    ensures var p := |c.instrs| + |cc|;
      && p < |r.instrs| - 1
      && r.instrs[|c.instrs|..p] == cc
      && r.instrs[p] == Goto(true, |r.instrs|)
      && r.instrs[|r.instrs| - 1] == Goto(false, |c.instrs|)
  {
    StatementKeeps(b, Emit(Append(c, cc), Goto(true, 0)), body);
    WhileShape(b, c, cond, body, cc, bodyCode, r);
    WhileLayout(c, cc, bodyCode, r);
  }

  /** Unfolds a `while`: the body and the back jump, with the conditional
      jump patched to the end. */
  lemma WhileShape(b: Backend, c: Code, cond: Expr, body: Expr, cc: seq<Instr>, bodyCode: Code, r: Code)
    requires CompileValue(b, cond) == Success(cc)
    requires CompileStatement(b, Emit(Append(c, cc), Goto(true, 0)), body) == Success(bodyCode)
    requires CompileWhile(b, c, While(cond, body)) == Success(r)
    ensures r == PatchGoto(Emit(bodyCode, Goto(false, |c.instrs|)), |c.instrs| + |cc|, |bodyCode.instrs| + 1)
  {
  }

  /** Where the two jumps of a `while` land, as a fact about code. */
  lemma WhileLayout(c: Code, cc: seq<Instr>, bodyCode: Code, r: Code)
    requires Extends(Emit(Append(c, cc), Goto(true, 0)), bodyCode)
    requires r == PatchGoto(Emit(bodyCode, Goto(false, |c.instrs|)), |c.instrs| + |cc|, |bodyCode.instrs| + 1)
    ensures var p := |c.instrs| + |cc|;
      && p < |r.instrs| - 1
      && r.instrs[|c.instrs|..p] == cc
      && r.instrs[p] == Goto(true, |r.instrs|)
      && r.instrs[|r.instrs| - 1] == Goto(false, |c.instrs|)
  {
    var c1 := Emit(Append(c, cc), Goto(true, 0));
    var p := |c.instrs| + |cc|;
    assert bodyCode.instrs[p] == c1.instrs[p];
    assert r.instrs[..p] == c1.instrs[..p] by {
      assert bodyCode.instrs[..|c1.instrs|] == c1.instrs;
    }
    assert r.instrs[|c.instrs|..p] == r.instrs[..p][|c.instrs|..];
  }

  /** A function starts with an entry point whose index the function table
      records, reserves its locals' total size when positive, and ends in a
      return. */
  lemma FuncFrame(b: Backend, c: Code, f: FuncDecl, body: Expr)
    requires CompileFunc(b, c, FuncDef(f, body)).Success?
    ensures var r := CompileFunc(b, c, FuncDef(f, body)).value;
      var size := Layout.Total(f.locals, Layout.DeclWidth(b.sz));
      && |c.instrs| + 1 < |r.instrs|
      && r.instrs[..|c.instrs| + 1] == c.instrs + [FunctionEntry]
      && |c.pcs| < |r.pcs| && r.pcs[|c.pcs|] == |c.instrs|
      && (size > 0 ==> r.instrs[|c.instrs| + 1] == Push(size))
      && r.instrs[|r.instrs| - 1] == Ret
  {
    var c1 := Code(c.instrs + [FunctionEntry], c.pcs + [|c.instrs|]);
    var size := Layout.Total(f.locals, Layout.DeclWidth(b.sz));
    var c2 := if size > 0 then Emit(c1, Push(size)) else c1;
    var c3 := CompileStatement(b, c2, body).value;
    StatementKeeps(b, c2, body);
    FuncFrameParts(c, c1, c2, c3, size);
  }

  lemma FuncFrameParts(c: Code, c1: Code, c2: Code, c3: Code, size: nat)
    requires c1 == Code(c.instrs + [FunctionEntry], c.pcs + [|c.instrs|])
    requires c2 == if size > 0 then Emit(c1, Push(size)) else c1
    requires Extends(c2, c3)
    ensures var r := Emit(c3, Ret);
      && |c.instrs| + 1 < |r.instrs|
      && r.instrs[..|c.instrs| + 1] == c.instrs + [FunctionEntry]
      && |c.pcs| < |r.pcs| && r.pcs[|c.pcs|] == |c.instrs|
      && (size > 0 ==> r.instrs[|c.instrs| + 1] == Push(size))
      && r.instrs[|r.instrs| - 1] == Ret
  {
    var r := Emit(c3, Ret);
    assert r.instrs[..|c2.instrs|] == c2.instrs by {
      assert c3.instrs[..|c2.instrs|] == c2.instrs;
    }
    assert r.instrs[..|c.instrs| + 1] == c2.instrs[..|c.instrs| + 1];
    assert r.pcs[..|c1.pcs|] == c1.pcs;
  }

  // ---------------------------------------------------------------------
  // Modules

  /** Tut_GetFuncDecl, as a lookup of the first function with the name. */
  function FindFunc(fs: seq<FuncDecl>, name: string): (r: Option<FuncDecl>)
    ensures r.Some? <==> exists i :: 0 <= i < |fs| && fs[i].name == name
    ensures r.Some? ==> r.value.name == name && r.value in fs
  {
    if |fs| == 0 then None
    else if fs[0].name == name then Some(fs[0])
    else FindFunc(fs[1..], name)
  }

  /** The number of extern functions, the size the extern tables get. */
  function CountExterns(fs: seq<FuncDecl>): (r: nat)
    ensures r <= |fs|
    ensures r == 0 <==> forall i :: 0 <= i < |fs| ==> !fs[i].extern
    ensures r == |fs| <==> forall i :: 0 <= i < |fs| ==> fs[i].extern
  {
    if |fs| == 0 then 0
    else
      var rest := CountExterns(fs[1..]);
      assert forall i :: 1 <= i < |fs| ==> fs[i] == fs[1..][i - 1];
      (if fs[0].extern then 1 else 0) + rest
  }

  /** The statements of a module, in order. */
  function CompileStatements(b: Backend, c: Code, stmts: seq<Expr>): Result<Code, CompileError>
    decreases |stmts|
  {
    if |stmts| == 0 then Success(c)
    else
      var c1 :- CompileStatement(b, c, stmts[0]);
      CompileStatements(b, c1, stmts[1..])
  }

  lemma {:induction false} StatementsKeep(b: Backend, c: Code, stmts: seq<Expr>)
    requires CompileStatements(b, c, stmts).Success?
    ensures Extends(c, CompileStatements(b, c, stmts).value)
    ensures EntriesValid(c) ==> EntriesValid(CompileStatements(b, c, stmts).value)
    decreases |stmts|
  {
    if |stmts| > 0 {
      var c1 := CompileStatement(b, c, stmts[0]).value;
      StatementKeeps(b, c, stmts[0]);
      StatementsKeep(b, c1, stmts[1..]);
      ExtendsTrans(c, c1, CompileStatements(b, c1, stmts[1..]).value);
    }
  }

  /** The compiled program: the instructions, the function table and the
      size of the extern tables. */
  datatype Program = Program(code: seq<Instr>, pcs: seq<int>, externs: nat)

  /** Tut_CompileModule: a jump to `_main`, the statements of the imported
      modules and of the module itself (`stmts`, in that order), and the
      jump patched to `_main`'s entry in the function table. */
  function CompileModule(b: Backend, functions: seq<FuncDecl>, stmts: seq<Expr>): Result<Program, CompileError> {
    var main := FindFunc(functions, "_main");
    if main.None? then Failure(NoMain)
    else
      var c :- CompileStatements(b, Code([Goto(false, 0)], []), stmts);
      if !(0 <= main.value.index < |c.pcs|) then Failure(MainNotCompiled)
      else
        var code := PatchGoto(c, 0, c.pcs[main.value.index]);
        Success(Program(code.instrs, code.pcs, CountExterns(functions)))
  }

  /** A program starts with an unconditional jump to `_main`'s entry point,
      which comes after it; a module without `_main` is rejected. */
  lemma MainJump(b: Backend, functions: seq<FuncDecl>, stmts: seq<Expr>)
    ensures (forall i :: 0 <= i < |functions| ==> functions[i].name != "_main")
            ==> CompileModule(b, functions, stmts) == Failure(NoMain)
    ensures CompileModule(b, functions, stmts).Success? ==>
      var p := CompileModule(b, functions, stmts).value;
      var t := p.pcs[FindFunc(functions, "_main").value.index];
      && 0 < t < |p.code|
      && p.code[0] == Goto(false, t)
      && p.code[t] == FunctionEntry
  {
    if CompileModule(b, functions, stmts).Success? {
      var c0 := Code([Goto(false, 0)], []);
      var c := CompileStatements(b, c0, stmts).value;
      StatementsKeep(b, c0, stmts);
      assert c.instrs[0] == Goto(false, 0) by {
        assert c.instrs[..1] == c0.instrs;
      }
    }
  }

  // ---------------------------------------------------------------------
  // The `->` offset

  /** The example: `p` a reference to S { a: T }, T { x; y }, and the path
      `p->a.y`. */
  const ExampleT: Typetag := User(true, Some("T"), [Member("x", 0, Int), Member("y", 1, Int)])
  const ExampleS: Typetag := User(true, Some("S"), [Member("a", 0, ExampleT)])
  const ExampleP: Expr := Ident("p", Unbound)
  const ExamplePA: Expr := Arrow(ExampleP, "a")
  const ExamplePath: Expr := Dot(ExamplePA, "y")

  /** Any typing of the example the type pass could produce. */
  predicate ExampleTyped(ty: Expr -> Option<Typetag>) {
    ty(ExampleP) == Some(Ref(Some(ExampleS))) && ty(ExamplePA) == Some(ExampleT) && ty(ExamplePath) == Some(Int)
  }

  /** `&p->a.y`: the as-written GetLvalue gives the offset of `a` alone. */
  lemma ArrowDropsMember(ty: Expr -> Option<Typetag>)
    requires ExampleTyped(ty)
    ensures GetLvalueAsWritten(ty, ExamplePath, None, 0) == Success(Lvalue(ExampleP, None, 0))
  {
    assert Layout.GetMember(ExampleS, "a") == Some(Member("a", 0, ExampleT));
    assert GetLvalueAsWritten(ty, ExamplePA, Some("y"), 0) == Success(Lvalue(ExampleP, None, 0));
  }

  /** `&p->a.y`: the corrected GetLvalue adds the offset of `y`, 1, as the
      path's own offsets say. */
  lemma ArrowKeepsMember(ty: Expr -> Option<Typetag>)
    requires ExampleTyped(ty)
    ensures GetLvalue(ty, ExamplePath, None, 0) == Success(Lvalue(ExampleP, None, 1))
    ensures PathOffset(ty, ExamplePA) == Success(0) && Pending(ty, ExamplePA, Some("y")) == Success(1)
  {
    assert Layout.GetMember(ExampleS, "a") == Some(Member("a", 0, ExampleT));
    assert Layout.GetMember(ExampleT, "y") == Some(Member("y", 1, Int));
    assert GetLvalue(ty, ExamplePA, Some("y"), 0) == Success(Lvalue(ExampleP, None, 1));
  }
}
