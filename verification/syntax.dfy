/** The expression tree shared by the parser and the compiler (TutExpr of
    tut_compiler.c and tut_parser.c). Statements are expressions, as in the
    source: a module is a list of expressions. */
module Syntax {
  import opened Wrappers
  import opened Types
  import opened Tokens

  /** A declared variable (TutVarDecl). `global` stands for a declaration
      without a parent function; `index` is the storage index the index pass
      assigns (negative for arguments). */
  datatype VarDecl = VarDecl(name: string, typetag: Typetag, index: int, global: bool)

  /** A declared function (TutFuncDecl): its slot in the function table,
      whether it is an `extern`, its arguments and its locals in declaration
      order, and its function type tag. */
  datatype FuncDecl = FuncDecl(
    name: string, extern: bool, index: int,
    args: seq<VarDecl>, locals: seq<VarDecl>, typetag: Typetag)

  /** What an identifier was resolved to by the symbol pass: a variable, a
      function or a type name (the three pointers of `varx`). */
  datatype Binding =
    | Unbound
    | ToVar(decl: VarDecl)
    | ToFunc(func: FuncDecl)
    | ToType(tag: Typetag)

  datatype Expr =
    | True
    | False
    | Null
    | IntLit(n: int)
    | FloatLit(text: string)
    | StrLit(s: string)
    | Ident(name: string, binding: Binding)
    | VarDef(decl: VarDecl)
    | Unary(uop: Token, value: Expr)
    | Bin(op: Token, lhs: Expr, rhs: Expr)
    | Paren(value: Expr)
    | Dot(value: Expr, member: string)
    | Arrow(value: Expr, member: string)
    | Call(callee: Expr, args: seq<Expr>)
    | Cast(value: Expr, target: Typetag)
    | Sizeof(value: Expr)
    | Block(stmts: seq<Expr>)
    | If(cond: Expr, body: Expr, alt: Option<Expr>)
    | While(cond: Expr, body: Expr)
    | Return(result: Option<Expr>, retType: Typetag)
    | FuncDef(func: FuncDecl, body: Expr)
    | StructDef
}
