/** The expression parser of tut_parser.c: the precedence climber
    (GetTokenPrec, ParseBinRhs), the unary and postfix sub-grammars, the call
    argument loop and the type grammar. The lexer's current token becomes a
    position in a sequence of tokens; reading past the end yields EOF, as
    the lexer does once the text is exhausted. */
module Parser {
  import opened Wrappers
  import opened Types
  import opened Tokens
  import opened Syntax

  /** A token together with its text (curTok and lexeme). */
  datatype Lexeme = Lexeme(kind: Token, text: string)

  datatype ParseError =
    | Expected(want: Token, got: Token)
    | UnexpectedToken(got: Token)
    | MissingCloseParen(got: Token)
    | BadSeparator(got: Token)
    | CalleeNotIdentifier
    | NotModelled(got: Token)

  type Parsed<T> = Result<(T, nat), ParseError>

  /** The current token at `pos`; past the end the lexer keeps answering EOF. */
  function Cur(toks: seq<Lexeme>, pos: nat): (l: Lexeme)
    ensures l.kind != EOF ==> pos < |toks|
  {
    if pos < |toks| then toks[pos] else Lexeme(EOF, "")
  }

  /** ExpectToken followed by Tut_GetToken. */
  function Eat(toks: seq<Lexeme>, pos: nat, want: Token): (r: Result<nat, ParseError>)
    requires want != EOF
    ensures r.Success? <==> Cur(toks, pos).kind == want
    ensures r.Success? ==> r.value == pos + 1 <= |toks|
  {
    if Cur(toks, pos).kind != want then Failure(Expected(want, Cur(toks, pos).kind))
    else Success(pos + 1)
  }

  /** GetTokenPrec: the binding strength of a binary operator, -1 for every
      other token. */
  function Prec(t: Token): int {
    match t
    case ASSIGN => 0
    case LAND | LOR => 1
    case LT | GT | LTE | GTE | EQUALS | NEQUALS => 2
    case PLUS | MINUS => 3
    case MUL | DIV => 4
    case _ => -1
  }

  /** The binding strength of a tree's top: its operator for a binary node,
      tighter than any operator for everything else. */
  function TopPrec(e: Expr): int {
    if e.Bin? then Prec(e.op) else 5
  }

  /** A tree respects precedence and left associativity: every binary node's
      left operand binds at least as tightly as the node, its right operand
      strictly more tightly. */
  predicate WellPrec(e: Expr) {
    match e
    case Bin(op, l, r) =>
      && Prec(op) >= 0 && TopPrec(l) >= Prec(op) && TopPrec(r) > Prec(op)
      && WellPrec(l) && WellPrec(r)
    case _ => true
  }

  /** `e` is `pre` followed by postfix calls, `.m` and `->m` applied left to
      right; a call is applied only to an identifier. */
  predicate PostChain(e: Expr, pre: Expr) {
    e == pre ||
    match e
    case Call(c, _) => c == pre && pre.Ident?
    case Dot(v, _) => PostChain(v, pre)
    case Arrow(v, _) => PostChain(v, pre)
    case _ => false
  }

  /** The value of a run of decimal digits (the INT lexeme). */
  function DecimalValue(t: string): int {
    if |t| == 0 then 0 else 10 * DecimalValue(t[..|t| - 1]) + ((t[|t| - 1] as int) - ('0' as int))
  }

  /** ParseExpr: a unary expression followed by binary operators of any
      precedence. */
  function ParseExpr(toks: seq<Lexeme>, pos: nat): (r: Parsed<Expr>)
    requires pos <= |toks|
    ensures r.Success? ==> pos < r.value.1 <= |toks|
    decreases |toks| - pos, 2
  {
    var (lhs, p) :- ParseUnary(toks, pos);
    ParseBinRhs(toks, lhs, p, 0)
  }

  /** ParseBinRhs: fold operators of precedence `eprec` or more into `lhs`;
      the right operand absorbs every operator that binds more tightly than
      the one before it. */
  function ParseBinRhs(toks: seq<Lexeme>, lhs: Expr, pos: nat, eprec: int): (r: Parsed<Expr>)
    requires pos <= |toks| && eprec >= 0
    ensures r.Success? ==> pos <= r.value.1 <= |toks|
    decreases |toks| - pos, 0
  {
    var op := Cur(toks, pos).kind;
    var prec := Prec(op);
    if prec < eprec then Success((lhs, pos))
    else
      var (rhs, p) :- ParseUnary(toks, pos + 1);
      var (rhs', p') :-
        if Prec(Cur(toks, p).kind) > prec then ParseBinRhs(toks, rhs, p, prec + 1)
        else Success((rhs, p));
      ParseBinRhs(toks, Bin(op, lhs, rhs'), p', eprec)
  }

  /** ParseUnary: at most one prefix `-`, `*` or `&`, applied to a postfix
      expression. */
  function ParseUnary(toks: seq<Lexeme>, pos: nat): (r: Parsed<Expr>)
    requires pos <= |toks|
    ensures r.Success? ==> pos < r.value.1 <= |toks|
    ensures r.Success? ==> !r.value.0.Bin?
    ensures r.Success? && r.value.0.Unary? ==>
      r.value.0.uop == Cur(toks, pos).kind && r.value.0.uop in {MINUS, MUL, AND} && !r.value.0.value.Unary?
    decreases |toks| - pos, 1
  {
    var t := Cur(toks, pos).kind;
    if t == MINUS || t == MUL || t == AND then
      var (f, p) :- ParseFactor(toks, pos + 1);
      var (v, q) :- ParsePost(toks, f, p);
      Success((Unary(t, v), q))
    else
      var (f, p) :- ParseFactor(toks, pos);
      ParsePost(toks, f, p)
  }

  /** ParseFactor for the value forms. The declaration and statement forms
      (`import`, `var`, `if`, `while`, `struct`, `func`, `extern`, `return`
      and blocks) are outside this model. */
  function ParseFactor(toks: seq<Lexeme>, pos: nat): (r: Parsed<Expr>)
    requires pos <= |toks|
    ensures r.Success? ==> pos < r.value.1 <= |toks|
    ensures r.Success? ==> !r.value.0.Bin? && !r.value.0.Unary? && !r.value.0.Call?
    decreases |toks| - pos, 0
  {
    var l := Cur(toks, pos);
    match l.kind
    case TRUE => Success((True, pos + 1))
    case FALSE => Success((False, pos + 1))
    case INT => Success((IntLit(DecimalValue(l.text)), pos + 1))
    case FLOAT => Success((FloatLit(l.text), pos + 1))
    case STRING => Success((StrLit(CText(l.text)), pos + 1))
    case IDENT => Success((Ident(l.text, Unbound), pos + 1))
    case OPENPAREN =>
      var (e, p) :- ParseExpr(toks, pos + 1);
      if Cur(toks, p).kind != CLOSEPAREN then Failure(MissingCloseParen(Cur(toks, p).kind))
      else Success((Paren(e), p + 1))
    case CAST => ParseCast(toks, pos + 1)
    case IMPORT | VAR | IF | WHILE | STRUCT | FUNC | EXTERN | RETURN | OPENCURLY =>
      Failure(NotModelled(l.kind))
    case _ => Failure(UnexpectedToken(l.kind))
  }

  /** The C string a lexeme buffer holds: its text up to the first NUL,
      which is all that Tut_Strdup copies. */
  function CText(s: string): (r: string)
    ensures r <= s && '\0' !in r
    ensures |r| < |s| ==> s[|r|] == '\0'
    ensures '\0' !in s ==> r == s
  {
    if |s| == 0 || s[0] == '\0' then []
    else
      var t := CText(s[1..]);
      assert [s[0]] + t <= s by {
        forall i | 0 <= i < |t| + 1
          ensures ([s[0]] + t)[i] == s[i]
        {
          if i > 0 {
            assert t[i - 1] == s[1..][i - 1];
          }
        }
      }
      [s[0]] + t
  }

  /** A string literal whose escapes hold a NUL ends at the NUL: the lexeme
      of `"a\0b"` gives the literal "a". */
  lemma EmbeddedNulEndsString()
    ensures ParseFactor([Lexeme(STRING, "a\0b")], 0) == Success((StrLit("a"), 1))
  {
    var text := "a\0b";
    assert text[1..][0] == '\0';
    assert CText(text) == [text[0]] + CText(text[1..]) == "a";
  }

  /** The rest of `cast(e, type)` once the `cast` keyword is read: pos is
      where its `(` should be. */
  function ParseCast(toks: seq<Lexeme>, pos: nat): (r: Parsed<Expr>)
    requires pos <= |toks|
    ensures r.Success? ==> pos < r.value.1 <= |toks| && r.value.0.Cast?
    decreases |toks| - pos, 0
  {
    var p1 :- Eat(toks, pos, OPENPAREN);
    var (e, p2) :- ParseExpr(toks, p1);
    ParseCastType(toks, e, p2)
  }

  /** The `, type)` that closes a cast of `e`; pos is where its `,` should be. */
  function ParseCastType(toks: seq<Lexeme>, e: Expr, pos: nat): (r: Parsed<Expr>)
    requires pos <= |toks|
    ensures r.Success? ==> pos < r.value.1 <= |toks| && r.value.0.Cast? && r.value.0.value == e
  {
    var p1 :- Eat(toks, pos, COMMA);
    var (t, p2) :- ParseType(toks, p1);
    var p3 :- Eat(toks, p2, CLOSEPAREN);
    Success((Cast(e, t), p3))
  }

  /** ParsePost: calls, `.m` and `->m` after a factor, folded left to right. */
  function ParsePost(toks: seq<Lexeme>, pre: Expr, pos: nat): (r: Parsed<Expr>)
    requires pos <= |toks|
    ensures r.Success? ==> pos <= r.value.1 <= |toks|
    ensures r.Success? ==> PostChain(r.value.0, pre)
    decreases |toks| - pos, 1
  {
    var t := Cur(toks, pos).kind;
    if t == OPENPAREN then
      var (c, p) :- ParseCall(toks, pre, pos);
      var r := ParsePost(toks, c, p);
      if r.Success? then PostChainStep(r.value.0, c, pre); r else r
    else if t == DOT || t == ARROW then
      var p :- Eat(toks, pos + 1, IDENT);
      var m := Cur(toks, pos + 1).text;
      var step := if t == DOT then Dot(pre, m) else Arrow(pre, m);
      var r := ParsePost(toks, step, p);
      if r.Success? then PostChainStep(r.value.0, step, pre); r else r
    else Success((pre, pos))
  }

  /** One postfix step over `pre`. */
  predicate PostStep(mid: Expr, pre: Expr) {
    (mid.Call? && mid.callee == pre && pre.Ident?) || (mid.Dot? && mid.value == pre) || (mid.Arrow? && mid.value == pre)
  }

  /** A chain over one postfix step of `pre` is a chain over `pre`. */
  lemma {:induction false} PostChainStep(e: Expr, mid: Expr, pre: Expr)
    requires PostChain(e, mid) && PostStep(mid, pre)
    ensures PostChain(e, pre)
  {
    if e != mid {
      match e
      case Dot(v, _) => PostChainStep(v, mid, pre);
      case Arrow(v, _) => PostChainStep(v, mid, pre);
    }
  }

  /** ParseCall: the callee must be an identifier; then the argument loop. */
  function ParseCall(toks: seq<Lexeme>, callee: Expr, pos: nat): (r: Parsed<Expr>)
    requires pos < |toks|
    ensures r.Success? ==> pos < r.value.1 <= |toks|
    ensures r.Success? ==> callee.Ident? && r.value.0.Call? && r.value.0.callee == callee
    ensures r.Success? ==> Cur(toks, r.value.1 - 1).kind == CLOSEPAREN
    decreases |toks| - pos, 0
  {
    if !callee.Ident? then Failure(CalleeNotIdentifier)
    else
      var (args, p) :- ParseArgs(toks, pos + 1, []);
      Success((Call(callee, args), p))
  }

  /** What the call loop does with the token after an argument: a comma is
      consumed and more arguments follow (`true`), a `)` ends the loop
      (`false`), anything else is an error. */
  function ArgSeparator(t: Token): (r: Result<bool, ParseError>)
    ensures r.Success? <==> t == COMMA || t == CLOSEPAREN
    ensures r.Success? ==> (r.value <==> t == COMMA)
  {
    if t == COMMA then Success(true)
    else if t == CLOSEPAREN then Success(false)
    else Failure(BadSeparator(t))
  }

  /** The `while (curTok != ')')` loop of ParseCall, with the arguments so
      far in `acc`. */
  function ParseArgs(toks: seq<Lexeme>, pos: nat, acc: seq<Expr>): (r: Parsed<seq<Expr>>)
    requires pos <= |toks|
    ensures r.Success? ==> pos < r.value.1 <= |toks| && Cur(toks, r.value.1 - 1).kind == CLOSEPAREN
    ensures r.Success? ==> |acc| <= |r.value.0| && r.value.0[..|acc|] == acc
    decreases |toks| - pos, 3
  {
    if Cur(toks, pos).kind == CLOSEPAREN then Success((acc, pos + 1))
    else
      var (arg, p) :- ParseExpr(toks, pos);
      var more :- ArgSeparator(Cur(toks, p).kind);
      var r := ParseArgs(toks, if more then p + 1 else p, acc + [arg]);
      assert r.Success? ==> r.value.0[..|acc|] == (acc + [arg])[..|acc|];
      r
  }

  /** ParseType: an identifier naming a primitive or, failing that, a user
      type registered under that name; `ref` may be followed by `-` and the
      pointee type. */
  function ParseType(toks: seq<Lexeme>, pos: nat): (r: Parsed<Typetag>)
    requires pos <= |toks|
    ensures r.Success? ==> pos < r.value.1 <= |toks| && Cur(toks, pos).kind == IDENT
    decreases |toks| - pos
  {
    var l := Cur(toks, pos);
    if l.kind != IDENT then Failure(Expected(IDENT, l.kind))
    else match LanguagePrimitive(l.text)
      case None => Success((User(false, Some(l.text), []), pos + 1))
      case Some(t) =>
        if t.Ref? then
          if Cur(toks, pos + 1).kind == MINUS then
            var (p, q) :- ParseType(toks, pos + 2);
            Success((Ref(Some(p)), q))
          else Success((Ref(None), pos + 1))
        else Success((t, pos + 1))
  }

  // ---------------------------------------------------------------------
  // Precedence climbing

  /** ParseBinRhs builds a tree that respects precedence and left
      associativity, and it stops exactly at the first token that binds less
      tightly than `eprec`. */
  lemma {:induction false} BinRhsWellPrec(toks: seq<Lexeme>, lhs: Expr, pos: nat, eprec: int)
    requires pos <= |toks| && eprec >= 0
    requires WellPrec(lhs) && (lhs.Bin? ==> Prec(Cur(toks, pos).kind) <= Prec(lhs.op))
    ensures var r := ParseBinRhs(toks, lhs, pos, eprec);
      r.Success? ==>
        && WellPrec(r.value.0)
        && Prec(Cur(toks, r.value.1).kind) < eprec
        && (r.value.0 == lhs || (r.value.0.Bin? && Prec(r.value.0.op) >= eprec))
    decreases |toks| - pos, 0
  {
    var r := ParseBinRhs(toks, lhs, pos, eprec);
    var op := Cur(toks, pos).kind;
    var prec := Prec(op);
    if prec >= eprec {
      var u := ParseUnary(toks, pos + 1);
      if u.Success? {
        var (rhs, p) := u.value;
        var inner := if Prec(Cur(toks, p).kind) > prec then ParseBinRhs(toks, rhs, p, prec + 1) else Success((rhs, p));
        if inner.Success? {
          var (rhs', p') := inner.value;
          assert r == ParseBinRhs(toks, Bin(op, lhs, rhs'), p', eprec);
          if Prec(Cur(toks, p).kind) > prec {
            RightOperand(toks, rhs, p, prec);
          }
          assert WellPrec(Bin(op, lhs, rhs'));
          BinRhsWellPrec(toks, Bin(op, lhs, rhs'), p', eprec);
        }
      }
    }
  }

  /** The right operand of an operator of precedence `prec`, when the next
      operator binds more tightly: a unary expression extended by every
      operator that binds more tightly than `prec`. */
  lemma {:induction false} RightOperand(toks: seq<Lexeme>, rhs: Expr, p: nat, prec: int)
    requires p <= |toks| && 0 <= prec <= 4 && !rhs.Bin?
    ensures var inner := ParseBinRhs(toks, rhs, p, prec + 1);
      inner.Success? ==>
        && WellPrec(inner.value.0) && TopPrec(inner.value.0) > prec
        && Prec(Cur(toks, inner.value.1).kind) <= prec
    decreases |toks| - p, 1
  {
    BinRhsWellPrec(toks, rhs, p, prec + 1);
  }

  /** A whole expression respects precedence and associativity, and it ends
      at a token that is not a binary operator. */
  lemma ExprWellPrec(toks: seq<Lexeme>, pos: nat)
    requires pos <= |toks|
    ensures var r := ParseExpr(toks, pos);
      r.Success? ==> WellPrec(r.value.0) && Prec(Cur(toks, r.value.1).kind) < 0
  {
    var u := ParseUnary(toks, pos);
    if u.Success? {
      BinRhsWellPrec(toks, u.value.0, u.value.1, 0);
    }
  }

  /** Two prefix operators in a row are rejected: the operand of a unary
      operator is parsed from a factor, which never starts with `-`, `*` or `&`. */
  lemma UnaryDoesNotStack(toks: seq<Lexeme>, pos: nat)
    requires pos + 1 < |toks|
    requires toks[pos].kind in {MINUS, MUL, AND} && toks[pos + 1].kind in {MINUS, MUL, AND}
    ensures ParseUnary(toks, pos) == Failure(UnexpectedToken(toks[pos + 1].kind))
  {
  }

  // ---------------------------------------------------------------------
  // The type grammar

  /** The types a source text can spell: primitives, references, and user
      types named by something other than a primitive name. */
  predicate Spellable(t: Typetag) {
    match t
    case Func(_, _, _) => false
    case Ref(Some(p)) => Spellable(p)
    case User(defined, name, members) =>
      !defined && members == [] && name.Some? && LanguagePrimitive(name.value).None?
    case _ => IsPrimitive(t)
  }

  /** The tokens that spell a type. */
  function Spell(t: Typetag): seq<Lexeme>
    requires Spellable(t)
  {
    match t
    case Ref(Some(p)) => [Lexeme(IDENT, "ref"), Lexeme(MINUS, "-")] + Spell(p)
    case User(_, name, _) => [Lexeme(IDENT, name.value)]
    case _ => [Lexeme(IDENT, PrimitiveName(t))]
  }

  /** The innermost reference of `t` has no pointee, so a `-` after its
      spelling would be read as the start of one. */
  predicate EndsBare(t: Typetag) {
    t == Ref(None) || (t.Ref? && t.pointee.Some? && EndsBare(t.pointee.value))
  }

  /** Parsing the spelling of a type gives back the type and stops right
      after the spelling. */
  lemma {:induction false} ParseTypeSpelled(pre: seq<Lexeme>, t: Typetag, rest: seq<Lexeme>)
    requires Spellable(t)
    requires EndsBare(t) && |rest| > 0 ==> rest[0].kind != MINUS
    ensures ParseType(pre + Spell(t) + rest, |pre|) == Success((t, |pre| + |Spell(t)|))
    decreases t
  {
    if t.Ref? && t.pointee.Some? {
      var p := t.pointee.value;
      var toks := pre + Spell(t) + rest;
      var pre' := pre + [Lexeme(IDENT, "ref"), Lexeme(MINUS, "-")];
      assert toks == pre' + Spell(p) + rest;
      assert Cur(toks, |pre|) == Lexeme(IDENT, "ref");
      assert Cur(toks, |pre| + 1).kind == MINUS;
      LanguagePrimitiveRoundTrip(Ref(None), "");
      ParseTypeSpelled(pre', p, rest);
    } else {
      OneTokenSpelled(pre, t, rest);
    }
  }

  /** A type spelled by a single name. */
  lemma OneTokenSpelled(pre: seq<Lexeme>, t: Typetag, rest: seq<Lexeme>)
    requires Spellable(t) && !(t.Ref? && t.pointee.Some?)
    requires t == Ref(None) && |rest| > 0 ==> rest[0].kind != MINUS
    ensures |Spell(t)| == 1
    ensures ParseType(pre + Spell(t) + rest, |pre|) == Success((t, |pre| + 1))
  {
    var toks := pre + Spell(t) + rest;
    assert Cur(toks, |pre|) == Spell(t)[0];
    LanguagePrimitiveRoundTrip(t, "");
  }

  /** Conversely, whatever ParseType accepts is a spellable type, and it
      consumed as many tokens as that type's spelling has. */
  lemma {:induction false} ParseTypeSpellable(toks: seq<Lexeme>, pos: nat)
    requires pos <= |toks|
    ensures var r := ParseType(toks, pos);
      r.Success? ==> Spellable(r.value.0) && r.value.1 == pos + |Spell(r.value.0)|
    decreases |toks| - pos
  {
    var r := ParseType(toks, pos);
    if r.Success? {
      var l := Cur(toks, pos);
      LanguagePrimitiveRoundTrip(Void, l.text);
      var prim := LanguagePrimitive(l.text);
      if prim.Some? && prim.value.Ref? && Cur(toks, pos + 1).kind == MINUS {
        ParseTypeSpellable(toks, pos + 2);
      }
    }
  }

  // ---------------------------------------------------------------------
  // Boolean literals

  /** ParseFactor as written: the `true` and `false` cases create the node
      but never call Tut_GetToken, so the literal stays the current token. */
  function ParseFactorAsWritten(toks: seq<Lexeme>, pos: nat): (r: Parsed<Expr>)
    requires pos <= |toks|
    ensures Cur(toks, pos).kind !in {TRUE, FALSE} ==> r == ParseFactor(toks, pos)
  {
    match Cur(toks, pos).kind
    case TRUE => Success((True, pos))
    case FALSE => Success((False, pos))
    case _ => ParseFactor(toks, pos)
  }

  /** The tokens of `f(true)`. */
  function CallWithTrue(f: string): seq<Lexeme> {
    [Lexeme(IDENT, f), Lexeme(OPENPAREN, "("), Lexeme(TRUE, "true"), Lexeme(CLOSEPAREN, ")")]
  }

  /** As written, `f(true)` is rejected: the argument `true` is parsed
      without consuming it, so the call loop finds `true` where it expects
      `,` or `)`. */
  lemma AsWrittenBoolLiteralStalls(f: string)
    ensures var toks := CallWithTrue(f);
      && ParseFactorAsWritten(toks, 2) == Success((True, 2))
      && ParsePost(toks, True, 2) == Success((True, 2))
      && ParseBinRhs(toks, True, 2, 0) == Success((True, 2))
      && ArgSeparator(Cur(toks, 2).kind) == Failure(BadSeparator(TRUE))
  {
  }

  /** With the literal consumed, the argument `true` is an expression that
      ends at the `)`. */
  lemma TrueArgument(f: string)
    ensures ParseExpr(CallWithTrue(f), 2) == Success((True, 3))
  {
    var toks := CallWithTrue(f);
    assert ParseFactor(toks, 2) == Success((True, 3));
    assert ParsePost(toks, True, 3) == Success((True, 3));
    assert ParseUnary(toks, 2) == Success((True, 3));
    assert ParseBinRhs(toks, True, 3, 0) == Success((True, 3));
  }

  /** With the literal consumed, `f(true)` is a call with the single
      argument `true`. */
  lemma BoolLiteralArgument(f: string)
    ensures ParseExpr(CallWithTrue(f), 0) == Success((Call(Ident(f, Unbound), [True]), 4))
  {
    var toks := CallWithTrue(f);
    TrueArgument(f);
    assert ParseArgs(toks, 3, [True]) == Success(([True], 4));
    assert ParseArgs(toks, 2, []) == Success(([True], 4));
    assert ParsePost(toks, Ident(f, Unbound), 1) == Success((Call(Ident(f, Unbound), [True]), 4));
    assert ParseUnary(toks, 0) == Success((Call(Ident(f, Unbound), [True]), 4));
  }

  // ---------------------------------------------------------------------
  // Integer literals

  /** The decimal digits of a natural number. */
  function Digits(n: nat): string
    decreases n
  {
    if n < 10 then [(('0' as int) + n) as char]
    else Digits(n / 10) + [(('0' as int) + n % 10) as char]
  }

  /** An INT lexeme printed from a number reads back as that number. */
  lemma {:induction false} DecimalValueOfDigits(n: nat)
    ensures DecimalValue(Digits(n)) == n
    decreases n
  {
    var d := Digits(n);
    if n >= 10 {
      assert d[..|d| - 1] == Digits(n / 10);
      DecimalValueOfDigits(n / 10);
    }
  }
}
