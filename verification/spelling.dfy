/** The token spelling of expression trees, and the theorem that the
    expression parser of tut_parser.c reads the spelling of a tree of the
    grammar back as that very tree. Precedence climbing therefore groups
    `a + b * c` as `a + (b * c)`, operators of equal precedence (assignment
    included) associate to the left, and every literal, name, prefix
    operator, call, member access, cast and parenthesis lands in the node it
    spells. */
module Spelling {
  import opened Wrappers
  import opened Types
  import opened Tokens
  import opened Syntax
  import opened Parser

  /** A punctuation or operator token: the parser never reads its text. */
  function Punct(t: Token): Lexeme {
    Lexeme(t, "")
  }

  /** Tokens that continue a postfix chain. */
  predicate NotPostfix(t: Token) {
    t != OPENPAREN && t != DOT && t != ARROW
  }

  /** A token that can follow a complete expression: neither a binary
      operator nor the start of a postfix step (`)`, `,`, `;`, EOF, ...). */
  predicate EndsExpr(t: Token) {
    Prec(t) < 0 && NotPostfix(t)
  }

  // ---------------------------------------------------------------------
  // The trees of the expression grammar

  /** Binary operators over unary operands, nested by precedence as
      WellPrec demands: a left operand binds at least as tightly as its
      operator, a right operand strictly more tightly. */
  predicate ExprForm(e: Expr)
    decreases e, 3
  {
    if e.Bin? then
      && Prec(e.op) >= 0 && TopPrec(e.lhs) >= Prec(e.op) && TopPrec(e.rhs) > Prec(e.op)
      && ExprForm(e.lhs) && ExprForm(e.rhs)
    else UnaryForm(e)
  }

  /** At most one prefix `-`, `*` or `&` over a postfix expression. */
  predicate UnaryForm(e: Expr)
    decreases e, 2
  {
    if e.Unary? then e.uop in {MINUS, MUL, AND} && PostForm(e.value)
    else PostForm(e)
  }

  /** A factor followed by `.m`, `->m` and calls; only a name is called. */
  predicate PostForm(e: Expr)
    decreases e, 1
  {
    if e.Dot? || e.Arrow? then PostForm(e.value)
    else if e.Call? then
      && e.callee.Ident? && e.callee.binding == Unbound
      && forall i :: 0 <= i < |e.args| ==> ExprForm(e.args[i])
    else FactorForm(e)
  }

  /** The value factors; a name is not yet bound to a declaration, an
      integer literal is a natural number (a minus sign is a unary node), and
      a string literal holds no NUL (the C string would end there). */
  predicate FactorForm(e: Expr)
    decreases e, 0
  {
    || e.True? || e.False? || e.FloatLit? || (e.StrLit? && '\0' !in e.s)
    || (e.IntLit? && e.n >= 0)
    || (e.Ident? && e.binding == Unbound)
    || (e.Paren? && ExprForm(e.value))
    || (e.Cast? && ExprForm(e.value) && Spellable(e.target))
  }

  // ---------------------------------------------------------------------
  // Spelling

  /** Literals and names, each spelled by one token. */
  predicate IsLeaf(e: Expr) {
    e.True? || e.False? || e.IntLit? || e.FloatLit? || e.StrLit? || e.Ident?
  }

  /** The token of a literal or a name; a negative literal is not a tree of
      the grammar and is spelled as 0. */
  function Leaf(e: Expr): Lexeme
    requires IsLeaf(e)
  {
    match e
    case True => Lexeme(TRUE, "true")
    case False => Lexeme(FALSE, "false")
    case IntLit(n) => Lexeme(INT, Digits(if n < 0 then 0 else n))
    case FloatLit(t) => Lexeme(FLOAT, t)
    case StrLit(s) => Lexeme(STRING, s)
    case Ident(name, _) => Lexeme(IDENT, name)
  }

  /** The spelling of a cast's target type. */
  function TypeSpelling(t: Typetag): seq<Lexeme> {
    if Spellable(t) then Spell(t) else []
  }

  /** The tokens that spell a tree: operands and operators in order, with
      parentheses only where the tree has a Paren node. */
  function SpellExpr(e: Expr): seq<Lexeme>
    decreases e, 1
  {
    if IsLeaf(e) then [Leaf(e)]
    else if e.Paren? then [Punct(OPENPAREN)] + SpellExpr(e.value) + [Punct(CLOSEPAREN)]
    else if e.Cast? then
      [Punct(CAST), Punct(OPENPAREN)] + SpellExpr(e.value) + [Punct(COMMA)] + TypeSpelling(e.target) + [Punct(CLOSEPAREN)]
    else if e.Unary? then [Punct(e.uop)] + SpellExpr(e.value)
    else if e.Bin? then SpellExpr(e.lhs) + [Punct(e.op)] + SpellExpr(e.rhs)
    else if e.Dot? then SpellExpr(e.value) + [Punct(DOT), Lexeme(IDENT, e.member)]
    else if e.Arrow? then SpellExpr(e.value) + [Punct(ARROW), Lexeme(IDENT, e.member)]
    else if e.Call? then SpellExpr(e.callee) + [Punct(OPENPAREN)] + SpellArgs(e, e.args) + [Punct(CLOSEPAREN)]
    else []
  }

  /** Call arguments separated by commas. */
  function SpellArgs(parent: Expr, args: seq<Expr>): seq<Lexeme>
    requires forall i :: 0 <= i < |args| ==> args[i] < parent
    decreases parent, 0, |args|
  {
    if |args| == 0 then []
    else if |args| == 1 then SpellExpr(args[0])
    else SpellExpr(args[0]) + [Punct(COMMA)] + SpellArgs(parent, args[1..])
  }

  /** The position just after the spelling of `e` placed at `p`. */
  function End(p: nat, e: Expr): nat {
    p + |SpellExpr(e)|
  }

  // ---------------------------------------------------------------------
  // Spellings placed in a token sequence

  /** The tokens `s` stand in `toks` from position `p` on. */
  predicate SpelledAt(toks: seq<Lexeme>, p: nat, s: seq<Lexeme>) {
    p + |s| <= |toks| && forall i :: 0 <= i < |s| ==> Cur(toks, p + i) == s[i]
  }

  /** Spelled tokens `x + y` are `x` spelled at `p` and `y` spelled right
      after it, at `q`. */
  lemma Split(toks: seq<Lexeme>, p: nat, x: seq<Lexeme>, y: seq<Lexeme>, q: nat)
    requires SpelledAt(toks, p, x + y) && q == p + |x|
    ensures SpelledAt(toks, p, x) && SpelledAt(toks, q, y)
  {
    forall j | 0 <= j < |x|
      ensures Cur(toks, p + j) == x[j]
    {
      assert (x + y)[j] == x[j];
    }
    forall j | 0 <= j < |y|
      ensures Cur(toks, q + j) == y[j]
    {
      assert Cur(toks, p + (|x| + j)) == (x + y)[|x| + j];
    }
  }

  /** The one token spelled at `p`. */
  lemma Single(toks: seq<Lexeme>, p: nat, t: Lexeme)
    requires SpelledAt(toks, p, [t])
    ensures Cur(toks, p) == t
  {
    assert Cur(toks, p + 0) == [t][0];
  }

  /** The two tokens spelled at `p` and at `q == p + 1`. */
  lemma Pair(toks: seq<Lexeme>, p: nat, a: Lexeme, b: Lexeme, q: nat)
    requires SpelledAt(toks, p, [a, b]) && q == p + 1
    ensures Cur(toks, p) == a && Cur(toks, q) == b
  {
    assert Cur(toks, p + 0) == [a, b][0];
    assert Cur(toks, p + 1) == [a, b][1];
  }

  lemma LeafParts(toks: seq<Lexeme>, p: nat, e: Expr)
    requires IsLeaf(e) && SpelledAt(toks, p, SpellExpr(e))
    ensures Cur(toks, p) == Leaf(e) && End(p, e) == p + 1
  {
    Single(toks, p, Leaf(e));
  }

  lemma ParenParts(toks: seq<Lexeme>, p: nat, e: Expr)
    requires e.Paren? && SpelledAt(toks, p, SpellExpr(e))
    ensures Cur(toks, p) == Punct(OPENPAREN) && SpelledAt(toks, p + 1, SpellExpr(e.value))
    ensures Cur(toks, End(p + 1, e.value)) == Punct(CLOSEPAREN) && End(p, e) == End(p + 1, e.value) + 1
  {
    var o, sv, c := [Punct(OPENPAREN)], SpellExpr(e.value), [Punct(CLOSEPAREN)];
    Split(toks, p, o + sv, c, End(p + 1, e.value));
    Split(toks, p, o, sv, p + 1);
    Single(toks, p, Punct(OPENPAREN));
    Single(toks, End(p + 1, e.value), Punct(CLOSEPAREN));
  }

  lemma CastParts(toks: seq<Lexeme>, p: nat, e: Expr, q: nat, z: nat)
    requires e.Cast? && SpelledAt(toks, p, SpellExpr(e))
    requires q == End(p + 2, e.value) && z + 1 == End(p, e)
    ensures Cur(toks, p) == Punct(CAST) && Cur(toks, p + 1) == Punct(OPENPAREN)
    ensures SpelledAt(toks, p + 2, SpellExpr(e.value)) && Cur(toks, q) == Punct(COMMA)
    ensures SpelledAt(toks, q + 1, TypeSpelling(e.target)) && z == q + 1 + |TypeSpelling(e.target)|
    ensures Cur(toks, z) == Punct(CLOSEPAREN)
  {
    var h, sv, st := [Punct(CAST), Punct(OPENPAREN)], SpellExpr(e.value), TypeSpelling(e.target);
    Split(toks, p, h + sv + [Punct(COMMA)] + st, [Punct(CLOSEPAREN)], z);
    Split(toks, p, h + sv + [Punct(COMMA)], st, q + 1);
    Split(toks, p, h + sv, [Punct(COMMA)], q);
    Split(toks, p, h, sv, p + 2);
    Pair(toks, p, Punct(CAST), Punct(OPENPAREN), p + 1);
    Single(toks, q, Punct(COMMA));
    Single(toks, z, Punct(CLOSEPAREN));
  }

  lemma UnaryParts(toks: seq<Lexeme>, p: nat, e: Expr)
    requires e.Unary? && SpelledAt(toks, p, SpellExpr(e))
    ensures Cur(toks, p) == Punct(e.uop) && SpelledAt(toks, p + 1, SpellExpr(e.value))
    ensures End(p, e) == End(p + 1, e.value)
  {
    Split(toks, p, [Punct(e.uop)], SpellExpr(e.value), p + 1);
    Single(toks, p, Punct(e.uop));
  }

  lemma BinParts(toks: seq<Lexeme>, p: nat, e: Expr)
    requires e.Bin? && SpelledAt(toks, p, SpellExpr(e))
    ensures SpelledAt(toks, p, SpellExpr(e.lhs)) && Cur(toks, End(p, e.lhs)) == Punct(e.op)
    ensures SpelledAt(toks, End(p, e.lhs) + 1, SpellExpr(e.rhs))
    ensures End(p, e) == End(End(p, e.lhs) + 1, e.rhs)
  {
    var sl, o := SpellExpr(e.lhs), [Punct(e.op)];
    Split(toks, p, sl + o, SpellExpr(e.rhs), End(p, e.lhs) + 1);
    Split(toks, p, sl, o, End(p, e.lhs));
    Single(toks, End(p, e.lhs), Punct(e.op));
  }

  lemma AccessParts(toks: seq<Lexeme>, p: nat, e: Expr)
    requires (e.Dot? || e.Arrow?) && SpelledAt(toks, p, SpellExpr(e))
    ensures SpelledAt(toks, p, SpellExpr(e.value))
    ensures Cur(toks, End(p, e.value)) == Punct(if e.Dot? then DOT else ARROW)
    ensures Cur(toks, End(p, e.value) + 1) == Lexeme(IDENT, e.member)
    ensures End(p, e) == End(p, e.value) + 2
  {
    var a, m := Punct(if e.Dot? then DOT else ARROW), Lexeme(IDENT, e.member);
    Split(toks, p, SpellExpr(e.value), [a, m], End(p, e.value));
    Pair(toks, End(p, e.value), a, m, End(p, e.value) + 1);
  }

  lemma CallParts(toks: seq<Lexeme>, p: nat, e: Expr)
    requires e.Call? && SpelledAt(toks, p, SpellExpr(e))
    ensures SpelledAt(toks, p, SpellExpr(e.callee)) && Cur(toks, End(p, e.callee)) == Punct(OPENPAREN)
    ensures SpelledAt(toks, End(p, e.callee) + 1, SpellArgs(e, e.args))
    ensures End(p, e) == End(p, e.callee) + 1 + |SpellArgs(e, e.args)| + 1
    ensures Cur(toks, End(p, e) - 1) == Punct(CLOSEPAREN)
  {
    var sc, o, sa := SpellExpr(e.callee), [Punct(OPENPAREN)], SpellArgs(e, e.args);
    Split(toks, p, sc + o + sa, [Punct(CLOSEPAREN)], End(p, e) - 1);
    Split(toks, p, sc + o, sa, End(p, e.callee) + 1);
    Split(toks, p, sc, o, End(p, e.callee));
    Single(toks, End(p, e.callee), Punct(OPENPAREN));
    Single(toks, End(p, e) - 1, Punct(CLOSEPAREN));
  }

  lemma ArgsParts(toks: seq<Lexeme>, p: nat, parent: Expr, args: seq<Expr>)
    requires forall i :: 0 <= i < |args| ==> args[i] < parent
    requires |args| > 1 && SpelledAt(toks, p, SpellArgs(parent, args))
    ensures SpelledAt(toks, p, SpellExpr(args[0])) && Cur(toks, End(p, args[0])) == Punct(COMMA)
    ensures SpelledAt(toks, End(p, args[0]) + 1, SpellArgs(parent, args[1..]))
    ensures p + |SpellArgs(parent, args)| == End(p, args[0]) + 1 + |SpellArgs(parent, args[1..])|
  {
    var sx, o := SpellExpr(args[0]), [Punct(COMMA)];
    Split(toks, p, sx + o, SpellArgs(parent, args[1..]), End(p, args[0]) + 1);
    Split(toks, p, sx, o, End(p, args[0]));
    Single(toks, End(p, args[0]), Punct(COMMA));
  }

  // ---------------------------------------------------------------------
  // The left spine and the postfix chain

  /** The number of binary nodes on the left spine. */
  function Depth(e: Expr): nat {
    if e.Bin? then Depth(e.lhs) + 1 else 0
  }

  /** The node `k` steps down the left spine; at the bottom, the leftmost
      unary operand. */
  function LeftAt(e: Expr, k: nat): (r: Expr)
    requires k <= Depth(e)
    ensures r == e || r < e
    ensures r.Bin? <==> k < Depth(e)
    ensures |SpellExpr(r)| <= |SpellExpr(e)|
  {
    if k == 0 then e else LeftAt(e.lhs, k - 1)
  }

  /** The number of postfix steps over the factor. */
  function PDepth(e: Expr): nat {
    if e.Dot? || e.Arrow? then PDepth(e.value) + 1
    else if e.Call? then PDepth(e.callee) + 1
    else 0
  }

  /** What a postfix step applies to. */
  function PostChild(e: Expr): (r: Expr)
    requires e.Dot? || e.Arrow? || e.Call?
    ensures r < e
  {
    if e.Call? then e.callee else e.value
  }

  /** The expression `k` postfix steps in; at the bottom, the factor. */
  function PostAt(e: Expr, k: nat): (r: Expr)
    requires k <= PDepth(e)
    ensures r == e || r < e
    ensures |SpellExpr(r)| <= |SpellExpr(e)|
  {
    if k == 0 then e else PostAt(PostChild(e), k - 1)
  }

  lemma {:induction false} LeftAtStep(e: Expr, k: nat)
    requires 0 < k <= Depth(e)
    ensures LeftAt(e, k - 1).Bin? && LeftAt(e, k) == LeftAt(e, k - 1).lhs
    decreases k
  {
    if k > 1 {
      LeftAtStep(e.lhs, k - 1);
    }
  }

  lemma {:induction false} LeftAtForm(e: Expr, k: nat)
    requires ExprForm(e) && k <= Depth(e)
    ensures ExprForm(LeftAt(e, k))
    ensures k < Depth(e) ==> Prec(LeftAt(e, k).op) >= TopPrec(e)
    decreases k
  {
    if k > 0 {
      LeftAtForm(e.lhs, k - 1);
    }
  }

  lemma {:induction false} LeftAtSpelled(toks: seq<Lexeme>, p: nat, e: Expr, k: nat)
    requires SpelledAt(toks, p, SpellExpr(e)) && k <= Depth(e)
    ensures SpelledAt(toks, p, SpellExpr(LeftAt(e, k)))
    decreases k
  {
    if k > 0 {
      BinParts(toks, p, e);
      LeftAtSpelled(toks, p, e.lhs, k - 1);
    }
  }

  /** One step down the left spine of a spelled tree: a binary node of the
      grammar whose operator binds at least as tightly as the root. */
  lemma SpineStep(toks: seq<Lexeme>, p: nat, e: Expr, k: nat)
    requires ExprForm(e) && SpelledAt(toks, p, SpellExpr(e)) && 0 < k <= Depth(e)
    ensures var mid := LeftAt(e, k - 1);
      && mid.Bin? && LeftAt(e, k) == mid.lhs
      && ExprForm(mid) && Prec(mid.op) >= TopPrec(e) && SpelledAt(toks, p, SpellExpr(mid))
  {
    LeftAtStep(e, k);
    LeftAtForm(e, k - 1);
    LeftAtSpelled(toks, p, e, k - 1);
  }

  lemma {:induction false} PostAtStep(e: Expr, k: nat)
    requires 0 < k <= PDepth(e)
    ensures var mid := PostAt(e, k - 1);
      (mid.Dot? || mid.Arrow? || mid.Call?) && PostAt(e, k) == PostChild(mid)
    decreases k
  {
    if k > 1 {
      PostAtStep(PostChild(e), k - 1);
    }
  }

  lemma {:induction false} PostAtForm(e: Expr, k: nat)
    requires PostForm(e) && k <= PDepth(e)
    ensures PostForm(PostAt(e, k))
    ensures k == PDepth(e) ==> FactorForm(PostAt(e, k))
    decreases k
  {
    if k > 0 {
      PostAtForm(PostChild(e), k - 1);
    }
  }

  lemma {:induction false} PostAtSpelled(toks: seq<Lexeme>, p: nat, e: Expr, k: nat)
    requires SpelledAt(toks, p, SpellExpr(e)) && k <= PDepth(e)
    ensures SpelledAt(toks, p, SpellExpr(PostAt(e, k)))
    decreases k
  {
    if k > 0 {
      if e.Call? {
        CallParts(toks, p, e);
      } else {
        AccessParts(toks, p, e);
      }
      PostAtSpelled(toks, p, PostChild(e), k - 1);
    }
  }

  /** The step `k - 1` postfix steps into a spelled chain of the grammar. */
  lemma PostAtFacts(toks: seq<Lexeme>, p: nat, e: Expr, k: nat)
    requires PostForm(e) && SpelledAt(toks, p, SpellExpr(e)) && 0 < k <= PDepth(e)
    ensures var mid := PostAt(e, k - 1);
      && (mid.Dot? || mid.Arrow? || mid.Call?) && PostAt(e, k) == PostChild(mid)
      && PostForm(mid) && SpelledAt(toks, p, SpellExpr(mid))
  {
    PostAtStep(e, k);
    PostAtForm(e, k - 1);
    PostAtSpelled(toks, p, e, k - 1);
  }

  /** A postfix expression is spelled from the first token of a factor. */
  lemma {:induction false} PostFirstToken(e: Expr)
    requires PostForm(e)
    ensures |SpellExpr(e)| > 0
    ensures SpellExpr(e)[0].kind in {TRUE, FALSE, INT, FLOAT, STRING, IDENT, OPENPAREN, CAST}
    decreases e
  {
    if e.Dot? || e.Arrow? {
      PostFirstToken(e.value);
    }
  }

  /** An expression of the grammar is never spelled from `)`. */
  lemma {:induction false} ExprFirstToken(e: Expr)
    requires ExprForm(e)
    ensures |SpellExpr(e)| > 0 && SpellExpr(e)[0].kind != CLOSEPAREN
    decreases e
  {
    if e.Bin? {
      ExprFirstToken(e.lhs);
    } else if !e.Unary? {
      PostFirstToken(e);
    }
  }

  lemma PostFirst(toks: seq<Lexeme>, p: nat, e: Expr)
    requires PostForm(e) && SpelledAt(toks, p, SpellExpr(e))
    ensures Cur(toks, p).kind in {TRUE, FALSE, INT, FLOAT, STRING, IDENT, OPENPAREN, CAST}
  {
    PostFirstToken(e);
    assert Cur(toks, p + 0) == SpellExpr(e)[0];
  }

  lemma ExprFirst(toks: seq<Lexeme>, p: nat, e: Expr)
    requires ExprForm(e) && SpelledAt(toks, p, SpellExpr(e))
    ensures Cur(toks, p).kind != CLOSEPAREN
  {
    ExprFirstToken(e);
    assert Cur(toks, p + 0) == SpellExpr(e)[0];
  }

  /** The leftmost unary operand of a spelled tree, and the token after it:
      the lowest operator of the spine, or what follows the tree. */
  lemma AfterLeftmost(toks: seq<Lexeme>, p: nat, e: Expr)
    requires ExprForm(e) && SpelledAt(toks, p, SpellExpr(e))
    ensures UnaryForm(LeftAt(e, Depth(e))) && SpelledAt(toks, p, SpellExpr(LeftAt(e, Depth(e))))
    ensures Depth(e) == 0 ==> LeftAt(e, Depth(e)) == e
    ensures Depth(e) > 0 ==> Prec(Cur(toks, End(p, LeftAt(e, Depth(e)))).kind) >= TopPrec(e) >= 0
  {
    var d := Depth(e);
    assert UnaryForm(LeftAt(e, d)) by { LeftAtForm(e, d); }
    assert SpelledAt(toks, p, SpellExpr(LeftAt(e, d))) by { LeftAtSpelled(toks, p, e, d); }
    if d > 0 {
      SpineStep(toks, p, e, d);
      BinParts(toks, p, LeftAt(e, d - 1));
    }
  }

  // ---------------------------------------------------------------------
  // The parser reads trees back

  /** ParseFactor reads a factor, whatever follows it. */
  lemma FactorSpelled(toks: seq<Lexeme>, p: nat, f: Expr)
    requires FactorForm(f) && SpelledAt(toks, p, SpellExpr(f))
    ensures ParseFactor(toks, p) == Success((f, End(p, f)))
    decreases f, 2
  {
    if IsLeaf(f) {
      LeafFactor(toks, p, f);
    } else if f.Paren? {
      ParenFactor(toks, p, f);
    } else {
      CastFactor(toks, p, f);
    }
  }

  lemma LeafFactor(toks: seq<Lexeme>, p: nat, f: Expr)
    requires FactorForm(f) && IsLeaf(f) && SpelledAt(toks, p, SpellExpr(f))
    ensures ParseFactor(toks, p) == Success((f, End(p, f)))
  {
    LeafParts(toks, p, f);
    if f.IntLit? {
      DecimalValueOfDigits(f.n);
    } else if f.StrLit? {
      assert CText(f.s) == f.s;
    }
  }

  lemma ParenFactor(toks: seq<Lexeme>, p: nat, f: Expr)
    requires f.Paren? && ExprForm(f.value) && SpelledAt(toks, p, SpellExpr(f))
    ensures ParseFactor(toks, p) == Success((f, End(p, f)))
    decreases f, 0
  {
    ParenParts(toks, p, f);
    ExprSpelled(toks, p + 1, f.value);
  }

  lemma CastFactor(toks: seq<Lexeme>, p: nat, f: Expr)
    requires f.Cast? && ExprForm(f.value) && Spellable(f.target) && SpelledAt(toks, p, SpellExpr(f))
    ensures ParseFactor(toks, p) == Success((f, End(p, f)))
    decreases f, 1
  {
    var q, z := End(p + 2, f.value), End(p, f) - 1;
    CastPieces(toks, p, f, q, z);
    CastTargetPiece(toks, p, f, q, z);
    CastTypeStep(toks, f, q, z, End(p, f));
    CastOpen(toks, p + 1, f, q, End(p, f));
    CastKeyword(toks, p);
  }

  /** The operand of a spelled cast parses back and ends at its `,`. */
  lemma CastPieces(toks: seq<Lexeme>, p: nat, f: Expr, q: nat, z: nat)
    requires f.Cast? && ExprForm(f.value) && SpelledAt(toks, p, SpellExpr(f))
    requires q == End(p + 2, f.value) && z + 1 == End(p, f)
    ensures Cur(toks, p).kind == CAST && Cur(toks, p + 1).kind == OPENPAREN
    ensures ParseExpr(toks, p + 2) == Success((f.value, q)) && Cur(toks, q).kind == COMMA
    decreases f, 0
  {
    CastParts(toks, p, f, q, z);
    ExprSpelled(toks, p + 2, f.value);
  }

  /** The target of a spelled cast parses back and ends at its `)`. */
  lemma CastTargetPiece(toks: seq<Lexeme>, p: nat, f: Expr, q: nat, z: nat)
    requires f.Cast? && Spellable(f.target) && SpelledAt(toks, p, SpellExpr(f))
    requires q == End(p + 2, f.value) && z + 1 == End(p, f)
    ensures ParseType(toks, q + 1) == Success((f.target, z))
    ensures Cur(toks, z).kind == CLOSEPAREN && z < |toks|
  {
    CastParts(toks, p, f, q, z);
    TypeSpelled(toks, q + 1, f.target, z);
  }

  /** ParseCast reads `(`, the operand, and the closing `, type)`. */
  lemma CastOpen(toks: seq<Lexeme>, p: nat, f: Expr, q: nat, w: nat)
    requires f.Cast? && p + 1 <= |toks| && Cur(toks, p).kind == OPENPAREN
    requires ParseExpr(toks, p + 1) == Success((f.value, q))
    requires ParseCastType(toks, f.value, q) == Success((f, w))
    ensures ParseCast(toks, p) == Success((f, w))
  {
  }

  /** The `, type)` that closes a cast. */
  lemma CastTypeStep(toks: seq<Lexeme>, f: Expr, q: nat, z: nat, w: nat)
    requires f.Cast? && q < |toks| && z < |toks| && w == z + 1
    requires Cur(toks, q).kind == COMMA
    requires ParseType(toks, q + 1) == Success((f.target, z)) && Cur(toks, z).kind == CLOSEPAREN
    ensures ParseCastType(toks, f.value, q) == Success((f, w))
  {
  }

  /** After the `cast` keyword ParseFactor is ParseCast. */
  lemma CastKeyword(toks: seq<Lexeme>, p: nat)
    requires p < |toks| && Cur(toks, p).kind == CAST
    ensures ParseFactor(toks, p) == ParseCast(toks, p + 1)
  {
  }

  /** ParseType reads a spelled type that a `)` follows. */
  lemma TypeSpelled(toks: seq<Lexeme>, q: nat, t: Typetag, z: nat)
    requires Spellable(t) && SpelledAt(toks, q, Spell(t)) && z == q + |Spell(t)|
    requires Cur(toks, z) == Punct(CLOSEPAREN)
    ensures ParseType(toks, q) == Success((t, z))
  {
    Decompose(toks, q, Spell(t));
    assert toks[z..][0] == Cur(toks, z);
    ParseTypeSpelled(toks[..q], t, toks[z..]);
  }

  /** Spelled tokens split a token sequence into what comes before them,
      them, and what comes after. */
  lemma Decompose(toks: seq<Lexeme>, q: nat, st: seq<Lexeme>)
    requires SpelledAt(toks, q, st)
    ensures toks == toks[..q] + st + toks[q + |st|..]
  {
    forall j | 0 <= j < |st|
      ensures toks[q + j] == st[j]
    {
      assert Cur(toks, q + j) == st[j];
    }
  }

  /** ParsePost, started `k` steps into a postfix chain, completes the chain
      and stops before a token that does not continue it. */
  lemma PostSpelled(toks: seq<Lexeme>, p: nat, e: Expr, k: nat)
    requires PostForm(e) && SpelledAt(toks, p, SpellExpr(e)) && k <= PDepth(e)
    requires NotPostfix(Cur(toks, End(p, e)).kind)
    ensures ParsePost(toks, PostAt(e, k), End(p, PostAt(e, k))) == Success((e, End(p, e)))
    decreases e, 3, k
  {
    if k == 0 {
      assert ParsePost(toks, e, End(p, e)) == Success((e, End(p, e)));
    } else {
      var mid := PostAt(e, k - 1);
      PostAtFacts(toks, p, e, k);
      PostSpelled(toks, p, e, k - 1);
      PostStepSpelled(toks, p, mid);
    }
  }

  /** One postfix step: ParsePost over the spelled operand of `.m`, `->m`
      or a call continues exactly as over the whole step. */
  lemma PostStepSpelled(toks: seq<Lexeme>, p: nat, mid: Expr)
    requires (mid.Dot? || mid.Arrow? || mid.Call?) && PostForm(mid) && SpelledAt(toks, p, SpellExpr(mid))
    ensures ParsePost(toks, PostChild(mid), End(p, PostChild(mid))) == ParsePost(toks, mid, End(p, mid))
    decreases mid, 2
  {
    if mid.Call? {
      CallStep(toks, p, mid);
      CallPost(toks, mid, End(p, mid.callee), End(p, mid));
    } else {
      AccessParts(toks, p, mid);
      AccessPost(toks, mid, End(p, mid.value));
    }
  }

  /** ParsePost at a `(` goes on after the call that ParseCall reads. */
  lemma CallPost(toks: seq<Lexeme>, c: Expr, pos: nat, w: nat)
    requires c.Call? && pos < |toks| && Cur(toks, pos).kind == OPENPAREN
    requires ParseCall(toks, c.callee, pos) == Success((c, w))
    ensures ParsePost(toks, c.callee, pos) == ParsePost(toks, c, w)
  {
  }

  /** ParsePost at `.m` or `->m` goes on after the member name. */
  lemma AccessPost(toks: seq<Lexeme>, e: Expr, pos: nat)
    requires (e.Dot? || e.Arrow?) && pos + 1 < |toks|
    requires Cur(toks, pos) == Punct(if e.Dot? then DOT else ARROW) && Cur(toks, pos + 1) == Lexeme(IDENT, e.member)
    ensures ParsePost(toks, e.value, pos) == ParsePost(toks, e, pos + 2)
  {
  }

  /** ParseCall reads a spelled call of a name. */
  lemma CallStep(toks: seq<Lexeme>, p: nat, c: Expr)
    requires c.Call? && PostForm(c) && SpelledAt(toks, p, SpellExpr(c))
    ensures Cur(toks, End(p, c.callee)).kind == OPENPAREN
    ensures ParseCall(toks, c.callee, End(p, c.callee)) == Success((c, End(p, c)))
    decreases c, 1
  {
    var q, z := End(p, c.callee) + 1, End(p, c) - 1;
    CallArgs(toks, p, c, q, z);
    CallOpen(toks, c, End(p, c.callee), End(p, c));
  }

  /** The arguments of a spelled call, from after its `(` to after its `)`. */
  lemma CallArgs(toks: seq<Lexeme>, p: nat, c: Expr, q: nat, z: nat)
    requires c.Call? && PostForm(c) && SpelledAt(toks, p, SpellExpr(c))
    requires q == End(p, c.callee) + 1 && z + 1 == End(p, c)
    ensures q - 1 < |toks| && Cur(toks, q - 1).kind == OPENPAREN && c.callee.Ident?
    ensures ParseArgs(toks, q, []) == Success((c.args, z + 1))
    decreases c, 0
  {
    CallParts(toks, p, c);
    ArgsSpelled(toks, q, c, c.args, [], z);
    assert [] + c.args == c.args;
  }

  /** ParseCall after a name: the argument loop from after the `(`. */
  lemma CallOpen(toks: seq<Lexeme>, c: Expr, pos: nat, w: nat)
    requires c.Call? && c.callee.Ident? && pos < |toks|
    requires ParseArgs(toks, pos + 1, []) == Success((c.args, w))
    ensures ParseCall(toks, c.callee, pos) == Success((c, w))
  {
  }

  /** The call argument loop reads comma-separated arguments up to the
      closing parenthesis. */
  lemma ArgsSpelled(toks: seq<Lexeme>, p: nat, parent: Expr, args: seq<Expr>, acc: seq<Expr>, z: nat)
    requires forall i :: 0 <= i < |args| ==> args[i] < parent && ExprForm(args[i])
    requires SpelledAt(toks, p, SpellArgs(parent, args))
    requires z == p + |SpellArgs(parent, args)| && Cur(toks, z).kind == CLOSEPAREN
    ensures ParseArgs(toks, p, acc) == Success((acc + args, z + 1))
    decreases parent, 0, |args|, 1
  {
    if |args| == 0 {
      assert acc + args == acc;
    } else if |args| == 1 {
      LastArg(toks, p, args[0], acc);
      assert acc + [args[0]] == acc + args;
    } else {
      MoreArgs(toks, p, parent, args, acc, z);
    }
  }

  /** An argument, a comma, and the remaining arguments. */
  lemma MoreArgs(toks: seq<Lexeme>, p: nat, parent: Expr, args: seq<Expr>, acc: seq<Expr>, z: nat)
    requires forall i :: 0 <= i < |args| ==> args[i] < parent && ExprForm(args[i])
    requires |args| > 1 && SpelledAt(toks, p, SpellArgs(parent, args))
    requires z == p + |SpellArgs(parent, args)| && Cur(toks, z).kind == CLOSEPAREN
    ensures ParseArgs(toks, p, acc) == Success((acc + args, z + 1))
    decreases parent, 0, |args|, 0
  {
    var next := End(p, args[0]) + 1;
    ArgHead(toks, p, parent, args, acc, next);
    ArgsSpelled(toks, next, parent, args[1..], acc + [args[0]], z);
    assert acc + [args[0]] + args[1..] == acc + args;
  }

  /** The first of several arguments and its comma: the loop goes on at
      `next` over the spelling of the others. */
  lemma ArgHead(toks: seq<Lexeme>, p: nat, parent: Expr, args: seq<Expr>, acc: seq<Expr>, next: nat)
    requires forall i :: 0 <= i < |args| ==> args[i] < parent && ExprForm(args[i])
    requires |args| > 1 && SpelledAt(toks, p, SpellArgs(parent, args)) && next == End(p, args[0]) + 1
    ensures ParseArgs(toks, p, acc) == ParseArgs(toks, next, acc + [args[0]])
    ensures SpelledAt(toks, next, SpellArgs(parent, args[1..]))
    ensures p + |SpellArgs(parent, args)| == next + |SpellArgs(parent, args[1..])|
    ensures forall i :: 0 <= i < |args[1..]| ==> args[1..][i] < parent && ExprForm(args[1..][i])
    decreases args[0], 12
  {
    ArgsParts(toks, p, parent, args);
    FirstArg(toks, p, args[0], acc, next);
    forall i | 0 <= i < |args[1..]|
      ensures args[1..][i] < parent && ExprForm(args[1..][i])
    {
      assert args[1..][i] == args[i + 1];
    }
  }

  /** The last argument, then `)`. */
  lemma LastArg(toks: seq<Lexeme>, p: nat, a: Expr, acc: seq<Expr>)
    requires ExprForm(a) && SpelledAt(toks, p, SpellExpr(a)) && Cur(toks, End(p, a)).kind == CLOSEPAREN
    ensures ParseArgs(toks, p, acc) == Success((acc + [a], End(p, a) + 1))
    decreases a, 11
  {
    FirstArg(toks, p, a, acc, End(p, a));
  }

  /** An argument followed by `,` or `)`: the loop goes on after the comma,
      or at the parenthesis. */
  lemma FirstArg(toks: seq<Lexeme>, p: nat, a: Expr, acc: seq<Expr>, next: nat)
    requires ExprForm(a) && SpelledAt(toks, p, SpellExpr(a))
    requires Cur(toks, End(p, a)).kind == COMMA || Cur(toks, End(p, a)).kind == CLOSEPAREN
    requires next == if Cur(toks, End(p, a)).kind == COMMA then End(p, a) + 1 else End(p, a)
    ensures next <= |toks| && ParseArgs(toks, p, acc) == ParseArgs(toks, next, acc + [a])
    decreases a, 10
  {
    ExprFirst(toks, p, a);
    ExprSpelled(toks, p, a);
    ArgsStep(toks, p, acc, a, End(p, a), next);
  }

  /** One round of the argument loop, from the parser alone. */
  lemma ArgsStep(toks: seq<Lexeme>, p: nat, acc: seq<Expr>, a: Expr, pa: nat, next: nat)
    requires p <= |toks| && Cur(toks, p).kind != CLOSEPAREN && ParseExpr(toks, p) == Success((a, pa))
    requires Cur(toks, pa).kind == COMMA || Cur(toks, pa).kind == CLOSEPAREN
    requires next == if Cur(toks, pa).kind == COMMA then pa + 1 else pa
    ensures next <= |toks| && ParseArgs(toks, p, acc) == ParseArgs(toks, next, acc + [a])
  {
  }

  /** ParseUnary reads a unary expression: the prefix token becomes the
      operator, and the postfix chain after it the operand. */
  lemma UnarySpelled(toks: seq<Lexeme>, p: nat, u: Expr)
    requires UnaryForm(u) && SpelledAt(toks, p, SpellExpr(u))
    requires NotPostfix(Cur(toks, End(p, u)).kind)
    ensures ParseUnary(toks, p) == Success((u, End(p, u)))
    decreases u, 5
  {
    if u.Unary? {
      UnaryParts(toks, p, u);
      ChainSpelled(toks, p + 1, u.value);
    } else {
      PostFirst(toks, p, u);
      ChainSpelled(toks, p, u);
    }
  }

  /** ParseFactor reads the factor at the bottom of a spelled postfix
      chain, and ParsePost the rest of the chain. */
  lemma ChainSpelled(toks: seq<Lexeme>, q: nat, v: Expr)
    requires PostForm(v) && SpelledAt(toks, q, SpellExpr(v)) && NotPostfix(Cur(toks, End(q, v)).kind)
    ensures var f := PostAt(v, PDepth(v));
      && ParseFactor(toks, q) == Success((f, End(q, f)))
      && ParsePost(toks, f, End(q, f)) == Success((v, End(q, v)))
    decreases v, 4
  {
    var d := PDepth(v);
    var f := PostAt(v, d);
    PostAtForm(v, d);
    PostAtSpelled(toks, q, v, d);
    FactorSpelled(toks, q, f);
    PostSpelled(toks, q, v, d);
  }

  /** ParseBinRhs, started `k` nodes down the left spine of a tree whose
      spine operators bind at least as tightly as `eprec`, rebuilds the tree
      and stops before the token that follows it. */
  lemma Climb(toks: seq<Lexeme>, p: nat, e: Expr, k: nat, eprec: int)
    requires ExprForm(e) && SpelledAt(toks, p, SpellExpr(e)) && k <= Depth(e)
    requires 0 <= eprec && (k == 0 || TopPrec(e) >= eprec)
    requires Prec(Cur(toks, End(p, e)).kind) < eprec && NotPostfix(Cur(toks, End(p, e)).kind)
    ensures ParseBinRhs(toks, LeftAt(e, k), End(p, LeftAt(e, k)), eprec) == Success((e, End(p, e)))
    decreases e, 3, k
  {
    if k > 0 {
      var mid := LeftAt(e, k - 1);
      SpineStep(toks, p, e, k);
      Follower(toks, p, e, k, eprec);
      Climb(toks, p, e, k - 1, eprec);
      ClimbRight(toks, p, mid, eprec);
    }
  }

  /** At a spine node, ParseBinRhs reads the operator and the right
      operand and goes on after the node as if it had started there. */
  lemma ClimbRight(toks: seq<Lexeme>, p: nat, mid: Expr, eprec: int)
    requires mid.Bin? && ExprForm(mid) && SpelledAt(toks, p, SpellExpr(mid)) && 0 <= eprec <= Prec(mid.op)
    requires Prec(Cur(toks, End(p, mid)).kind) <= Prec(mid.op) && NotPostfix(Cur(toks, End(p, mid)).kind)
    ensures ParseBinRhs(toks, mid.lhs, End(p, mid.lhs), eprec) == ParseBinRhs(toks, mid, End(p, mid), eprec)
    decreases mid, 2
  {
    BinParts(toks, p, mid);
    OperandStep(toks, mid, End(p, mid.lhs), eprec, End(p, mid));
  }

  /** After the left operand of `mid`, ending at `pos`: an operator binding
      at least as tightly as `eprec` and a spelled right operand that only a
      looser token follows fold into the node `mid`. */
  lemma OperandStep(toks: seq<Lexeme>, mid: Expr, pos: nat, eprec: int, z: nat)
    requires mid.Bin? && pos < |toks| && 0 <= eprec <= Prec(mid.op) && mid.op == Cur(toks, pos).kind
    requires ExprForm(mid.rhs) && SpelledAt(toks, pos + 1, SpellExpr(mid.rhs)) && Prec(mid.op) < TopPrec(mid.rhs)
    requires z == End(pos + 1, mid.rhs) && Prec(Cur(toks, z).kind) <= Prec(mid.op) && NotPostfix(Cur(toks, z).kind)
    ensures ParseBinRhs(toks, mid.lhs, pos, eprec) == ParseBinRhs(toks, mid, z, eprec)
    decreases mid, 1
  {
    RightOperand(toks, pos + 1, mid.rhs, mid.op, z);
    var u := LeftAt(mid.rhs, Depth(mid.rhs));
    BinRhsStep(toks, mid.lhs, pos, eprec, mid.op, pos + 1, u, End(pos + 1, u), mid.rhs, z);
  }

  /** What follows the right operand of a spine node binds no more tightly
      than its operator: it is the operator of the node above, or what
      follows the tree. */
  lemma Follower(toks: seq<Lexeme>, p: nat, e: Expr, k: nat, eprec: int)
    requires ExprForm(e) && SpelledAt(toks, p, SpellExpr(e)) && 0 < k <= Depth(e)
    requires TopPrec(e) >= eprec && Prec(Cur(toks, End(p, e)).kind) < eprec && NotPostfix(Cur(toks, End(p, e)).kind)
    ensures var mid := LeftAt(e, k - 1);
      mid.Bin? && Prec(Cur(toks, End(p, mid)).kind) <= Prec(mid.op) && NotPostfix(Cur(toks, End(p, mid)).kind)
  {
    LeftAtStep(e, k);
    if k > 1 {
      InnerFollower(toks, p, e, k);
    }
  }

  /** Below the root, what follows a spine node is the operator of the node
      above it. */
  lemma InnerFollower(toks: seq<Lexeme>, p: nat, e: Expr, k: nat)
    requires ExprForm(e) && SpelledAt(toks, p, SpellExpr(e)) && 1 < k <= Depth(e)
    ensures var mid := LeftAt(e, k - 1);
      mid.Bin? && Prec(Cur(toks, End(p, mid)).kind) <= Prec(mid.op) && NotPostfix(Cur(toks, End(p, mid)).kind)
  {
    var above := LeftAt(e, k - 2);
    SpineStep(toks, p, e, k - 1);
    BinParts(toks, p, above);
    OperatorNotPostfix(above.op);
  }

  /** A binary operator does not continue a postfix chain. */
  lemma OperatorNotPostfix(t: Token)
    requires Prec(t) >= 0
    ensures NotPostfix(t)
  {
  }

  /** One round of ParseBinRhs: an operator binding at least as tightly as
      `eprec`, then its right operand, folded into a binary node. */
  lemma BinRhsStep(toks: seq<Lexeme>, lhs: Expr, pos: nat, eprec: int, op: Token, v: nat, u: Expr, pu: nat, r: Expr, q: nat)
    requires pos < |toks| && v == pos + 1 && 0 <= eprec <= Prec(op) && op == Cur(toks, pos).kind
    requires ParseUnary(toks, v) == Success((u, pu)) && pu <= |toks|
    requires Absorb(toks, u, pu, Prec(op)) == Success((r, q))
    ensures ParseBinRhs(toks, lhs, pos, eprec) == ParseBinRhs(toks, Bin(op, lhs, r), q, eprec)
  {
  }

  /** After a right operand read up to `pu`, ParseBinRhs lets the operand
      absorb the operators that bind more tightly than `prec`. */
  function Absorb(toks: seq<Lexeme>, u: Expr, pu: nat, prec: int): Parsed<Expr>
    requires pu <= |toks| && prec >= 0
  {
    if Prec(Cur(toks, pu).kind) > prec then ParseBinRhs(toks, u, pu, prec + 1) else Success((u, pu))
  }

  /** The right operand of a spine node: ParseUnary reads its leftmost
      unary operand, and the climb at one above `op`'s precedence reads the
      rest of it. */
  lemma RightOperand(toks: seq<Lexeme>, q: nat, r: Expr, op: Token, z: nat)
    requires ExprForm(r) && SpelledAt(toks, q, SpellExpr(r)) && 0 <= Prec(op) < TopPrec(r) && z == End(q, r)
    requires Prec(Cur(toks, z).kind) <= Prec(op) && NotPostfix(Cur(toks, z).kind)
    ensures var u := LeftAt(r, Depth(r));
      && ParseUnary(toks, q) == Success((u, End(q, u)))
      && End(q, u) <= |toks| && Absorb(toks, u, End(q, u), Prec(op)) == Success((r, z))
    decreases r, 8
  {
    if Depth(r) > 0 {
      DeepOperand(toks, q, r, op, z);
    } else {
      LeftmostOperand(toks, q, r);
    }
  }

  /** RightOperand for a binary right operand: the climb reads past its
      leftmost operand. */
  lemma DeepOperand(toks: seq<Lexeme>, q: nat, r: Expr, op: Token, z: nat)
    requires ExprForm(r) && SpelledAt(toks, q, SpellExpr(r)) && 0 <= Prec(op) < TopPrec(r) && z == End(q, r)
    requires Prec(Cur(toks, z).kind) <= Prec(op) && NotPostfix(Cur(toks, z).kind) && Depth(r) > 0
    ensures var u := LeftAt(r, Depth(r));
      && ParseUnary(toks, q) == Success((u, End(q, u)))
      && End(q, u) <= |toks| && Absorb(toks, u, End(q, u), Prec(op)) == Success((r, z))
    decreases r, 7
  {
    LeftmostOperand(toks, q, r);
    Climb(toks, q, r, Depth(r), Prec(op) + 1);
  }

  /** ParseUnary reads the leftmost unary operand of a spelled tree; below
      a binary node, the token after it is an operator binding at least as
      tightly as the tree's top operator. */
  lemma LeftmostOperand(toks: seq<Lexeme>, q: nat, r: Expr)
    requires ExprForm(r) && SpelledAt(toks, q, SpellExpr(r))
    requires NotPostfix(Cur(toks, End(q, r)).kind)
    ensures var u := LeftAt(r, Depth(r));
      && ParseUnary(toks, q) == Success((u, End(q, u))) && End(q, u) <= |toks|
      && (Depth(r) == 0 ==> u == r)
      && (Depth(r) > 0 ==> Prec(Cur(toks, End(q, u)).kind) >= TopPrec(r) >= 0)
    decreases r, 6
  {
    AfterLeftmost(toks, q, r);
    UnarySpelled(toks, q, LeftAt(r, Depth(r)));
  }

  /** ParseExpr reads a tree of the grammar back as that tree, consuming
      exactly its tokens. */
  lemma ExprSpelled(toks: seq<Lexeme>, p: nat, e: Expr)
    requires ExprForm(e) && SpelledAt(toks, p, SpellExpr(e))
    requires EndsExpr(Cur(toks, End(p, e)).kind)
    ensures ParseExpr(toks, p) == Success((e, End(p, e)))
    decreases e, 9
  {
    LeftmostOperand(toks, p, e);
    var u := LeftAt(e, Depth(e));
    assert ParseBinRhs(toks, u, End(p, u), 0) == Success((e, End(p, e))) by { Climb(toks, p, e, Depth(e), 0); }
  }

  /** The round trip: the spelling of any tree of the grammar, followed by
      a token that ends an expression, parses back to the tree and is
      consumed exactly. */
  lemma {:induction false} ParseExprRoundTrip(e: Expr, rest: seq<Lexeme>)
    requires ExprForm(e)
    requires |rest| > 0 ==> EndsExpr(rest[0].kind)
    ensures ParseExpr(SpellExpr(e) + rest, 0) == Success((e, |SpellExpr(e)|))
  {
    var toks := SpellExpr(e) + rest;
    assert SpelledAt(toks, 0, SpellExpr(e));
    assert |rest| > 0 ==> Cur(toks, End(0, e)) == rest[0];
    ExprSpelled(toks, 0, e);
  }

  /** Three names with an operator between each pair. */
  function Chain(a: string, op1: Token, b: string, op2: Token, c: string): seq<Lexeme> {
    [Lexeme(IDENT, a), Punct(op1), Lexeme(IDENT, b), Punct(op2), Lexeme(IDENT, c)]
  }

  /** A name is a tree of the grammar. */
  lemma NameForm(a: string)
    ensures ExprForm(Ident(a, Unbound)) && TopPrec(Ident(a, Unbound)) == 5
  {
    assert FactorForm(Ident(a, Unbound));
    assert PostForm(Ident(a, Unbound));
  }

  /** Of two operators, the one that binds more tightly takes its operands
      first when it stands on the right: `a lo b hi c` is `a lo (b hi c)`. */
  lemma TighterOnRight(lo: Token, hi: Token, a: string, b: string, c: string)
    requires 0 <= Prec(lo) < Prec(hi)
    ensures ParseExpr(Chain(a, lo, b, hi, c), 0)
         == Success((Bin(lo, Ident(a, Unbound), Bin(hi, Ident(b, Unbound), Ident(c, Unbound))), 5))
  {
    var x, y, z := Ident(a, Unbound), Ident(b, Unbound), Ident(c, Unbound);
    NameForm(a);
    NameForm(b);
    NameForm(c);
    assert SpellExpr(Bin(hi, y, z)) == [Lexeme(IDENT, b), Punct(hi), Lexeme(IDENT, c)];
    ParseExprRoundTrip(Bin(lo, x, Bin(hi, y, z)), []);
    assert SpellExpr(Bin(lo, x, Bin(hi, y, z))) + [] == Chain(a, lo, b, hi, c);
  }

  /** ... and when it stands on the left: `a hi b lo c` is `(a hi b) lo c`. */
  lemma TighterOnLeft(lo: Token, hi: Token, a: string, b: string, c: string)
    requires 0 <= Prec(lo) < Prec(hi)
    ensures ParseExpr(Chain(a, hi, b, lo, c), 0)
         == Success((Bin(lo, Bin(hi, Ident(a, Unbound), Ident(b, Unbound)), Ident(c, Unbound)), 5))
  {
    var x, y, z := Ident(a, Unbound), Ident(b, Unbound), Ident(c, Unbound);
    NameForm(a);
    NameForm(b);
    NameForm(c);
    assert SpellExpr(Bin(hi, x, y)) == [Lexeme(IDENT, a), Punct(hi), Lexeme(IDENT, b)];
    ParseExprRoundTrip(Bin(lo, Bin(hi, x, y), z), []);
    assert SpellExpr(Bin(lo, Bin(hi, x, y), z)) + [] == Chain(a, hi, b, lo, c);
  }

  /** Operators of equal precedence group to the left. */
  lemma EqualGroupsLeft(op1: Token, op2: Token, a: string, b: string, c: string)
    requires 0 <= Prec(op1) == Prec(op2)
    ensures ParseExpr(Chain(a, op1, b, op2, c), 0)
         == Success((Bin(op2, Bin(op1, Ident(a, Unbound), Ident(b, Unbound)), Ident(c, Unbound)), 5))
  {
    var x, y, z := Ident(a, Unbound), Ident(b, Unbound), Ident(c, Unbound);
    NameForm(a);
    NameForm(b);
    NameForm(c);
    assert SpellExpr(Bin(op1, x, y)) == [Lexeme(IDENT, a), Punct(op1), Lexeme(IDENT, b)];
    ParseExprRoundTrip(Bin(op2, Bin(op1, x, y), z), []);
    assert SpellExpr(Bin(op2, Bin(op1, x, y), z)) + [] == Chain(a, op1, b, op2, c);
  }

  /** `a + b * c` groups as `a + (b * c)`. */
  lemma ProductBindsTighter()
    ensures ParseExpr(Chain("a", PLUS, "b", MUL, "c"), 0)
         == Success((Bin(PLUS, Ident("a", Unbound), Bin(MUL, Ident("b", Unbound), Ident("c", Unbound))), 5))
  {
    TighterOnRight(PLUS, MUL, "a", "b", "c");
  }

  /** `a - b - c` groups as `(a - b) - c`. */
  lemma SubtractionGroupsLeft()
    ensures ParseExpr(Chain("a", MINUS, "b", MINUS, "c"), 0)
         == Success((Bin(MINUS, Bin(MINUS, Ident("a", Unbound), Ident("b", Unbound)), Ident("c", Unbound)), 5))
  {
    EqualGroupsLeft(MINUS, MINUS, "a", "b", "c");
  }

  /** `a = b = c` groups as `(a = b) = c`: assignment associates to the
      left like every other operator. */
  lemma AssignmentGroupsLeft()
    ensures ParseExpr(Chain("a", ASSIGN, "b", ASSIGN, "c"), 0)
         == Success((Bin(ASSIGN, Bin(ASSIGN, Ident("a", Unbound), Ident("b", Unbound)), Ident("c", Unbound)), 5))
  {
    EqualGroupsLeft(ASSIGN, ASSIGN, "a", "b", "c");
  }

  /** The trees of the grammar respect precedence. */
  lemma {:induction false} FormIsWellPrec(e: Expr)
    requires ExprForm(e)
    ensures WellPrec(e)
    decreases e
  {
    if e.Bin? {
      FormIsWellPrec(e.lhs);
      FormIsWellPrec(e.rhs);
    }
  }
}
