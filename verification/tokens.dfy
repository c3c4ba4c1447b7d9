/** The token kinds produced by the lexer and consumed by the parser and
    the compiler (TutToken). */
module Tokens {

  datatype Token =
    | INT | FLOAT | STRING | IDENT
    | TRUE | FALSE | IF | ELSE | WHILE | VAR | FUNC | RETURN | EXTERN
    | STRUCT | CAST | IMPORT | MODULE | NULL
    | OPENPAREN | CLOSEPAREN | OPENSQUARE | CLOSESQUARE | OPENCURLY | CLOSECURLY
    | COLON | SEMICOLON | COMMA | DOT | ELLIPSIS
    | PLUS | MINUS | MUL | DIV
    | LT | GT | LTE | GTE
    | AND | OR | LAND | LOR | LNOT
    | ASSIGN | EQUALS | NEQUALS
    | ARROW
    | EOF | ERROR

  /** The fourteen reserved words and their tokens, in the order the lexer tries them. */
  const Keywords: seq<(string, Token)> := [
    ("true", TRUE), ("false", FALSE), ("if", IF), ("else", ELSE),
    ("while", WHILE), ("var", VAR), ("func", FUNC), ("return", RETURN),
    ("extern", EXTERN), ("struct", STRUCT), ("cast", CAST),
    ("import", IMPORT), ("module", MODULE), ("null", NULL)
  ]

  /** No keyword lexes as an identifier. */
  lemma KeywordsAreNotIdents()
    ensures forall i :: 0 <= i < |Keywords| ==> Keywords[i].1 != IDENT
  {
  }
}
