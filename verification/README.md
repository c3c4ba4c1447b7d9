# tut: compiler core in Dafny

This project models the front and middle of the `tut` compiler, a small
C-like language compiled to byte code for a stack machine. The model
follows the C sources closely and covers the following parts.

- **Support containers.** The growable array (`Tut_Array*`), the linked
  list (`Tut_List*`) and the fixed-width byte buffer readers and writers
  (`Tut_ReadUint8` … `Tut_ReadInt32` and
  `Tut_WriteUint8` … `Tut_WriteInt32`).
- **Type tags.** Primitive tags are created from their names, two tags are
  compared (`Tut_CompareTypes`), and a tag is printed (`Tut_TypetagRepr`).
- **Lexer.** Whitespace and line counting, words and keywords, numbers,
  string literals with escapes, `.`/`..`/`...`, operators and `//`
  comments. `GetToken` is one function over the remaining input.
- **Expression parser.** Precedence climbing over binary operators, unary
  operators, factors, postfix calls and member access, argument lists and
  type names. The `Spelling` module gives every expression tree of the
  grammar its token spelling and proves that the parser reads that
  spelling back as the same tree.
- **Compiler passes.** Struct layout (the static `FinalizeTypes`), storage-index
  assignment for locals and arguments (`ResolveVariableIndices`), the
  typing rules of `ResolveTypes`, lvalue resolution (`GetLvalue`), the call
  and member-read lowering of `CompileValue`, the control-flow lowering of
  `CompileStatement` (if, while, function bodies, jump patching) and the
  entry jump of `Tut_CompileModule`.
- **Constant pools.** The integer and string pools of the code generator:
  the INT and STR cases of `Tut_CompileValueExpr` in tut_codegen.c. The
  compiler emits pushes through `Tut_EmitPushInt` and `Tut_EmitPushStr` on
  the VM; those functions are not part of this model, so how they relate to
  the generator's pools is not shown here.

The model uses the following conventions.

- Every operation is a pure function over immutable values.
- Failure is a `Result` value. The compiler's `CompilerError`, which
  prints a message and exits, becomes `Failure`.
- Emitted code is a sequence of abstract instructions. A code address is an
  index into that sequence, and a patch replaces one instruction's operand.
- A C `void*` array slot is `Option<T>`: `None` stands for a slot that was
  never written.
- The generator's data segment is a sequence of bytes. Four-byte integers
  are stored little-endian.
- The compiler passes take the results of the passes they depend on as
  parameters rather than re-running them:
  - `ty` is the typetag ResolveTypes gave each node;
  - `sz` is `Tut_GetTypetagSize`;
  - `leaf` is the code of a value form outside the modelled cases;
  - `assign` is `CompileAssign`;
  - the `Binding` stored in an identifier is ResolveSymbols' result.

Modules, one per file:

- `Wrappers`: Option and Result.
- `DynArray`: tut_array.c.
- `LinkedList`: tut_list.c.
- `Buf`: tut_buf.c.
- `Types`: tut_typetag.c.
- `Tokens`: the token kinds named in tut_token.c and used by tut_lexer.c
  (tut_token.h is not part of this model).
- `Lexer`: tut_lexer.c.
- `Syntax`: the expression tree of tut_expr.h.
- `Parser`: tut_parser.c, the expression half.
- `Spelling`: the token spelling of expression trees, and the round trip
  through the parser of tut_parser.c.
- `Layout`: FinalizeTypes and ResolveVariableIndices of tut_compiler.c.
- `Typecheck`: ResolveTypes of tut_compiler.c.
- `Lowering`: GetLvalue, CompileValue and CompileStatement of tut_compiler.c.
- `ConstPool`: tut_codegen.c.

The model follows the C code on these points of the language:

- **Primitive names.** The language has six built-in types (bool, int,
  float, str, cstr, void) and an unspecified reference. Yet
  `Tut_CreatePrimitiveTypetag` in tut_typetag.c knows only five names:
  bool, int, float, str and cstr. The parser and the compiler still ask it
  for "void" and "ref" (tut_parser.c:48, tut_compiler.c:345 and 371).
  `Types.CreatePrimitiveTypetag` models the five-name table, which fails on
  anything else. `Types.LookupPrimitiveFrom` is the extended lookup the
  parser and compiler rely on, and `Types.LanguagePrimitiveExtends` shows
  that it agrees with the table on the five names.
- **Type comparison.** `Tut_CompareTypes` compares only the kind, the
  primitive, and the name of a user type. It does not compare pointees,
  parameter lists or return types. Assignability (`Tut_CanAssignTypes`) and
  type sizes are outside the modelled files, so the model takes them as
  parameters.
- **Condition types.** The compiler does not check the type of an `if` or
  `while` condition, and neither does the model.

## Model

| member | source | states |
|---|---|---|
| DynArray.Init | tut_array.c:15-21 | a new array is valid and empty, with no storage allocated |
| DynArray.Reserve | tut_array.c:33-40 | capacity becomes the larger of the old capacity and the request, and the length and every stored slot are unchanged |
| DynArray.Resize | tut_array.c:42-54 | the length becomes the requested size, the elements below both lengths are kept, new slots hold the fill value when one is given, storage past the new length is left as it was, and capacity covers the new length |
| DynArray.Get | tut_array.c:56-60 | reading an index inside the length yields that slot |
| DynArray.Set | tut_array.c:62-66 | writing an index inside the length changes that slot and no other, and keeps length and capacity |
| DynArray.GrowCapacity | tut_array.c:70-77 | the grown capacity exceeds the length plus one, never shrinks, is unchanged when there is already room, and is reached by repeated doubling |
| DynArray.Push | tut_array.c:68-81 | the length grows by one, the new last slot is the value, earlier slots are kept, and capacity stays above the length |
| DynArray.Pop | tut_array.c:83-87 | popping a non-empty array returns its last slot, and the remaining elements followed by that slot are the old elements |
| DynArray.PopAfterPush | tut_array.c:68-87 | popping right after a push returns the pushed value and restores the elements |
| DynArray.Insert | tut_array.c:89-102 | inserting at an index inside the length shifts the tail up by one and places the value at the index |
| DynArray.Clear | tut_array.c:121-124 | the length becomes zero and capacity is kept |
| DynArray.Copy | tut_array.c:23-31 | the copy has the source's length and elements, and its capacity is the larger of the destination's capacity and the source's length |
| LinkedList.Init | tut_list.c:15-19 | a new list is empty |
| LinkedList.Append | tut_list.c:21-35 | the value becomes the last element and the earlier elements keep their order |
| LinkedList.Prepend | tut_list.c:37-51 | the value becomes the first element and the rest follow unchanged |
| LinkedList.Destroy | tut_list.c:53-60 | destroying leaves an empty list with no head and no tail |
| LinkedList.AppendAll | tut_list.c:21-35 | appending the values one by one gives the list followed by those values in order |
| Buf.ReadUnsigned | tut_buf.c:17-19 | an in-bounds unsigned read gives a value in [0, 256^width) |
| Buf.ReadSigned | tut_buf.c:20-22 | a signed read gives a value in the two's-complement range of its width |
| Buf.WriteUnsigned | tut_buf.c:40-42 | a write keeps the buffer's length, changes only the bytes of its field, and stores the little-endian encoding of the value there |
| Buf.WriteSigned | tut_buf.c:43-45 | a signed write keeps the length and changes only the bytes of its field |
| Buf.ReadAfterWriteUnsigned | tut_buf.c:27-38 | reading a field just written with an in-range unsigned value gives that value back |
| Buf.ReadAfterWriteSigned | tut_buf.c:27-38 | reading a field just written with an in-range signed value gives that value back |
| Buf.ReadDisjointWrite | tut_buf.c:27-38 | a write does not change a read of a field that does not overlap it |
| Buf.DecodeEncode | tut_buf.c:27-38 | the little-endian bytes of a value in range decode back to that value |
| Types.InitTypetag | tut_typetag.c:15-25 | a fresh tag has the requested kind, and a user tag starts unnamed, undefined and with no members |
| Types.CreatePrimitiveTypetag | tut_typetag.c:27-40 | succeeds exactly on the five table names and yields the primitive named |
| Types.PrimitiveFrom | tut_typetag.c:29-37 | the table scan from a position finds a tag exactly when the name occurs in the rest of the table, and the tag has that entry's kind |
| Types.CompareTypes | tut_typetag.c:42-54 | `Tut_CompareTypes`; its laws are stated by the rows CompareDifferentKinds, CompareUserTypes, ComparePrimitives, CompareSymmetric and CompareEquivalence |
| Types.CompareDifferentKinds | tut_typetag.c:44 | tags of different kinds are never equal |
| Types.CompareUserTypes | tut_typetag.c:46-51 | two user types compare equal exactly when both are named and the names are equal, so an unnamed user type is not equal even to itself |
| Types.ComparePrimitives | tut_typetag.c:53 | two non-user tags of the same kind compare equal |
| Types.CompareSymmetric | tut_typetag.c:42-54 | comparison is symmetric |
| Types.CompareEquivalence | tut_typetag.c:42-54 | comparison is reflexive on every tag except an unnamed user type, and it is transitive |
| Types.TypetagRepr | tut_typetag.c:56-65 | a user type prints as its name, a bool, int, float, str or cstr tag prints as the table name of its kind, and void, ref and func tags print as nothing, since the table has no entry for them |
| Types.ReprOfPrimitive | tut_typetag.c:27-65 | printing a created primitive gives back the name it was created from |
| Types.LookupPrimitiveFrom | tut_parser.c:48 | the extended lookup finds a name exactly when it is in the extended table |
| Types.LanguagePrimitiveRoundTrip | tut_parser.c:48 | looking up the printed name of any primitive gives that primitive |
| Types.LanguagePrimitiveExtends | tut_typetag.c:5-13 | on the five names the extended lookup agrees with the table of the type module |
| Lexer.InitLexer | tut_lexer.c:9-23 | a new lexer is valid, stands at position 0 and is on line 1 with the line starting at 0 |
| Lexer.Advance | tut_lexer.c:49-59 | one character is consumed, or none at the end of input |
| Lexer.SpaceStep | tut_lexer.c:63-72 | one step reads one character (none at the end) and adds a line exactly when the previous character was a newline |
| Lexer.SkipSpace | tut_lexer.c:63-72 | skipping stops at a non-space character or the end, never moves back or lowers the line count, and does nothing when the current character is not a space |
| Lexer.SkipSpaceCountsLines | tut_lexer.c:63-72 | skipping adds the number of newlines skipped to the line count |
| Lexer.SkipSpaceLineStart | tut_lexer.c:63-72 | skipping keeps the line-start invariant (the line start is just past the last newline read), and establishes it whenever a newline was skipped |
| Lexer.SkipSpaceStartsLine | tut_lexer.c:63-72 | after a skip that crossed a newline, the line start is just past a newline, and no newline lies between it and the current position |
| Lexer.SpaceStepAsWritten | tut_lexer.c:63-72 | the step as written reads one character, or none at the end |
| Lexer.SkipSpaceAsWritten | tut_lexer.c:63-72 | the skip as written stays within the text and never moves back |
| Lexer.SkipSpaceAsWrittenMissesLineStart | tut_lexer.c:63-72 | on "\nx" the line start as written is 2, not the 1 where the line begins |
| Lexer.ScanWord | tut_lexer.c:74-86 | the word scan collects exactly the run of word characters ahead, and fails exactly when the lexeme would reach 256 characters |
| Lexer.WordTokenSpec | tut_lexer.c:88-103 | a word yields its keyword token exactly when it is a keyword, and IDENT otherwise |
| Lexer.KeywordFromSpec | tut_lexer.c:88-103 | the keyword scan returns an entry's token when the word is in the rest of the table, and IDENT otherwise |
| Lexer.LexWord | tut_lexer.c:74-104 | a word token keeps the lexer valid and on the same text, and never moves back |
| Lexer.LexWordSpec | tut_lexer.c:74-104 | a word lexes exactly when it is shorter than 256 characters; the lexeme is the word, and the token is the keyword's when the word is a keyword and IDENT otherwise |
| Lexer.WordDispatch | tut_lexer.c:61-104 | input starting with a letter or underscore after whitespace is lexed as a word |
| Lexer.ScanNumber | tut_lexer.c:106-126 | the number scan collects exactly the digits and dots ahead, and fails exactly when the lexeme would reach 256 characters or hold two dots |
| Lexer.LexNumber | tut_lexer.c:106-131 | a number token keeps the lexer valid and on the same text, and never moves back |
| Lexer.LexNumberSpec | tut_lexer.c:106-131 | a number lexes exactly when it is shorter than 256 characters with at most one dot; the token is FLOAT exactly when the text has a dot and INT otherwise |
| Lexer.NumberDispatch | tut_lexer.c:61-131 | input starting with a digit after whitespace is lexed as a number |
| Lexer.ScanString | tut_lexer.c:134-171 | a scanned string body fits the lexeme buffer, and the scan stops past the start and within the text |
| Lexer.Escape | tut_lexer.c:147-158 | the escapes after a backslash: `n`, `t`, `r`, `b`, `0` and backslash, and no other; its use is stated by the rows DecodeOne, DecodeEscapes and ScanStringDecodes |
| Lexer.DecodeOne | tut_lexer.c:143-160 | decoding one raw character or escape consumes one or two characters and stays within the text |
| Lexer.DecodeEscapes | tut_lexer.c:143-160 | the decoding of a non-empty raw text is non-empty |
| Lexer.ScanStringDecodes | tut_lexer.c:134-173 | the string token's text is the escape decoding of the raw characters between the quotes |
| Lexer.LexString | tut_lexer.c:134-174 | a string token keeps the lexer valid and on the same text, and never moves back |
| Lexer.LexStringSpec | tut_lexer.c:134-174 | a string lexes exactly when its escapes decode and fit the buffer; the token is STRING with the decoded text, and lexing resumes after the closing quote |
| Lexer.StringDispatch | tut_lexer.c:61-174 | input starting with a double quote after whitespace is lexed as a string |
| Lexer.LexDots | tut_lexer.c:230-248 | a dot token keeps the lexer valid and on the same text, and never moves back |
| Lexer.LexDotsSpec | tut_lexer.c:230-248 | `...` gives ELLIPSIS, `..` is an error, and a single dot gives DOT |
| Lexer.DotDispatch | tut_lexer.c:61-248 | input starting with a dot after whitespace goes to the dot rule |
| Lexer.LexOperator | tut_lexer.c:256-358 | an operator token keeps the lexer valid and on the same text, and never moves back |
| Lexer.LexOperatorSpec | tut_lexer.c:256-358 | an operator rule always succeeds; it gives the two-character token when the second character follows, and the one-character token otherwise |
| Lexer.OperatorDispatch | tut_lexer.c:61-365 | a character with an operator rule goes to that rule, and every such rule has a second character to test |
| Lexer.SkipComment | tut_lexer.c:279-280 | a comment skip keeps the line count and stops at a newline or at the end of input |
| Lexer.SkipCommentReaches | tut_lexer.c:279-280 | with no newline before position k and a newline at k, the comment skip stops just past k |
| Lexer.CommentSkipsLine | tut_lexer.c:274-283 | a `//` comment is dropped, and the next token is the first token of the next line |
| Lexer.GetToken | tut_lexer.c:61-365 | every token keeps the lexer valid and on the same text, and never moves back |
| Lexer.TokenAt | tut_lexer.c:74-364 | the token read at a non-space character keeps the lexer valid and on the same text, and never moves back |
| Lexer.EndOfText | tut_lexer.c:360-361 | whitespace-only input yields EOF |
| Lexer.SkipSpaceReachesEnd | tut_lexer.c:63-72 | on whitespace-only input the skip reaches the end |
| Tokens.KeywordsAreNotIdents | tut_lexer.c:88-103 | no keyword spelling lexes as an identifier |
| Parser.Eat | tut_parser.c:21-31 | eating succeeds exactly when the current token is the expected one, and then it advances one token |
| Parser.ParseExpr | tut_parser.c:620-623 | a parsed expression consumes at least one token and stops within the input |
| Parser.ParseBinRhs | tut_parser.c:594-618 | precedence climbing never moves back and stops within the input |
| Parser.BinRhsWellPrec | tut_parser.c:596-617 | precedence climbing yields a well-nested tree, stops at an operator looser than the minimum, and every new node binds at least as tightly as the minimum |
| Parser.RightOperand | tut_parser.c:596-617 | a right operand parsed one level up binds tighter than the current operator and stops at an operator no tighter than it |
| Parser.ExprWellPrec | tut_parser.c:620-623 | a parsed expression is well nested by precedence and stops at a token that is not a binary operator |
| Parser.ParseUnary | tut_parser.c:560-577 | a unary expression consumes at least one token and is never a binary node; a unary node wraps a postfix operand |
| Parser.UnaryDoesNotStack | tut_parser.c:560-577 | two prefix operators in a row are an error, since the operand of a unary is parsed as postfix, not unary |
| Parser.ParseFactor | tut_parser.c:489-531 | a factor consumes at least one token and is never a binary, unary or call node; what each token builds is stated by Spelling.FactorSpelled and Parser.EmbeddedNulEndsString |
| Parser.ParsePost | tut_parser.c:533-558 | postfix calls and member accesses chain left to right over the factor |
| Parser.PostChainStep | tut_parser.c:533-558 | one more postfix step on a postfix chain is still a postfix chain over the same factor |
| Parser.ParseCall | tut_parser.c:449-475 | a parsed call has the identifier as callee and ends at its closing parenthesis |
| Parser.ArgSeparator | tut_parser.c:467-470 | after an argument, only a comma or a closing parenthesis may follow |
| Parser.ParseArgs | tut_parser.c:462-472 | the argument loop ends at a closing parenthesis and keeps the arguments already read as a prefix |
| Parser.ParseType | tut_parser.c:43-66 | a type parse starts at an identifier and consumes at least one token |
| Parser.ParseTypeSpelled | tut_parser.c:43-66 | the type parsed from a spelling is the one the spelling denotes |
| Parser.OneTokenSpelled | tut_parser.c:43-66 | a primitive type name is one token |
| Parser.ParseTypeSpellable | tut_parser.c:43-66 | a type parse that succeeds yields a type whose spelling is what it consumed |
| Parser.ParseFactorAsWritten | tut_parser.c:495-496 | as written, `true`/`false` build their node without consuming the token |
| Parser.AsWrittenBoolLiteralStalls | tut_parser.c:495-496 | as written, `f(true)` fails at the argument separator |
| Parser.TrueArgument | tut_parser.c:495-496 | with the token consumed, `true` parses as a complete argument |
| Parser.BoolLiteralArgument | tut_parser.c:449-475 | with the corrected factor, `f(true)` parses as a call with one argument |
| Parser.DecimalValueOfDigits | tut_parser.c:68-76 | the INT lexeme printed from a natural number parses back to that number |
| Parser.Prec | tut_parser.c:579-592 | `GetTokenPrec`: assignment 0, the logical operators `LAND` and `LOR` 1, comparisons 2, `+`/`-` 3, `*`/`/` 4, and -1 for every other token; what these levels mean for grouping is stated by Spelling.TighterOnRight, TighterOnLeft, EqualGroupsLeft and the three concrete grouping rows |
| Parser.CText | tut_parser.c:88-96 | the string `ParseString` copies out of the lexeme buffer with `Tut_Strdup` is the lexeme's prefix before its first NUL: it holds no NUL, ends at a NUL or at the end of the text, and is the whole text when the text has no NUL |
| Parser.EmbeddedNulEndsString | tut_parser.c:88-96 | the lexeme of `"a\0b"` (tut_lexer.c:153 stores the NUL) gives the string literal "a" |
| Parser.ParseCast | tut_parser.c:430-447 | after the `cast` keyword, a cast parse consumes at least one token and builds a cast node |
| Parser.ParseCastType | tut_parser.c:440-446 | the closing `, type)` of a cast wraps the operand already read, unchanged, in the cast node |
| Spelling.ParseExprRoundTrip | tut_parser.c:560-623 | the spelling of any tree of the expression grammar, alone or followed by a token that ends an expression, parses back to exactly that tree and consumes exactly its tokens, so every operator, operand and grouping of the result is the one the tokens spell |
| Spelling.ExprSpelled | tut_parser.c:620-623 | ParseExpr reads a tree spelled at any position back as that tree and stops just after its spelling |
| Spelling.FormIsWellPrec | tut_parser.c:594-618 | every tree of the grammar is well nested by precedence, the shape BinRhsWellPrec gives the parser's results |
| Spelling.Climb | tut_parser.c:594-618 | precedence climbing started at any node of a spelled tree's left spine rebuilds the whole tree and stops before the token after it |
| Spelling.ClimbRight | tut_parser.c:598-616 | at a binary node of the spine, the loop reads the node's operator and right operand and then goes on as if it had started after the node |
| Spelling.OperandStep | tut_parser.c:603-616 | an operator binding at least as tightly as the minimum, followed by its spelled right operand, folds into the binary node of that operator |
| Spelling.RightOperand | tut_parser.c:606-608 | the right operand of a node is the unary expression read next, extended by the climb one level up exactly when the next operator binds more tightly than the node's |
| Spelling.LeftmostOperand | tut_parser.c:606 | ParseUnary reads the leftmost unary operand of a spelled tree, and inside a binary tree the token after it binds at least as tightly as the tree's top operator |
| Spelling.UnarySpelled | tut_parser.c:560-577 | the prefix `-`, `*` or `&` becomes the unary node's operator and the postfix chain after it the node's operand; with no prefix the chain itself is the result |
| Spelling.ChainSpelled | tut_parser.c:571-576 | ParseFactor reads the factor at the bottom of a spelled postfix chain, and ParsePost the rest of the chain |
| Spelling.PostSpelled | tut_parser.c:533-558 | ParsePost started anywhere in a spelled chain of calls and member accesses completes the chain and stops before a token that does not continue it |
| Spelling.PostStepSpelled | tut_parser.c:533-558 | one call, `.m` or `->m` step over a spelled operand continues exactly as over the whole step, and the member name is the one spelled |
| Spelling.FactorSpelled | tut_parser.c:489-531 | every factor parses to the node it spells: a literal to the literal of its lexeme (an INT lexeme to the IntLit of its value), a name to the unbound name, `( e )` to the Paren of e, and a cast to the cast of its operand and type |
| Spelling.LeafFactor | tut_parser.c:68-125 | a literal (`ParseInt`, `ParseFloat`, `ParseString`, 68-96) or a name (`ParseIdent`, 115-125) is read from its one token, with an INT lexeme read as its decimal value and a string lexeme without NUL kept whole |
| Spelling.ParenFactor | tut_parser.c:305-317 | `( e )` parses to the Paren of e and stops after the `)` |
| Spelling.CastFactor | tut_parser.c:430-447 | `cast(e, t)` parses to the cast of e to t and stops after the `)` |
| Spelling.CastPieces | tut_parser.c:434-440 | the operand of a spelled cast parses back and ends at the cast's comma |
| Spelling.CastTargetPiece | tut_parser.c:442-444 | the target type of a spelled cast parses back and ends at the closing parenthesis |
| Spelling.TypeSpelled | tut_parser.c:43-66 | a spelled type followed by `)` parses back to that type and stops at the `)` |
| Spelling.CallStep | tut_parser.c:449-475 | a spelled call of a name parses to the call of that name whose arguments are the parses of the comma-separated argument spellings, ending after the `)` |
| Spelling.CallArgs | tut_parser.c:462-472 | the arguments after a call's `(` parse to the call's argument list and end after its `)` |
| Spelling.ArgsSpelled | tut_parser.c:462-472 | the argument loop reads comma-separated spelled arguments up to `)`, appending their parses in order to the arguments already read |
| Spelling.MoreArgs | tut_parser.c:462-471 | an argument, a comma and further arguments are read as the first argument followed by the rest |
| Spelling.ArgHead | tut_parser.c:462-468 | the first of several arguments is read with its comma, and the loop goes on at the next argument |
| Spelling.LastArg | tut_parser.c:462-472 | the last argument is read and the loop ends after the `)` |
| Spelling.FirstArg | tut_parser.c:462-471 | an argument followed by `,` or `)` is appended and the loop goes on after the comma or at the parenthesis |
| Spelling.TighterOnRight | tut_parser.c:594-618 | for any two binary operators where the second binds more tightly, `a lo b hi c` parses as `a lo (b hi c)` |
| Spelling.TighterOnLeft | tut_parser.c:594-618 | for any two binary operators where the first binds more tightly, `a hi b lo c` parses as `(a hi b) lo c` |
| Spelling.EqualGroupsLeft | tut_parser.c:594-618 | two operators of equal precedence group to the left |
| Spelling.ProductBindsTighter | tut_parser.c:586-587 | `a + b * c` parses as `a + (b * c)` |
| Spelling.SubtractionGroupsLeft | tut_parser.c:586 | `a - b - c` parses as `(a - b) - c` |
| Spelling.AssignmentGroupsLeft | tut_parser.c:583 | `a = b = c` parses as `(a = b) = c`: assignment has precedence 0 and the loop groups it to the left like every other operator |
| Layout.GetMember | tut_compiler.c:52-65 | member lookup finds a member exactly when the struct has one with the name, and it is the first such member |
| Layout.MemberFrom | tut_compiler.c:52-65 | the scan returns the first member with the name from a given position |
| Layout.LayOutFrom | tut_compiler.c:147-155 | members are laid out at consecutive offsets, each after the sizes of the ones before |
| Layout.LayOut | tut_compiler.c:147-155 | laying out keeps the member names and types, gives running offsets from 0, and keeps the total size |
| Layout.FinalizeTypes | tut_compiler.c:134-158 | on success every struct is finalized in place; on failure some struct failed to finalize |
| Layout.FinalizeTypesSucceeds | tut_compiler.c:141-145 | finalizing succeeds exactly when every struct is defined and has at least one member |
| Layout.FinalizedType | tut_compiler.c:147-155 | a finalized struct keeps its name, member names and member types, is defined, and gets running offsets starting at 0 |
| Layout.NextOffset | tut_compiler.c:147-155 | each member's offset is the previous offset plus the previous member's size |
| Layout.MembersInside | tut_compiler.c:147-155 | every member lies inside the struct: offset plus size is at most the struct size |
| Layout.FoundMemberInside | tut_compiler.c:147-155 | a member found by name lies inside its struct |
| Layout.IndexFrom | tut_compiler.c:162-205 | each declaration, whether a global (162-170) or a local (198-205), is numbered after the sizes of the declarations before it |
| Layout.IndexDecls | tut_compiler.c:198-205 | locals and globals are given consecutive indices counted in slots, starting at 0 |
| Layout.IndexArgsFrom | tut_compiler.c:177-196 | arguments are numbered downward from the frame, in declaration order |
| Layout.IndexArgs | tut_compiler.c:177-196 | argument i gets the negative index that follows the slots of the arguments before it, counted back from the frame by the arguments' total size |
| Layout.ArgsTileFrame | tut_compiler.c:177-196 | the arguments' slots tile the region just below the frame without gaps or overlaps |
| Layout.LastArgEndsAtFrame | tut_compiler.c:177-196 | the last argument ends exactly at the frame pointer |
| Layout.ArgsBelowFrame | tut_compiler.c:177-196 | every argument slot lies below the frame pointer |
| Layout.ResolveVariableIndices | tut_compiler.c:160-208 | globals get running slot indices from 0, extern functions are unchanged, and every other function gets indexed arguments and locals |
| Typecheck.TypeOf | tut_compiler.c:331-609 | the typing of `ResolveTypes`; its rules are stated by the rows TypeAll through ChildErrorPropagates below |
| Typecheck.TypeAll | tut_compiler.c:523-524 | typing a list succeeds with one type per element exactly when every element types, and fails when one fails |
| Typecheck.CheckArgs | tut_compiler.c:526-542 | the argument check passes exactly when every argument that has a parameter is typed and assignable to it |
| Typecheck.BoolOpsAreComparisons | tut_compiler.c:434-440 | the operators that yield bool are exactly those of the comparison and logical precedence levels |
| Typecheck.BinaryRule | tut_compiler.c:426-433 | a non-assignment binary operation types exactly when the left type is neither void nor a struct and both sides compare equal |
| Typecheck.BinaryResult | tut_compiler.c:434-440 | a typed binary operation gives bool for comparisons and the operand type otherwise |
| Typecheck.AssignRule | tut_compiler.c:442-457 | an assignment types, with no type of its own, exactly when the value is assignable to the target's declared type; otherwise it is a mismatch naming both types |
| Typecheck.AssignIsNotAnOperand | tut_compiler.c:424 | an assignment has no type, so a binary expression using it as its left operand fails |
| Typecheck.AssignIsNotUnaryOperand | tut_compiler.c:394-409 | an assignment, which has no type, fails as the operand of `-` or `*`, both of which read the operand's type |
| Typecheck.AddressOfAssign | tut_compiler.c:410-416 | `&` of an assignment, bare or in parentheses, types as a reference with no pointee, since `&` copies the operand's missing type without reading it |
| Typecheck.NegateRule | tut_compiler.c:394-400 | negation types only for int and float and keeps the type; anything else is a negation error |
| Typecheck.DerefRule | tut_compiler.c:401-409 | dereference types only for a reference with a known pointee, and gives the pointee |
| Typecheck.AddressRule | tut_compiler.c:410-416 | taking an address never fails once the operand types: it gives a reference whose pointee is the operand's type, or no pointee when the operand has no type |
| Typecheck.MemberRule | tut_compiler.c:466-500 | member access types only for a struct (through a specified reference for `->`) that has the member, and gives the type of the first member with that name |
| Typecheck.CallRule | tut_compiler.c:502-543 | a call to a function value types exactly when the argument count matches (at least the parameter count for varargs) and each argument is assignable to its parameter; it gives the return type |
| Typecheck.ReturnRule | tut_compiler.c:590-607 | a return types exactly when its value's type equals the declared return type, or it has no value and the declared type is void |
| Typecheck.StatementsAreVoid | tut_compiler.c:551-592 | declarations, blocks, conditionals, loops, function and struct definitions and returns type as void |
| Typecheck.ChildErrorPropagates | tut_compiler.c:331-609 | when a child fails to type, so does its parent |
| Lowering.GetLvalueAsWritten | tut_compiler.c:74-132 | `GetLvalue` as written, with the `->` case dropping the pending member; it is stated by the row ArrowDropsMember |
| Lowering.GetLvalue | tut_compiler.c:74-132 | on success the lvalue's root is the expression itself or one of its sub-expressions |
| Lowering.GetLvalueFollowsPath | tut_compiler.c:74-132 | the lvalue offset is the member-path offset from the root, including a member pending across `->` |
| Lowering.ArrowDropsMember | tut_compiler.c:109-122 | as written, `&p->a.y` resolves to offset 0, losing the member `y` |
| Lowering.ArrowKeepsMember | tut_compiler.c:109-122 | with the pending member kept, `&p->a.y` resolves to the offset of `y` |
| Lowering.CompileValue | tut_compiler.c:705-955 | `CompileValue` for calls, member reads and `&`, with the other forms as the `leaf` parameter; it is stated by the rows ArgSlots through PopThenMove |
| Lowering.CompileCall | tut_compiler.c:678-703 | `CompileCall`; it is stated by the rows ArgSlots, ArgSlotsTotal and CallShape |
| Lowering.MemberRead | tut_compiler.c:899-924 | the DOT case of `CompileValue`; it is stated by the rows DotReadLeavesMember, MemberReadCode and PopThenMove |
| Lowering.ArgSlots | tut_compiler.c:683-693 | the argument code succeeds exactly when every argument has a type |
| Lowering.ArgSlotsTotal | tut_compiler.c:683-693 | the CALL operand is the sum of the argument slot counts |
| Lowering.CallShape | tut_compiler.c:678-703 | a compiled call's callee has a function type, and its code is the arguments, the callee, CALL with the slot total, and a pop of the result exactly when a non-void result is discarded |
| Lowering.DotReadLeavesMember | tut_compiler.c:899-924 | reading `s.m` of a non-storage struct leaves exactly the member's slots on the stack |
| Lowering.MemberReadCode | tut_compiler.c:911-923 | the member read pops the slots after the member, then moves the member down to the struct's base |
| Lowering.PopThenMove | tut_compiler.c:919-923 | popping the slots above a member and moving the member down leaves exactly the member's slots on top of the stack |
| Lowering.CompileStatement | tut_compiler.c:957-1054 | `CompileStatement`; it is stated by the rows StatementKeeps through FuncFrame |
| Lowering.StatementKeeps | tut_compiler.c:957-1054 | compiling a statement only appends code, never changing earlier instructions |
| Lowering.StatementsKeep | tut_compiler.c:1074-1089 | compiling a list of statements only appends code |
| Lowering.BlockKeeps | tut_compiler.c:969-973 | a block only appends code |
| Lowering.IfKeeps | tut_compiler.c:975-989 | an if only appends code, apart from patching its own jump |
| Lowering.IfKeepsLayout | tut_compiler.c:975-989 | emitting and patching the two jumps of an if only appends code after what came before |
| Lowering.IfJumps | tut_compiler.c:975-989 | the if's code is the condition, a jump-if-false to just past the body's jump, the body, then a jump past the else part |
| Lowering.WhileKeeps | tut_compiler.c:991-1002 | a while only appends code, apart from patching its own exit jump |
| Lowering.WhileJumps | tut_compiler.c:991-1002 | the loop's code is the condition, a jump-if-false to the end, the body, and a jump back to the condition |
| Lowering.FuncKeeps | tut_compiler.c:1004-1021 | a function definition only appends code and never changes earlier instructions |
| Lowering.FuncFrame | tut_compiler.c:1004-1021 | a function's code starts with its entry marker, reserves its locals' slots when there are any, records its entry address and ends with RET |
| Lowering.CompileModule | tut_compiler.c:1056-1106 | `Tut_CompileModule`; it is stated by the rows FindFunc, CountExterns and MainJump |
| Lowering.FindFunc | tut_compiler.c:1058 | the lookup finds a function exactly when one has the name, and the result is a function with that name |
| Lowering.CountExterns | tut_compiler.c:1094-1105 | the extern count is at most the number of functions, is zero exactly when none is extern, and is the total exactly when all are |
| Lowering.MainJump | tut_compiler.c:1056-1092 | a module without `_main` fails; otherwise the program starts with a jump to the entry of `_main` |
| ConstPool.Init | tut_codegen.c:5-16 | a new generator is consistent, with empty code, data and pools |
| ConstPool.EmitPush | tut_codegen.c:63-65 | a push appends its opcode and a four-byte pool index and changes nothing else |
| ConstPool.FindInt | tut_codegen.c:43-52 | the lookup finds a pool entry holding the value exactly when one exists |
| ConstPool.AppendInt | tut_codegen.c:54-61 | appending an integer keeps the code unchanged |
| ConstPool.PushInt | tut_codegen.c:38-66 | the INT case of `Tut_CompileValueExpr`; it is stated by the rows PushIntValid, IntReused, IntAdded and PushIntRoundTrip |
| ConstPool.PushIntValid | tut_codegen.c:38-66 | pushing an integer keeps the pools consistent with the data |
| ConstPool.IntReused | tut_codegen.c:40-52 | pushing an integer already pooled leaves the pool and the data unchanged and names an existing entry |
| ConstPool.IntAdded | tut_codegen.c:54-61 | pushing a new integer adds exactly one entry, at the old end of the data, and names it |
| ConstPool.PushIntRoundTrip | tut_codegen.c:38-66 | the entry named by the emitted push reads back the pushed integer |
| ConstPool.FindStrAsWritten | tut_codegen.c:103-114 | an entry found as written is a pooled string that agrees with the pushed string on the entry's own length |
| ConstPool.AsWrittenMatchIsPrefix | tut_codegen.c:105-108 | an entry matched as written is a prefix of the string pushed |
| ConstPool.EmptyStringCapturesAll | tut_codegen.c:103-114 | as written, once "" is pooled, pushing "ab" reuses it |
| ConstPool.PushStrAsWritten | tut_codegen.c:98-133 | the push as written keeps the pools consistent with the data |
| ConstPool.FindStr | tut_codegen.c:103-114 | the corrected lookup finds an entry holding the string exactly when one exists |
| ConstPool.AppendStr | tut_codegen.c:116-128 | appending a string keeps the code unchanged |
| ConstPool.AppendStrReads | tut_codegen.c:116-128 | the stored length and characters read back as the string |
| ConstPool.AppendStrValid | tut_codegen.c:116-128 | appending a string keeps the pools consistent with the data |
| ConstPool.PushStr | tut_codegen.c:98-133 | pushing a string keeps the pools consistent with the data |
| ConstPool.PushStrRoundTrip | tut_codegen.c:98-133 | the entry named by the emitted push reads back the pushed string; an existing entry is reused and otherwise exactly one is added |

## Left out

- The virtual machine (tut_vm.h, tut_vm.c) and the symbol tables (tut_symbols.h, tut_symbols.c) are not part of this model. Only their interface reaches the modelled code.
- The FLOAT case of `Tut_CompileValueExpr` (tut_codegen.c:68-96) is left out because floating point is not modelled. Its pool lookup scans `integerOffsets` rather than the float offsets, which the model does not examine.
- `CompileAccess` and the VAR case of `Tut_CompileValueExpr` (tut_codegen.c:18-32, 135-165) are left out. They emit variable reads, which the model keeps abstract.
- Emission of `sizeof` (tut_compiler.c:715) is left out. It needs `Tut_GetTypetagSize`, which the model takes as a parameter.
- File I/O, imports and the driver are left out: `HandleImport` (tut_parser.c:477-487), tut_module.c, tut_main.c, `Tut_InitLexerFromFile` (tut_lexer.c:34-47) and tut_stdext.c.
- The declaration and statement forms of the parser (tut_parser.c:98-304 and 319-413) are left out, and so are the `ParseStatement` and `ParseModule` loops. The factor parser reports them as not modelled. Only the expression grammar is modelled.
- Symbol lookup for identifiers (`ParseIdent`, `ResolveSymbols`) is left out. An identifier carries its `Binding` as data.
- Parser.DecimalValueOfDigits: the source converts an INT lexeme through `strtod` and an `int` cast. The model reads the digits exactly, so doubles and 32-bit truncation are not modelled.
- The token name table (tut_token.c), tut_util.c and the node constructors of tut_expr.c are left out. Tokens and nodes are datatypes.
- `CompilerError` (tut_compiler.c:18-50) prints a message and may launch an editor. The model returns `Failure` with an error value instead.
- `CompileAssign` is the parameter `assign`. The value forms of `CompileValue` that are not calls, member reads or `&` are the parameter `leaf`. These are literals, identifiers, unary minus and dereference, binary opcodes, and `->` reads.
- `Tut_GetTypetagSize` and `Tut_CanAssignTypes` are parameters (`sz`, and the assignability relation of Typecheck).
- `Tut_Emit*` produce abstract instructions, not bytes. Opcode numbering is kept only for the two pool pushes.
- `Tut_GetFuncDecl` is a first-match lookup by name over the function list.
- `Tut_Strncmp` is assumed to behave as C `strncmp`.
- Lowering.MainJump: `Tut_CompileModule` takes the statements of all modules, already flattened and typed; the type passes are the `ty` parameter.
- ConstPool.AppendInt, ConstPool.AppendStr, ConstPool.EmitPush: require room in the data and code buffers. The source writes past them silently, which is not modelled.
- ConstPool.PushInt has no contract of its own. Its properties are the lemmas PushIntValid, IntReused, IntAdded and PushIntRoundTrip.
- Buf.ReadUnsigned, Buf.ReadSigned, Buf.WriteUnsigned, Buf.WriteSigned: the byte order is fixed to little-endian. The source uses the host's order.
- The float read and write variants of tut_buf.c are left out.
- `Tut_ArrayTraverse`, `Tut_ArraySort`, `Tut_ArrayDestroy` and `Tut_DestroyTypetag` are left out. They are memory release or callback plumbing.
- Typecheck: the source does not check the type of an `if` or `while` condition. The model keeps that gap rather than adding a rule.
- Lexer.Advance: the text is a sequence of characters, while `GetChar` (tut_lexer.c:49-59) reads signed C bytes. So a 0xFF byte, read as -1 and therefore as EOF in the middle of the text, is not modelled; neither is `isalpha` or `isspace` on a negative byte, which C leaves undefined; and the 255-character lexeme limit counts characters where the source counts UTF-8 bytes.
- Lexer.SpaceStep, Lexer.SkipSpace, Lexer.GetToken: these record the corrected line start of the first Findings row (tut_lexer.c:63-72), not the one the source records; SpaceStepAsWritten and SkipSpaceAsWritten model the source as written.
- Parser.ParseFactor: it consumes the `true` or `false` token, following the corrected behaviour of the last Findings row (tut_parser.c:495-496); ParseFactorAsWritten models the source as written.
- Parser.ParseUnary, Parser.ParsePost, Parser.ParseExpr, Parser.ParseBinRhs, Parser.ParseCall, Parser.ParseArgs, Parser.ParseCast: they read factors through the corrected ParseFactor of the last Findings row, so a `true` or `false` operand is consumed where the source leaves it in place.
- Spelling.ParseExprRoundTrip: the round trip is about the corrected ParseFactor of the last Findings row; as written, the parser stops at a `true` or `false` token without consuming it, so a spelling that holds one is not read back.
- Lowering.GetLvalue, Lowering.CompileValue: they keep the member name pending across `->`, following the corrected behaviour of the third Findings row (tut_compiler.c:109-122); ArrowDropsMember models the source as written.
- ConstPool.PushStr: it reuses a pooled string only when it equals the pushed one, following the corrected behaviour of the second Findings row (tut_codegen.c:103-114); PushStrAsWritten and FindStrAsWritten model the source as written.
- Spelling: a tree with a negative integer literal has no spelling of its own (the minus sign is a unary node), so such trees are outside the grammar of the round trip, as are names already bound to a declaration and string literals holding a NUL (the parser keeps only the text before the NUL, so it never builds them). Operator and punctuation tokens are spelled with empty text, since the parser reads only their kind.

## Findings

| source | as written | input that shows it | evidently intended | confidence | as-written member | corrected member |
|---|---|---|---|---|---|---|
| tut_lexer.c:63-72 | the line start is recorded after reading the character that follows the newline, so it is one too far | "\nx": the line start is 2, but `x` is at 1 | the line start is the position just after the newline | not executed | Lexer.SkipSpaceAsWrittenMissesLineStart | Lexer.SkipSpaceStartsLine |
| tut_codegen.c:103-114 | the string pool compares with `strncmp` over the pooled entry's length, which is a prefix test | pool "", then push "ab": the push reuses the entry holding "" | reuse an entry only when it holds exactly the pushed string | not executed | ConstPool.EmptyStringCapturesAll | ConstPool.PushStrRoundTrip |
| tut_compiler.c:109-122 | in `GetLvalue` the `->` case starts a new root and ignores the member name pending from an enclosing `.` | `&p->a.y` with `y` at offset 1 in `a`'s type: the offset is 0 | add the pending member's offset to the `->` member's offset | not executed | Lowering.ArrowDropsMember | Lowering.ArrowKeepsMember |
| tut_parser.c:495-496 | the `true` and `false` factors build their node without consuming the token | `f(true)`: the argument loop finds `true` where a comma or `)` must be | consume the literal token, like the other literal factors | not executed | Parser.AsWrittenBoolLiteralStalls | Parser.BoolLiteralArgument |
