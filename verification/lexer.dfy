/** The tokenizer of tut_lexer.c (GetToken and its helpers).
    The C lexer walks a NUL-terminated copy of the source with a pointer
    `current`, keeps one character of lookahead in `last` (initially a
    space), and counts lines while skipping white space. Here the source is
    a `string`, `cur` is the index `current` points at, and `last` is a
    character or `Eof`. The lexer stops at the end of the text or at the
    first NUL, as GetChar does. */
module Lexer {
  import opened Wrappers
  import opened Tokens

  /** TUT_MAX_LEXEME_LENGTH: the size of the lexeme buffer, terminator included. */
  const MaxLexemeLength: nat := 256

  datatype Ch = Chr(c: char) | Eof

  datatype State = State(src: string, cur: nat, last: Ch, line: nat, lineStart: nat, lexeme: string)

  datatype LexError =
    | IdentifierTooLong
    | NumberTooLong
    | MultipleRadices
    | StringTooLong
    | InvalidEscape(after: Ch)
    | InvalidDots
    | UnexpectedChar(found: char)

  /** The lexeme, with its NUL terminator, fits in the lexeme buffer. */
  ghost predicate Valid(s: State) {
    s.cur <= |s.src| && |s.lexeme| < MaxLexemeLength
  }

  /** InitLexer: line 1, the line starting at the first character, a space of lookahead. */
  function InitLexer(src: string): (s: State)
    ensures Valid(s) && s.line == 1 && s.lineStart == 0 && s.cur == 0
  {
    State(src, 0, Chr(' '), 1, 0, "")
  }

  /** `lexer->last = GetChar(lexer)`: the next character, or `Eof` at the
      end of the text or at a NUL, where `current` stays put. */
  function Advance(s: State): (r: State)
    requires s.cur <= |s.src|
    ensures r.src == s.src && r.line == s.line && r.lineStart == s.lineStart && r.lexeme == s.lexeme
    ensures r.cur <= |r.src|
    ensures r.last.Chr? ==> r.cur == s.cur + 1 && r.last.c == s.src[s.cur] && r.last.c != '\0'
    ensures r.last.Eof? ==> r.cur == s.cur
  {
    if s.cur < |s.src| && s.src[s.cur] != '\0' then s.(last := Chr(s.src[s.cur]), cur := s.cur + 1)
    else s.(last := Eof)
  }

  // Character classes of <ctype.h> in the C locale.

  predicate IsSpace(c: Ch) {
    c.Chr? && c.c in {' ', '\t', '\n', '\U{000B}', '\U{000C}', '\r'}
  }

  predicate IsAlphaChar(c: char) {
    ('a' <= c <= 'z') || ('A' <= c <= 'Z')
  }

  predicate IsDigitChar(c: char) {
    '0' <= c <= '9'
  }

  predicate IsWordStart(c: Ch) {
    c.Chr? && (IsAlphaChar(c.c) || c.c == '_')
  }

  predicate IsWordChar(c: Ch) {
    c.Chr? && (IsAlphaChar(c.c) || IsDigitChar(c.c) || c.c == '_')
  }

  predicate IsNumberChar(c: Ch) {
    c.Chr? && (IsDigitChar(c.c) || c.c == '.')
  }

  function Count(t: string, ch: char): nat {
    if |t| == 0 then 0 else (if t[0] == ch then 1 else 0) + Count(t[1..], ch)
  }

  lemma {:induction false} CountAppend(a: string, b: string, ch: char)
    ensures Count(a + b, ch) == Count(a, ch) + Count(b, ch)
    decreases |a|
  {
    if |a| > 0 {
      assert (a + b)[0] == a[0];
      assert (a + b)[1..] == a[1..] + b;
      CountAppend(a[1..], b, ch);
    } else {
      assert a + b == b;
    }
  }

  lemma CountPositive(t: string, ch: char)
    ensures Count(t, ch) > 0 <==> ch in t
  {
    if |t| > 0 {
      CountPositive(t[1..], ch);
      assert ch in t <==> t[0] == ch || ch in t[1..];
    }
  }

  /** The characters still to be looked at: the lookahead, then the unread text. */
  function Pending(s: State): string {
    if s.last.Chr? then [s.last.c] else []
  }

  /** `last` is the character just before `current` (or the initial space). */
  ghost predicate LastRead(s: State) {
    s.cur <= |s.src| &&
    (s.last.Chr? ==> (s.cur > 0 && s.src[s.cur - 1] == s.last.c) || (s.cur == 0 && s.last.c == ' '))
  }

  // ---------------------------------------------------------------------
  // White space and line tracking

  /** One pass of the white-space loop as evidently intended: read the next
      character; if the one retired was a newline, count a line and start
      it at the character just read. */
  function SpaceStep(s: State): (r: State)
    requires s.cur <= |s.src|
    ensures r.src == s.src && r.lexeme == s.lexeme && r.cur <= |r.src|
    ensures r.line == s.line + (if s.last == Chr('\n') then 1 else 0)
    ensures r.last.Chr? ==> r.cur == s.cur + 1 && r.last.c == s.src[s.cur]
    ensures r.last.Eof? ==> r.cur == s.cur
  {
    var n := Advance(s);
    if s.last == Chr('\n') then n.(line := n.line + 1, lineStart := s.cur) else n
  }

  /** The white-space loop: repeat SpaceStep while the lookahead is white space. */
  function SkipSpace(s: State): (r: State)
    requires s.cur <= |s.src|
    ensures r.src == s.src && r.lexeme == s.lexeme
    ensures s.cur <= r.cur <= |r.src|
    ensures !IsSpace(r.last)
    ensures r.line >= s.line
    ensures !IsSpace(s.last) ==> r == s
    decreases |s.src| - s.cur, if IsSpace(s.last) then 1 else 0
  {
    if IsSpace(s.last) then SkipSpace(SpaceStep(s)) else s
  }

  /** The loop as written (tut_lexer.c:63-72): `lineStart` is taken after the
      character following the newline has been read, one past the first
      character of the new line. */
  function SpaceStepAsWritten(s: State): (r: State)
    requires s.cur <= |s.src|
    ensures r.src == s.src && r.cur <= |r.src|
    ensures r.last.Chr? ==> r.cur == s.cur + 1
    ensures r.last.Eof? ==> r.cur == s.cur
  {
    var n := Advance(s);
    if s.last == Chr('\n') then n.(line := n.line + 1, lineStart := n.cur) else n
  }

  function SkipSpaceAsWritten(s: State): (r: State)
    requires s.cur <= |s.src|
    ensures r.src == s.src && s.cur <= r.cur <= |r.src|
    decreases |s.src| - s.cur, if IsSpace(s.last) then 1 else 0
  {
    if IsSpace(s.last) then SkipSpaceAsWritten(SpaceStepAsWritten(s)) else s
  }

  function Newlines(t: string): nat {
    Count(t, '\n')
  }

  lemma NewlinesCons(src: string, i: nat, j: nat)
    requires i < j <= |src|
    ensures Newlines(src[i..j]) == (if src[i] == '\n' then 1 else 0) + Newlines(src[i + 1..j])
  {
    assert src[i..j][0] == src[i];
    assert src[i..j][1..] == src[i + 1..j];
  }

  /** The line counter rises by exactly the number of newlines passed over:
      the retired lookahead, and the text read up to the new lookahead. */
  lemma {:induction false} SkipSpaceCountsLines(s: State)
    requires s.cur <= |s.src|
    ensures SkipSpace(s).line == s.line + (if s.last == Chr('\n') then 1 else 0) + Newlines(s.src[s.cur..SkipSpace(s).cur])
    decreases |s.src| - s.cur, if IsSpace(s.last) then 1 else 0
  {
    var r := SkipSpace(s);
    if IsSpace(s.last) {
      var n := SpaceStep(s);
      assert r == SkipSpace(n);
      SkipSpaceCountsLines(n);
      if n.last.Chr? {
        NewlinesCons(s.src, s.cur, r.cur);
      } else {
        assert s.src[s.cur..r.cur] == [];
      }
    } else {
      assert s.src[s.cur..r.cur] == [];
    }
  }

  /** `lineStart` is the start of the line holding the next character: just
      after a newline, with no newline between it and `current`. */
  ghost predicate LineStartInv(s: State) {
    && 0 < s.lineStart <= s.cur <= |s.src|
    && s.src[s.lineStart - 1] == '\n'
    && forall i :: s.lineStart <= i < s.cur ==> s.src[i] != '\n' || (i == s.cur - 1 && s.last == Chr('\n'))
  }

  lemma {:induction false} SkipSpaceLineStart(s: State)
    requires LastRead(s)
    ensures LineStartInv(s) ==> LineStartInv(SkipSpace(s))
    ensures SkipSpace(s).line > s.line ==> LineStartInv(SkipSpace(s))
    decreases |s.src| - s.cur, if IsSpace(s.last) then 1 else 0
  {
    if IsSpace(s.last) {
      var n := SpaceStep(s);
      if s.last == Chr('\n') {
        assert LineStartInv(n);
      } else if LineStartInv(s) {
        assert LineStartInv(n);
      }
      SkipSpaceLineStart(n);
    }
  }

  /** After white space that contained a newline, `lineStart` is just past
      the last newline and the current line holds no newline up to `current`. */
  lemma SkipSpaceStartsLine(s: State)
    requires LastRead(s)
    requires SkipSpace(s).line > s.line
    ensures var r := SkipSpace(s);
      && 0 < r.lineStart <= r.cur
      && r.src[r.lineStart - 1] == '\n'
      && forall i :: r.lineStart <= i < r.cur ==> r.src[i] != '\n'
  {
    SkipSpaceLineStart(s);
  }

  /** The code as written breaks that: with the text "\nx" the second line
      starts at index 1 ('x'), yet `lineStart` ends up at 2. */
  lemma SkipSpaceAsWrittenMissesLineStart()
    ensures SkipSpaceAsWritten(InitLexer("\nx")).line == 2
    ensures SkipSpaceAsWritten(InitLexer("\nx")).lineStart == 2
    ensures SkipSpace(InitLexer("\nx")).lineStart == 1
  {
    var s0 := InitLexer("\nx");
    var s1 := SpaceStep(s0);
    assert s1.last == Chr('\n') && s1.cur == 1;
    assert SpaceStepAsWritten(s0) == s1;
    var s2 := SpaceStep(s1);
    assert s2.last == Chr('x') && s2.cur == 2 && s2.line == 2 && s2.lineStart == 1;
    assert SpaceStepAsWritten(s1) == s2.(lineStart := 2);
  }

  // ---------------------------------------------------------------------
  // Identifiers and keywords

  /** The maximal run of identifier characters of `src` from `from` on. */
  function WordRun(src: string, from: nat): (w: string)
    requires from <= |src|
    decreases |src| - from
  {
    if from < |src| && IsWordChar(Chr(src[from])) then [src[from]] + WordRun(src, from + 1) else []
  }

  /** The identifier characters starting with the lookahead. */
  function WordAhead(s: State): string
    requires s.cur <= |s.src|
  {
    if IsWordChar(s.last) then [s.last.c] + WordRun(s.src, s.cur) else []
  }

  /** The identifier loop: store characters while they fit, else fail. */
  function ScanWord(s: State, acc: string): (r: Result<(string, State), LexError>)
    requires s.cur <= |s.src| && |acc| < MaxLexemeLength
    ensures r.Success? <==> |acc| + |WordAhead(s)| < MaxLexemeLength
    ensures r.Success? ==> r.value.0 == acc + WordAhead(s)
    ensures r.Success? ==> var n := r.value.1;
      n.src == s.src && s.cur <= n.cur <= |n.src| && n.line == s.line && n.lineStart == s.lineStart
    decreases MaxLexemeLength - |acc|
  {
    if IsWordChar(s.last) then
      if |acc| < MaxLexemeLength - 1 then
        var n := Advance(s);
        assert WordAhead(n) == WordRun(s.src, s.cur);
        assert acc + WordAhead(s) == (acc + [s.last.c]) + WordAhead(n);
        ScanWord(n, acc + [s.last.c])
      else Failure(IdentifierTooLong)
    else Success((acc, s))
  }

  /** A word is the keyword's token when it is one of the fourteen, else IDENT. */
  function WordToken(w: string): Token {
    KeywordFrom(w, 0)
  }

  function KeywordFrom(w: string, i: nat): Token
    requires i <= |Keywords|
    decreases |Keywords| - i
  {
    if i == |Keywords| then IDENT
    else if Keywords[i].0 == w then Keywords[i].1
    else KeywordFrom(w, i + 1)
  }

  /** A word's token is the table's token for it when the word is a keyword,
      and IDENT exactly when it is not. */
  lemma WordTokenSpec(w: string)
    ensures (exists i :: 0 <= i < |Keywords| && Keywords[i].0 == w && Keywords[i].1 == WordToken(w))
         || (WordToken(w) == IDENT && forall i :: 0 <= i < |Keywords| ==> Keywords[i].0 != w)
    ensures WordToken(w) == IDENT <==> forall i :: 0 <= i < |Keywords| ==> Keywords[i].0 != w
  {
    KeywordsAreNotIdents();
    KeywordFromSpec(w, 0);
  }

  lemma {:induction false} KeywordFromSpec(w: string, i: nat)
    requires i <= |Keywords|
    ensures (exists j :: i <= j < |Keywords| && Keywords[j].0 == w && Keywords[j].1 == KeywordFrom(w, i))
         || (KeywordFrom(w, i) == IDENT && forall j :: i <= j < |Keywords| ==> Keywords[j].0 != w)
    decreases |Keywords| - i
  {
    if i < |Keywords| && Keywords[i].0 != w {
      KeywordFromSpec(w, i + 1);
    }
  }

  // ---------------------------------------------------------------------
  // Numbers

  /** The maximal run of digits and dots of `src` from `from` on. */
  function NumberRun(src: string, from: nat): string
    requires from <= |src|
    decreases |src| - from
  {
    if from < |src| && IsNumberChar(Chr(src[from])) then [src[from]] + NumberRun(src, from + 1) else []
  }

  function NumberAhead(s: State): string
    requires s.cur <= |s.src|
  {
    if IsNumberChar(s.last) then [s.last.c] + NumberRun(s.src, s.cur) else []
  }

  /** The number loop: digits and dots; a second dot or overflow fails. */
  function ScanNumber(s: State, acc: string, hasRadix: bool): (r: Result<(string, bool, State), LexError>)
    requires s.cur <= |s.src| && |acc| < MaxLexemeLength
    requires hasRadix <==> Count(acc, '.') > 0
    requires Count(acc, '.') <= 1
    ensures r.Success? <==> |acc| + |NumberAhead(s)| < MaxLexemeLength && Count(acc + NumberAhead(s), '.') <= 1
    ensures r.Success? ==> r.value.0 == acc + NumberAhead(s)
    ensures r.Success? ==> (r.value.1 <==> Count(r.value.0, '.') > 0)
    ensures r.Success? ==> var n := r.value.2;
      n.src == s.src && s.cur <= n.cur <= |n.src| && n.line == s.line && n.lineStart == s.lineStart
    decreases MaxLexemeLength - |acc|
  {
    if IsNumberChar(s.last) then
      var c := s.last.c;
      var n := Advance(s);
      assert NumberAhead(n) == NumberRun(s.src, s.cur);
      assert acc + NumberAhead(s) == (acc + [c]) + NumberAhead(n);
      CountAppend(acc, [c], '.');
      CountAppend(acc + [c], NumberAhead(n), '.');
      if hasRadix && c == '.' then Failure(MultipleRadices)
      else if |acc| < MaxLexemeLength - 1 then ScanNumber(n, acc + [c], hasRadix || c == '.')
      else Failure(NumberTooLong)
    else
      assert acc + NumberAhead(s) == acc;
      Success((acc, hasRadix, s))
  }

  // ---------------------------------------------------------------------
  // String literals

  /** The escapes the lexer accepts after a backslash. */
  function Escape(c: Ch): Option<char> {
    if c == Chr('n') then Some('\n')
    else if c == Chr('t') then Some('\t')
    else if c == Chr('r') then Some('\r')
    else if c == Chr('b') then Some('\U{0008}')
    else if c == Chr('0') then Some('\0')
    else if c == Chr('\\') then Some('\\')
    else None
  }

  /** The byte the C code stores for a character; EOF, once truncated to a char, is 0xFF. */
  function Stored(c: Ch): char {
    if c.Chr? then c.c else '\U{00FF}'
  }

  /** The character GetChar yields at position `p`: `Eof` past the end or at a NUL. */
  function Look(src: string, p: nat): Ch {
    if p < |src| && src[p] != '\0' then Chr(src[p]) else Eof
  }

  /** The position after reading the character at `p`: GetChar does not move at the end. */
  function Next(src: string, p: nat): (n: nat)
    ensures p <= n <= p + 1 && (p <= |src| ==> n <= |src|)
  {
    if Look(src, p).Chr? then p + 1 else p
  }

  /** The string loop, the lookahead being the character at `p` (the first one
      after the opening quote on entry). A backslash takes the next character
      as an escape; anything else, EOF included, is stored as read. On the
      closing quote it yields the body and the position of the next lookahead. */
  function ScanString(src: string, p: nat, acc: string): (r: Result<(string, nat), LexError>)
    requires p <= |src| && |acc| < MaxLexemeLength
    ensures r.Success? ==> |r.value.0| < MaxLexemeLength && p < r.value.1 <= |src|
    decreases MaxLexemeLength - |acc|
  {
    var c := Look(src, p);
    if c == Chr('"') then Success((acc, p + 1))
    else if |acc| < MaxLexemeLength - 1 then
      if c == Chr('\\') then
        var e := Look(src, p + 1);
        match Escape(e)
        case None => Failure(InvalidEscape(e))
        case Some(x) => ScanString(src, p + 2, acc + [x])
      else ScanString(src, Next(src, p), acc + [Stored(c)])
    else Failure(StringTooLong)
  }

  /** Reference decoding of the first character of a non-empty string body:
      the character and how many source characters it takes. */
  function DecodeOne(t: string): (r: Option<(char, nat)>)
    requires |t| > 0
    ensures r.Some? ==> 1 <= r.value.1 <= |t|
  {
    if t[0] == '\\' then
      if |t| >= 2 && Escape(Chr(t[1])).Some? then Some((Escape(Chr(t[1])).value, 2)) else None
    else Some((t[0], 1))
  }

  /** Reference decoding of a whole string body: each backslash pair becomes
      its escape; an unknown or unfinished escape has no decoding. */
  function DecodeEscapes(t: string): (r: Option<string>)
    ensures r.Some? && |t| > 0 ==> |r.value| > 0
    decreases |t|
  {
    if |t| == 0 then Some([])
    else
      match DecodeOne(t)
      case None => None
      case Some((c, k)) =>
        match DecodeEscapes(t[k..])
        case None => None
        case Some(rest) => Some([c] + rest)
  }

  /** `src[p..q]` is a string body closed by the quote at `q`. */
  ghost predicate Body(src: string, p: nat, q: nat) {
    p <= q < |src| && src[q] == '"' && forall i :: p <= i < q ==> src[i] != '"' && src[i] != '\0'
  }

  lemma DecodeStep(src: string, p: nat, q: nat, k: nat)
    requires p < q <= |src| && DecodeOne(src[p..q]).Some? && DecodeOne(src[p..q]).value.1 == k
    ensures p + k <= q
    ensures DecodeEscapes(src[p..q]).Some? <==> DecodeEscapes(src[p + k..q]).Some?
    ensures DecodeEscapes(src[p..q]).Some? ==>
      DecodeEscapes(src[p..q]).value == [DecodeOne(src[p..q]).value.0] + DecodeEscapes(src[p + k..q]).value
  {
    assert src[p..q][k..] == src[p + k..q];
  }

  /** The arithmetic of one step of ScanStringDecodes. */
  lemma ScanCombine(acc: string, c: char, r: Result<(string, nat), LexError>, d: Option<string>, d': Option<string>)
    requires r.Success? <==> d'.Some? && |acc + [c]| + |d'.value| < MaxLexemeLength
    requires r.Success? ==> r.value.0 == (acc + [c]) + d'.value
    requires d.Some? <==> d'.Some?
    requires d.Some? ==> d.value == [c] + d'.value
    ensures r.Success? <==> d.Some? && |acc| + |d.value| < MaxLexemeLength
    ensures r.Success? ==> r.value.0 == acc + d.value
  {
  }

  /** For a body closed by a quote, the string loop succeeds exactly when the
      body decodes and fits; it then stores the decoding and stops just past
      the closing quote. */
  lemma {:induction false} ScanStringDecodes(src: string, p: nat, q: nat, acc: string)
    requires Body(src, p, q) && |acc| < MaxLexemeLength
    ensures ScanString(src, p, acc).Success? <==>
      DecodeEscapes(src[p..q]).Some? && |acc| + |DecodeEscapes(src[p..q]).value| < MaxLexemeLength
    ensures ScanString(src, p, acc).Success? ==>
      ScanString(src, p, acc).value == (acc + DecodeEscapes(src[p..q]).value, q + 1)
    decreases q - p
  {
    var t := src[p..q];
    if p == q {
      assert t == [] && acc + [] == acc;
    } else if |acc| < MaxLexemeLength - 1 {
      assert t[0] == src[p];
      if src[p] == '\\' && !(p + 1 < q && Escape(Chr(src[p + 1])).Some?) {
        assert p + 1 < q ==> t[1] == src[p + 1];
        assert DecodeOne(t).None?;
      } else {
        var (c, k) := DecodeOne(t).value;
        assert src[p] == '\\' ==> t[1] == src[p + 1] && k == 2;
        assert ScanString(src, p, acc) == ScanString(src, p + k, acc + [c]);
        DecodeStep(src, p, q, k);
        ScanStringDecodes(src, p + k, q, acc + [c]);
        ScanCombine(acc, c, ScanString(src, p, acc), DecodeEscapes(t), DecodeEscapes(src[p + k..q]));
      }
    } else {
      assert t[0] == src[p];
    }
  }

  // ---------------------------------------------------------------------
  // Punctuation and comments

  /** Characters that always form a token on their own. */
  function SingleCharToken(c: char): Option<Token> {
    match c
    case '(' => Some(OPENPAREN)
    case ')' => Some(CLOSEPAREN)
    case '[' => Some(OPENSQUARE)
    case ']' => Some(CLOSESQUARE)
    case '{' => Some(OPENCURLY)
    case '}' => Some(CLOSECURLY)
    case ':' => Some(COLON)
    case ';' => Some(SEMICOLON)
    case ',' => Some(COMMA)
    case '+' => Some(PLUS)
    case '*' => Some(MUL)
    case _ => None
  }

  /** An operator with a two-character form: its second character, the
      two-character token, and the one-character token otherwise. */
  datatype Operator = Operator(second: char, long: Token, short: Token)

  function OperatorFor(c: char): Option<Operator> {
    match c
    case '-' => Some(Operator('>', ARROW, MINUS))
    case '<' => Some(Operator('=', LTE, LT))
    case '>' => Some(Operator('=', GTE, GT))
    case '&' => Some(Operator('&', LAND, AND))
    case '|' => Some(Operator('|', LOR, OR))
    case '=' => Some(Operator('=', EQUALS, ASSIGN))
    case '!' => Some(Operator('=', NEQUALS, LNOT))
    case _ => None
  }

  /** The comment loop: read until the lookahead is a newline or the end. */
  function SkipComment(s: State): (r: State)
    requires s.cur <= |s.src|
    ensures r.src == s.src && r.line == s.line && r.lineStart == s.lineStart && r.lexeme == s.lexeme
    ensures s.cur <= r.cur <= |r.src|
    ensures r.last == Chr('\n') || r.last == Eof
    decreases |s.src| - s.cur, if s.last == Chr('\n') || s.last == Eof then 0 else 1
  {
    if s.last != Chr('\n') && s.last != Eof then SkipComment(Advance(s)) else s
  }

  // ---------------------------------------------------------------------
  // GetToken

  /** Tut_GetToken: skip white space, then read one token. The lexeme buffer
      changes only for identifiers, numbers and strings. */
  function GetToken(s0: State): (r: Result<(Token, State), LexError>)
    requires Valid(s0)
    ensures r.Success? ==> Valid(r.value.1) && r.value.1.src == s0.src && r.value.1.cur >= s0.cur
    decreases |s0.src| - s0.cur, 1
  {
    TokenAt(SkipSpace(s0))
  }

  /** One token, the lookahead not being white space. */
  function TokenAt(s: State): (r: Result<(Token, State), LexError>)
    requires Valid(s)
    ensures r.Success? ==> Valid(r.value.1) && r.value.1.src == s.src && r.value.1.cur >= s.cur
    decreases |s.src| - s.cur, 0
  {
    match s.last
    case Eof => Success((EOF, s))
    case Chr(c) =>
      if IsWordStart(s.last) then LexWord(s)
      else if IsDigitChar(c) then LexNumber(s)
      else if c == '"' then LexString(s)
      else if c == '.' then LexDots(s)
      else if c == '/' then
        var n := Advance(s);
        if n.last == Chr('/') then GetToken(SkipComment(n))
        else Success((DIV, n))
      else if SingleCharToken(c).Some? then Success((SingleCharToken(c).value, Advance(s)))
      else if OperatorFor(c).Some? then LexOperator(s, OperatorFor(c).value)
      else Failure(UnexpectedChar(c))
  }

  function LexWord(s: State): (r: Result<(Token, State), LexError>)
    requires Valid(s)
    ensures r.Success? ==> Valid(r.value.1) && r.value.1.src == s.src && r.value.1.cur >= s.cur
  {
    var (w, n) :- ScanWord(s, []);
    Success((WordToken(w), n.(lexeme := w)))
  }

  function LexNumber(s: State): (r: Result<(Token, State), LexError>)
    requires Valid(s)
    ensures r.Success? ==> Valid(r.value.1) && r.value.1.src == s.src && r.value.1.cur >= s.cur
  {
    var (w, radix, n) :- ScanNumber(s, [], false);
    Success((if radix then FLOAT else INT, n.(lexeme := w)))
  }

  function LexString(s: State): (r: Result<(Token, State), LexError>)
    requires Valid(s)
    ensures r.Success? ==> Valid(r.value.1) && r.value.1.src == s.src && r.value.1.cur >= s.cur
  {
    var (w, p) :- ScanString(s.src, s.cur, []);
    Success((STRING, s.(last := Look(s.src, p), cur := Next(s.src, p), lexeme := w)))
  }

  function LexDots(s: State): (r: Result<(Token, State), LexError>)
    requires Valid(s)
    ensures r.Success? ==> Valid(r.value.1) && r.value.1.src == s.src && r.value.1.cur >= s.cur
  {
    var n := Advance(s);
    if n.last == Chr('.') then
      var m := Advance(n);
      if m.last == Chr('.') then Success((ELLIPSIS, Advance(m)))
      else Failure(InvalidDots)
    else Success((DOT, n))
  }

  function LexOperator(s: State, op: Operator): (r: Result<(Token, State), LexError>)
    requires Valid(s)
    ensures r.Success? ==> Valid(r.value.1) && r.value.1.src == s.src && r.value.1.cur >= s.cur
  {
    var n := Advance(s);
    if n.last == Chr(op.second) then Success((op.long, Advance(n)))
    else Success((op.short, n))
  }

  /** Tut_GetToken from the beginning of a text. */
  function FirstToken(src: string): Result<(Token, State), LexError> {
    GetToken(InitLexer(src))
  }

  // ---------------------------------------------------------------------
  // Properties of GetToken

  // Each property is stated for the branch of TokenAt that reads the token,
  // and a dispatch lemma shows that GetToken takes that branch.

  /** A word is a keyword token when it is one of the fourteen, else IDENT;
      words of 256 or more characters are an error. */
  lemma LexWordSpec(s: State)
    requires Valid(s) && IsWordStart(s.last)
    ensures var w := WordAhead(s); var r := LexWord(s);
      && (r.Success? <==> |w| < MaxLexemeLength)
      && (r.Success? ==> r.value.1.lexeme == w)
      && (r.Success? ==> r.value.0 == IDENT || exists i :: 0 <= i < |Keywords| && Keywords[i].0 == w && Keywords[i].1 == r.value.0)
      && (r.Success? ==> (r.value.0 == IDENT <==> forall i :: 0 <= i < |Keywords| ==> Keywords[i].0 != w))
  {
    var sc := ScanWord(s, []);
    assert [] + WordAhead(s) == WordAhead(s);
    if sc.Success? {
      WordTokenSpec(sc.value.0);
    }
  }

  lemma WordDispatch(s: State)
    requires Valid(s) && IsWordStart(s.last)
    ensures GetToken(s) == LexWord(s)
  {
    assert SkipSpace(s) == s;
  }

  /** A number is FLOAT exactly when it contains a dot; a second dot or a
      lexeme that does not fit is an error. */
  lemma LexNumberSpec(s: State)
    requires Valid(s) && s.last.Chr? && IsDigitChar(s.last.c)
    ensures var w := NumberAhead(s); var r := LexNumber(s);
      && (r.Success? <==> |w| < MaxLexemeLength && Count(w, '.') <= 1)
      && (r.Success? ==> r.value.1.lexeme == w)
      && (r.Success? ==> (r.value.0 == FLOAT <==> '.' in w))
      && (r.Success? ==> (r.value.0 == INT <==> '.' !in w))
  {
    var sc := ScanNumber(s, [], false);
    assert [] + NumberAhead(s) == NumberAhead(s);
    if sc.Success? {
      CountPositive(sc.value.0, '.');
    }
  }

  lemma NumberDispatch(s: State)
    requires Valid(s) && s.last.Chr? && IsDigitChar(s.last.c)
    ensures GetToken(s) == LexNumber(s)
  {
    assert SkipSpace(s) == s;
  }

  /** A quoted body with no stray quote or NUL decodes its escapes into the
      lexeme, and the lexer moves on to the character after the closing quote. */
  lemma LexStringSpec(s: State, q: nat)
    requires Valid(s) && s.last == Chr('"') && Body(s.src, s.cur, q)
    ensures var r := LexString(s); var d := DecodeEscapes(s.src[s.cur..q]);
      && (r.Success? <==> d.Some? && |d.value| < MaxLexemeLength)
      && (r.Success? ==> r.value.0 == STRING && r.value.1.lexeme == d.value)
      && (r.Success? ==> r.value.1.last == Look(s.src, q + 1))
  {
    ScanStringDecodes(s.src, s.cur, q, []);
  }

  lemma StringDispatch(s: State)
    requires Valid(s) && s.last == Chr('"')
    ensures GetToken(s) == LexString(s)
  {
    assert SkipSpace(s) == s;
  }

  /** Longest match: a two-character operator wins over its one-character prefix. */
  lemma LexOperatorSpec(s: State, op: Operator)
    requires Valid(s) && op.second != '\0'
    ensures var r := LexOperator(s, op);
      && r.Success?
      && (s.cur < |s.src| && s.src[s.cur] == op.second ==> r.value.0 == op.long && r.value.1.cur > s.cur)
      && (!(s.cur < |s.src| && s.src[s.cur] == op.second) ==> r.value.0 == op.short)
  {
  }

  lemma OperatorDispatch(s: State, c: char)
    requires Valid(s) && s.last == Chr(c) && OperatorFor(c).Some?
    ensures GetToken(s) == LexOperator(s, OperatorFor(c).value)
    ensures OperatorFor(c).value.second != '\0'
  {
    assert !IsSpace(s.last) && !IsWordStart(s.last) && !IsDigitChar(c);
    assert c != '"' && c != '.' && c != '/' && SingleCharToken(c).None?;
    assert SkipSpace(s) == s;
  }

  /** `...` is ELLIPSIS, `..` is an error, a lone `.` is DOT. */
  lemma LexDotsSpec(s: State)
    requires Valid(s) && s.last == Chr('.')
    ensures var r := LexDots(s);
      && (s.cur + 1 < |s.src| && s.src[s.cur] == '.' && s.src[s.cur + 1] == '.' ==> r.Success? && r.value.0 == ELLIPSIS)
      && (s.cur < |s.src| && s.src[s.cur] == '.' && !(s.cur + 1 < |s.src| && s.src[s.cur + 1] == '.') ==> r == Failure(InvalidDots))
      && (!(s.cur < |s.src| && s.src[s.cur] == '.') ==> r.Success? && r.value.0 == DOT)
  {
  }

  lemma DotDispatch(s: State)
    requires Valid(s) && s.last == Chr('.')
    ensures GetToken(s) == LexDots(s)
  {
    assert SkipSpace(s) == s;
  }

  /** `//` skips to the end of the line, and the token after it is returned:
      the result is what GetToken gives at the first newline after the slashes. */
  lemma CommentSkipsLine(s: State, k: nat)
    requires Valid(s) && s.last == Chr('/')
    requires s.cur < k < |s.src| && s.src[s.cur] == '/' && s.src[k] == '\n'
    requires forall i :: s.cur < i < k ==> s.src[i] != '\n' && s.src[i] != '\0'
    ensures GetToken(s) == GetToken(s.(cur := k + 1, last := Chr('\n')))
  {
    var n := Advance(s);
    assert n.last == Chr('/') && n.cur == s.cur + 1;
    assert GetToken(s) == GetToken(SkipComment(n));
    SkipCommentReaches(n, k);
  }

  lemma {:induction false} SkipCommentReaches(s: State, k: nat)
    requires s.cur <= k < |s.src| && s.src[k] == '\n'
    requires s.last.Chr? && s.last != Chr('\n')
    requires forall i :: s.cur <= i < k ==> s.src[i] != '\n' && s.src[i] != '\0'
    ensures SkipComment(s) == s.(cur := k + 1, last := Chr('\n'))
    decreases k - s.cur
  {
    var n := Advance(s);
    if s.cur < k {
      SkipCommentReaches(n, k);
    } else {
      assert n == s.(cur := k + 1, last := Chr('\n'));
    }
  }

  /** At the end of the text, after white space, the token is EOF. */
  lemma EndOfText(s: State)
    requires Valid(s)
    requires forall i :: s.cur <= i < |s.src| ==> IsSpace(Chr(s.src[i]))
    requires s.last.Eof? || IsSpace(s.last)
    ensures GetToken(s).Success? && GetToken(s).value.0 == EOF
  {
    SkipSpaceReachesEnd(s);
  }

  lemma {:induction false} SkipSpaceReachesEnd(s: State)
    requires s.cur <= |s.src|
    requires forall i :: s.cur <= i < |s.src| ==> IsSpace(Chr(s.src[i]))
    requires s.last.Eof? || IsSpace(s.last)
    ensures SkipSpace(s).last == Eof
    decreases |s.src| - s.cur, if IsSpace(s.last) then 1 else 0
  {
    if IsSpace(s.last) {
      SkipSpaceReachesEnd(SpaceStep(s));
    }
  }
}
