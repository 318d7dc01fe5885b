// The tokenizer of src/core/parser/lexer.c. The source buffer is a
// sequence of characters, each standing for one byte of the C char buffer;
// a token refers to its text by offset and length in that buffer. A small
// lookahead buffer of already-scanned tokens lets the parser peek ahead.
module Lexer {
  import opened Wrappers

  /** The token types of lexer.h, in their numeric order (EOF = 0 ...
      UNKNOWN = 8). */
  datatype Kind = Eof | Int | Double | Identifier | Str | Operator
                | AtIdentifier | CharStr | Unknown

  /** struct au_token: the type and the text src[start .. start + len). */
  datatype Token = Token(kind: Kind, start: nat, len: nat)

  /** The end-of-input token: type EOF, no text. */
  const EofToken := Token(Eof, 0, 0)

  /** A scanned token together with the position scanning stopped at. */
  datatype Lexeme = Lexeme(tok: Token, end: nat)

  // ---- character classes -----------------------------------------------------

  predicate IsSpace(ch: char) { ch == ' ' || ch == '\t' || ch == '\n' || ch == '\r' }

  predicate IsDigit(ch: char) { '0' <= ch <= '9' }

  predicate IsAlpha(ch: char) { 'a' <= ch <= 'z' || 'A' <= ch <= 'Z' }

  predicate IsIdStart(ch: char) { IsAlpha(ch) || ch == '_' }

  predicate IsIdCont(ch: char) { IsIdStart(ch) || IsDigit(ch) }

  predicate IsHex(ch: char) { '0' <= ch <= '9' || 'a' <= ch <= 'f' || 'A' <= ch <= 'F' }

  /** The three classes whose maximal runs make up numbers and names. */
  datatype Class = Digits | HexDigits | IdChars

  predicate InClass(c: Class, ch: char)
  {
    match c
    case Digits => IsDigit(ch)
    case HexDigits => IsHex(ch)
    case IdChars => IsIdCont(ch)
  }

  /** A line comment starts at p. */
  predicate CommentAt(src: seq<char>, p: nat)
  {
    p + 1 < |src| && src[p] == '/' && src[p + 1] == '/'
  }

  // ---- scanning functions ----------------------------------------------------

  /** The end of a maximal run of characters of class c starting at p. */
  function RunEnd(src: seq<char>, p: nat, c: Class): (r: nat)
    requires p <= |src|
    ensures p <= r <= |src|
    ensures forall i :: p <= i < r ==> InClass(c, src[i])
    ensures r == |src| || !InClass(c, src[r])
    decreases |src| - p
  {
    if p < |src| && InClass(c, src[p]) then RunEnd(src, p + 1, c) else p
  }

  /** The position of the newline ending the line that contains p, or the
      end of input; the newline itself is not consumed. */
  function LineEnd(src: seq<char>, p: nat): (r: nat)
    requires p <= |src|
    ensures p <= r <= |src|
    ensures forall i :: p <= i < r ==> src[i] != '\n'
    ensures r == |src| || src[r] == '\n'
    decreases |src| - p
  {
    if p < |src| && src[p] != '\n' then LineEnd(src, p + 1) else p
  }

  /** Skips whitespace and // comments, lexer.c:87-98. */
  function SkipTrivia(src: seq<char>, p: nat): (r: nat)
    requires p <= |src|
    ensures p <= r <= |src|
    ensures r == |src| || (!IsSpace(src[r]) && !CommentAt(src, r))
    decreases |src| - p
  {
    if p >= |src| then p
    else if IsSpace(src[p]) then SkipTrivia(src, p + 1)
    else if CommentAt(src, p) then SkipTrivia(src, LineEnd(src, p + 2))
    else p
  }

  /** The body of a string literal closed by quote q, scanned from p with
      len characters counted so far: None when a backslash is the last
      character of the input, otherwise the position after the closing
      quote (or the end of input) and the count. An escape counts both its
      characters; the closing quote is not counted. */
  function StrBody(src: seq<char>, q: char, p: nat, len: nat): (r: Option<(nat, nat)>)
    requires p <= |src|
    ensures r.Some? ==> p <= r.value.0 <= |src| && len <= r.value.1
    ensures r.Some? ==>
      (r.value.0 == |src| && r.value.1 - len == r.value.0 - p) ||
      (p < r.value.0 && src[r.value.0 - 1] == q && r.value.1 - len == r.value.0 - 1 - p)
    ensures r.None? ==> p < |src|
    decreases |src| - p
  {
    if p >= |src| then Some((p, len))
    else if src[p] == '\\' then
      if p + 1 >= |src| then None else StrBody(src, q, p + 2, len + 2)
    else if src[p] == q then Some((p + 1, len))
    else StrBody(src, q, p + 1, len + 1)
  }

  /** The two-character operators of the chain at lexer.c:242-249. */
  predicate IsTwoCharOp(a: char, b: char)
  {
    (b == '=' && a in {'+', '-', '*', '/', '%', '!', '<', '>', '=', '&', '|'}) ||
    (a == b && a in {'>', '<', '&', '|'}) ||
    (a == '#' && b == '[') || (a == ':' && b == ':')
  }

  /** The one-character operators of the chain at lexer.c:251-260. */
  predicate IsOneCharOp(a: char)
  {
    a in {'+', '-', '*', '/', '%', '!', '<', '>', '=', '&', '|', '^', '~',
          '(', ')', '{', '}', ';', ',', '.', ':', '[', ']'}
  }

  /** The length of the operator the chain of lexer.c:242-260 matches at p.
      The chain tries every two-character operator before any one-character
      one, so a two-character operator wins even when its first character
      is an operator on its own ("<=" is not "<" followed by "="). */
  function OpMatch(src: seq<char>, p: nat): (r: Option<nat>)
    ensures r.Some? ==> p + r.value <= |src| && (r.value == 1 || r.value == 2)
    ensures r == Some(2) <==> p + 1 < |src| && IsTwoCharOp(src[p], src[p + 1])
    ensures r == Some(1) <==>
      p < |src| && IsOneCharOp(src[p]) && !(p + 1 < |src| && IsTwoCharOp(src[p], src[p + 1]))
  {
    if p + 1 < |src| && IsTwoCharOp(src[p], src[p + 1]) then Some(2)
    else if p < |src| && IsOneCharOp(src[p]) then Some(1)
    else None
  }

  /** A string literal opened by the quote at start, lexer.c:107-141. */
  function LexString(src: seq<char>, start: nat): (r: Lexeme)
    requires start < |src|
  {
    match StrBody(src, src[start], start + 1, 0)
    case None => Lexeme(Token(Unknown, start, 1), |src|)
    case Some((p, len)) =>
      if p < |src| && src[p] == 'c' then Lexeme(Token(CharStr, start + 1, len + 1), p + 1)
      else Lexeme(Token(Str, start + 1, len), p)
  }

  /** A literal starting with '0', lexer.c:142-159: "0x" and hex digits. */
  function LexHex(src: seq<char>, start: nat): (r: Lexeme)
    requires start < |src|
  {
    if start + 1 < |src| && src[start + 1] == 'x' then
      var e := RunEnd(src, start + 2, HexDigits);
      Lexeme(Token(Int, start, e - start), e)
    else Lexeme(Token(Unknown, start, 1), start + 1)
  }

  /** A literal starting with a nonzero digit, lexer.c:160-190. */
  function LexNumber(src: seq<char>, start: nat): (r: Lexeme)
    requires start < |src|
  {
    var e := RunEnd(src, start + 1, Digits);
    if e < |src| && src[e] == '.' then
      var f := RunEnd(src, e + 1, Digits);
      Lexeme(Token(Double, start, f - start), f)
    else Lexeme(Token(Int, start, e - start), e)
  }

  /** A name, lexer.c:191-205, or after '@' (skip = 2) an @-name,
      lexer.c:206-225. */
  function LexName(src: seq<char>, start: nat, skip: nat, kind: Kind): (r: Lexeme)
    requires start + skip <= |src|
  {
    var e := RunEnd(src, start + skip, IdChars);
    Lexeme(Token(kind, start, e - start), e)
  }

  /** The operator chain and its fallbacks, lexer.c:227-276, entered at p
      (one past start when an '@' without a name was consumed). */
  function LexOp(src: seq<char>, start: nat, p: nat): (r: Lexeme)
    requires start < |src| && p <= |src|
  {
    match OpMatch(src, p)
    case Some(n) => Lexeme(Token(Operator, start, n), p + n)
    case None =>
      if src[start] == 0 as char then Lexeme(EofToken, |src|)
      else Lexeme(Token(Unknown, start, 1), p)
  }

  /** The token at a non-trivia position start < |src|: lexer.c:104-276. */
  function LexAt(src: seq<char>, start: nat): (r: Lexeme)
    requires start < |src|
  {
    var ch := src[start];
    if ch == '"' || ch == '\'' then LexString(src, start)
    else if ch == '0' then LexHex(src, start)
    else if IsDigit(ch) then LexNumber(src, start)
    else if IsIdStart(ch) then LexName(src, start, 1, Identifier)
    else if ch == '@' && start + 1 < |src| && IsIdStart(src[start + 1]) then
      LexName(src, start, 2, AtIdentifier)
    else
      // An '@' not followed by a name has already been consumed when the
      // operator chain runs, so the operators are matched after it.
      LexOp(src, start, if ch == '@' then start + 1 else start)
  }

  /** The token au_lexer_next_ scans from p when no lookahead applies. */
  function Lex(src: seq<char>, p: nat): (r: Lexeme)
    requires p <= |src|
  {
    var s := SkipTrivia(src, p);
    if s >= |src| then Lexeme(EofToken, s) else LexAt(src, s)
  }

  /** The text of a token. */
  function Text(src: seq<char>, t: Token): string
    requires t.start + t.len <= |src|
  {
    src[t.start .. t.start + t.len]
  }

  // ---- properties of a single scan -------------------------------------------

  /** Scanning never moves backwards, stays inside the input, and the
      token's text lies inside the input. */
  lemma LexBounds(src: seq<char>, p: nat)
    requires p <= |src|
    ensures p <= Lex(src, p).end <= |src|
    ensures Lex(src, p).tok.start + Lex(src, p).tok.len <= |src|
  {
  }

  /** End of input, or a NUL character, yields the EOF token. */
  lemma EofIff(src: seq<char>, p: nat)
    requires p <= |src|
    ensures Lex(src, p).tok.kind == Eof <==>
      (SkipTrivia(src, p) == |src| || src[SkipTrivia(src, p)] == 0 as char)
    ensures Lex(src, p).tok.kind == Eof ==> Lex(src, p).tok == EofToken
  {
  }

  /** A string token's text excludes the opening quote and, when the
      string is closed, the closing one; a 'c' right after the closing
      quote makes it a character string whose text runs up to and including
      the closing quote. An unterminated string ends at the end of input. */
  lemma StringToken(src: seq<char>, p: nat)
    requires p <= |src|
    requires Lex(src, p).tok.kind == Str || Lex(src, p).tok.kind == CharStr
    ensures var t := Lex(src, p).tok;
      0 < t.start && (src[t.start - 1] == '"' || src[t.start - 1] == '\'') &&
      t.start - 1 == SkipTrivia(src, p)
    ensures var l := Lex(src, p); var t := l.tok; var q := src[t.start - 1];
      (t.kind == Str ==>
        (l.end == |src| && t.start + t.len == |src|) ||
        (t.start + t.len < |src| && src[t.start + t.len] == q && l.end == t.start + t.len + 1)) &&
      (t.kind == CharStr ==>
        0 < t.len && src[t.start + t.len - 1] == q && src[t.start + t.len] == 'c' &&
        l.end == t.start + t.len + 1)
  {
  }

  /** An escape inside a string consumes the backslash and the character
      after it, so an escaped quote does not close the string. */
  lemma EscapeConsumesTwo(src: seq<char>, q: char, p: nat, len: nat)
    requires p + 1 < |src| && src[p] == '\\'
    ensures StrBody(src, q, p, len) == StrBody(src, q, p + 2, len + 2)
  {
  }

  /** A backslash as the very last character of the input makes the
      string an UNKNOWN token and leaves the position at the end. */
  lemma TrailingBackslash(src: seq<char>, q: char, p: nat, len: nat)
    requires p + 1 == |src| && src[p] == '\\'
    ensures StrBody(src, q, p, len).None?
  {
  }

  /** A leading 0 must be followed by x: then the token is an INT made of
      "0x" and a maximal run of hex digits, otherwise it is UNKNOWN and one
      character is consumed. */
  lemma LeadingZero(src: seq<char>, p: nat)
    requires p <= |src|
    requires SkipTrivia(src, p) < |src| && src[SkipTrivia(src, p)] == '0'
    ensures var s := SkipTrivia(src, p); var l := Lex(src, p);
      (s + 1 < |src| && src[s + 1] == 'x') <==> l.tok.kind == Int
    ensures var s := SkipTrivia(src, p); var l := Lex(src, p);
      l.tok.kind == Int ==>
        l.tok.start == s && 2 <= l.tok.len && l.end == s + l.tok.len &&
        (forall i :: s + 2 <= i < l.end ==> IsHex(src[i])) &&
        (l.end == |src| || !IsHex(src[l.end]))
    ensures var s := SkipTrivia(src, p); var l := Lex(src, p);
      l.tok.kind != Int ==> l.tok == Token(Unknown, s, 1) && l.end == s + 1
  {
  }

  /** A number starting with a nonzero digit is a maximal digit run, a
      DOUBLE when a '.' and a second digit run follow, an INT otherwise. */
  lemma Number(src: seq<char>, p: nat)
    requires p <= |src|
    requires var s := SkipTrivia(src, p); s < |src| && IsDigit(src[s]) && src[s] != '0'
    ensures var s := SkipTrivia(src, p); var l := Lex(src, p);
      var e := RunEnd(src, s, Digits);
      l.tok.start == s && l.end == s + l.tok.len &&
      (l.tok.kind == Double <==> e < |src| && src[e] == '.') &&
      (l.tok.kind == Int <==> !(e < |src| && src[e] == '.')) &&
      (l.tok.kind == Int ==> l.end == e) &&
      (l.tok.kind == Double ==> l.end == RunEnd(src, e + 1, Digits))
  {
    var s := SkipTrivia(src, p);
    RunEndStep(src, s, Digits);
  }

  /** Starting one character further inside a run ends at the same place. */
  lemma RunEndStep(src: seq<char>, p: nat, c: Class)
    requires p < |src| && InClass(c, src[p])
    ensures RunEnd(src, p, c) == RunEnd(src, p + 1, c)
  {
  }

  /** An identifier matches [A-Za-z_][A-Za-z0-9_]* and is maximal: the
      character after it cannot continue it. */
  lemma IdentifierShape(src: seq<char>, p: nat)
    requires p <= |src|
    ensures var s := SkipTrivia(src, p); var l := Lex(src, p);
      l.tok.kind == Identifier <==> s < |src| && IsIdStart(src[s])
    ensures var l := Lex(src, p); var t := l.tok;
      t.kind == Identifier ==>
        0 < t.len && IsIdStart(src[t.start]) && l.end == t.start + t.len &&
        (forall i :: t.start < i < l.end ==> IsIdCont(src[i])) &&
        (l.end == |src| || !IsIdCont(src[l.end]))
  {
  }

  // ---- the lookahead buffer ------------------------------------------------------

  /** struct au_token_lookahead: a token and the positions before and
      after scanning it. */
  datatype Lookahead = Lookahead(token: Token, startPos: nat, endPos: nat)

  /** The lexer's mutable state: pos, the lookahead entries lh[0 .. lh_write)
      and lh_read. */
  datatype LexState = LexState(pos: nat, lh: seq<Lookahead>, lhRead: nat)

  /** A buffered entry records what scanning from its start yields. */
  predicate Recorded(src: seq<char>, e: Lookahead)
  {
    e.startPos <= |src| && Lex(src, e.startPos) == Lexeme(e.token, e.endPos)
  }

  predicate StateOk(src: seq<char>, st: LexState)
  {
    st.pos <= |src| && st.lhRead <= |st.lh| &&
    forall i :: 0 <= i < |st.lh| ==> Recorded(src, st.lh[i])
  }

  /** au_lexer_next_ (lexer.c:64-84 and the scan after it): the entry at
      lh_read is taken, and used when it starts at pos; the buffer is
      emptied once every entry has been read, or when the entry does not
      start at pos, and the token is then scanned afresh. */
  function NextStep(src: seq<char>, st: LexState): (r: (Token, LexState))
    requires StateOk(src, st)
  {
    if st.lhRead < |st.lh| then
      var e := st.lh[st.lhRead];
      var drained := st.lhRead + 1 == |st.lh|;
      if st.pos == e.startPos then
        (e.token, LexState(e.endPos, if drained then [] else st.lh,
                           if drained then 0 else st.lhRead + 1))
      else
        var l := Lex(src, st.pos);
        (l.tok, LexState(l.end, [], 0))
    else
      var l := Lex(src, st.pos);
      (l.tok, LexState(l.end, st.lh, st.lhRead))
  }

  /** Whatever the buffer holds, next returns the token scanning from pos
      yields and moves pos past it: the buffer only saves work. */
  lemma NextTransparent(src: seq<char>, st: LexState)
    requires StateOk(src, st)
    ensures NextStep(src, st).0 == Lex(src, st.pos).tok
    ensures NextStep(src, st).1.pos == Lex(src, st.pos).end
    ensures StateOk(src, NextStep(src, st).1)
  {
    LexBounds(src, st.pos);
    if st.lhRead < |st.lh| {
      LexBounds(src, st.lh[st.lhRead].startPos);
    }
  }

  /** au_lexer_peek as written (lexer.c:280-324). For lh_pos == lh_write > 0
      it calls au_lexer_next_, which consumes the buffered entry at lh_read
      and, not finding it at the last entry's end, empties the buffer, so the
      new entry lands in slot 0; a plain index lh[lh_pos] also ignores
      lh_read. */
  function PeekAsWritten(src: seq<char>, st: LexState, k: nat): (r: (Token, LexState))
    requires StateOk(src, st) && k <= |st.lh|
    ensures StateOk(src, r.1) && r.1.pos == st.pos
  {
    if k == 0 && |st.lh| == 0 then
      var (t, s1) := NextStep(src, st);
      NextTransparent(src, st);
      (t, LexState(st.pos, s1.lh + [Lookahead(t, st.pos, s1.pos)], s1.lhRead))
    else if k == |st.lh| then
      var last := st.lh[|st.lh| - 1];
      var from := LexState(last.endPos, st.lh, st.lhRead);
      LexBounds(src, last.startPos);
      var (t, s1) := NextStep(src, from);
      NextTransparent(src, from);
      (t, LexState(st.pos, s1.lh + [Lookahead(t, last.endPos, s1.pos)], s1.lhRead))
    else
      (st.lh[k].token, st)
  }

  /** The token k places ahead of p: the one scanned after k tokens. */
  function Ahead(src: seq<char>, p: nat, k: nat): (r: Lexeme)
    requires p <= |src|
    ensures r.end <= |src|
    decreases k
  {
    LexBounds(src, p);
    if k == 0 then Lex(src, p) else Ahead(src, Lex(src, p).end, k - 1)
  }

  /** On "a b", peeking 0, then 1, then 0 again: the last peek answers b,
      although the token at pos is a. */
  lemma PeekAsWrittenLosesFirst()
    ensures var src := "a b";
      var st0 := LexState(0, [], 0);
      var (t1, st1) := PeekAsWritten(src, st0, 0);
      var (t2, st2) := PeekAsWritten(src, st1, 1);
      var (t3, st3) := PeekAsWritten(src, st2, 0);
      t1 == Ahead(src, 0, 0).tok && t2 == Ahead(src, 0, 1).tok &&
      t3 == t2 && t3 != Ahead(src, 0, 0).tok
  {
    var src := "a b";
    assert SkipTrivia(src, 0) == 0;
    assert RunEnd(src, 1, IdChars) == 1;
    assert Lex(src, 0) == Lexeme(Token(Identifier, 0, 1), 1);
    assert SkipTrivia(src, 1) == 2;
    assert RunEnd(src, 3, IdChars) == 3;
    assert Lex(src, 1) == Lexeme(Token(Identifier, 2, 1), 3);
  }

  /** The entries from lh_read on are the tokens following pos, one after
      the other. */
  predicate Chain(src: seq<char>, p: nat, view: seq<Lookahead>)
    decreases |view|
  {
    p <= |src| &&
    (|view| > 0 ==>
      view[0].startPos == p && Recorded(src, view[0]) &&
      Chain(src, view[0].endPos, view[1..]))
  }

  lemma {:induction false} ChainAhead(src: seq<char>, p: nat, view: seq<Lookahead>, k: nat)
    requires Chain(src, p, view) && k < |view|
    ensures Lexeme(view[k].token, view[k].endPos) == Ahead(src, p, k)
    decreases k
  {
    if k > 0 {
      LexBounds(src, p);
      ChainAhead(src, view[0].endPos, view[1..], k - 1);
    }
  }

  /** Where the chain ends: after its last entry, or at p when empty. */
  function ChainEnd(p: nat, view: seq<Lookahead>): nat
  {
    if |view| == 0 then p else view[|view| - 1].endPos
  }

  /** Scanning at the end of a chain gives the next token ahead. */
  lemma {:induction false} ChainEndAhead(src: seq<char>, p: nat, view: seq<Lookahead>)
    requires Chain(src, p, view)
    ensures ChainEnd(p, view) <= |src|
    ensures Lex(src, ChainEnd(p, view)) == Ahead(src, p, |view|)
    decreases |view|
  {
    if |view| > 0 {
      ChainEndAhead(src, view[0].endPos, view[1..]);
      assert ChainEnd(view[0].endPos, view[1..]) == ChainEnd(p, view);
    }
  }

  /** An entry recorded at the end of a chain extends it. */
  lemma {:induction false} ChainAppend(src: seq<char>, p: nat, view: seq<Lookahead>, e: Lookahead)
    requires Chain(src, p, view) && Recorded(src, e) && e.startPos == ChainEnd(p, view)
    ensures Chain(src, p, view + [e])
    decreases |view|
  {
    if |view| > 0 {
      ChainAppend(src, view[0].endPos, view[1..], e);
      assert (view + [e])[1..] == view[1..] + [e];
    }
  }

  /** Every entry of a chain is a recorded scan. */
  lemma {:induction false} ChainRecorded(src: seq<char>, p: nat, view: seq<Lookahead>, i: nat)
    requires Chain(src, p, view) && i < |view|
    ensures Recorded(src, view[i])
    decreases i
  {
    if i > 0 {
      ChainRecorded(src, view[0].endPos, view[1..], i - 1);
    }
  }

  // ---- the lexer object --------------------------------------------------------------

  /** struct au_lexer. Lookahead entries live in lh[0 .. lh_write); the
      ones from lh_read on are still to be returned by next. */
  class Lexer {
    const src: seq<char>
    var pos: nat
    var lh: seq<Lookahead>
    var lhRead: nat

    function State(): LexState
      reads this
    {
      LexState(pos, lh, lhRead)
    }

    /** Every buffered entry records a scan, and the buffer is either
        non-empty or reset. */
    ghost predicate Sound()
      reads this
    {
      StateOk(src, State()) && (lhRead < |lh| || (lhRead == 0 && lh == []))
    }

    /** Moreover the unread entries are the tokens that follow pos. */
    ghost predicate Valid()
      reads this
    {
      Sound() && Chain(src, pos, lh[lhRead..])
    }

    /** au_lexer_init, lexer.c:51-58. */
    constructor (text: seq<char>)
      ensures src == text && pos == 0 && lh == [] && lhRead == 0
      ensures Valid()
    {
      src := text;
      pos := 0;
      lh := [];
      lhRead := 0;
    }

    /** The scan of au_lexer_next_ (lexer.c:86-277): skips trivia and
        scans one token from pos. */
    method Scan() returns (t: Token)
      requires pos <= |src|
      modifies this`pos
      ensures Lex(src, old(pos)) == Lexeme(t, pos)
    {
      while pos < |src|
        invariant pos <= |src|
        invariant SkipTrivia(src, pos) == SkipTrivia(src, old(pos))
        decreases |src| - pos
      {
        if IsSpace(src[pos]) {
          pos := pos + 1;
        } else if src[pos] == '/' && pos + 1 < |src| && src[pos + 1] == '/' {
          ghost var from := pos + 2;
          pos := pos + 2;
          while pos < |src| && src[pos] != '\n'
            invariant from <= pos <= |src|
            invariant LineEnd(src, pos) == LineEnd(src, from)
            decreases |src| - pos
          {
            pos := pos + 1;
          }
        } else {
          break;
        }
      }
      if pos >= |src| {
        return EofToken;
      }
      var start := pos;
      assert start == SkipTrivia(src, old(pos));
      t := ScanAt();
    }

    /** The token scan proper, from the first non-trivia character. */
    method ScanAt() returns (t: Token)
      requires pos < |src|
      modifies this`pos
      ensures LexAt(src, old(pos)) == Lexeme(t, pos)
    {
      var start := pos;
      var ch := src[pos];
      if ch == '"' || ch == '\'' {
        t := ScanString();
      } else if ch == '0' {
        t := ScanHex();
      } else if IsDigit(ch) {
        t := ScanNumber();
      } else if IsIdStart(ch) {
        pos := pos + 1;
        SkipRun(IdChars);
        t := Token(Identifier, start, pos - start);
      } else if ch == '@' && pos + 1 < |src| && IsIdStart(src[pos + 1]) {
        pos := pos + 2;
        SkipRun(IdChars);
        t := Token(AtIdentifier, start, pos - start);
      } else {
        if ch == '@' {
          pos := pos + 1;
        }
        t := ScanOp(start);
      }
    }

    /** lexer.c:142-159. */
    method ScanHex() returns (t: Token)
      requires pos < |src| && src[pos] == '0'
      modifies this`pos
      ensures LexHex(src, old(pos)) == Lexeme(t, pos)
    {
      var start := pos;
      pos := pos + 1;
      if pos < |src| && src[pos] == 'x' {
        pos := pos + 1;
      } else {
        return Token(Unknown, start, 1);
      }
      SkipRun(HexDigits);
      return Token(Int, start, pos - start);
    }

    /** lexer.c:160-190. */
    method ScanNumber() returns (t: Token)
      requires pos < |src|
      modifies this`pos
      ensures LexNumber(src, old(pos)) == Lexeme(t, pos)
    {
      var start := pos;
      pos := pos + 1;
      SkipRun(Digits);
      if pos < |src| && src[pos] == '.' {
        pos := pos + 1;
        SkipRun(Digits);
        return Token(Double, start, pos - start);
      }
      return Token(Int, start, pos - start);
    }

    /** lexer.c:227-276, with pos at start or one past an '@'. */
    method ScanOp(start: nat) returns (t: Token)
      requires start < |src| && pos <= |src|
      modifies this`pos
      ensures LexOp(src, start, old(pos)) == Lexeme(t, pos)
    {
      if pos + 1 < |src| && IsTwoCharOp(src[pos], src[pos + 1]) {
        pos := pos + 2;
        return Token(Operator, start, 2);
      } else if pos < |src| && IsOneCharOp(src[pos]) {
        pos := pos + 1;
        return Token(Operator, start, 1);
      } else if src[start] == 0 as char {
        pos := |src|;
        return EofToken;
      }
      return Token(Unknown, start, 1);
    }

    /** Skips a maximal run of characters of class c. */
    method SkipRun(c: Class)
      requires pos <= |src|
      modifies this`pos
      ensures pos == RunEnd(src, old(pos), c)
    {
      while pos < |src| && InClass(c, src[pos])
        invariant old(pos) <= pos <= |src|
        invariant RunEnd(src, pos, c) == RunEnd(src, old(pos), c)
        decreases |src| - pos
      {
        pos := pos + 1;
      }
    }

    /** A string literal, lexer.c:107-141. */
    method ScanString() returns (t: Token)
      requires pos < |src| && (src[pos] == '"' || src[pos] == '\'')
      modifies this`pos
      ensures LexString(src, old(pos)) == Lexeme(t, pos)
    {
      var start := pos;
      var q := src[pos];
      pos := pos + 1;
      var len := 0;
      while pos < |src|
        invariant start < pos <= |src|
        invariant StrBody(src, q, pos, len) == StrBody(src, q, start + 1, 0)
        decreases |src| - pos
      {
        if src[pos] == '\\' {
          pos := pos + 1;
          len := len + 1;
          if pos >= |src| {
            return Token(Unknown, start, 1);
          }
          pos := pos + 1;
          len := len + 1;
        } else if src[pos] == q {
          pos := pos + 1;
          break;
        } else {
          pos := pos + 1;
          len := len + 1;
        }
      }
      assert StrBody(src, q, start + 1, 0) == Some((pos, len));
      if pos < |src| && src[pos] == 'c' {
        pos := pos + 1;
        return Token(CharStr, start + 1, len + 1);
      }
      return Token(Str, start + 1, len);
    }

    /** au_lexer_next: the buffered entry at lh_read when it starts at pos,
        otherwise a fresh scan. Either way the token is the one scanned
        from pos, and the unread entries still follow the new pos. */
    method Next() returns (t: Token)
      requires Sound()
      modifies this
      ensures Sound() && (old(Valid()) ==> Valid())
      ensures (t, State()) == NextStep(src, old(State()))
      ensures Lexeme(t, pos) == Lex(src, old(pos))
    {
      NextTransparent(src, State());
      if lhRead < |lh| {
        var e := lh[lhRead];
        ghost var view := lh[lhRead..];
        lhRead := lhRead + 1;
        if lhRead == |lh| {
          lhRead := 0;
          lh := [];
        }
        if pos == e.startPos {
          pos := e.endPos;
          assert lhRead > 0 ==> lh[lhRead..] == view[1..];
          return e.token;
        }
        lhRead := 0;
        lh := [];
      }
      t := Scan();
    }

    /** Scans the token at from, leaving pos where it was: the pos
        save and restore around au_lexer_next_ in au_lexer_peek. */
    method ScanFrom(from: nat) returns (t: Token, end: nat)
      requires pos <= |src| && from <= |src|
      modifies this`pos
      ensures pos == old(pos) && Lex(src, from) == Lexeme(t, end)
    {
      var saved := pos;
      pos := from;
      t := Scan();
      end := pos;
      pos := saved;
    }

    /** au_lexer_peek with the lookahead index taken relative to lh_read,
        and the token after the last entry scanned directly rather than
        through next: the token k places ahead of pos, leaving pos as it
        was. */
    method Peek(k: nat) returns (t: Token)
      requires Valid() && k <= |lh| - lhRead
      modifies this
      ensures Valid() && pos == old(pos) && lhRead == old(lhRead)
      ensures t == Ahead(src, pos, k).tok
      ensures k < old(|lh| - lhRead) ==> lh == old(lh)
      ensures k == old(|lh| - lhRead) ==> |lh| == old(|lh|) + 1 && lh[..|lh| - 1] == old(lh)
    {
      var view := lh[lhRead..];
      ghost var ahead := Ahead(src, pos, k);
      if k < |view| {
        ChainAhead(src, pos, view, k);
        return view[k].token;
      }
      assert k == |view|;
      var from := ChainEnd(pos, view);
      ChainEndAhead(src, pos, view);
      assert ahead == Lex(src, from);
      var end;
      t, end := ScanFrom(from);
      var e := Lookahead(t, from, end);
      ChainAppend(src, pos, view, e);
      lh := lh + [e];
      assert lh[lhRead..] == view + [e];
      forall i | 0 <= i < |lh|
        ensures Recorded(src, lh[i])
      {
        if i == |lh| - 1 {
          assert lh[i] == e;
        }
      }
    }
  }
}
