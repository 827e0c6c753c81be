// The texts of a token, and which texts the lexer reads as which tokens.
module Lexemes {
  import opened Lexer

  /** Signs, then digits with at most one dot. */
  ghost predicate IsNumber(raw: string) {
    AllOf(NumberBody(raw), IsDigitOrDot) && Dots(NumberBody(raw)) <= 1
  }

  /** What follows the signs. */
  function NumberBody(raw: string): string {
    After(raw, Span(raw, IsSign))
  }

  ghost predicate IsWord(raw: string) {
    raw != "" && IsWordStart(raw[0]) && AllOf(raw[1..], IsWordPart)
  }

  predicate IsQuoted(raw: string) {
    |raw| >= 2 && raw[0] == '"' && raw[|raw| - 1] == '"'
  }

  /** A token as the lexer makes it from a text with all string literals closed. */
  ghost predicate Canonical(t: Token) {
    match t.kind
    case Identifier => IsWord(t.raw) && WordToken(t.raw) == t
    case Keyword => t.raw == "select" || t.raw == "return"
    case Number => IsNumber(t.raw)
    case String => IsQuoted(t.raw)
    case Dash => t.raw == "-"
    case Eof => false
    case _ => |t.raw| == 1 && Mark(t.raw[0]) == t.kind
  }

  ghost predicate AllCanonical(ts: seq<Token>) {
    forall i | 0 <= i < |ts| :: Canonical(ts[i])
  }

  /** The literal was not closed: the end mark has been taken in. */
  predicate Broken(t: Token) {
    t.kind == String && t.raw != "" && t.raw[0] == '"' && t.raw[|t.raw| - 1] == EOF_CHAR
  }

  // ---------------------------------------------------------------------------
  // The texts of a token.
  // ---------------------------------------------------------------------------

  /** A number that the lexer recognizes without a plus sign before it. */
  predicate SelfStarting(raw: string) {
    raw != "" && (IsDigit(raw[0]) || (raw[0] == '-' && |raw| > 1 && (IsDigit(raw[1]) || raw[1] == '.' || raw[1] == '+')))
  }

  /** The inside of a string literal: quotes stand behind a backslash, and so does any
      character that a backslash is taken for. */
  predicate Escaped(b: string) {
    b == "" || if b[0] == '\\' then |b| > 1 && Escaped(b[2..]) else b[0] != '"' && Escaped(b[1..])
  }

  /** The characters that it stands for. */
  function Unescape(b: string): string
    requires Escaped(b)
  {
    if b == "" then "" else if b[0] == '\\' then [b[1]] + Unescape(b[2..]) else [b[0]] + Unescape(b[1..])
  }

  predicate Literal(raw: string, x: string) {
    && IsQuoted(x) && Escaped(x[1..|x| - 1])
    && raw == "\"" + (Unescape(x[1..|x| - 1]) + "\"")
  }

  /** `x` is a text of the token `t`. */
  ghost predicate Spells(t: Token, x: string) {
    match t.kind
    case Identifier => IsWord(x) && WordToken(x) == t
    case Keyword => IsWord(x) && WordToken(x) == t
    case Number => IsNumber(t.raw) && ((x == t.raw && SelfStarting(x)) || x == "+" + t.raw)
    case String => Literal(t.raw, x)
    case Eof => false
    case _ => x == t.raw && Canonical(t)
  }

  /** The text `s`, directly behind the token `t`, does not continue it. */
  predicate Ends(t: Token, s: string) {
    s == "" ||
    match t.kind
    case Identifier => !IsWordPart(s[0])
    case Keyword => !IsWordPart(s[0])
    case Number => !IsDigitOrDot(s[0]) && (NumberBody(t.raw) == "" ==> !IsSign(s[0]))
    case Dash => !IsDigit(s[0]) && s[0] != '.' && s[0] != '+'
    case _ => true
  }

  // ---------------------------------------------------------------------------
  // Reading a token from one of its texts.
  // ---------------------------------------------------------------------------

  /** Reading a text that does not begin with a blank. */
  lemma TokenStarts(s: string, c: char, r: string)
    requires s == [c] + r && !IsSpace(c)
    ensures TokenAt(s) == TokenFrom(c, r)
  {
    assert s[0] == c && Span(s, IsSpace) == "" && s[1..] == r;
  }

  lemma BlanksSkipped(b: string, s: string)
    requires AllOf(b, IsSpace)
    ensures TokenAt(b + s) == TokenAt(s)
  {
    SpanSplits(s, IsSpace);
    var w := Span(s, IsSpace);
    assert b + s == (b + w) + After(s, w);
    SpanStops(b + w, After(s, w), IsSpace);
  }

  lemma WordReads(c: char, w: string, s: string)
    requires IsWordStart(c) && AllOf(w, IsWordPart) && (s == "" || !IsWordPart(s[0]))
    ensures WordAt(c, w + s) == Lexed(WordToken([c] + w), s)
  {
    SpanStops(w, s, IsWordPart);
  }

  lemma WordEnds(c: char, r: string)
    requires WordAt(c, r).Lexed?
    ensures var s := WordAt(c, r).rest; s == "" || !IsWordPart(s[0])
  {
    SpanSplits(r, IsWordPart);
  }

  lemma WordStarts(c: char, r: string)
    requires IsWordStart(c)
    ensures TokenAt([c] + r) == WordAt(c, r)
  {
    TokenStarts([c] + r, c, r);
  }

  /** A word is read, with everything that stands behind it left over, if and only if no
      letter, digit or underscore follows. */
  lemma WordLexes(x: string, s: string)
    requires IsWord(x)
    ensures TokenAt(x + s) == Lexed(WordToken(x), s) <==> (s == "" || !IsWordPart(s[0]))
  {
    var c, w := x[0], x[1..];
    assert x == [c] + w && x + s == [c] + (w + s);
    WordStarts(c, w + s);
    WordEnds(c, w + s);
    if s == "" || !IsWordPart(s[0]) { WordReads(c, w, s); }
  }

  lemma {:induction false} LowerAt(w: string, i: nat)
    requires i < |w|
    ensures Lower(w)[i] == LowerChar(w[i])
  {
    if i > 0 { LowerAt(w[1..], i - 1); }
  }

  /** Each character is the one of `lower` or the one of `upper`. */
  ghost predicate InEitherCase(w: string, lower: string, upper: string) {
    |w| == |lower| == |upper| && forall i {:trigger w[i]} | 0 <= i < |w| :: w[i] == lower[i] || w[i] == upper[i]
  }

  lemma LowerIs(w: string, lower: string, upper: string)
    requires |lower| == |upper|
    requires forall i {:trigger lower[i]} | 0 <= i < |lower| :: 'a' <= lower[i] <= 'z' && upper[i] == lower[i] - 'a' + 'A'
    ensures Lower(w) == lower <==> InEitherCase(w, lower, upper)
  {
    forall i | 0 <= i < |w| ensures Lower(w)[i] == LowerChar(w[i]) { LowerAt(w, i); }
    if InEitherCase(w, lower, upper) {
      forall i | 0 <= i < |w| ensures Lower(w)[i] == lower[i] { assert w[i] == lower[i] || w[i] == upper[i]; }
    }
    if Lower(w) == lower {
      forall i | 0 <= i < |w| ensures w[i] == lower[i] || w[i] == upper[i] { assert Lower(w)[i] == lower[i]; }
    }
  }

  /** The keywords are recognized in any case of letters; all other words are names. */
  lemma KeywordInAnyCase(w: string)
    ensures WordToken(w) == Token(Keyword, "select") <==> InEitherCase(w, "select", "SELECT")
    ensures WordToken(w) == Token(Keyword, "return") <==> InEitherCase(w, "return", "RETURN")
    ensures WordToken(w) != Token(Identifier, w) ==> InEitherCase(w, "select", "SELECT") || InEitherCase(w, "return", "RETURN")
  {
    LowerIs(w, "select", "SELECT");
    LowerIs(w, "return", "RETURN");
  }

  lemma NumberReads(raw: string, s: string)
    requires IsNumber(raw) && Ends(Token(Number, raw), s)
    ensures NumberAt(raw + s) == Lexed(Token(Number, raw), s)
  {
    var signs, body := Span(raw, IsSign), NumberBody(raw);
    SpanSplits(raw, IsSign);
    assert raw + s == signs + (body + s);
    SpanStops(signs, body + s, IsSign);
    SpanStops(body, s, IsDigitOrDot);
  }

  lemma NumberParts(signs: string, body: string)
    requires AllOf(signs, IsSign) && AllOf(body, IsDigitOrDot)
    ensures NumberBody(signs + body) == body
  {
    SpanStops(signs, body, IsSign);
  }

  lemma NumberTaken(s: string) returns (signs: string, body: string, rest: string)
    requires NumberAt(s).Lexed?
    ensures NumberAt(s) == Lexed(Token(Number, signs + body), rest) && s == (signs + body) + rest
    ensures AllOf(signs, IsSign) && AllOf(body, IsDigitOrDot) && Dots(body) <= 1
    ensures rest != "" ==> !IsDigitOrDot(rest[0]) && (body == "" ==> !IsSign(rest[0]))
  {
    signs := Span(s, IsSign);
    var u := After(s, signs);
    body := Span(u, IsDigitOrDot);
    rest := After(u, body);
    SpanSplits(s, IsSign);
    SpanSplits(u, IsDigitOrDot);
    Regroup(signs, body, rest);
  }

  lemma Regroup(a: string, b: string, c: string)
    ensures a + (b + c) == (a + b) + c
  {
  }

  /** What is left over behind a number does not continue it. */
  lemma NumberEnds(s: string)
    requires NumberAt(s).Lexed?
    ensures var n := NumberAt(s);
      n.token.kind == Number && IsNumber(n.token.raw) && s == n.token.raw + n.rest && Ends(n.token, n.rest)
  {
    var signs, body, rest := NumberTaken(s);
    NumberParts(signs, body);
  }

  lemma NumberLexes(t: Token, x: string, s: string)
    requires t.kind == Number && Spells(t, x)
    ensures TokenAt(x + s) == Lexed(t, s) <==> Ends(t, s)
  {
    if x == "+" + t.raw {
      assert x + s == ['+'] + (t.raw + s);
      TokenStarts(x + s, '+', t.raw + s);
    } else {
      SelfStarts(x, s);
    }
    if Ends(t, s) { NumberReads(t.raw, s); }
    if NumberAt(t.raw + s).Lexed? { NumberEnds(t.raw + s); }
  }

  lemma SelfStarts(x: string, s: string)
    requires SelfStarting(x)
    ensures TokenAt(x + s) == NumberAt(x + s)
  {
    var c, w := x[0], x[1..] + s;
    assert x + s == [c] + w;
    TokenStarts(x + s, c, w);
    assert c == '-' ==> w[0] == x[1];
  }

  lemma {:induction false} LiteralReads(b: string, s: string)
    requires Escaped(b)
    ensures StringAt(b + ("\"" + s)) == (Unescape(b) + "\"", s)
  {
    var w := b + ("\"" + s);
    if b == "" {
      assert w == "\"" + s && w[1..] == s && Unescape(b) + "\"" == "\"";
    } else if b[0] == '\\' {
      LiteralReads(b[2..], s);
      assert w[1] == b[1] && w[2..] == b[2..] + ("\"" + s);
      assert [b[1]] + (Unescape(b[2..]) + "\"") == Unescape(b) + "\"";
    } else {
      LiteralReads(b[1..], s);
      assert w[0] == b[0] && w[1..] == b[1..] + ("\"" + s);
      assert [b[0]] + (Unescape(b[1..]) + "\"") == Unescape(b) + "\"";
    }
  }

  lemma StringLexes(t: Token, x: string, s: string)
    requires t.kind == String && Literal(t.raw, x)
    ensures TokenAt(x + s) == Lexed(t, s)
  {
    var b := x[1..|x| - 1];
    LiteralReads(b, s);
    assert x + s == ['"'] + (b + ("\"" + s));
    TokenStarts(x + s, '"', b + ("\"" + s));
  }

  lemma DashReads(s: string)
    ensures TokenFrom('-', s) == Lexed(Token(Dash, "-"), s) <==> Ends(Token(Dash, "-"), s)
  {
  }

  lemma MarkReads(c: char, k: Kind, s: string)
    requires Mark(c) == k && k !in {Eof, Identifier, Keyword, Number, String, Dash}
    ensures TokenFrom(c, s) == Lexed(Token(k, [c]), s) && !IsSpace(c)
  {
  }

  lemma MarkLexes(t: Token, s: string)
    requires Canonical(t) && t.kind !in {Identifier, Keyword, Number, String}
    ensures TokenAt(t.raw + s) == Lexed(t, s) <==> Ends(t, s)
  {
    var c := t.raw[0];
    assert t.raw == [c];
    if t.kind == Dash { DashReads(s); } else { MarkReads(c, t.kind, s); }
    TokenStarts(t.raw + s, c, s);
  }

  /** Whatever text follows: from a text of the token the lexer reads exactly this token,
      if and only if the text that follows does not continue it. */
  lemma TokenReads(t: Token, x: string, s: string)
    requires Spells(t, x)
    ensures TokenAt(x + s) == Lexed(t, s) <==> Ends(t, s)
  {
    match t.kind
    case Identifier => WordLexes(x, s);
    case Keyword => WordLexes(x, s);
    case Number => NumberLexes(t, x, s);
    case String => StringLexes(t, x, s);
    case _ => MarkLexes(t, s);
  }

  // ---------------------------------------------------------------------------
  // What the lexer has read is a text of the token.
  // ---------------------------------------------------------------------------

  /** `u` is the text `x` of the token `t`, and behind it `rest`, which does not continue it. */
  ghost predicate TextOf(t: Token, x: string, u: string, rest: string) {
    Spells(t, x) && u == x + rest && Ends(t, rest)
  }

  lemma WordFound(c: char, r: string) returns (x: string)
    requires WordAt(c, r).Lexed?
    ensures TextOf(WordAt(c, r).token, x, [c] + r, WordAt(c, r).rest)
  {
    var w := Span(r, IsWordPart);
    SpanSplits(r, IsWordPart);
    x := [c] + w;
    assert x[1..] == w && x + After(r, w) == [c] + r;
    WordTokenAgain(x);
  }

  lemma WordTokenAgain(x: string)
    requires IsWord(x)
    ensures Spells(WordToken(x), x)
  {
  }

  lemma NumberFound(u: string)
    requires NumberAt(u).Lexed? && SelfStarting(u)
    ensures TextOf(NumberAt(u).token, NumberAt(u).token.raw, u, NumberAt(u).rest)
  {
    var n := NumberAt(u);
    NumberEnds(u);
    NumberTakes(u);
    assert n.token.raw[0] == u[0] && (|n.token.raw| > 1 ==> n.token.raw[1] == u[1]);
  }

  /** A number takes in the characters by which it is recognized. */
  lemma NumberTakes(u: string)
    requires NumberAt(u).Lexed? && SelfStarting(u)
    ensures NumberAt(u).token.raw != "" && (u[0] == '-' ==> |NumberAt(u).token.raw| > 1)
  {
    var n := NumberAt(u);
    NumberEnds(u);
    if n.token.raw == "-" {
      assert n.rest == u[1..];
      SignsOnly();
    }
  }

  lemma SignsOnly()
    ensures NumberBody("-") == "" && NumberBody("") == ""
  {
    assert "-"[1..] == "" && Span("-", IsSign) == "-";
  }

  lemma PlusFound(r: string)
    requires NumberAt(r).Lexed?
    ensures TextOf(NumberAt(r).token, "+" + NumberAt(r).token.raw, ['+'] + r, NumberAt(r).rest)
  {
    NumberEnds(r);
  }

  /** `v` is read from `r`, a literal with the inside `b` that is closed, or that the end
      of the text cuts off. */
  ghost predicate Quotes(r: string, b: string, v: (string, string)) {
    && Escaped(b)
    && (|| (v.0 == Unescape(b) + "\"" && r == b + ("\"" + v.1))
        || (v.0 == Unescape(b) + [EOF_CHAR] && v.1 == "" && (r == b || r == b + "\\")))
  }

  /** One more character, behind its backslash or plain. */
  lemma LongerBy(first: string, c: char, d: string, e: string, v: (string, string))
    requires Quotes(e, d, v) && Escaped(first + d) && Unescape(first + d) == [c] + Unescape(d)
    ensures Quotes(first + e, first + d, ([c] + v.0, v.1))
  {
    assert first + (d + ("\"" + v.1)) == (first + d) + ("\"" + v.1);
    assert first + (d + "\\") == (first + d) + "\\";
    assert [c] + (Unescape(d) + "\"") == ([c] + Unescape(d)) + "\"";
    assert [c] + (Unescape(d) + [EOF_CHAR]) == ([c] + Unescape(d)) + [EOF_CHAR];
  }

  lemma EscapeLonger(r: string, d: string)
    requires |r| > 1 && r[0] == '\\' && Quotes(r[2..], d, StringAt(r[2..]))
    ensures Quotes(r, r[..2] + d, StringAt(r))
  {
    var b := r[..2] + d;
    assert b[0] == '\\' && b[1] == r[1] && b[2..] == d;
    LongerBy(r[..2], r[1], d, r[2..], StringAt(r[2..]));
    assert r == r[..2] + r[2..];
  }

  lemma PlainLonger(r: string, d: string)
    requires r != "" && r[0] != '\\' && r[0] != '"' && Quotes(r[1..], d, StringAt(r[1..]))
    ensures Quotes(r, [r[0]] + d, StringAt(r))
  {
    var b := [r[0]] + d;
    assert b[1..] == d;
    LongerBy([r[0]], r[0], d, r[1..], StringAt(r[1..]));
    assert r == [r[0]] + r[1..];
  }

  lemma NothingQuoted(r: string)
    requires r == "" || r == "\\" || r[0] == '"'
    ensures Quotes(r, "", StringAt(r))
  {
    assert Unescape("") + "\"" == "\"" && Unescape("") + [EOF_CHAR] == [EOF_CHAR];
    if r != "" && r[0] == '"' { assert r == "" + ("\"" + r[1..]); }
  }

  /** A string literal is closed by the first quote that no backslash takes in, or it is
      not closed at all. */
  lemma {:induction false} LiteralFound(r: string) returns (b: string)
    ensures Quotes(r, b, StringAt(r))
  {
    if r == "" || r == "\\" || r[0] == '"' {
      b := "";
      NothingQuoted(r);
    } else if r[0] == '\\' {
      var d := LiteralFound(r[2..]);
      b := r[..2] + d;
      EscapeLonger(r, d);
    } else {
      var d := LiteralFound(r[1..]);
      b := [r[0]] + d;
      PlainLonger(r, d);
    }
  }

  lemma StringFound(r: string) returns (x: string)
    requires IsQuoted("\"" + StringAt(r).0)
    ensures TextOf(Token(String, "\"" + StringAt(r).0), x, ['"'] + r, StringAt(r).1)
  {
    var v := StringAt(r);
    var b := LiteralFound(r);
    x := "\"" + (b + "\"");
    assert x[1..|x| - 1] == b;
    assert ("\"" + v.0)[|v.0|] == v.0[|v.0| - 1];
    assert "\"" + v.0 == "\"" + (Unescape(b) + "\"");
  }

  lemma MarkFound(c: char, r: string)
    requires Mark(c) != Eof
    ensures TextOf(Token(Mark(c), [c]), [c], [c] + r, r)
  {
  }

  lemma FromFound(c: char, r: string) returns (x: string)
    requires TokenFrom(c, r).Lexed? && Canonical(TokenFrom(c, r).token)
    ensures TextOf(TokenFrom(c, r).token, x, [c] + r, TokenFrom(c, r).rest)
  {
    var u := [c] + r;
    assert u[1..] == r;
    if c == '-' || (IsDigit(c) && Mark(c) == Eof) {
      if TokenFrom(c, r) == NumberAt(u) {
        x := NumberAt(u).token.raw;
        NumberFound(u);
      } else {
        x := "-";
      }
    } else if c == '+' {
      x := "+" + NumberAt(r).token.raw;
      PlusFound(r);
    } else if Mark(c) != Eof {
      x := [c];
      MarkFound(c, r);
    } else if c == '"' {
      x := StringFound(r);
    } else {
      x := WordFound(c, r);
    }
  }

  // ---------------------------------------------------------------------------
  // Exactly these texts.
  // ---------------------------------------------------------------------------

  /** `s` is blanks `b`, a text `x` of the token `t`, and `rest`, which does not continue it. */
  ghost predicate Writes(t: Token, b: string, x: string, s: string, rest: string) {
    AllOf(b, IsSpace) && s == b + (x + rest) && Spells(t, x) && Ends(t, rest)
  }

  lemma BlanksFound(s: string) returns (b: string)
    ensures AllOf(b, IsSpace) && s == b + SkipWhite(s) && (SkipWhite(s) != "" ==> !IsSpace(SkipWhite(s)[0]))
  {
    b := Span(s, IsSpace);
    SpanSplits(s, IsSpace);
  }

  /** The lexer takes a closed token off a text if and only if the text is blanks, a text
      of the token, and a rest that does not continue it. */
  lemma TokenExact(s: string, t: Token, rest: string)
    requires Canonical(t)
    ensures TokenAt(s) == Lexed(t, rest) <==> exists b, x {:trigger Writes(t, b, x, s, rest)} :: Writes(t, b, x, s, rest)
  {
    if TokenAt(s) == Lexed(t, rest) {
      var u := SkipWhite(s);
      var b := BlanksFound(s);
      var x := FromFound(u[0], u[1..]);
      assert [u[0]] + u[1..] == u;
      assert Writes(t, b, x, s, rest);
    }
    if b, x :| Writes(t, b, x, s, rest) {
      BlanksSkipped(b, x + rest);
      TokenReads(t, x, rest);
    }
  }

  /** No token is left: blanks, and then the end of the text, or what stands for it. */
  ghost predicate Ended(b: string, s: string) {
    b <= s && AllOf(b, IsSpace) && (s == b || s[|b|] == EOF_CHAR)
  }

  lemma EndExact(s: string)
    ensures TokenAt(s).Lexed? && TokenAt(s).token.kind == Eof <==> exists b {:trigger Ended(b, s)} :: Ended(b, s)
  {
    var u := SkipWhite(s);
    if TokenAt(s).Lexed? && TokenAt(s).token.kind == Eof {
      var b := BlanksFound(s);
      if u != "" { OnlyEnd(u[0], u[1..]); }
      assert Ended(b, s);
    }
    if b :| Ended(b, s) {
      assert s == b + s[|b|..];
      BlanksSkipped(b, s[|b|..]);
      EndRead(s[|b|..]);
    }
  }

  lemma OnlyEnd(c: char, r: string)
    requires TokenFrom(c, r).Lexed? && TokenFrom(c, r).token.kind == Eof
    ensures c == EOF_CHAR
  {
  }

  lemma EndRead(u: string)
    requires u == "" || u[0] == EOF_CHAR
    ensures TokenAt(u).Lexed? && TokenAt(u).token.kind == Eof
  {
    if u == "" {
      assert SkipWhite(u) == "";
    } else {
      TokenStarts(u, u[0], u[1..]);
    }
  }

  /** Blanks, and a string literal that the end of the text cuts off. */
  ghost predicate Unclosed(b: string, c: string, s: string) {
    AllOf(b, IsSpace) && Escaped(c) && (s == b + ("\"" + c) || s == b + ("\"" + (c + "\\")))
  }

  lemma {:induction false} CutReads(c: string, end: string)
    requires Escaped(c) && (end == "" || end == "\\")
    ensures StringAt(c + end) == (Unescape(c) + [EOF_CHAR], "")
  {
    var w := c + end;
    if c == "" {
      assert w == end && Unescape(c) + [EOF_CHAR] == [EOF_CHAR];
    } else if c[0] == '\\' {
      CutReads(c[2..], end);
      assert w[1] == c[1] && w[2..] == c[2..] + end;
      assert [c[1]] + (Unescape(c[2..]) + [EOF_CHAR]) == Unescape(c) + [EOF_CHAR];
    } else {
      CutReads(c[1..], end);
      assert w[0] == c[0] && w[1..] == c[1..] + end;
      assert [c[0]] + (Unescape(c[1..]) + [EOF_CHAR]) == Unescape(c) + [EOF_CHAR];
    }
  }

  lemma UnclosedReads(r: string, c: string, end: string)
    requires Escaped(c) && (end == "" || end == "\\") && r == c + end
    ensures TokenAt("\"" + r).Lexed? && Broken(TokenAt("\"" + r).token)
  {
    CutReads(c, end);
    TokenStarts("\"" + r, '"', r);
  }

  lemma OnlyUnclosed(c: char, r: string)
    requires TokenFrom(c, r).Lexed? && Broken(TokenFrom(c, r).token)
    ensures c == '"' && StringAt(r).0 != "" && StringAt(r).0[|StringAt(r).0| - 1] == EOF_CHAR
  {
  }

  /** The lexer takes the end mark into a string literal if and only if none of its quotes
      closes it. */
  lemma UnclosedExact(s: string)
    ensures TokenAt(s).Lexed? && Broken(TokenAt(s).token) <==> exists b, c {:trigger Unclosed(b, c, s)} :: Unclosed(b, c, s)
  {
    if TokenAt(s).Lexed? && Broken(TokenAt(s).token) {
      var u := SkipWhite(s);
      var b := BlanksFound(s);
      OnlyUnclosed(u[0], u[1..]);
      var c := LiteralFound(u[1..]);
      assert u == "\"" + u[1..];
      assert Unclosed(b, c, s);
    }
    if b, c :| Unclosed(b, c, s) {
      var end := if s == b + ("\"" + c) then "" else "\\";
      assert c + "" == c;
      UnclosedReads(c + end, c, end);
      BlanksSkipped(b, "\"" + (c + end));
    }
  }

  /** `s` is a text of the tokens `ts`: texts of one after the other, with blanks before
      them as one likes, as long as nothing runs together. */
  ghost predicate WritesAll(ts: seq<Token>, s: string) {
    if ts == [] then exists b {:trigger Ended(b, s)} :: Ended(b, s)
    else exists b, x, rest {:trigger Writes(ts[0], b, x, s, rest)} :: Writes(ts[0], b, x, s, rest) && WritesAll(ts[1..], rest)
  }

  /** Writing one token in front of others, directly or behind a blank. */
  lemma WritesNext(t: Token, x: string, rest: string, ts: seq<Token>)
    requires Spells(t, x) && Ends(t, rest) && WritesAll(ts, rest)
    ensures WritesAll([t] + ts, x + rest)
  {
    assert "" + (x + rest) == x + rest;
    assert ([t] + ts)[0] == t && ([t] + ts)[1..] == ts;
    assert Writes(([t] + ts)[0], "", x, x + rest, rest);
  }

  lemma WritesBehindBlank(t: Token, x: string, rest: string, ts: seq<Token>)
    requires Spells(t, x) && Ends(t, rest) && WritesAll(ts, rest)
    ensures WritesAll([t] + ts, " " + (x + rest))
  {
    WritesNext(t, x, rest, ts);
    BlankBefore([t] + ts, x + rest);
  }

  lemma EndedLonger(b: string, s: string)
    requires Ended(b, s)
    ensures Ended(" " + b, " " + s)
  {
  }

  lemma WritesLonger(t: Token, b: string, x: string, s: string, rest: string)
    requires Writes(t, b, x, s, rest)
    ensures Writes(t, " " + b, x, " " + s, rest)
  {
    assert " " + (b + (x + rest)) == (" " + b) + (x + rest);
  }

  /** A blank in front makes no difference. */
  lemma BlankBefore(ts: seq<Token>, s: string)
    requires WritesAll(ts, s)
    ensures WritesAll(ts, " " + s)
  {
    if ts == [] {
      var b :| Ended(b, s);
      EndedLonger(b, s);
    } else {
      var b, x, rest :| Writes(ts[0], b, x, s, rest) && WritesAll(ts[1..], rest);
      WritesLonger(ts[0], b, x, s, rest);
    }
  }

  lemma AllTokensNext(s: string, t: Token, rest: string)
    requires TokenAt(s) == Lexed(t, rest) && t.kind != Eof
    ensures AllTokens(s) == match AllTokens(rest) case LexFailure => LexFailure case Tokens(ts) => Tokens([t] + ts)
  {
  }

  lemma FirstWritten(t: Token, s: string, rest: string)
    requires Canonical(t) && TokenAt(s) == Lexed(t, rest)
    ensures exists b, x {:trigger Writes(t, b, x, s, rest)} :: Writes(t, b, x, s, rest)
  {
    TokenExact(s, t, rest);
  }

  lemma FirstRead(t: Token, b: string, x: string, s: string, rest: string)
    requires Canonical(t) && Writes(t, b, x, s, rest)
    ensures TokenAt(s) == Lexed(t, rest) && t.kind != Eof
  {
    TokenExact(s, t, rest);
  }

  lemma FirstOf(s: string, ts: seq<Token>)
    requires AllTokens(s) == Tokens(ts) && ts != []
    ensures TokenAt(s).Lexed? && TokenAt(s).token == ts[0] && AllTokens(TokenAt(s).rest) == Tokens(ts[1..])
  {
    AllTokensNext(s, TokenAt(s).token, TokenAt(s).rest);
  }

  lemma NoTokensExact(s: string)
    ensures AllTokens(s) == Tokens([]) <==> WritesAll([], s)
  {
    EndExact(s);
  }

  /** The lexer reads a list of closed tokens from exactly the texts of that list. */
  lemma TokensExact(ts: seq<Token>, s: string)
    requires AllCanonical(ts)
    ensures AllTokens(s) == Tokens(ts) <==> WritesAll(ts, s)
  {
    if AllTokens(s) == Tokens(ts) { TokensWritten(ts, s); }
    if WritesAll(ts, s) { TokensRead(ts, s); }
  }

  lemma {:induction false} TokensWritten(ts: seq<Token>, s: string)
    requires AllCanonical(ts) && AllTokens(s) == Tokens(ts)
    ensures WritesAll(ts, s)
    decreases |ts|
  {
    if ts == [] {
      NoTokensExact(s);
    } else {
      FirstOf(s, ts);
      var rest := TokenAt(s).rest;
      FirstWritten(ts[0], s, rest);
      TokensWritten(ts[1..], rest);
    }
  }

  lemma {:induction false} TokensRead(ts: seq<Token>, s: string)
    requires AllCanonical(ts) && WritesAll(ts, s)
    ensures AllTokens(s) == Tokens(ts)
    decreases |ts|
  {
    if ts == [] {
      NoTokensExact(s);
    } else {
      var b, x, rest :| Writes(ts[0], b, x, s, rest) && WritesAll(ts[1..], rest);
      FirstRead(ts[0], b, x, s, rest);
      TokensRead(ts[1..], rest);
      AllTokensNext(s, ts[0], rest);
      assert ts == [ts[0]] + ts[1..];
    }
  }
}
