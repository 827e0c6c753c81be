// The tokens of the query language (graphdsl.cpp).
module Lexer {

  datatype Kind =
    | Identifier | Keyword | Dash | LeftBracket | RightBracket | Smaller | Greater | Equal
    | Number | LeftParen | RightParen | Comma | Eof | String

  datatype Token = Token(kind: Kind, raw: string)

  /** What the stream returns past its end, as a character. */
  const EOF_CHAR := '\U{FF}'

  const EOF_TOKEN := Token(Eof, [EOF_CHAR])

  datatype Lexed = Lexed(token: Token, rest: string) | LexError

  datatype LexedAll = Tokens(tokens: seq<Token>) | LexFailure

  predicate IsSpace(c: char) {
    c == ' ' || '\t' <= c <= '\r'
  }

  predicate IsDigit(c: char) {
    '0' <= c <= '9'
  }

  predicate IsAlpha(c: char) {
    'a' <= c <= 'z' || 'A' <= c <= 'Z'
  }

  predicate IsSign(c: char) {
    c == '-' || c == '+'
  }

  predicate IsDigitOrDot(c: char) {
    IsDigit(c) || c == '.'
  }

  predicate IsWordStart(c: char) {
    IsAlpha(c) || c == ':' || c == '_'
  }

  predicate IsWordPart(c: char) {
    IsAlpha(c) || IsDigit(c) || c == '_'
  }

  /** The longest prefix of `s` with characters of one class. */
  function Span(s: string, f: char -> bool): (r: string)
    ensures |r| <= |s|
  {
    if s != "" && f(s[0]) then [s[0]] + Span(s[1..], f) else ""
  }

  function After(s: string, prefix: string): string
    requires |prefix| <= |s|
  {
    s[|prefix|..]
  }

  function SkipWhite(s: string): (r: string)
    ensures |r| <= |s|
  {
    After(s, Span(s, IsSpace))
  }

  function Dots(s: string): nat {
    if s == "" then 0 else Dots(s[1..]) + if s[0] == '.' then 1 else 0
  }

  /** Signs, then digits with at most one dot. */
  function NumberAt(s: string): Lexed {
    var signs := Span(s, IsSign);
    var body := Span(After(s, signs), IsDigitOrDot);
    if Dots(body) > 1 then LexError else Lexed(Token(Number, signs + body), After(After(s, signs), body))
  }

  function LowerChar(c: char): char {
    if 'A' <= c <= 'Z' then c - 'A' + 'a' else c
  }

  function Lower(s: string): (r: string)
    ensures |r| == |s|
  {
    if s == "" then "" else [LowerChar(s[0])] + Lower(s[1..])
  }

  function WordToken(word: string): Token {
    if Lower(word) == "select" then Token(Keyword, "select")
    else if Lower(word) == "return" then Token(Keyword, "return")
    else Token(Identifier, word)
  }

  /** A word that begins with `c`. */
  function WordAt(c: char, r: string): Lexed {
    if !IsWordStart(c) then LexError
    else Lexed(WordToken([c] + Span(r, IsWordPart)), After(r, Span(r, IsWordPart)))
  }

  /** The rest of a string literal with its closing quote; a backslash stands for the
      character after it.  At the end of the text the end mark is taken in. */
  function StringAt(s: string): (r: (string, string))
    ensures |r.1| <= |s|
  {
    if s == "" then ([EOF_CHAR], "")
    else if s[0] == '\\' then
      if |s| == 1 then ([EOF_CHAR], "")
      else var r := StringAt(s[2..]); ([s[1]] + r.0, r.1)
    else if s[0] == '"' then ("\"", s[1..])
    else var r := StringAt(s[1..]); ([s[0]] + r.0, r.1)
  }

  /** The token of a single character. */
  function Mark(c: char): (k: Kind) {
    match c
    case '[' => LeftBracket
    case ']' => RightBracket
    case '<' => Smaller
    case '>' => Greater
    case '=' => Equal
    case '(' => LeftParen
    case ')' => RightParen
    case ',' => Comma
    case _ => Eof
  }

  /** The token that begins with the character `c`, which is not a blank. */
  function TokenFrom(c: char, r: string): Lexed {
    if c == '-' then
      if r == "" || !(IsDigit(r[0]) || r[0] == '.' || r[0] == '+') then Lexed(Token(Dash, "-"), r) else NumberAt([c] + r)
    else if c == '+' then NumberAt(r)
    else if c == EOF_CHAR then Lexed(EOF_TOKEN, r)
    else if Mark(c) != Eof then Lexed(Token(Mark(c), [c]), r)
    else if c == '"' then var b := StringAt(r); Lexed(Token(String, "\"" + b.0), b.1)
    else if IsDigit(c) then NumberAt([c] + r)
    else WordAt(c, r)
  }

  /** The first token of the text `s`. */
  function TokenAt(s: string): Lexed {
    var t := SkipWhite(s);
    if t == "" then Lexed(EOF_TOKEN, "") else TokenFrom(t[0], t[1..])
  }

  lemma NumberConsumes(c: char, r: string)
    requires NumberAt([c] + r).Lexed? && (IsSign(c) || IsDigit(c))
    ensures |NumberAt([c] + r).rest| <= |r|
  {
    var s := [c] + r;
    assert s[0] == c;
    if IsSign(c) {
      assert Span(s, IsSign) != "";
    } else {
      assert Span(s, IsSign) == "" && After(s, "") == s && Span(s, IsDigitOrDot) != "";
    }
  }

  lemma FromConsumes(c: char, r: string)
    requires TokenFrom(c, r).Lexed?
    ensures |TokenFrom(c, r).rest| <= |r|
  {
    if NumberAt([c] + r).Lexed? && (IsSign(c) || IsDigit(c)) { NumberConsumes(c, r); }
  }

  /** A token takes at least one character. */
  lemma TokenConsumes(s: string)
    requires TokenAt(s).Lexed?
    ensures TokenAt(s).token.kind != Eof ==> |TokenAt(s).rest| < |s|
    ensures |TokenAt(s).rest| <= |s|
  {
    var t := SkipWhite(s);
    if t != "" { FromConsumes(t[0], t[1..]); }
  }

  /** The tokens up to the end mark. */
  function AllTokens(s: string): LexedAll
    decreases |s|
  {
    match TokenAt(s)
    case LexError => LexFailure
    case Lexed(t, rest) =>
      TokenConsumes(s);
      if t.kind == Eof then Tokens([])
      else
        match AllTokens(rest)
        case LexFailure => LexFailure
        case Tokens(ts) => Tokens([t] + ts)
  }

  // ---------------------------------------------------------------------------
  // The lexer, on a character stream.
  // ---------------------------------------------------------------------------

  ghost predicate AllOf(s: string, f: char -> bool) {
    forall i | 0 <= i < |s| :: f(s[i])
  }

  /** `s` begins with the characters `r` of one class, and `rest` follows. */
  ghost predicate Taken(s: string, r: string, rest: string, f: char -> bool) {
    s == r + rest && AllOf(r, f)
  }

  lemma TakeOne(s: string, r: string, rest: string, f: char -> bool)
    requires Taken(s, r, rest, f) && rest != "" && f(rest[0])
    ensures Taken(s, r + [rest[0]], rest[1..], f)
  {
  }

  lemma TakenAll(s: string, r: string, rest: string, f: char -> bool)
    requires Taken(s, r, rest, f) && (rest == "" || !f(rest[0]))
    ensures r == Span(s, f) && rest == After(s, r)
  {
    SpanStops(r, rest, f);
  }

  lemma SpanNext(s: string, f: char -> bool)
    requires s != "" && f(s[0])
    ensures Span(s, f) == [s[0]] + Span(s[1..], f)
    ensures After(s, Span(s, f)) == After(s[1..], Span(s[1..], f))
  {
  }

  lemma DropFirst(a: string, b: string)
    requires a != ""
    ensures (a + b)[0] == a[0] && (a + b)[1..] == a[1..] + b
  {
  }

  lemma TakenBefore(s: string, r: string, rest: string, f: char -> bool)
    requires s != "" && f(s[0]) && Taken(s[1..], r, rest, f)
    ensures Taken(s, [s[0]] + r, rest, f)
  {
    assert s == [s[0]] + s[1..];
  }

  lemma {:induction false} SpanSplits(s: string, f: char -> bool)
    ensures var r := Span(s, f);
      Taken(s, r, After(s, r), f) && (After(s, r) != "" ==> !f(After(s, r)[0]))
  {
    if s != "" && f(s[0]) {
      SpanSplits(s[1..], f);
      SpanNext(s, f);
      TakenBefore(s, Span(s[1..], f), After(s[1..], Span(s[1..], f)), f);
    } else {
      assert After(s, "") == s;
    }
  }

  /** Characters of the class up to the first that is not. */
  lemma {:induction false} SpanStops(a: string, b: string, f: char -> bool)
    requires AllOf(a, f) && (b == "" || !f(b[0]))
    ensures Span(a + b, f) == a && After(a + b, a) == b
  {
    if a == "" {
      assert a + b == b;
    } else {
      DropFirst(a, b);
      SpanStops(a[1..], b, f);
    }
  }

  lemma {:induction false} SpanGoesOn(a: string, b: string, f: char -> bool)
    requires AllOf(a, f)
    ensures Span(a + b, f) == a + Span(b, f)
  {
    if a == "" {
      assert a + b == b;
    } else {
      DropFirst(a, b);
      SpanGoesOn(a[1..], b, f);
    }
  }

  lemma {:induction false} DotsAppend(a: string, b: string)
    ensures Dots(a + b) == Dots(a) + Dots(b)
  {
    if a == "" {
      assert a + b == b;
    } else {
      DropFirst(a, b);
      DotsAppend(a[1..], b);
    }
  }

  lemma TwoDots(s: string, a: string, b: string)
    requires Taken(s, a, b, IsDigitOrDot) && Dots(a) > 1
    ensures Dots(Span(s, IsDigitOrDot)) > 1
  {
    SpanGoesOn(a, b, IsDigitOrDot);
    DotsAppend(a, Span(b, IsDigitOrDot));
  }

  /** An input string stream.  At the end of the text reading sets both flags and yields
      the end mark; ungetting then clears the end flag but does not move. */
  class CharStream {
    const text: string
    var pos: nat
    var eof: bool
    var failed: bool

    ghost predicate Valid()
      reads this
    {
      pos <= |text| && (eof || failed ==> pos == |text|) && '\0' !in text
    }

    ghost function Rest(): string
      requires Valid()
      reads this
    {
      text[pos..]
    }

    constructor (text: string)
      requires '\0' !in text
      ensures Valid() && Rest() == text && !eof && !failed
    {
      this.text := text;
      pos, eof, failed := 0, false, false;
      new;
      assert text[0..] == text;
    }

    method Get() returns (c: char)
      requires Valid()
      modifies this
      ensures Valid()
      ensures if old(Rest()) == "" then c == EOF_CHAR && failed && Rest() == "" && pos == old(pos)
              else c == old(Rest())[0] && Rest() == old(Rest())[1..] && !eof && !failed && pos == old(pos) + 1
      ensures old(Rest()) == "" && !old(eof) && !old(failed) ==> eof
    {
      if eof || failed {
        failed := true;
        return EOF_CHAR;
      }
      if pos == |text| {
        eof, failed := true, true;
        return EOF_CHAR;
      }
      c := text[pos];
      pos := pos + 1;
    }

    method Unget()
      requires Valid() && (failed || 0 < pos)
      modifies this
      ensures Valid() && !eof && failed == old(failed)
      ensures pos == if failed then old(pos) else old(pos) - 1
    {
      eof := false;
      if !failed { pos := pos - 1; }
    }

    method Peek() returns (c: char)
      requires Valid()
      modifies this`eof
      ensures Valid() && c == if Rest() == "" then EOF_CHAR else Rest()[0]
    {
      if eof || failed { return EOF_CHAR; }
      if pos == |text| {
        eof := true;
        return EOF_CHAR;
      }
      c := text[pos];
    }

    method EatWhite()
      requires Valid()
      modifies this
      ensures Valid() && Rest() == SkipWhite(old(Rest()))
    {
      while !eof
        invariant Valid() && SkipWhite(Rest()) == SkipWhite(old(Rest()))
        invariant eof ==> Rest() == ""
        decreases |text| - pos
      {
        ghost var before := Rest();
        var c := Get();
        if !IsSpace(c) {
          Unget();
          assert Rest() == before;
          return;
        }
        SpanNext(before, IsSpace);
      }
    }

    method GetSigns() returns (r: string)
      requires Valid()
      modifies this
      ensures Valid() && r == Span(old(Rest()), IsSign) && Rest() == After(old(Rest()), r)
    {
      ghost var start := Rest();
      r := "";
      while true
        invariant Valid() && Taken(start, r, Rest(), IsSign)
        decreases |text| - pos
      {
        ghost var before := Rest();
        var c := Get();
        if !IsSign(c) {
          Unget();
          assert Rest() == before;
          TakenAll(start, r, before, IsSign);
          return;
        }
        TakeOne(start, r, before, IsSign);
        r := r + [c];
      }
    }

    /** Digits with at most one dot. */
    method GetDigits() returns (ok: bool, r: string)
      requires Valid()
      modifies this
      ensures Valid() && ok == (Dots(Span(old(Rest()), IsDigitOrDot)) <= 1)
      ensures ok ==> r == Span(old(Rest()), IsDigitOrDot) && Rest() == After(old(Rest()), r)
    {
      ghost var start := Rest();
      r := "";
      var hasDot := false;
      while true
        invariant Valid() && Taken(start, r, Rest(), IsDigitOrDot)
        invariant Dots(r) == if hasDot then 1 else 0
        decreases |text| - pos
      {
        ghost var before := Rest();
        var c := Get();
        if !IsDigitOrDot(c) {
          Unget();
          assert Rest() == before;
          TakenAll(start, r, before, IsDigitOrDot);
          return true, r;
        }
        TakeOne(start, r, before, IsDigitOrDot);
        DotsAppend(r, [c]);
        if c == '.' {
          if hasDot {
            TwoDots(start, r + [c], Rest());
            return false, r;
          }
          hasDot := true;
        }
        r := r + [c];
      }
    }

    method GetNumber() returns (r: Lexed)
      requires Valid()
      modifies this
      ensures Valid() && r == NumberAt(old(Rest())) && (r.Lexed? ==> Rest() == r.rest)
    {
      var signs := GetSigns();
      var ok, digits := GetDigits();
      if !ok { return LexError; }
      r := Lexed(Token(Number, signs + digits), text[pos..]);
    }

    method GetIdentifier() returns (ok: bool, word: string)
      requires Valid()
      modifies this
      ensures Valid() && ok == (old(Rest()) != "" && IsWordStart(old(Rest())[0]))
      ensures ok ==> word == [old(Rest())[0]] + Span(old(Rest())[1..], IsWordPart)
                     && Rest() == After(old(Rest())[1..], Span(old(Rest())[1..], IsWordPart))
    {
      ghost var start := Rest();
      var c := Get();
      if !IsWordStart(c) { return false, ""; }
      var r := GetWordParts();
      return true, [c] + r;
    }

    /** The loop of GetIdentifier. */
    method GetWordParts() returns (r: string)
      requires Valid()
      modifies this
      ensures Valid() && r == Span(old(Rest()), IsWordPart) && Rest() == After(old(Rest()), r)
    {
      ghost var start := Rest();
      r := "";
      while true
        invariant Valid() && Taken(start, r, Rest(), IsWordPart)
        decreases |text| - pos
      {
        ghost var before := Rest();
        var c := Get();
        if !IsWordPart(c) {
          Unget();
          assert Rest() == before;
          TakenAll(start, r, before, IsWordPart);
          return;
        }
        TakeOne(start, r, before, IsWordPart);
        r := r + [c];
      }
    }

    /** The rest of a string literal. */
    method GetString() returns (raw: string)
      requires Valid() && !eof && !failed
      modifies this
      ensures Valid() && raw == "\"" + StringAt(old(Rest())).0 && Rest() == StringAt(old(Rest())).1
    {
      raw := "\"";
      while !eof
        invariant Valid() && failed == eof
        invariant !eof ==> "\"" + StringAt(old(Rest())).0 == raw + StringAt(Rest()).0
                           && StringAt(old(Rest())).1 == StringAt(Rest()).1
        invariant eof ==> "\"" + StringAt(old(Rest())).0 == raw && StringAt(old(Rest())).1 == Rest()
        decreases |text| - pos, !eof
      {
        ghost var before := Rest();
        var c := Get();
        if c == '\\' {
          // A character has just been read, so the end flag is not set.
          var d := Get();
          raw := raw + [d];
          assert before != "" && (|before| == 1 || Rest() == before[2..]);
        } else {
          raw := raw + [c];
          if c == '"' { return; }
        }
      }
    }

    method GetToken() returns (r: Lexed)
      requires Valid()
      modifies this
      ensures Valid() && r == TokenAt(old(Rest()))
      ensures r.Lexed? ==> Rest() == r.rest
    {
      EatWhite();
      ghost var t := Rest();
      var c := Get();
      if c == '-' {
        assert t == text[pos - 1..];
        r := GetDash();
      } else if c == '+' {
        r := GetNumber();
      } else if c == EOF_CHAR {
        r := Lexed(EOF_TOKEN, text[pos..]);
      } else if Mark(c) != Eof {
        r := Lexed(Token(Mark(c), [c]), text[pos..]);
      } else if c == '"' {
        var raw := GetString();
        r := Lexed(Token(String, raw), text[pos..]);
      } else {
        Unget();
        assert Rest() == t == [c] + t[1..];
        r := GetOther();
      }
    }

    /** After a dash: it is a token of its own unless a number follows. */
    method GetDash() returns (r: Lexed)
      requires Valid() && !failed && 0 < pos && text[pos - 1] == '-'
      modifies this
      ensures Valid() && r == TokenFrom('-', old(Rest()))
      ensures r.Lexed? ==> Rest() == r.rest
    {
      var d := Peek();
      if !IsDigit(d) && d != '.' && d != '+' { return Lexed(Token(Dash, "-"), text[pos..]); }
      Unget();
      assert Rest() == ['-'] + old(Rest());
      r := GetNumber();
    }

    /** The default case of GetToken: a number or a word. */
    method GetOther() returns (r: Lexed)
      requires Valid() && Rest() != ""
      modifies this
      ensures Valid()
      ensures r == if IsDigit(old(Rest())[0]) then NumberAt(old(Rest())) else WordAt(old(Rest())[0], old(Rest())[1..])
      ensures r.Lexed? ==> Rest() == r.rest
    {
      var lookahead := Peek();
      if IsDigit(lookahead) {
        r := GetNumber();
      } else {
        var ok, word := GetIdentifier();
        if !ok { return LexError; }
        r := Lexed(WordToken(word), text[pos..]);
      }
    }
  }

  /** The tokens `queue`, then `t` and the tokens after it. */
  ghost function Queued(queue: seq<Token>, t: Lexed): LexedAll {
    match t
    case LexError => LexFailure
    case Lexed(token, rest) =>
      if token.kind == Eof then Tokens(queue) else Prepend(queue + [token], AllTokens(rest))
  }

  ghost function Prepend(queue: seq<Token>, r: LexedAll): LexedAll {
    match r
    case LexFailure => LexFailure
    case Tokens(ts) => Tokens(queue + ts)
  }

  lemma QueuedAll(queue: seq<Token>, s: string)
    ensures Queued(queue, TokenAt(s)) == Prepend(queue, AllTokens(s))
  {
    var t := TokenAt(s);
    if t.Lexed? && t.token.kind != Eof && AllTokens(t.rest).Tokens? {
      assert queue + ([t.token] + AllTokens(t.rest).tokens) == (queue + [t.token]) + AllTokens(t.rest).tokens;
    }
  }

  /** The loop that fills the token queue. */
  method Tokenize(text: string) returns (r: LexedAll)
    requires '\0' !in text
    ensures r == AllTokens(text)
  {
    var stream := new CharStream(text);
    var queue: seq<Token> := [];
    QueuedAll([], text);
    var t := stream.GetToken();
    while t.Lexed? && t.token.kind != Eof
      invariant stream.Valid() && (t.Lexed? ==> stream.Rest() == t.rest)
      invariant AllTokens(text) == Queued(queue, t)
      decreases if t.Lexed? then |t.rest| + (if t.token.kind == Eof then 0 else 1) else 0
    {
      queue := queue + [t.token];
      QueuedAll(queue, t.rest);
      ghost var last := t.rest;
      t := stream.GetToken();
      if t.Lexed? { TokenConsumes(last); }
    }
    if t.LexError? { return LexFailure; }
    r := Tokens(queue);
  }
}
