// Writing tokens down so that the lexer reads them back.
module Spelling {
  import opened Lexer
  import opened Lexemes

  function EscapeChar(c: char): string {
    if c == '"' || c == '\\' then ['\\', c] else [c]
  }

  function Escape(s: string): string {
    if s == "" then "" else EscapeChar(s[0]) + Escape(s[1..])
  }

  function Spell(t: Token): string {
    match t.kind
    case Number => if SelfStarting(t.raw) then t.raw else "+" + t.raw
    case String => if IsQuoted(t.raw) then "\"" + (Escape(t.raw[1..|t.raw| - 1]) + "\"") else t.raw
    case _ => t.raw
  }

  /** All tokens, with blanks only where two of them would run together. */
  function SpellAll(ts: seq<Token>): string {
    if ts == [] then ""
    else
      var rest := SpellAll(ts[1..]);
      Spell(ts[0]) + if Ends(ts[0], rest) then rest else " " + rest
  }

  lemma {:induction false} EscapeReads(content: string)
    ensures Escaped(Escape(content)) && Unescape(Escape(content)) == content
  {
    if content != "" {
      var c, e := content[0], Escape(content[1..]);
      EscapeReads(content[1..]);
      assert content == [c] + content[1..];
      if c == '"' || c == '\\' {
        assert Escape(content) == ['\\', c] + e && Escape(content)[2..] == e;
      } else {
        assert Escape(content) == [c] + e && Escape(content)[1..] == e;
      }
    }
  }

  lemma StringSpells(raw: string)
    requires IsQuoted(raw)
    ensures Spells(Token(String, raw), Spell(Token(String, raw)))
  {
    var content := raw[1..|raw| - 1];
    var x := Spell(Token(String, raw));
    EscapeReads(content);
    assert raw == "\"" + (content + "\"");
    QuotedSpells(raw, content, Escape(content), x);
  }

  lemma QuotedSpells(raw: string, content: string, e: string, x: string)
    requires Escaped(e) && Unescape(e) == content && raw == "\"" + (content + "\"") && x == "\"" + (e + "\"")
    ensures Literal(raw, x)
  {
    assert x[1..|x| - 1] == e;
  }

  lemma KeywordWord(raw: string)
    requires raw == "select" || raw == "return"
    ensures IsWord(raw) && WordToken(raw) == Token(Keyword, raw)
  {
    if raw == "select" {
      assert Lower("select") == "select";
    } else {
      assert Lower("return") == "return";
    }
  }

  /** The spelling of a canonical token is one of its texts. */
  lemma SpellSpells(t: Token)
    requires Canonical(t)
    ensures Spells(t, Spell(t))
  {
    match t.kind
    case Keyword => KeywordWord(t.raw);
    case String => StringSpells(t.raw);
    case _ =>
  }

  /** Behind the spelling of a token may stand any text that does not continue it, as a
      blank never does. */
  lemma TokenLexes(t: Token, s: string)
    requires Canonical(t)
    ensures TokenAt(Spell(t) + s) == Lexed(t, s) <==> Ends(t, s)
    ensures Ends(t, " " + s)
  {
    SpellSpells(t);
    TokenReads(t, Spell(t), s);
  }

  lemma BlankEnds(t: Token, s: string)
    ensures Ends(t, " " + s)
  {
  }

  lemma {:induction false} SpellingWrites(ts: seq<Token>)
    requires AllCanonical(ts)
    ensures WritesAll(ts, SpellAll(ts))
  {
    if ts == [] {
      assert Ended("", "");
    } else {
      var t, rest := ts[0], SpellAll(ts[1..]);
      var behind := if Ends(t, rest) then rest else " " + rest;
      SpellingWrites(ts[1..]);
      SpellSpells(t);
      BlankBefore(ts[1..], rest);
      BlankEnds(t, rest);
      WritesNext(t, Spell(t), behind, ts[1..]);
      SpellAllNext(ts, behind);
    }
  }

  lemma SpellAllNext(ts: seq<Token>, behind: string)
    requires ts != [] && behind == if Ends(ts[0], SpellAll(ts[1..])) then SpellAll(ts[1..]) else " " + SpellAll(ts[1..])
    ensures SpellAll(ts) == Spell(ts[0]) + behind && [ts[0]] + ts[1..] == ts
  {
  }

  /** Any list of canonical tokens, written down with blanks only where two of them would
      run together, is read back. */
  lemma SpellingLexes(ts: seq<Token>)
    requires AllCanonical(ts)
    ensures AllTokens(SpellAll(ts)) == Tokens(ts)
  {
    SpellingWrites(ts);
    TokensRead(ts, SpellAll(ts));
  }

  // ---------------------------------------------------------------------------
  // What the lexer reads is canonical.
  // ---------------------------------------------------------------------------

  lemma {:induction false} StringEnds(s: string)
    ensures var b := StringAt(s); b.0 != "" && (b.0[|b.0| - 1] == '"' || (b.0[|b.0| - 1] == EOF_CHAR && b.1 == ""))
  {
    if s != "" && s[0] == '\\' && |s| > 1 {
      StringEnds(s[2..]);
    } else if s != "" && s[0] != '"' && s[0] != '\\' {
      StringEnds(s[1..]);
    }
  }

  lemma WordIsCanonical(c: char, r: string)
    requires WordAt(c, r).Lexed?
    ensures Canonical(WordAt(c, r).token)
  {
    var w := [c] + Span(r, IsWordPart);
    SpanSplits(r, IsWordPart);
    assert w[1..] == Span(r, IsWordPart);
  }

  lemma FromIsCanonical(c: char, r: string)
    requires TokenFrom(c, r).Lexed? && TokenFrom(c, r).token.kind != Eof
    ensures Canonical(TokenFrom(c, r).token) || (Broken(TokenFrom(c, r).token) && TokenFrom(c, r).rest == "")
  {
    if c == '-' || IsDigit(c) {
      if TokenFrom(c, r) == NumberAt([c] + r) { NumberEnds([c] + r); }
    } else if c == '+' {
      NumberEnds(r);
    } else if Mark(c) == Eof && c == '"' {
      StringEnds(r);
    } else if Mark(c) == Eof {
      WordIsCanonical(c, r);
    }
  }

  /** A token that has been read is canonical, unless it is an unclosed string literal,
      which takes in the rest of the text. */
  lemma TokenIsCanonical(s: string)
    requires TokenAt(s).Lexed? && TokenAt(s).token.kind != Eof
    ensures Canonical(TokenAt(s).token) || (Broken(TokenAt(s).token) && TokenAt(s).rest == "")
  {
    var t := SkipWhite(s);
    FromIsCanonical(t[0], t[1..]);
  }

  lemma NoTokens()
    ensures AllTokens("") == Tokens([])
  {
    assert SkipWhite("") == "";
    assert TokenAt("") == Lexed(EOF_TOKEN, "");
  }

  ghost predicate CanonicalBarLast(ts: seq<Token>) {
    AllCanonical(ts) || (ts != [] && AllCanonical(ts[..|ts| - 1]) && Broken(ts[|ts| - 1]))
  }

  lemma MoreCanonical(t: Token, more: seq<Token>, ts: seq<Token>, last: bool)
    requires ts == [t] + more && (Canonical(t) || (Broken(t) && last)) && CanonicalBarLast(more) && (last ==> more == [])
    ensures CanonicalBarLast(ts)
  {
    if last {
      assert ts == [t];
    } else if !AllCanonical(more) {
      assert ts[..|ts| - 1] == [t] + more[..|more| - 1];
    }
  }

  lemma {:induction false} TextIsCanonical(s: string)
    requires AllTokens(s).Tokens?
    ensures CanonicalBarLast(AllTokens(s).tokens)
    decreases |s|
  {
    var r := TokenAt(s);
    if r.token.kind != Eof {
      TokenConsumes(s);
      TokenIsCanonical(s);
      TextIsCanonical(r.rest);
      if r.rest == "" { NoTokens(); }
      MoreCanonical(r.token, AllTokens(r.rest).tokens, AllTokens(s).tokens, r.rest == "");
    }
  }

  /** Reading a text with all string literals closed, writing the tokens down and reading
      again gives the same tokens. */
  lemma RespellingLexes(s: string)
    requires AllTokens(s).Tokens? && AllCanonical(AllTokens(s).tokens)
    ensures AllTokens(SpellAll(AllTokens(s).tokens)) == AllTokens(s)
  {
    SpellingLexes(AllTokens(s).tokens);
  }
}
