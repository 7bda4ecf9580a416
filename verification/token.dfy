/** The token kinds the scanner emits.  The enum itself lives in token.rs,
    which is not part of this model; the variants are exactly those the
    scanner constructs. */
module Token {

  datatype Token =
    // single-byte symbols
    | Assign | Semicolon | Lparen | Rparen | Lbrace | Rbrace | Comma | Plus
    // keywords
    | Function | Let | If | Else | Return | True | False
    // runs carrying their text
    | Ident(name: string) | Int(digits: string)
    // sentinels
    | Eof | Invalid
  {
    predicate IsSymbol() {
      Assign? || Semicolon? || Lparen? || Rparen? || Lbrace? || Rbrace? || Comma? || Plus?
    }

    predicate IsKeyword() {
      Function? || Let? || If? || Else? || Return? || True? || False?
    }
  }

  /** The source text a token stands for: the fixed spelling of a symbol or
      keyword, the payload of an identifier or integer, nothing for a sentinel. */
  function Spelling(t: Token): string {
    match t
    case Assign => "="
    case Semicolon => ";"
    case Lparen => "("
    case Rparen => ")"
    case Lbrace => "{"
    case Rbrace => "}"
    case Comma => ","
    case Plus => "+"
    case Function => "fn"
    case Let => "let"
    case If => "if"
    case Else => "else"
    case Return => "return"
    case True => "true"
    case False => "false"
    case Ident(name) => name
    case Int(digits) => digits
    case Eof => ""
    case Invalid => ""
  }

  /** The bytes that start a single-byte symbol. */
  const SymbolChars: string := "=;(){},+"

  /** The keyword table. */
  const Keywords: set<string> := {"fn", "let", "if", "false", "true", "return", "else"}

  /** What an identifier-shaped run stands for: the keyword spelled by `word`,
      or an identifier carrying `word`. */
  predicate Names(t: Token, word: string) {
    if word in Keywords then t.IsKeyword() && Spelling(t) == word
    else t == Ident(word)
  }

  /** The keyword dispatch on a scanned identifier run (lexer.rs:52-61). */
  function LookupIdent(word: string): (t: Token)
    ensures Names(t, word)
    ensures t.IsKeyword() || t.Ident?
    ensures t.Ident? ==> t.name !in Keywords
  {
    if word == "fn" then Function
    else if word == "let" then Let
    else if word == "if" then If
    else if word == "false" then False
    else if word == "true" then True
    else if word == "return" then Return
    else if word == "else" then Else
    else Ident(word)
  }

  /** Every keyword is reached by looking up its own spelling. */
  lemma KeywordRoundTrip(t: Token)
    requires t.IsKeyword()
    ensures Spelling(t) in Keywords
    ensures LookupIdent(Spelling(t)) == t
  {
  }

  /** A symbol or keyword is determined by its spelling. */
  lemma FixedSpellingInjective(t: Token, u: Token)
    requires t.IsSymbol() || t.IsKeyword()
    requires u.IsSymbol() || u.IsKeyword()
    requires Spelling(t) == Spelling(u)
    ensures t == u
  {
  }

  /** A symbol is determined by its spelling. */
  lemma SymbolUnique(t: Token, u: Token)
    requires t.IsSymbol() && u.IsSymbol()
    requires Spelling(t) == Spelling(u)
    ensures t == u
  {
  }

  /** `Names` relates each word to exactly one token. */
  lemma NamesUnique(t: Token, u: Token, word: string)
    requires Names(t, word) && Names(u, word)
    ensures t == u
  {
    if word in Keywords {
      FixedSpellingInjective(t, u);
    }
  }

  /** Every symbol is spelled by one byte of `SymbolChars`. */
  lemma SymbolSpelling(t: Token)
    requires t.IsSymbol()
    ensures |Spelling(t)| == 1 && Spelling(t)[0] in SymbolChars
  {
  }
}
