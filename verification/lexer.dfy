/** The scanner of lexer.rs: an immutable `Lexer` record threaded through
    pure functions, one per Rust method. */
module Lexer {
  import opened Ascii
  import opened Token
  import opened ScanSpec

  /** The scanner state: the input bytes, the cursor `position`, the
      look-ahead index `readPosition` and the current byte `ch`. */
  datatype Lexer = Lexer(input: seq<byte>, position: nat, readPosition: nat, ch: byte) {

    /** The cursor invariant: the look-ahead is one past the cursor, and `ch`
        is the byte under the cursor, or 0 once the cursor is past the end.
        The cursor itself is not bounded by the input length. */
    predicate Valid() {
      readPosition == position + 1 && ch == At(input, position)
    }
  }

  /** The valid state with cursor `p`. */
  function Cursor(input: seq<byte>, p: nat): (l: Lexer)
    ensures l.Valid() && l.input == input && l.position == p
  {
    Lexer(input, p, p + 1, At(input, p))
  }

  /** `read_char`: load the byte at the look-ahead index (0 past the end) and
      move the cursor there.  It establishes the cursor invariant from any
      state, valid or not. */
  function ReadChar(l: Lexer): (r: Lexer)
    ensures r.Valid()
    ensures r.input == l.input && r.position == l.readPosition
  {
    var ch := if l.readPosition >= |l.input| then 0 else l.input[l.readPosition];
    Lexer(l.input, l.readPosition, l.readPosition + 1, ch)
  }

  /** `new`: start from the pre-start state (every field 0) and advance once,
      so the first byte is loaded.  Any input, the empty one included, is
      accepted. */
  function New(input: seq<byte>): (l: Lexer)
    ensures l.Valid() && l.input == input && l.position == 0
    ensures l.ch == (if |input| == 0 then 0 else input[0])
    ensures l == Cursor(input, 0)
  {
    ReadChar(Lexer(input, 0, 0, 0))
  }

  /** The loop shared by `skip_whitespace`, `read_ident` and `read_int`:
      advance while the current byte belongs to `cls`.  It stops exactly at
      the end of the maximal run starting at the cursor. */
  function SkipWhile(l: Lexer, cls: Class): (r: Lexer)
    requires l.Valid()
    ensures r.Valid() && r.input == l.input
    ensures MaximalRun(l.input, l.position, r.position, cls)
    decreases |l.input| - l.position
  {
    if InClass(cls, l.ch) then
      ClassesAreAsciiAndNonZero(cls, l.ch);
      var r := SkipWhile(ReadChar(l), cls);
      MaximalRunExtend(l.input, l.position, r.position, cls);
      r
    else
      l
  }

  /** `skip_whitespace`: every skipped byte is ASCII whitespace and the byte
      reached is not. */
  function SkipWhitespace(l: Lexer): (r: Lexer)
    requires l.Valid()
    ensures r.Valid() && r.input == l.input
    ensures l.position <= r.position
    ensures r.position == l.position || r.position <= |l.input|
    ensures forall m :: l.position <= m < r.position ==> IsWhitespace(l.input[m])
    ensures !IsWhitespace(r.ch)
    ensures MaximalRun(l.input, l.position, r.position, Space)
  {
    var r := SkipWhile(l, Space);
    MaximalRunBytes(l.input, l.position, r.position, Space);
    r
  }

  /** The run read by `read_ident` or `read_int`: the text of the maximal run
      of `cls` bytes at the cursor, and the state at its end.  The slice
      `input[pos..position]` demands that the cursor is not past the end. */
  function ReadRun(l: Lexer, cls: Class): (res: (string, Lexer))
    requires l.Valid() && l.position <= |l.input|
    ensures res.1.Valid() && res.1.input == l.input
    ensures MaximalRun(l.input, l.position, res.1.position, cls)
    ensures res.1.position <= |l.input|
    ensures IsAscii(l.input[l.position..res.1.position])
    ensures res.0 == Text(l.input[l.position..res.1.position])
  {
    var r := SkipWhile(l, cls);
    assert IsAscii(l.input[l.position..r.position]) by {
      if l.position < r.position {
        MaximalRunInside(l.input, l.position, r.position, cls);
      }
    }
    (Text(l.input[l.position..r.position]), r)
  }

  /** `read_ident`: the maximal letter/underscore run at the cursor. */
  function ReadIdent(l: Lexer): (res: (string, Lexer))
    requires l.Valid() && l.position <= |l.input|
    ensures res.1.Valid() && res.1.input == l.input
    ensures MaximalRun(l.input, l.position, res.1.position, Letter)
    ensures res.1.position <= |l.input|
    ensures IsAscii(l.input[l.position..res.1.position])
    ensures res.0 == Text(l.input[l.position..res.1.position])
  {
    ReadRun(l, Letter)
  }

  /** `read_int`: the maximal digit run at the cursor, verbatim. */
  function ReadInt(l: Lexer): (res: (string, Lexer))
    requires l.Valid() && l.position <= |l.input|
    ensures res.1.Valid() && res.1.input == l.input
    ensures MaximalRun(l.input, l.position, res.1.position, Digit)
    ensures res.1.position <= |l.input|
    ensures IsAscii(l.input[l.position..res.1.position])
    ensures res.0 == Text(l.input[l.position..res.1.position])
  {
    ReadRun(l, Digit)
  }

  /** The `match` of `next_token` on the first non-whitespace byte: the token
      and the state reached before the final advance.  Its `b'0'` arm comes
      after the digit arm, which already takes `'0'`, so `Eof` is never
      produced. */
  function Classify(s: Lexer): (res: (Token, Lexer))
    requires s.Valid()
    ensures res.1.Valid() && res.1.input == s.input
    ensures s.position <= res.1.position
    ensures res.0 != Eof
    ensures s.ch == 0 ==> res == (Invalid, s)
  {
    var c := s.ch;
    if c == '=' as int then (Assign, s)
    else if c == ';' as int then (Semicolon, s)
    else if c == '(' as int then (Lparen, s)
    else if c == ')' as int then (Rparen, s)
    else if c == '{' as int then (Lbrace, s)
    else if c == '}' as int then (Rbrace, s)
    else if c == ',' as int then (Comma, s)
    else if c == '+' as int then (Plus, s)
    else if IsIdentByte(c) then
      var (ident, t) := ReadIdent(s);
      (LookupIdent(ident), t)
    else if IsDigit(c) then
      var (digits, t) := ReadInt(s);
      (Int(digits), t)
    else if c == '0' as int then (Eof, s)
    else (Invalid, s)
  }

  /** The classification meets its declarative description. */
  lemma ClassifyEmits(s: Lexer)
    requires s.Valid()
    ensures Emits(s.input, s.position, Classify(s).0, Classify(s).1.position + 1)
  {
  }

  /** The outcome of one `next_token` call: the token and the new state. */
  datatype Scan = Scan(token: Token, next: Lexer)

  /** `next_token`: skip whitespace, classify, then advance one byte
      unconditionally.  It keeps the cursor invariant, always moves the
      cursor forward and never returns `Eof`; once the cursor is past the end
      it returns `Invalid` and moves one step. */
  function NextToken(l: Lexer): (r: Scan)
    requires l.Valid()
    ensures r.next.Valid() && r.next.input == l.input
    ensures l.position < r.next.position
    ensures r.token != Eof
    ensures l.position >= |l.input| ==> r.token == Invalid && r.next.position == l.position + 1
  {
    var s := SkipWhitespace(l);
    var (tok, t) := Classify(s);
    Scan(tok, ReadChar(t))
  }

  /** `next_token` meets the declarative description `Lexes`: whitespace
      skipped as a maximal run, then a symbol, a maximal identifier run
      looked up in the keyword table, a maximal digit run, or `Invalid`. */
  lemma NextTokenMeetsSpec(l: Lexer)
    requires l.Valid()
    ensures Lexes(l.input, l.position, NextToken(l).token, NextToken(l).next.position)
  {
    var s := SkipWhitespace(l);
    ClassifyEmits(s);
    assert MaximalRun(l.input, l.position, s.position, Space);
  }

  /** `n` consecutive `next_token` calls, as the tests of lexer.rs:166-197
      make them. */
  function Tokens(l: Lexer, n: nat): (ts: seq<Token>)
    requires l.Valid()
    ensures |ts| == n
    ensures forall i :: 0 <= i < n ==> ts[i] != Eof
    decreases n
  {
    if n == 0 then []
    else
      var s := NextToken(l);
      [s.token] + Tokens(s.next, n - 1)
  }

  /** Successive calls from state `l` return the tokens `ts` in order and
      leave the cursor at `q`. */
  predicate Yields(l: Lexer, ts: seq<Token>, q: nat)
    requires l.Valid()
    decreases |ts|
  {
    if |ts| == 0 then l.position == q
    else
      var s := NextToken(l);
      s.token == ts[0] && Yields(s.next, ts[1..], q)
  }

  /** Every call moves the cursor forward: after `|ts|` calls it has
      advanced at least `|ts|` bytes. */
  lemma {:induction false} YieldsAdvances(l: Lexer, ts: seq<Token>, q: nat)
    requires l.Valid() && Yields(l, ts, q)
    ensures l.position + |ts| <= q
    decreases |ts|
  {
    if |ts| > 0 {
      YieldsAdvances(NextToken(l).next, ts[1..], q);
    }
  }

  /** The head and tail of a concatenation whose left part is not empty. */
  lemma ConcatTail(ts: seq<Token>, us: seq<Token>)
    requires |ts| > 0
    ensures (ts + us)[0] == ts[0] && (ts + us)[1..] == ts[1..] + us
  {
  }

  /** Two streams of calls, the second starting where the first stops,
      make one stream. */
  lemma {:induction false} YieldsConcat(l: Lexer, ts: seq<Token>, q: nat, us: seq<Token>, r: nat)
    requires l.Valid() && Yields(l, ts, q) && Yields(Cursor(l.input, q), us, r)
    ensures Yields(l, ts + us, r)
    decreases |ts|
  {
    if |ts| == 0 {
      assert l == Cursor(l.input, q);
      assert ts + us == us;
    } else {
      YieldsConcat(NextToken(l).next, ts[1..], q, us, r);
      ConcatTail(ts, us);
    }
  }

  /** The loop of the test at lexer.rs:116-123: call `next_token` until it
      returns `Eof` or `Invalid`, collecting the tokens before that.  It
      always stops, because the only way to keep going is to read a byte
      of the input. */
  function Drain(l: Lexer): (ts: seq<Token>)
    requires l.Valid()
    ensures forall i :: 0 <= i < |ts| ==> ts[i] != Eof && ts[i] != Invalid
    decreases |l.input| - l.position
  {
    var s := NextToken(l);
    if s.token == Eof || s.token == Invalid then []
    else [s.token] + Drain(s.next)
  }

  /** One call, then the rest of the fixed-count list. */
  lemma TokensStep(l: Lexer, t: Token, l': Lexer, m: nat)
    requires l.Valid() && NextToken(l) == Scan(t, l')
    ensures Tokens(l, m + 1) == [t] + Tokens(l', m)
  {
  }

  /** `Drain` collects exactly the calls before the first `Invalid`. */
  lemma {:induction false} DrainStopsAtInvalid(l: Lexer)
    requires l.Valid()
    ensures Tokens(l, |Drain(l)| + 1) == Drain(l) + [Invalid]
    decreases |l.input| - l.position
  {
    var s := NextToken(l);
    if s.token != Eof && s.token != Invalid {
      var rest := Drain(s.next);
      DrainStopsAtInvalid(s.next);
      assert Drain(l) == [s.token] + rest;
      assert Tokens(l, |Drain(l)| + 1) == [s.token] + Tokens(s.next, |rest| + 1);
      assert [s.token] + (rest + [Invalid]) == ([s.token] + rest) + [Invalid];
    } else {
      assert Drain(l) == [];
      assert Tokens(l, 1) == [s.token] + Tokens(s.next, 0);
    }
  }

  /** `Drain` collects a known stream of calls first: if successive calls
      from `l` return `ts`, none of them `Invalid`, the loop collects `ts`
      before anything else. */
  lemma {:induction false} YieldsDrain(l: Lexer, ts: seq<Token>, q: nat)
    requires l.Valid() && Yields(l, ts, q) && Invalid !in ts
    ensures ts <= Drain(l)
    decreases |ts|
  {
    if |ts| > 0 {
      var s := NextToken(l);
      YieldsDrain(s.next, ts[1..], q);
    }
  }

  /** ... and exactly `ts` when the call after them returns `Invalid`. */
  lemma {:induction false} YieldsDrainExactly(l: Lexer, ts: seq<Token>, q: nat)
    requires l.Valid() && Yields(l, ts + [Invalid], q) && Invalid !in ts
    ensures Drain(l) == ts
    decreases |ts|
  {
    if |ts| > 0 {
      ConcatTail(ts, [Invalid]);
      YieldsDrainExactly(NextToken(l).next, ts[1..], q);
    }
  }

  /** What the loop collects first on an input, read off a prefix of it. */
  lemma DrainFromPrefix(input: seq<byte>, n: nat, ts: seq<Token>, q: nat)
    requires n <= |input| && q <= n && Invalid !in ts
    requires Yields(Cursor(input[..n], 0), ts, q)
    ensures ts <= Drain(New(input))
  {
    YieldsAppend(input[..n], input[n..], 0, ts, q);
    assert input[..n] + input[n..] == input;
    YieldsDrain(New(input), ts, q);
  }

  /** `NextToken` is exactly the outcome `Lexes` describes: a cursor lexes to
      `tok` and `q` if and only if the scanner returns `tok` and moves there.
      Every valid state is `Cursor(l.input, l.position)`, so this covers
      every call. */
  lemma NextTokenCharacterised(input: seq<byte>, p: nat, tok: Token, q: nat)
    ensures Lexes(input, p, tok, q) <==> NextToken(Cursor(input, p)) == Scan(tok, Cursor(input, q))
  {
    if Lexes(input, p, tok, q) {
      LexesGivesNextToken(input, p, tok, q);
    }
    if NextToken(Cursor(input, p)) == Scan(tok, Cursor(input, q)) {
      NextTokenGivesLexes(input, p, tok, q);
    }
  }

  /** The outcome of a call is the one `Lexes` describes. */
  lemma NextTokenGivesLexes(input: seq<byte>, p: nat, tok: Token, q: nat)
    requires NextToken(Cursor(input, p)) == Scan(tok, Cursor(input, q))
    ensures Lexes(input, p, tok, q)
  {
    NextTokenMeetsSpec(Cursor(input, p));
  }

  /** The direction of `NextTokenCharacterised` used to compute concrete
      calls: an outcome the description admits is the scanner's outcome. */
  lemma LexesGivesNextToken(input: seq<byte>, p: nat, tok: Token, q: nat)
    requires Lexes(input, p, tok, q)
    ensures NextToken(Cursor(input, p)) == Scan(tok, Cursor(input, q))
  {
    var r := NextToken(Cursor(input, p));
    NextTokenMeetsSpec(Cursor(input, p));
    LexesDeterministic(input, p, tok, q, r.token, r.next.position);
  }

  /** A call looks no further than the byte before the cursor it leaves:
      bytes appended after that do not change its outcome. */
  lemma NextTokenAppend(input: seq<byte>, extra: seq<byte>, p: nat, tok: Token, q: nat)
    requires NextToken(Cursor(input, p)) == Scan(tok, Cursor(input, q)) && q <= |input|
    ensures NextToken(Cursor(input + extra, p)) == Scan(tok, Cursor(input + extra, q))
  {
    NextTokenGivesLexes(input, p, tok, q);
    LexesAppend(input, extra, p, tok, q);
    LexesGivesNextToken(input + extra, p, tok, q);
  }

  /** A stream of calls that stays inside the input is the same once bytes
      are appended: a test on a prefix of an input speaks about the whole. */
  lemma {:induction false} YieldsAppend(input: seq<byte>, extra: seq<byte>, p: nat, ts: seq<Token>, q: nat)
    requires Yields(Cursor(input, p), ts, q) && q <= |input|
    ensures Yields(Cursor(input + extra, p), ts, q)
    decreases |ts|
  {
    if |ts| > 0 {
      var r := NextToken(Cursor(input, p));
      YieldsAdvances(r.next, ts[1..], q);
      NextTokenAppend(input, extra, p, r.token, r.next.position);
      assert r.next == Cursor(input, r.next.position);
      YieldsAppend(input, extra, r.next.position, ts[1..], q);
    }
  }

  /** Once the cursor is past the end, every further call returns `Invalid`. */
  lemma {:induction false} ExhaustedStaysInvalid(l: Lexer, n: nat)
    requires l.Valid() && l.position >= |l.input|
    ensures forall i :: 0 <= i < n ==> Tokens(l, n)[i] == Invalid
    decreases n
  {
    if n > 0 {
      var s := NextToken(l);
      ExhaustedStaysInvalid(s.next, n - 1);
      assert Tokens(l, n) == [s.token] + Tokens(s.next, n - 1);
    }
  }

  /** Once the look-ahead index has reached the end, every call after the
      next one returns `Invalid`.  (Automatic induction on `n` is switched
      off: the proof does not need it, and the solver is faster without.) */
  lemma {:induction false} LastByteLoaded(l: Lexer, n: nat)
    requires l.Valid() && l.readPosition >= |l.input|
    ensures forall i :: 1 <= i < n ==> Tokens(l, n)[i] == Invalid
  {
    if n > 0 {
      var s := NextToken(l);
      ExhaustedStaysInvalid(s.next, n - 1);
      assert Tokens(l, n) == [s.token] + Tokens(s.next, n - 1);
    }
  }

  /** Input made only of whitespace yields `Invalid` from the first call on;
      `Eof` never appears. */
  lemma WhitespaceOnlyIsInvalid(input: seq<byte>, n: nat)
    requires forall i :: 0 <= i < |input| ==> IsWhitespace(input[i])
    ensures forall i :: 0 <= i < n ==> Tokens(New(input), n)[i] == Invalid
  {
    var l := New(input);
    if n > 0 {
      var r := NextToken(l);
      ExhaustedStaysInvalid(r.next, n - 1);
      assert Tokens(l, n) == [r.token] + Tokens(r.next, n - 1);
    }
  }

  /** A whitespace run from `p` up to `k`, inside the input. */
  predicate WhitespaceUpTo(input: seq<byte>, p: nat, k: nat) {
    p <= k <= |input| && forall m :: p <= m < k ==> IsWhitespace(input[m])
  }

  /** Single-byte symbols: after the whitespace, a symbol byte yields its
      token and exactly that byte is consumed. */
  lemma SymbolStep(input: seq<byte>, p: nat, k: nat, tok: Token)
    requires WhitespaceUpTo(input, p, k) && k < |input|
    requires tok.IsSymbol() && Spelling(tok) == [input[k] as char]
    ensures NextToken(Cursor(input, p)) == Scan(tok, Cursor(input, k + 1))
  {
    SymbolSpelling(tok);
    assert At(input, k) == input[k];
    assert MaximalRun(input, p, k, Space);
    assert Emits(input, k, tok, k + 1);
    LexesGivesNextToken(input, p, tok, k + 1);
  }

  /** Identifiers and keywords: after the whitespace, the maximal
      letter/underscore run `input[k..e]` yields its keyword or `Ident`, and
      the cursor ends at `e + 1`, past the byte that follows the run. */
  lemma IdentStep(input: seq<byte>, p: nat, k: nat, e: nat)
    requires WhitespaceUpTo(input, p, k) && k < e <= |input|
    requires forall m :: k <= m < e ==> IsIdentByte(input[m])
    requires !IsIdentByte(At(input, e))
    ensures IsAscii(input[k..e])
    ensures NextToken(Cursor(input, p)) == Scan(LookupIdent(Text(input[k..e])), Cursor(input, e + 1))
  {
    assert At(input, k) == input[k];
    assert MaximalRun(input, p, k, Space);
    assert MaximalRun(input, k, e, Letter) by {
      forall m | k <= m < e
        ensures InClass(Letter, At(input, m)) && m < |input|
      {
        assert At(input, m) == input[m];
      }
    }
    MaximalRunInside(input, k, e, Letter);
    assert Emits(input, k, LookupIdent(Text(input[k..e])), e + 1);
    LexesGivesNextToken(input, p, LookupIdent(Text(input[k..e])), e + 1);
  }

  /** Integers: after the whitespace, the maximal digit run `input[k..e]`
      yields `Int` holding the digits verbatim, and the cursor ends at
      `e + 1`, past the byte that follows the run. */
  lemma IntStep(input: seq<byte>, p: nat, k: nat, e: nat)
    requires WhitespaceUpTo(input, p, k) && k < e <= |input|
    requires forall m :: k <= m < e ==> IsDigit(input[m])
    requires !IsDigit(At(input, e))
    ensures IsAscii(input[k..e])
    ensures NextToken(Cursor(input, p)) == Scan(Int(Text(input[k..e])), Cursor(input, e + 1))
  {
    assert At(input, k) == input[k];
    assert MaximalRun(input, p, k, Space);
    assert MaximalRun(input, k, e, Digit) by {
      forall m | k <= m < e
        ensures InClass(Digit, At(input, m)) && m < |input|
      {
        assert At(input, m) == input[m];
      }
    }
    MaximalRunInside(input, k, e, Digit);
    assert Emits(input, k, Int(Text(input[k..e])), e + 1);
    LexesGivesNextToken(input, p, Int(Text(input[k..e])), e + 1);
  }

  /** Everything else, the end of input and an embedded NUL included: after
      the whitespace, an unclassified byte yields `Invalid` and is consumed. */
  lemma InvalidStep(input: seq<byte>, p: nat, k: nat)
    requires WhitespaceUpTo(input, p, k) || (p == k && k >= |input|)
    requires var c := At(input, k);
      !IsWhitespace(c) && !IsSymbolByte(c) && !IsIdentByte(c) && !IsDigit(c)
    ensures NextToken(Cursor(input, p)) == Scan(Invalid, Cursor(input, k + 1))
  {
    assert MaximalRun(input, p, k, Space);
    assert Emits(input, k, Invalid, k + 1);
    LexesGivesNextToken(input, p, Invalid, k + 1);
  }
}
