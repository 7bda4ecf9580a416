/** A declarative description of what one `next_token` call does, written
    without reference to the scanner's cursor mechanics: skip a maximal
    whitespace run, then classify the byte found there.  The scanner in
    module Lexer is proved to meet it, and it is proved to admit exactly one
    outcome, so it characterises the scanner completely. */
module ScanSpec {
  import opened Ascii
  import opened Token

  /** `input[i..j]` is a maximal run of `cls` bytes starting at cursor `i`:
      every byte in it belongs to the class, and the byte at `j` does not
      (past the end, the sentinel 0 stops every run).  A cursor already past
      the end has the empty run. */
  predicate MaximalRun(input: seq<byte>, i: nat, j: nat, cls: Class) {
    && i <= j
    && (forall m :: i <= m < j ==> InClass(cls, At(input, m)) && m < |input|)
    && !InClass(cls, At(input, j))
  }

  /** A run extends backwards over one more byte of its class. */
  lemma MaximalRunExtend(input: seq<byte>, i: nat, j: nat, cls: Class)
    requires MaximalRun(input, i + 1, j, cls)
    requires i < |input| && InClass(cls, input[i])
    ensures MaximalRun(input, i, j, cls)
  {
    forall m | i <= m < j
      ensures InClass(cls, At(input, m)) && m < |input|
    {
      if m > i {
        assert i + 1 <= m < j;
      }
    }
  }

  /** The bytes of a run, read directly from the input. */
  lemma MaximalRunBytes(input: seq<byte>, i: nat, j: nat, cls: Class)
    requires MaximalRun(input, i, j, cls)
    ensures i == j || j <= |input|
    ensures forall m :: i <= m < j ==> InClass(cls, input[m])
  {
    if i < j {
      assert InClass(cls, At(input, j - 1)) && j - 1 < |input|;
    }
    forall m | i <= m < j
      ensures InClass(cls, input[m])
    {
      assert InClass(cls, At(input, m)) && m < |input|;
    }
  }

  /** The run of a given class starting at a cursor is unique. */
  lemma MaximalRunUnique(input: seq<byte>, i: nat, j: nat, j': nat, cls: Class)
    requires MaximalRun(input, i, j, cls) && MaximalRun(input, i, j', cls)
    ensures j == j'
  {
  }

  /** A non-empty run lies inside the input. */
  lemma MaximalRunInside(input: seq<byte>, i: nat, j: nat, cls: Class)
    requires MaximalRun(input, i, j, cls)
    requires i < |input| || i < j
    ensures j <= |input|
    ensures IsAscii(input[i..j])
  {
    if i < j {
      assert InClass(cls, At(input, j - 1)) && j - 1 < |input|;
      forall m | 0 <= m < j - i
        ensures input[i..j][m] < 0x80
      {
        ClassesAreAsciiAndNonZero(cls, At(input, i + m));
      }
    }
  }

  /** Byte `c` opens a single-byte symbol. */
  predicate IsSymbolByte(c: byte) {
    c < 0x80 && (c as char) in SymbolChars
  }

  /** Classification of the byte at cursor `k`, the first non-whitespace
      cursor: the token emitted and the cursor `q` left behind, which is one
      past the symbol, one past the byte that follows an identifier or integer
      run, or one past an unclassified byte. */
  predicate Emits(input: seq<byte>, k: nat, tok: Token, q: nat) {
    var c := At(input, k);
    if IsSymbolByte(c) then
      tok.IsSymbol() && Spelling(tok) == [c as char] && q == k + 1
    else if IsIdentByte(c) then
      && k < q <= |input| + 1
      && MaximalRun(input, k, q - 1, Letter)
      && IsAscii(input[k..q - 1])
      && Names(tok, Text(input[k..q - 1]))
    else if IsDigit(c) then
      && k < q <= |input| + 1
      && MaximalRun(input, k, q - 1, Digit)
      && IsAscii(input[k..q - 1])
      && tok == Int(Text(input[k..q - 1]))
    else
      tok == Invalid && q == k + 1
  }

  /** One `next_token` call from cursor `p` emits `tok` and leaves the cursor
      at `q`. */
  ghost predicate Lexes(input: seq<byte>, p: nat, tok: Token, q: nat) {
    exists k :: MaximalRun(input, p, k, Space) && Emits(input, k, tok, q)
  }

  /** `Emits` admits one outcome per cursor. */
  lemma EmitsDeterministic(input: seq<byte>, k: nat, tok: Token, q: nat, tok': Token, q': nat)
    requires Emits(input, k, tok, q) && Emits(input, k, tok', q')
    ensures tok == tok' && q == q'
  {
    var c := At(input, k);
    if IsSymbolByte(c) {
      SymbolUnique(tok, tok');
    } else if IsIdentByte(c) {
      MaximalRunUnique(input, k, q - 1, q' - 1, Letter);
      NamesUnique(tok, tok', Text(input[k..q - 1]));
    } else if IsDigit(c) {
      MaximalRunUnique(input, k, q - 1, q' - 1, Digit);
    }
  }

  /** `Lexes` admits one outcome per cursor: the description is a function
      of the input and the cursor. */
  lemma LexesDeterministic(input: seq<byte>, p: nat, tok: Token, q: nat, tok': Token, q': nat)
    requires Lexes(input, p, tok, q) && Lexes(input, p, tok', q')
    ensures tok == tok' && q == q'
  {
    var k :| MaximalRun(input, p, k, Space) && Emits(input, k, tok, q);
    var k' :| MaximalRun(input, p, k', Space) && Emits(input, k', tok', q');
    MaximalRunUnique(input, p, k, k', Space);
    EmitsDeterministic(input, k, tok, q, tok', q');
  }

  /** Bytes appended to the input leave every byte before them in place. */
  lemma AtAppend(input: seq<byte>, extra: seq<byte>)
    ensures forall m: nat :: m < |input| ==> At(input + extra, m) == At(input, m)
  {
  }

  /** A run that stops inside the input stops at the same place once bytes
      are appended. */
  lemma MaximalRunAppend(input: seq<byte>, extra: seq<byte>, i: nat, j: nat, cls: Class)
    requires MaximalRun(input, i, j, cls) && j < |input|
    ensures MaximalRun(input + extra, i, j, cls)
  {
    AtAppend(input, extra);
  }

  /** Classification does not depend on bytes past the cursor it leaves. */
  lemma EmitsAppend(input: seq<byte>, extra: seq<byte>, k: nat, tok: Token, q: nat)
    requires Emits(input, k, tok, q) && q <= |input|
    ensures Emits(input + extra, k, tok, q)
  {
    var big := input + extra;
    AtAppend(input, extra);
    var c := At(input, k);
    if !IsSymbolByte(c) && IsIdentByte(c) {
      MaximalRunAppend(input, extra, k, q - 1, Letter);
      assert big[k..q - 1] == input[k..q - 1];
    } else if !IsSymbolByte(c) && IsDigit(c) {
      MaximalRunAppend(input, extra, k, q - 1, Digit);
      assert big[k..q - 1] == input[k..q - 1];
    }
  }

  /** The description looks no further than the byte before the cursor it
      leaves: appending bytes after that keeps the outcome. */
  lemma LexesAppend(input: seq<byte>, extra: seq<byte>, p: nat, tok: Token, q: nat)
    requires Lexes(input, p, tok, q) && q <= |input|
    ensures Lexes(input + extra, p, tok, q)
  {
    var k: nat :| MaximalRun(input, p, k, Space) && Emits(input, k, tok, q);
    MaximalRunAppend(input, extra, p, k, Space);
    EmitsAppend(input, extra, k, tok, q);
  }

  /** Bytes prepended to the input shift every byte by their number. */
  lemma AtPrepend(pre: seq<byte>, input: seq<byte>)
    ensures forall m: nat :: At(pre + input, |pre| + m) == At(input, m)
  {
  }

  /** A run is the same run, shifted, once bytes are prepended. */
  lemma MaximalRunPrepend(pre: seq<byte>, input: seq<byte>, i: nat, j: nat, cls: Class)
    requires MaximalRun(input, i, j, cls)
    ensures MaximalRun(pre + input, |pre| + i, |pre| + j, cls)
  {
    AtPrepend(pre, input);
    forall m | |pre| + i <= m < |pre| + j
      ensures InClass(cls, At(pre + input, m)) && m < |pre + input|
    {
      assert InClass(cls, At(input, m - |pre|)) && m - |pre| < |input|;
    }
  }

  /** Classification does not depend on bytes before the cursor. */
  lemma EmitsPrepend(pre: seq<byte>, input: seq<byte>, k: nat, tok: Token, q: nat)
    requires Emits(input, k, tok, q)
    ensures Emits(pre + input, |pre| + k, tok, |pre| + q)
  {
    var big := pre + input;
    AtPrepend(pre, input);
    var c := At(input, k);
    if !IsSymbolByte(c) && IsIdentByte(c) {
      MaximalRunPrepend(pre, input, k, q - 1, Letter);
      assert big[|pre| + k..|pre| + q - 1] == input[k..q - 1];
    } else if !IsSymbolByte(c) && IsDigit(c) {
      MaximalRunPrepend(pre, input, k, q - 1, Digit);
      assert big[|pre| + k..|pre| + q - 1] == input[k..q - 1];
    }
  }

  /** The description looks at nothing before the cursor: prepending bytes
      shifts the outcome and changes nothing else. */
  lemma LexesPrepend(pre: seq<byte>, input: seq<byte>, p: nat, tok: Token, q: nat)
    requires Lexes(input, p, tok, q)
    ensures Lexes(pre + input, |pre| + p, tok, |pre| + q)
  {
    var k: nat :| MaximalRun(input, p, k, Space) && Emits(input, k, tok, q);
    MaximalRunPrepend(pre, input, p, k, Space);
    EmitsPrepend(pre, input, k, tok, q);
  }
}
