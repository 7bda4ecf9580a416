# A verified model of the monkey lexer

The Rust crate `monkey` contains a hand-written scanner, `src/lexer.rs`. The
scanner holds the input as bytes and keeps a cursor made of three fields:
`position`, `read_position` and the current byte `ch`. Each `next_token`
call works in three steps:

1. It skips ASCII whitespace.
2. It classifies the byte it has reached. The byte is one of eight
   single-byte symbols, the start of a letter/underscore run (looked up in
   a seven-entry keyword table), the start of a digit run, or anything
   else, which gives `Invalid`.
3. It advances one more byte, unconditionally.

This project models the scanner as an immutable `Lexer` record threaded
through pure functions, one per Rust method. Four facts about it are
proved:

- It keeps the cursor invariant.
- It always moves forward.
- It never returns `Eof`.
- It is exactly characterised by a declarative description, `Lexes`.
  `Lexes` is written with maximal runs and says nothing about the cursor
  fields.

The modules are:

- `Ascii` holds bytes, the byte classes and the decoding of ASCII runs into
  text.
- `Token` holds the token kinds, their spellings and the keyword lookup.
- `ScanSpec` holds the declarative description of one call and its
  properties: it admits one outcome, and it is stable when bytes are
  appended or prepended.
- `Lexer` holds the scanner and the facts about streams of calls,
  including the collecting loop of the test at `src/lexer.rs:116-123`.
- `LexerTests` holds the two tests of `src/lexer.rs` whose expectations
  the code meets, and inputs that pin down the quirks.

The quirks are modelled as the code has them, not fixed:

- **A byte is swallowed after each run.** The final advance also runs
  after an identifier or integer run has already been read. The byte that
  follows the run is therefore skipped: `=+abc(){` gives `Ident("abc")`
  and then `Rparen`.
- **`Eof` is never returned.** The `b'0'` arm comes after the digit arm,
  which already takes `'0'`.
- **End of input gives `Invalid`.** The end of input and an embedded NUL
  both load the byte 0, and 0 falls through to `Invalid`.
- **Identifiers contain no digits.**
- **The cursor is not bounded by the input length.**

Consequences of the code as written:

- On input made only of whitespace, the first call already returns
  `Invalid`.
- `let five = 5;` gives `[Let, Ident("five"), Assign, Int("5")]`, because
  the `;` is swallowed. The expected list of `test_next_token` at
  `src/lexer.rs:125-130` has `Semicolon` after `Int("5")`, so the assertion
  at `src/lexer.rs:162` cannot hold on this code.
  `LexerTests.NextTokenTestDiverges` shows that the fifth token collected is
  `Let`.
- Form feed (0x0C) counts as whitespace, because Rust's
  `u8::is_ascii_whitespace` includes it.

## Model

| member | source | states |
|---|---|---|
| Lexer.ReadChar | src/lexer.rs:27-36 | From any state, valid or not, it loads the byte at the look-ahead index (0 past the end). The cursor moves to the look-ahead index, and the cursor invariant (`read_position == position + 1`, `ch` is the byte under the cursor or 0) holds afterwards. |
| Lexer.New | src/lexer.rs:12-25 | For any input, the empty one included, the new state is valid with the cursor at 0. `ch` is the first byte, or 0 for empty input. |
| Lexer.SkipWhile | src/lexer.rs:92-94 | The advance-while loop stops exactly at the end of the maximal run of its class at the cursor, and keeps the invariant. |
| Lexer.SkipWhitespace | src/lexer.rs:91-95 | The cursor never moves back. Every skipped byte is ASCII whitespace, and the byte reached is not. |
| Lexer.ReadIdent | src/lexer.rs:73-80 | The result is the text of the maximal letter/underscore run at the cursor. The state is left at the run's end, inside the input. |
| Lexer.ReadInt | src/lexer.rs:82-89 | The result is the maximal digit run at the cursor, taken verbatim. The state is left at the run's end, inside the input. |
| Lexer.Classify | src/lexer.rs:41-66 | The match never produces `Eof`, never moves the cursor back, and on the byte 0 gives `Invalid` without moving. |
| Lexer.ClassifyEmits | src/lexer.rs:41-66 | The match meets the declarative classification `Emits`. |
| Lexer.NextToken | src/lexer.rs:38-71 | Each call keeps the cursor invariant, strictly advances the cursor and never returns `Eof`. From a cursor past the end it returns `Invalid` and moves one byte. |
| Lexer.NextTokenMeetsSpec | src/lexer.rs:38-71 | The outcome of every call is one that `Lexes` admits: a maximal whitespace run, then a symbol, a maximal identifier run looked up in the keyword table, a maximal digit run, or `Invalid`. The cursor ends one past the byte after a run. |
| Lexer.NextTokenCharacterised | src/lexer.rs:38-95 | A cursor lexes to a token and an end cursor if and only if the call returns that token and moves there. |
| Lexer.NextTokenGivesLexes | src/lexer.rs:38-71 | A call's outcome satisfies the declarative description. |
| Lexer.LexesGivesNextToken | src/lexer.rs:38-71 | Any outcome the declarative description admits is the call's outcome. |
| ScanSpec.LexesDeterministic | src/lexer.rs:41-66 | The declarative description admits exactly one token and end cursor per start cursor, so it is a complete specification. |
| ScanSpec.EmitsDeterministic | src/lexer.rs:41-66 | Classification at a cursor admits one token and one end cursor. |
| ScanSpec.MaximalRunInside | src/lexer.rs:73-89 | A non-empty run lies inside the input and is ASCII, so its text conversion is the identity on bytes. |
| ScanSpec.LexesAppend | src/lexer.rs:38-71 | An outcome ending inside the input is unchanged when bytes are appended. |
| ScanSpec.LexesPrepend | src/lexer.rs:38-71 | Prepending bytes shifts an outcome by their number and changes nothing else. |
| Lexer.NextTokenAppend | src/lexer.rs:38-71 | The call does not look past the cursor it leaves. Appending bytes keeps any outcome that ends inside the input. |
| Lexer.YieldsAppend | src/lexer.rs:38-71 | A stream of calls that stays inside an input is the same on any extension of that input. |
| Lexer.YieldsAdvances | src/lexer.rs:68 | After `n` calls the cursor has advanced at least `n` bytes. |
| Lexer.SymbolStep | src/lexer.rs:41-49 | After whitespace, a symbol byte gives its token and exactly that byte is consumed. |
| Lexer.IdentStep | src/lexer.rs:50-62 | After whitespace, a maximal letter/underscore run gives its keyword or `Ident`. The cursor ends two past the run's last byte. |
| Lexer.IntStep | src/lexer.rs:82-89 | After whitespace, a maximal digit run gives `Int` holding the digits verbatim. The cursor ends two past the run's last byte. |
| Lexer.InvalidStep | src/lexer.rs:63-65 | After whitespace, an unclassified byte gives `Invalid` and advances one byte. So does the end of input or a NUL. |
| Lexer.ExhaustedStaysInvalid | src/lexer.rs:28-29 | Once the cursor is past the end, every further call returns `Invalid`. |
| Lexer.LastByteLoaded | src/lexer.rs:28-29 | Once `read_position` has reached the end, every call after the next returns `Invalid`. |
| Lexer.WhitespaceOnlyIsInvalid | src/lexer.rs:91-95 | On input made only of whitespace, every call from the first on returns `Invalid`, never `Eof`. |
| Lexer.Tokens | src/lexer.rs:171-173 | `n` consecutive calls give `n` tokens, none of them `Eof`. |
| Lexer.Drain | src/lexer.rs:116-123 | The collecting loop always terminates. It collects no `Eof` or `Invalid`. |
| Lexer.DrainStopsAtInvalid | src/lexer.rs:116-123 | The loop collects exactly the calls before the first `Invalid`. |
| Lexer.YieldsDrain | src/lexer.rs:116-123 | If successive calls return `ts` and none of them is `Invalid`, the loop collects `ts` first. |
| Lexer.YieldsDrainExactly | src/lexer.rs:116-123 | If, in addition, the call after `ts` returns `Invalid`, the loop collects exactly `ts`. |
| Lexer.DrainFromPrefix | src/lexer.rs:116-123 | What the loop collects first on an input can be read off any prefix of it. |
| Token.LookupIdent | src/lexer.rs:52-61 | A keyword spelling gives its keyword. Any other word gives `Ident` carrying it, and that payload is never a keyword. |
| Token.KeywordRoundTrip | src/lexer.rs:52-61 | Looking up a keyword's own spelling gives that keyword back. |
| Token.NamesUnique | src/lexer.rs:52-61 | A word names at most one token; `Token.LookupIdent` gives one, so it names exactly that one. |
| LexerTests.ReadIdentExample | src/lexer.rs:166-180 | On `=+abc(){` the test's eight calls give `Assign, Plus, Ident("abc"), Rparen, Lbrace, Invalid, Invalid, Invalid`. The `(` after `abc` is swallowed, and after the fifth call the cursor is past the end. |
| LexerTests.ReadIntExample | src/lexer.rs:183-197 | On `=+123(){` the test's eight calls give `Assign, Plus, Int("123"), Rparen, Lbrace, Invalid, Invalid, Invalid`. The digits are kept verbatim and the `(` after them is swallowed. |
| LexerTests.LetFiveDrain | src/lexer.rs:104 | The loop on `let five = 5;` collects `[Let, Ident("five"), Assign, Int("5")]`, with no `Semicolon`. |
| LexerTests.NextTokenTestDiverges | src/lexer.rs:125-130 | On any input that starts as the test's does, the loop first collects `Let, Ident("five"), Assign, Int("5"), Let`. The expected list has `Semicolon` fifth. |
| LexerTests.IdentThenDigitDrain | src/lexer.rs:75 | `x1` gives `Ident("x")`: the digit does not continue the identifier and is swallowed. |
| LexerTests.ZeroIsInt | src/lexer.rs:63-64 | `0` gives `Int("0")`, so the `b'0'` arm is not reached. |
| LexerTests.NulIsInvalid | src/lexer.rs:63-65 | An embedded NUL gives `Invalid` and is consumed like any other byte. The collecting loop stops there. |

## Left out

- `src/main.rs` is not modelled. It is a driver on a fixed input, and its loop waits for `Eof`, which never comes.
- Lexer.ReadChar: the model does not include the `usize` overflow of `read_position += 1` at `src/lexer.rs:35`. Positions are unbounded naturals. Because the cursor keeps moving past the end, overflow is reached with an input of `usize::MAX` bytes, or after about `usize::MAX` calls past the end on any input, the empty one included. A debug build then panics, and a release build wraps `read_position` to 0 and loads `input[0]` again.
- Lexer.ExhaustedStaysInvalid, Lexer.LastByteLoaded, Lexer.WhitespaceOnlyIsInvalid: each states a fact for every number `n` of further calls. On the real `usize` cursor these facts hold only while the cursor stays below `usize::MAX`, that is for `n` below about `usize::MAX` minus the input length.
- `String::from_utf8_lossy` at `src/lexer.rs:79` and `88` is modelled only on ASCII. Every run it decodes is ASCII letters, underscores or digits, as `ScanSpec.MaximalRunInside` proves, so the lossy replacement never applies.
- `String::into_bytes` at `src/lexer.rs:13` is not modelled: the input is taken directly as a byte sequence.
- `src/token.rs` is not part of this model. Only the variants the scanner constructs are recreated.
- `#[derive(Debug)]` and the `Vec`/`assert_eq!` plumbing of the Rust tests are left out: they have no behaviour to model.
- LexerTests.NextTokenTestDiverges: it states the first five collected tokens of `test_next_token`, not the whole list. The expected list already disagrees with the code at the fifth token.
