# Scanner.java: the table-driven lexer

This project models the lexer in `prac8/Test/Scanner.java` in Dafny and proves properties of
that model. The lexer is a scanner of the kind Coco/R generates, for a grammar with four terminals:
`EOF_SYM` (0), `EOL_Sym` (1), `Email_Sym` (2) and `NOT_SYM` (3).

It has three parts.

- **`Buffer`** holds the whole input and one read cursor. It is modelled in `buffer.dfy`
  (module `Buffers`) as a class with a constant byte sequence and a `pos` field.
  - `Read` and `Peek` yield a byte in 0..255, or the sentinel `EOF` = 256 at the end.
  - `SetPos` clamps the cursor into the buffer.
  - `GetString` reads a range out of band and restores the cursor.
- **The character step and the automaton** are modelled in `lexer.dfy` (module `Lexer`).
  - The module gives the pure meaning of what the scanner computes: `Norm` is the character
    `NextCh` delivers for an offset, and `StartState` is the `start` table.
  - `Accepts` is the test of each automaton state, and `Run` runs the automaton.
  - `TokenAt` is the token `NextToken` builds from an offset, and `Pending` is the sequence of
    tokens that repeated `NextToken` calls return.
  - The module also proves what these mean, against an independent description of the one token
    pattern (`IsEmail`, `IsEmailPrefix`). The pattern is letter, digit, digit, letter, then
    `@campus.ru.ac.za`, 20 characters in all, for example `g12a@campus.ru.ac.za`.
- **The token list** that `Init` builds is modelled in `tokenlist.dfy` (module `TokenList`) as
  an arena.
  - Token `i` lives in slot `i`, and its `next` is the index of its successor.
  - The terminal token links to itself and its text becomes `"EOF"`.
  - The dummy head before the first token is the index `Head` (-1), whose link is slot 0.
- **`Scanner`** is modelled in `scanner.dfy` (module `Scanners`) as a class. It holds the
  buffer, the character state `ch`, `pos`, `line`, `lineStart` and `oldEols`, the arena
  `tokens`, and the two cursors `t` and `pt`.
  - Its methods `NextCh`, `NextToken`, `Init`, `Scan`, `Peek` and `ResetPeek` change these
    fields in place.
  - Each method is proved against the functions of `Lexer` and `TokenList`. For example, after
    `Init(input)` the list is exactly `Arena(input)`.

Parts of the code's loops are separate methods with their own contracts:

- `SkipIgnored` is the blank-skipping loop.
- `Automaton` is the `switch`.
- `Consume` is one `buf.append(ch); NextCh()` step.
- `ReadTokens`, `TakeToken` and `Append` are the list-filling `do … while`.

The code's `while (!done) switch (state)` is written as a loop that runs while the current
state's test accepts `ch`, followed by the kind for the state it stopped in. States -1, 0, 1 and
21 stop at once, and states 2..20 either take their one transition to `state + 1` or stop with
`noSym`. So the two forms take the same transitions and give the same kinds.

Where the lexer does something a reader may not expect, the model follows the code:

- **Only letters start an `Email_Sym`.** The `start` table sends only the letters to state 2.
  The digits go to state 0. So `12a@campus.ru.ac.za` is not an `Email_Sym`: its first token is
  the one-character `NOT_SYM` "1" (`DigitFirstIsNotEmail`).
- **A CR LF pair gives two tokens.** Only a carriage return that is *not* followed by a line feed
  becomes a line feed. The carriage return of a CR LF pair stays character 13, which is not in
  the ignore set. So it becomes a `NOT_SYM` token of its own, and the line feed after it is the
  `EOL_Sym` (`CrOfCrLfIsNotSym`). Either way, each line break counts for one line
  (`CrLfIsOneBreak`, `LoneCrIsOneBreak`).
- **A line-break token sits after its own line break.** `NextCh` has already moved `line` and
  `lineStart` past the break when the token is built. So an `EOL_Sym` token has column 0 and
  the number of the following line. Every other token has a column of at least 1
  (`TokenPlace`).

## Model

| member | source | states |
|---|---|---|
| Buffers.CharAt | prac8/Test/Scanner.java:34-42 | a read at offset i gives the byte there (0..255) inside the buffer and EOF = 256 outside it, never anything else |
| Buffers.Clamp | prac8/Test/Scanner.java:58-62 | the clamped cursor lies in [0, len]; it is v inside that range, 0 below it, len above it |
| Buffers.Slice | prac8/Test/Scanner.java:45-52 | the text GetString returns has max(0, end - beg) characters |
| Buffers.SliceInRange | prac8/Test/Scanner.java:45-52 | for 0 <= beg <= end <= len, GetString's text is exactly buf[beg..end) |
| Buffers.SlicePastEnd | prac8/Test/Scanner.java:34-37 | a requested position past the end contributes char 256 |
| Buffers.SliceBeforeStart | prac8/Test/Scanner.java:58-62 | a range starting before 0 is read from offset 0, still end - beg characters long |
| Buffers.Buffer.constructor | prac8/Test/Scanner.java:22-27 | the buffer holds the given bytes and the cursor starts at 0 |
| Buffers.Buffer.Valid | prac8/Test/Scanner.java:18-20 | the buffer invariant: the cursor lies in [0, bufLen]; Read, Peek, GetString and SetPos keep it |
| Buffers.Buffer.Read | prac8/Test/Scanner.java:34-37 | returns buf[pos] and advances pos by one when pos < len; otherwise returns 256 and leaves pos; keeps 0 <= pos <= len |
| Buffers.Buffer.Peek | prac8/Test/Scanner.java:39-42 | returns what Read would return, changes nothing, and returns EOF exactly at the end |
| Buffers.Buffer.GetPos | prac8/Test/Scanner.java:54-56 | returns the cursor, which lies in [0, len] |
| Buffers.Buffer.SetPos | prac8/Test/Scanner.java:58-62 | the cursor becomes the requested value clamped into [0, len] |
| Buffers.Buffer.GetString | prac8/Test/Scanner.java:45-52 | leaves the cursor exactly where it was and returns Slice(buf, beg, end) |
| Lexer.LineEndings | prac8/Test/Scanner.java:153-156 | NextCh delivers a line feed exactly for LF and for a CR not followed by LF. A CR survives exactly when LF follows it. EOF is delivered exactly past the end. Nothing else is rewritten |
| Lexer.LineStartFacts | prac8/Test/Scanner.java:157 | the current line starts just after the last line break read, or at 0, and no break lies between its start and the cursor |
| Lexer.CrLfIsOneBreak | prac8/Test/Scanner.java:154-157 | a CR LF pair delivers CR then one line break: the line count goes up by exactly one and the line starts after the LF |
| Lexer.LoneCrIsOneBreak | prac8/Test/Scanner.java:156-157 | a lone CR is one line break and the line starts after it |
| Lexer.Token | prac8/Test/Scanner.java:7-14 | the token record: kind, pos, col, line, val, and the link to the next token (an arena index, Nil while unlinked) |
| Lexer.Ignored | prac8/Test/Scanner.java:135-136 | the ignore set holds the blank and nothing else |
| Lexer.Norm | prac8/Test/Scanner.java:153-156 | the character NextCh delivers for an offset is at most 256, and it is the byte there (or EOF) unless it is the line feed that replaces a CR |
| Lexer.EolCount | prac8/Test/Scanner.java:157 | defines the number of line breaks delivered before offset n, which is at most n (Synced ties line to it) |
| Lexer.LineStart | prac8/Test/Scanner.java:157 | lineStart once offsets before n are read lies at or before n |
| Lexer.Text | prac8/Test/Scanner.java:176-177 | the text buf accumulates from offset s to e has exactly e - s characters |
| Lexer.TextAt | prac8/Test/Scanner.java:177 | character k of that text is the character delivered at offset s + k |
| Lexer.TextPrefix | prac8/Test/Scanner.java:177 | the text read from s up to e is a prefix of the text read from s up to any later f |
| Lexer.StartState | prac8/Test/Scanner.java:79-96 | the start table: 1 exactly for entry 10 (line feed), 2 exactly for A-Z and a-z, -1 exactly for entry 256 (EOF), 0 for every other entry |
| Lexer.Accepts | prac8/Test/Scanner.java:185-242 | the test of each case 2..20 of the switch; only those states accept any character, and none accepts EOF |
| Lexer.Kind | prac8/Test/Scanner.java:181-244 | the kind a stopped run gets lies in 0..maxT: eofSym exactly in state -1, EOL_Sym exactly in state 1, Email_Sym exactly in state 21, noSym otherwise |
| Lexer.AcceptsRealChar | prac8/Test/Scanner.java:185-242 | only states 2..20 have a transition, and none accepts a blank, a line break or EOF |
| Lexer.Run | prac8/Test/Scanner.java:179-247 | the automaton consumes exactly one character per transition, never backtracks, and stops by state 21 without reading past the end |
| Lexer.RunReads | prac8/Test/Scanner.java:185-242 | every character a run consumes passed the test of the state it was read in, and the character it stops at fails the test of the final state |
| Lexer.RunNoBlanks | prac8/Test/Scanner.java:185-242 | no character a run consumes is a blank |
| Lexer.SkipBlanks | prac8/Test/Scanner.java:171 | the blank-skipping loop stops at or after p on a non-blank character, and never runs past the end |
| Lexer.SkipBlanksSkips | prac8/Test/Scanner.java:171 | everything the blank-skipping loop passes over is a blank |
| Lexer.TokenAt | prac8/Test/Scanner.java:170-250 | a token starts at or after p and consumes at least one character. Its text is as long as what it consumed. Its kind is 0..3, and 0 exactly when it starts at the end. Only the end token reads past the end |
| Lexer.TokenFacts | prac8/Test/Scanner.java:175-181 | the token kind is eofSym exactly when the first character is at the end |
| Lexer.TokenBlanks | prac8/Test/Scanner.java:171-177 | only blanks lie between the scanner position and a token's start, and a token's text holds no blank |
| Lexer.RunTextNoBlanks | prac8/Test/Scanner.java:185-242 | the text of a token that starts at a non-blank holds no blank |
| Lexer.Pending | prac8/Test/Scanner.java:141-144 | the tokens the list-filling loop collects begin with the token NextToken builds at the current offset |
| Lexer.PendingFacts | prac8/Test/Scanner.java:141-144 | the loop stops at the first eofSym token. The other tokens are not eofSym, their offsets strictly increase, and none is linked yet |
| Lexer.PendingEnds | prac8/Test/Scanner.java:144 | the last collected token is the first eofSym token, and no earlier one is eofSym |
| Lexer.PendingOrdered | prac8/Test/Scanner.java:141-143 | collected tokens start at or after the start offset, in strictly increasing order |
| Lexer.EmailIsFullPrefix | prac8/Test/Scanner.java:185-244 | an Email_Sym text is exactly a 20-character prefix of the pattern |
| Lexer.PrefixOfPrefix | prac8/Test/Scanner.java:185-242 | a prefix of a pattern prefix is a pattern prefix |
| Lexer.AcceptsFits | prac8/Test/Scanner.java:185-242 | state n accepts c exactly when c may stand at position n - 1 of the pattern |
| Lexer.LetterRun | prac8/Test/Scanner.java:185-244 | from a letter the automaton reads the longest prefix of the pattern the input offers, and the character it stops at cannot extend it |
| Lexer.RunIsPrefix | prac8/Test/Scanner.java:185-242 | the characters of a run from a letter form a prefix of the pattern |
| Lexer.EmailPrefixes | prac8/Test/Scanner.java:185-242 | every prefix of input that spells an Email_Sym is a pattern prefix |
| Lexer.EmailInputGivesEmail | prac8/Test/Scanner.java:175-244 | when the input after the blanks spells an Email_Sym, the token is that Email_Sym, 20 characters long |
| Lexer.EmailRunIsWhole | prac8/Test/Scanner.java:185-244 | from the first letter of an Email_Sym in the input the automaton reaches state 21, 20 characters on |
| Lexer.EmailStartsWithLetter | prac8/Test/Scanner.java:84-87 | an Email_Sym in the input starts with a letter, so the start table sends it to state 2 |
| Lexer.EmailExtends | prac8/Test/Scanner.java:185-242 | short of its end, an Email_Sym in the input always offers the character the next state accepts |
| Lexer.DigitFirstIsNotEmail | prac8/Test/Scanner.java:175-182 | for the input 12a@campus.ru.ac.za the first token is the NOT_SYM "1", one character long |
| Lexer.ClassifyEof | prac8/Test/Scanner.java:175-181 | a token has kind eofSym exactly when its (unpatched) text is the EOF character |
| Lexer.ClassifyEol | prac8/Test/Scanner.java:175-184 | a token has kind EOL_Sym exactly when its text is one line break |
| Lexer.ClassifyEmail | prac8/Test/Scanner.java:185-244 | a token has kind Email_Sym exactly when its text is letter, digit, digit, letter, "@campus.ru.ac.za" |
| Lexer.RunEmail | prac8/Test/Scanner.java:185-244 | ClassifyEmail for the run from a given offset |
| Lexer.ClassifyNotSym | prac8/Test/Scanner.java:182-242 | a token has kind NOT_SYM exactly in two cases. Either it is one character that starts no token, or it is a proper prefix of the pattern that the next character cannot extend |
| Lexer.RunNotSym | prac8/Test/Scanner.java:182-242 | ClassifyNotSym for the run from a given offset |
| Lexer.StrayCharIsOneToken | prac8/Test/Scanner.java:175-182 | a first character that the start table sends to state 0 is a one-character NOT_SYM token |
| Lexer.StopCharStartsNext | prac8/Test/Scanner.java:171-242 | the character that stops a token is not consumed: the next token starts there after blanks, and if it is no blank it is that token's first character |
| Lexer.CrOfCrLfIsNotSym | prac8/Test/Scanner.java:156-182 | the CR of a CR LF pair is a NOT_SYM token "\r" of its own, and the LF after it is an EOL_Sym token |
| Lexer.TokenPlace | prac8/Test/Scanner.java:157-174 | an EOL_Sym token has column 0 and the number of the line after the break. Any other token has its own line and a column of at least 1, counted from the line start |
| Lexer.UnblankedAppend | prac8/Test/Scanner.java:171 | removing blanks distributes over concatenation |
| Lexer.UnblankedKeeps | prac8/Test/Scanner.java:171 | removing blanks from a blank-free text keeps it whole |
| Lexer.UnblankedDrops | prac8/Test/Scanner.java:171 | removing blanks from an all-blank text leaves nothing |
| Lexer.TextSplit | prac8/Test/Scanner.java:177 | the text of a range is the text of its two halves, one after the other |
| Lexer.TokenShare | prac8/Test/Scanner.java:171-177 | the input from p, without its blanks, is the token's text followed by the input after the token, without its blanks |
| Lexer.BlanksBeforeEof | prac8/Test/Scanner.java:171-181 | when the token at p is the end token, only blanks remain from p |
| Lexer.NothingLost | prac8/Test/Scanner.java:141-177 | the texts of all tokens before the end token, put together, are the delivered input with its blanks removed. Nothing else is dropped and each character lands in exactly one token |
| Lexer.OnlyBlanks | prac8/Test/Scanner.java:141-171 | input of blanks only gives exactly one token |
| TokenList.Chain | prac8/Test/Scanner.java:139-144 | the list while the loop runs: as many slots as tokens returned, every token but the newest linked to the next slot |
| TokenList.ChainOnlyLinks | prac8/Test/Scanner.java:142-143 | linking changes only the next field of each token, and the newest token is not linked yet |
| TokenList.Close | prac8/Test/Scanner.java:145-146 | the final patch keeps the number of tokens |
| TokenList.CloseOnlyPatchesLast | prac8/Test/Scanner.java:145-146 | the patch leaves every token but the terminal one as it was, and changes only the terminal token's link (to itself) and its text (to "EOF") |
| TokenList.Arena | prac8/Test/Scanner.java:130-148 | the finished list for an input: Close of the chain of the tokens NextToken returns from offset 0; ArenaShape states its shape |
| TokenList.ListShape | prac8/Test/Scanner.java:139-147 | a well-formed list: non-terminal tokens linked to the next slot, one terminal eofSym token last, linked to itself and reading "EOF" |
| TokenList.Link | prac8/Test/Scanner.java:253-262 | following a link from the head or a slot gives a slot: the next one, or the terminal slot itself |
| TokenList.NextVisible | prac8/Test/Scanner.java:260-263 | Peek's loop stops at the first later node whose kind is at most maxT, after skipping only kinds above maxT |
| TokenList.ArenaShape | prac8/Test/Scanner.java:139-147 | the finished list is well formed. Its slots are the tokens NextToken returned, in order, each linked to the next. The last is the eofSym token, linked to itself and reading "EOF" |
| TokenList.PendingKinds | prac8/Test/Scanner.java:181-244 | every collected token has a terminal kind, 0..maxT |
| TokenList.ArenaKinds | prac8/Test/Scanner.java:179-247 | the finished list holds no pragma: every kind is at most maxT |
| TokenList.PeekIsOneLink | prac8/Test/Scanner.java:259-264 | since the list holds no pragmas, Peek advances exactly one link |
| TokenList.ArenaOrdered | prac8/Test/Scanner.java:139-147 | token offsets strictly increase along the list, and every token before the last has a non-empty text |
| TokenList.PendingTokenAt | prac8/Test/Scanner.java:141-142 | each collected token is the token NextToken builds at some offset |
| TokenList.ArenaLosesOnlyBlanks | prac8/Test/Scanner.java:139-177 | the texts of the finished list before the terminal token are the delivered input without blanks |
| TokenList.ConcatIgnoresLinks | prac8/Test/Scanner.java:145-146 | linking tokens does not change their concatenated texts |
| TokenList.BlankInputIsOnlyEof | prac8/Test/Scanner.java:139-171 | an input of blanks only gives a list of exactly one token, the eofSym token |
| TokenList.TerminalLoops | prac8/Test/Scanner.java:145-254 | any number of links from the terminal token lead back to the terminal token |
| TokenList.Iterate | prac8/Test/Scanner.java:254 | following n links from a node gives a node of the list |
| Scanners.Scanner.Init | prac8/Test/Scanner.java:130-148 | builds a well-formed list whose slots are exactly Arena(input) (the tokens NextToken returns, linked in order, the terminal one patched), over the given input, and leaves t and pt at the dummy head |
| Scanners.Scanner.Synced | prac8/Test/Scanner.java:99-104 | the scanner invariant while reading: the buffer cursor is one past pos (clamped), ch is the character delivered at pos, line and lineStart count the breaks read so far |
| Scanners.Scanner.Valid | prac8/Test/Scanner.java:107-108 | the cursor invariant: the list is well formed and t and pt are nodes of it (the dummy head or a slot) |
| Scanners.Scanner.ReadTokens | prac8/Test/Scanner.java:139-144 | the do-while loop appends, in order and linked, exactly the tokens NextToken returns, up to and including the first eofSym token |
| Scanners.Scanner.TakeToken | prac8/Test/Scanner.java:142 | each iteration takes the next pending token and moves the scanner strictly forward |
| Scanners.Scanner.Append | prac8/Test/Scanner.java:142-143 | the new token is linked after the previous newest node |
| Scanners.ChainSnoc | prac8/Test/Scanner.java:142-143 | appending a token and linking the previous newest one to it gives the chain one longer |
| Scanners.Scanner.NextCh | prac8/Test/Scanner.java:150-160 | a pending replay yields a line break without reading. Otherwise the next character is the normalised one at offset pos + 1, line rises by one exactly on a line break, and lineStart moves just past it |
| Scanners.Scanner.NextToken | prac8/Test/Scanner.java:170-250 | returns TokenAt at the old position and leaves the scanner where that token ends |
| Scanners.Scanner.Automaton | prac8/Test/Scanner.java:178-247 | follows transitions exactly as Run does, ends in Run's state and position, with the kind for that state and the text read since the token start |
| Scanners.Scanner.Consume | prac8/Test/Scanner.java:185-242 | one transition appends the current character to the text and reads the next one, in step with Run |
| Scanners.Scanner.SkipIgnored | prac8/Test/Scanner.java:171 | skips to SkipBlanks of the old position, so the current character is not a blank |
| Scanners.Scanner.Scan | prac8/Test/Scanner.java:253-256 | t and pt both move to t's successor, which is returned |
| Scanners.Scanner.Peek | prac8/Test/Scanner.java:259-264 | only pt moves, to NextVisible of the old pt, which is returned; on the list Init builds, that is exactly one link on |
| Scanners.Scanner.ResetPeek | prac8/Test/Scanner.java:267 | pt is brought back to t |
| Scanners.PeekResetScan | prac8/Test/Scanner.java:253-267 | after any number of peeks, ResetPeek then Scan still returns t's successor |

## Left out

- `Buffer.Fill` (the file read) and `Init(String)` (opening the file, diagnostics, exit) are
  I/O. The `Buffer` constructor takes the bytes instead, and `Scanner.Init` takes the input.
- `CheckLiteral` is left out: its body has no effect.
- The `BitSet ignore` is the predicate `Ignored` (only the blank), and `StringBuffer` is a string.
- The `start` table is written as ranges (`StartState`) that give its 257 entries, not as a
  literal array.
- The `oldEols` replay branch of `NextCh` is in `NextCh`'s contract, but it is never taken:
  `Init` sets `oldEols` to 0 and nothing raises it. Every method that reads characters
  (`ReadTokens`, `TakeToken`, `NextToken`, `Automaton`, `Consume`, `SkipIgnored`) requires
  `oldEols == 0`.
- `Init` sets `t` and `pt` to the dummy head when the scanner is created rather than after the
  loop; nothing in between reads them.
- `NextToken` builds its token in the static field `t`, which `Init` resets to the list head
  afterwards. The model uses a local variable instead.
- Scanners.Scanner.Init: its contract does not restate the character state (`ch`, `pos`, `line`,
  `lineStart`) after the list is built. Nothing reads that state once the list is complete.
- Java object identity, `null` links and the circular reference of the terminal token are
  arena indices. `Nil` (-2) marks a token not yet linked.
- Static state becomes one `Scanner` object with its `Buffer`, and there is no concurrency.
- `pos`, `line` and the token fields are unbounded integers. Java's 32-bit `int` overflow on
  inputs of 2^31 bytes or more is not modelled.
