/** The scanner session: the character cursor over the buffer, the automaton that builds one
    token per call, the eager building of the token list, and the two cursors (current token
    t and peek token pt) that Scan, Peek and ResetPeek move over that list. */
module Scanners {
  import opened Buffers
  import opened Lexer
  import opened TokenList

  class Scanner {
    const buffer: Buffer
    /** The current input character. */
    var ch: char
    /** The offset of ch in the input. */
    var pos: int
    /** The line of ch, counted from 1. */
    var line: int
    /** The offset at which the current line starts. */
    var lineStart: int
    /** Line breaks waiting to be replayed; Init sets it to 0 and nothing raises it. */
    var oldEols: int
    /** The token list, slot i holding the i-th token. */
    var tokens: seq<Token>
    /** The current token and the peek token: a slot, or Head for the dummy head. */
    var t: int
    var pt: int

    /** The character state agrees with the input: everything up to offset pos has been
        read, ch is the character NextCh delivers for pos, and line and lineStart count
        the line breaks read so far. */
    ghost predicate Synced()
      reads this, buffer
    {
      -1 <= pos &&
      buffer.pos == Min(pos + 1, |buffer.buf|) &&
      line == 1 + EolCount(buffer.buf, pos + 1) &&
      lineStart == LineStart(buffer.buf, pos + 1) &&
      (pos >= 0 ==> ch == Norm(buffer.buf, pos))
    }

    /** The token list is well formed and both cursors are nodes of it. */
    ghost predicate Valid()
      reads this
    {
      ListShape(tokens) && Head <= t < |tokens| && Head <= pt < |tokens|
    }

    /** Builds the whole token list for input; both cursors start at the dummy head. */
    constructor Init(input: seq<Byte>)
      ensures Valid() && fresh(buffer) && buffer.buf == input
      ensures buffer.Valid() && oldEols == 0
      ensures tokens == Arena(input)
      ensures t == Head && pt == Head
    {
      buffer := new Buffer(input);
      pos, line, lineStart := -1, 1, 0;
      oldEols := 0;
      ch := 0 as char;
      tokens, t, pt := [], Head, Head;
      new;
      NextCh();
      ReadTokens();
      tokens := Close(tokens);
      ArenaShape(buffer.buf);
    }

    /** Init's list-filling loop: appends the tokens NextToken returns, linking each to the
        one before it, until the end-of-input token has been appended. */
    method ReadTokens()
      requires buffer.Valid() && oldEols == 0 && 0 <= pos && Synced() && tokens == []
      modifies this`ch, this`pos, this`line, this`lineStart, this`oldEols, buffer`pos, this`tokens
      ensures buffer.Valid() && oldEols == 0 && 0 <= pos && Synced()
      ensures tokens == Chain(Pending(buffer.buf, old(pos)))
    {
      ghost var buf := buffer.buf;
      ghost var p0 := pos;
      var node := Head;
      ghost var built: seq<Token> := [];
      var done := false;
      while !done
        invariant buffer.Valid() && oldEols == 0 && 0 <= pos && Synced()
        invariant tokens == Chain(built) && node == |tokens| - 1
        invariant if done then built == Pending(buf, p0) else built + Pending(buf, pos) == Pending(buf, p0)
        decreases if done then 0 else 1, |buf| + 1 - pos
      {
        var tk := TakeToken(p0, built);
        Append(built, node, tk);
        node := |tokens| - 1;
        built := built + [tk];
        done := tk.kind == EofSym;
      }
    }

    /** NextToken, seen as taking the next of the tokens still pending after built. */
    method TakeToken(ghost p0: nat, ghost built: seq<Token>) returns (tk: Token)
      requires buffer.Valid() && oldEols == 0 && 0 <= pos && Synced()
      requires built + Pending(buffer.buf, pos) == Pending(buffer.buf, p0)
      modifies this`ch, this`pos, this`line, this`lineStart, this`oldEols, buffer`pos
      ensures buffer.Valid() && oldEols == 0 && 0 <= pos && Synced()
      ensures old(pos) < pos
      ensures tk.kind == EofSym ==> built + [tk] == Pending(buffer.buf, p0)
      ensures tk.kind != EofSym ==> built + [tk] + Pending(buffer.buf, pos) == Pending(buffer.buf, p0)
    {
      PendingStep(buffer.buf, p0, built, pos);
      tk := NextToken();
    }

    /** Links tk after node, the newest slot of the list so far (node.next = tk; node = tk). */
    method Append(ghost built: seq<Token>, node: int, tk: Token)
      requires tokens == Chain(built) && node == |tokens| - 1
      modifies this`tokens
      ensures tokens == Chain(built + [tk])
    {
      tokens := tokens + [tk];
      if node != Head {
        tokens := tokens[node := tokens[node].(next := |tokens| - 1)];
      }
      ChainSnoc(built, tk);
    }

    /** Delivers the next character into ch. A pending line break is replayed first;
        otherwise the next byte is read, an isolated carriage return becomes a line feed,
        and a line break advances line and lineStart. */
    method NextCh()
      requires buffer.Valid() && oldEols >= 0
      requires oldEols == 0 ==> Synced()
      modifies this`ch, this`pos, this`line, this`lineStart, this`oldEols, buffer`pos
      ensures buffer.Valid()
      ensures old(oldEols) > 0 ==>
        ch == EOL && oldEols == old(oldEols) - 1 &&
        pos == old(pos) && line == old(line) && lineStart == old(lineStart) && buffer.pos == old(buffer.pos)
      ensures old(oldEols) == 0 ==>
        oldEols == 0 && pos == old(pos) + 1 && Synced() &&
        line == old(line) + (if ch == EOL then 1 else 0) &&
        lineStart == (if ch == EOL then pos + 1 else old(lineStart))
    {
      if oldEols > 0 {
        ch := EOL;
        oldEols := oldEols - 1;
      } else {
        var c := buffer.Read();
        ch := c as char;
        pos := pos + 1;
        var next := buffer.Peek();
        if ch == '\r' && next != LF {
          ch := EOL;
        }
        if ch == EOL {
          line := line + 1;
          lineStart := pos + 1;
        }
      }
    }

    /** Skips blanks, then runs the automaton from the start state of the current
        character; returns the token it recognises, leaving the character that stopped
        it as the current one. */
    method NextToken() returns (tk: Token)
      requires buffer.Valid() && oldEols == 0 && 0 <= pos && Synced()
      modifies this`ch, this`pos, this`line, this`lineStart, this`oldEols, buffer`pos
      ensures buffer.Valid() && oldEols == 0 && 0 <= pos && Synced()
      ensures (tk, pos) == TokenAt(buffer.buf, old(pos))
    {
      ghost var buf := buffer.buf;
      ghost var p := pos;
      SkipIgnored();
      var tpos, tcol, tline := pos, pos - lineStart + 1, line;
      assert ch == Norm(buf, tpos) && tpos == SkipBlanks(buf, p);
      assert tcol == tpos - LineStart(buf, tpos + 1) + 1 && tline == 1 + EolCount(buf, tpos + 1);
      var state := StartState(ch);
      ghost var start := state;
      var text := [ch];
      assert text == Text(buf, tpos, tpos + 1);
      NextCh();
      assert pos == tpos + 1;
      var kind;
      kind, state, text := Automaton(tpos, state, text);
      tk := Token(kind, tpos, tcol, tline, text, Nil);
      TokenAtFrom(buf, p, tpos, state, pos);
    }

    /** NextToken's automaton loop: from state, with the text read since offset s, follows
        transitions while the current character allows one, then gives the token kind for
        the state it stopped in. */
    method Automaton(s: nat, state0: int, text0: string) returns (kind: int, state: int, text: string)
      requires buffer.Valid() && oldEols == 0 && s < pos && Synced()
      requires -1 <= state0 <= 21 && text0 == Text(buffer.buf, s, pos)
      modifies this`ch, this`pos, this`line, this`lineStart, this`oldEols, buffer`pos
      ensures buffer.Valid() && oldEols == 0 && s < pos && Synced()
      ensures (state, pos) == Run(buffer.buf, state0, old(pos)) && kind == Kind(state)
      ensures text == Text(buffer.buf, s, pos)
    {
      ghost var buf := buffer.buf;
      ghost var q0 := pos;
      state, text := state0, text0;
      while Accepts(state, ch)
        invariant buffer.Valid() && oldEols == 0 && q0 <= pos && Synced()
        invariant state <= 21 && text == Text(buf, s, pos)
        invariant Run(buf, state0, q0) == Run(buf, state, pos)
        decreases 21 - state
      {
        text := Consume(s, state, text);
        state := state + 1;
      }
      RunStep(buf, state, pos);
      kind := Kind(state);
    }

    /** One transition of the automaton (buf.append(ch); NextCh()): the current character,
        which the transition accepts, joins the text and the next one is read. */
    method Consume(ghost s: nat, ghost state: int, text: string) returns (text1: string)
      requires buffer.Valid() && oldEols == 0 && s <= pos && Synced()
      requires Accepts(state, ch) && text == Text(buffer.buf, s, pos)
      modifies this`ch, this`pos, this`line, this`lineStart, this`oldEols, buffer`pos
      ensures buffer.Valid() && oldEols == 0 && pos == old(pos) + 1 && Synced()
      ensures state <= 20 && Run(buffer.buf, state, old(pos)) == Run(buffer.buf, state + 1, pos)
      ensures text1 == Text(buffer.buf, s, pos)
    {
      AcceptsRealChar(state, ch);
      RunStep(buffer.buf, state, pos);
      TextSnoc(buffer.buf, s, pos);
      text1 := text + [ch];
      NextCh();
    }

    /** NextToken's first step: reads past the characters of the ignore set. */
    method SkipIgnored()
      requires buffer.Valid() && oldEols == 0 && 0 <= pos && Synced()
      modifies this`ch, this`pos, this`line, this`lineStart, this`oldEols, buffer`pos
      ensures buffer.Valid() && oldEols == 0 && Synced()
      ensures pos == SkipBlanks(buffer.buf, old(pos)) && !Ignored(ch)
    {
      ghost var p := pos;
      while Ignored(ch)
        invariant buffer.Valid() && oldEols == 0 && p <= pos && Synced()
        invariant SkipBlanks(buffer.buf, pos) == SkipBlanks(buffer.buf, p)
        decreases |buffer.buf| - pos
      {
        NextCh();
      }
    }

    /** Moves the current token on by one link and brings the peek token along. */
    method Scan() returns (tk: Token)
      requires Valid()
      modifies this`t, this`pt
      ensures Valid()
      ensures t == Link(tokens, old(t)) && pt == t && tk == tokens[t]
    {
      t := Link(tokens, t);
      pt := t;
      tk := tokens[t];
    }

    /** Moves only the peek token: one link on, then past any pragma (kind above MaxT). */
    method Peek() returns (tk: Token)
      requires Valid()
      modifies this`pt
      ensures Valid()
      ensures pt == NextVisible(tokens, old(pt)) && tk == tokens[pt]
      ensures tokens == Arena(buffer.buf) ==> pt == Link(tokens, old(pt))
    {
      if tokens == Arena(buffer.buf) {
        PeekIsOneLink(buffer.buf, pt);
      }
      pt := Link(tokens, pt);
      while tokens[pt].kind > MaxT
        invariant Valid()
        invariant NextVisible(tokens, old(pt)) == (if tokens[pt].kind > MaxT then NextVisible(tokens, pt) else pt)
        decreases |tokens| - pt
      {
        pt := Link(tokens, pt);
      }
      tk := tokens[pt];
    }

    /** Brings the peek token back to the current token. */
    method ResetPeek()
      requires Valid()
      modifies this`pt
      ensures Valid() && pt == t
    {
      pt := t;
    }
  }

  lemma ChainSnoc(ts: seq<Token>, tk: Token)
    ensures Chain(ts + [tk]) ==
      if ts == [] then [tk] else (Chain(ts) + [tk])[|ts| - 1 := Chain(ts)[|ts| - 1].(next := |ts|)]
  {
    var a := Chain(ts + [tk]);
    if ts != [] {
      var b := (Chain(ts) + [tk])[|ts| - 1 := Chain(ts)[|ts| - 1].(next := |ts|)];
      assert forall i :: 0 <= i < |a| ==> a[i] == b[i];
    }
  }

  /** Any number of peeks followed by ResetPeek leave Scan's answer what it was: the token
      after the current one. */
  method PeekResetScan(sc: Scanner, n: nat) returns (tk: Token)
    requires sc.Valid()
    modifies sc`t, sc`pt
    ensures sc.Valid()
    ensures sc.t == Link(sc.tokens, old(sc.t)) && tk == sc.tokens[sc.t]
  {
    var i := 0;
    while i < n
      invariant sc.Valid() && sc.t == old(sc.t) && i <= n
    {
      var _ := sc.Peek();
      i := i + 1;
    }
    sc.ResetPeek();
    tk := sc.Scan();
  }
}
