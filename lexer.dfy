/** The scanner's behaviour as functions of the input bytes: the character stream that
    NextCh delivers, the `start` table, the automaton of NextToken, the token record,
    and the sequence of tokens that repeated NextToken calls produce. */
module Lexer {
  import opened Buffers

  // Token kinds: the scanner's terminal numbers.
  const EofSym: int := 0
  const EolSym: int := 1
  const EmailSym: int := 2
  const NotSym: int := 3
  /** The kind given to text that completes no token. */
  const NoSym: int := NotSym
  /** The largest kind of a real terminal; a larger kind would be a pragma that Peek skips. */
  const MaxT: int := 3

  /** The link of the dummy head node that precedes the first token. */
  const Head: int := -1
  /** The link of a token that is not yet part of the list. */
  const Nil: int := -2

  /** A token: its kind, offset, column, line, text, and (in the token arena) the index of its successor. */
  datatype Token = Token(kind: int, pos: int, col: int, line: int, val: string, next: int)

  const EOL: char := '\n'
  /** The character value of the EOF sentinel. */
  const EofChar: char := 256 as char
  const CR: int := 13
  const LF: int := 10

  /** The `ignore` set: only the blank is skipped before a token. */
  predicate Ignored(c: char) { c == ' ' }

  predicate IsDigit(c: char) { '0' <= c <= '9' }

  predicate IsLetter(c: char) { 'A' <= c <= 'Z' || 'a' <= c <= 'z' }

  // ---------------------------------------------------------------------------
  // The character stream of NextCh

  /** The character NextCh delivers for offset i: the byte there (or EOF), except that a
      carriage return that is not followed by a line feed becomes a line feed. */
  function Norm(buf: seq<Byte>, i: nat): (c: char)
    ensures c as int <= EOF
    ensures c == EOL || c as int == CharAt(buf, i)
  {
    var b := CharAt(buf, i);
    if b == CR && CharAt(buf, i + 1) != LF then EOL else b as char
  }

  /** Line-ending normalisation: which offsets deliver a line break, when a carriage return
      survives, and that nothing else is rewritten. */
  lemma LineEndings(buf: seq<Byte>, i: nat)
    ensures Norm(buf, i) == EOL <==> i < |buf| && (buf[i] == LF || (buf[i] == CR && CharAt(buf, i + 1) != LF))
    ensures Norm(buf, i) == '\r' <==> i + 1 < |buf| && buf[i] == CR && buf[i + 1] == LF
    ensures Norm(buf, i) == EofChar <==> i >= |buf|
    ensures Norm(buf, i) as int != CharAt(buf, i) ==> buf[i] == CR && Norm(buf, i) == EOL
  {
  }

  /** The number of line breaks delivered at offsets 0..n-1. */
  function EolCount(buf: seq<Byte>, n: nat): (k: nat)
    ensures k <= n
  {
    if n == 0 then 0 else EolCount(buf, n - 1) + (if Norm(buf, n - 1) == EOL then 1 else 0)
  }

  /** The start of the current line once offsets 0..n-1 are read: one past the last line break, or 0. */
  function LineStart(buf: seq<Byte>, n: nat): (s: nat)
    ensures s <= n
  {
    if n == 0 then 0 else if Norm(buf, n - 1) == EOL then n else LineStart(buf, n - 1)
  }

  /** The line starts right after a line break (or at 0), and no break lies between its start and n. */
  lemma {:induction false} LineStartFacts(buf: seq<Byte>, n: nat)
    ensures var s := LineStart(buf, n);
      (s > 0 ==> Norm(buf, s - 1) == EOL) &&
      (forall i :: s <= i < n ==> Norm(buf, i) != EOL)
  {
    if n > 0 && Norm(buf, n - 1) != EOL {
      LineStartFacts(buf, n - 1);
    }
  }

  /** A carriage return followed by a line feed counts as one line break, not two. */
  lemma {:induction false} CrLfIsOneBreak(buf: seq<Byte>, i: nat)
    requires i + 1 < |buf| && buf[i] == CR && buf[i + 1] == LF
    ensures Norm(buf, i) == '\r' && Norm(buf, i + 1) == EOL
    ensures EolCount(buf, i + 2) == EolCount(buf, i) + 1
    ensures LineStart(buf, i + 2) == i + 2
  {
    assert EolCount(buf, i + 1) == EolCount(buf, i);
  }

  /** A carriage return on its own is a line break. */
  lemma {:induction false} LoneCrIsOneBreak(buf: seq<Byte>, i: nat)
    requires i < |buf| && buf[i] == CR && CharAt(buf, i + 1) != LF
    ensures Norm(buf, i) == EOL
    ensures EolCount(buf, i + 1) == EolCount(buf, i) + 1
    ensures LineStart(buf, i + 1) == i + 1
  {
  }

  /** The characters delivered at offsets s..e-1. */
  function Text(buf: seq<Byte>, s: nat, e: nat): (w: string)
    requires s <= e
    decreases e - s
    ensures |w| == e - s
  {
    if s == e then [] else Text(buf, s, e - 1) + [Norm(buf, e - 1)]
  }

  /** Character k of Text(buf, s, e) is the one delivered at offset s + k. */
  lemma {:induction false} TextAt(buf: seq<Byte>, s: nat, e: nat)
    requires s <= e
    decreases e - s
    ensures forall k :: 0 <= k < e - s ==> Text(buf, s, e)[k] == Norm(buf, s + k)
  {
    if s < e {
      TextAt(buf, s, e - 1);
    }
  }

  /** Reading one more character appends it to the text. */
  lemma TextSnoc(buf: seq<Byte>, s: nat, e: nat)
    requires s <= e
    ensures Text(buf, s, e + 1) == Text(buf, s, e) + [Norm(buf, e)]
  {
  }

  /** A shorter text from the same offset is a prefix of a longer one. */
  lemma TextPrefix(buf: seq<Byte>, s: nat, e: nat, f: nat)
    requires s <= e <= f
    ensures forall k :: 0 <= k < e - s ==> Text(buf, s, e)[k] == Text(buf, s, f)[k]
  {
    TextAt(buf, s, e);
    TextAt(buf, s, f);
  }

  // ---------------------------------------------------------------------------
  // The automaton of NextToken

  /** The `start` table: the state for a token's first character. Entry 10 is 1, the letters
      A-Z and a-z are 2, entry 256 (EOF) is -1, and every other entry, digits included, is 0. */
  function StartState(c: char): (r: int)
    ensures -1 <= r <= 2
    ensures r == -1 <==> c == EofChar
    ensures r == 1 <==> c == EOL
    ensures r == 2 <==> IsLetter(c)
  {
    if c == EOL then 1
    else if IsLetter(c) then 2
    else if c == EofChar then -1
    else 0
  }

  /** The character test of each state 2..20; the transition goes to state + 1. */
  predicate Accepts(state: int, c: char)
    ensures Accepts(state, c) ==> 2 <= state <= 20 && c != EofChar
  {
    match state
    case 2 => IsDigit(c)
    case 3 => IsDigit(c)
    case 4 => IsLetter(c)
    case 5 => c == '@'
    case 6 => c == 'c'
    case 7 => c == 'a'
    case 8 => c == 'm'
    case 9 => c == 'p'
    case 10 => c == 'u'
    case 11 => c == 's'
    case 12 => c == '.'
    case 13 => c == 'r'
    case 14 => c == 'u'
    case 15 => c == '.'
    case 16 => c == 'a'
    case 17 => c == 'c'
    case 18 => c == '.'
    case 19 => c == 'z'
    case 20 => c == 'a'
    case _ => false
  }

  /** The kind a token gets when the automaton stops in state. */
  function Kind(state: int): (k: int)
    ensures EofSym <= k <= MaxT
    ensures k == EofSym <==> state == -1
    ensures k == EolSym <==> state == 1
    ensures k == EmailSym <==> state == 21
  {
    if state == -1 then EofSym
    else if state == 1 then EolSym
    else if state == 21 then EmailSym
    else NoSym
  }

  /** The characters a transition accepts are real characters: never a blank, a line break or EOF. */
  lemma AcceptsRealChar(state: int, c: char)
    requires Accepts(state, c)
    ensures 2 <= state <= 20
    ensures !Ignored(c) && c != EOL && c != EofChar
  {
  }

  /** Runs the automaton from state with the scanner at offset q; yields the state it stops in
      and the offset of the character that stopped it (which is not consumed). */
  function Run(buf: seq<Byte>, state: int, q: nat): (r: (int, nat))
    decreases 21 - state
    ensures state <= r.0 && r.1 == q + (r.0 - state)
    ensures r.0 > state ==> 2 <= state && r.0 <= 21 && r.1 <= |buf|
  {
    if Accepts(state, Norm(buf, q)) then
      AcceptsRealChar(state, Norm(buf, q));
      Run(buf, state + 1, q + 1)
    else
      (state, q)
  }

  /** Every character a run consumes took a transition; the character it stops at allows no
      transition from the state it stops in. */
  lemma {:induction false} RunReads(buf: seq<Byte>, state: int, q: nat)
    decreases 21 - state
    ensures var r := Run(buf, state, q);
      (forall i :: q <= i < r.1 ==> Accepts(r.0 - (r.1 - i), Norm(buf, i))) &&
      !Accepts(r.0, Norm(buf, r.1))
  {
    RunStep(buf, state, q);
    if Accepts(state, Norm(buf, q)) {
      RunReads(buf, state + 1, q + 1);
      var r := Run(buf, state, q);
      assert r == Run(buf, state + 1, q + 1) && r.0 - (r.1 - q) == state;
    }
  }

  /** No character a run consumes is a blank. */
  lemma {:induction false} RunNoBlanks(buf: seq<Byte>, state: int, q: nat)
    decreases 21 - state
    ensures forall i :: q <= i < Run(buf, state, q).1 ==> !Ignored(Norm(buf, i))
  {
    RunStep(buf, state, q);
    if Accepts(state, Norm(buf, q)) {
      AcceptsRealChar(state, Norm(buf, q));
      RunNoBlanks(buf, state + 1, q + 1);
    }
  }

  /** One step of Run: a transition taken, or none and the run ends where it is. */
  lemma RunStep(buf: seq<Byte>, state: int, q: nat)
    ensures Accepts(state, Norm(buf, q)) ==> Run(buf, state, q) == Run(buf, state + 1, q + 1)
    ensures !Accepts(state, Norm(buf, q)) ==> Run(buf, state, q) == (state, q)
  {
  }

  /** The first offset at or after p whose character is not ignored. */
  function SkipBlanks(buf: seq<Byte>, p: nat): (s: nat)
    decreases |buf| - p
    ensures p <= s && !Ignored(Norm(buf, s))
    ensures s == p || s <= |buf|
  {
    if Ignored(Norm(buf, p)) then SkipBlanks(buf, p + 1) else p
  }

  /** Everything SkipBlanks passes over is a blank. */
  lemma {:induction false} SkipBlanksSkips(buf: seq<Byte>, p: nat)
    decreases |buf| - p
    ensures forall i :: p <= i < SkipBlanks(buf, p) ==> Ignored(Norm(buf, i))
  {
    if Ignored(Norm(buf, p)) {
      SkipBlanksSkips(buf, p + 1);
    }
  }

  /** The token NextToken builds when the scanner stands at offset p (the character there is
      the current one), paired with the offset it leaves the scanner at. */
  function TokenAt(buf: seq<Byte>, p: nat): (r: (Token, nat))
    ensures p <= r.0.pos < r.1 && |r.0.val| == r.1 - r.0.pos
    ensures EofSym <= r.0.kind <= MaxT
    ensures r.0.kind == EofSym <==> r.0.pos >= |buf|
    ensures r.0.kind != EofSym ==> r.1 <= |buf|
    ensures r.0.next == Nil
  {
    var s := SkipBlanks(buf, p);
    var r := Run(buf, StartState(Norm(buf, s)), s + 1);
    TokenFacts(buf, s);
    (Token(Kind(r.0), s, s - LineStart(buf, s + 1) + 1, 1 + EolCount(buf, s + 1), Text(buf, s, r.1), Nil), r.1)
  }

  /** TokenAt, spelled out: the token starts at the first non-blank offset s, and its kind
      and end come from the run of the automaton on the characters after s. */
  lemma TokenAtIs(buf: seq<Byte>, p: nat)
    ensures var s := SkipBlanks(buf, p); var r := Run(buf, StartState(Norm(buf, s)), s + 1);
      TokenAt(buf, p) ==
        (Token(Kind(r.0), s, s - LineStart(buf, s + 1) + 1, 1 + EolCount(buf, s + 1), Text(buf, s, r.1), Nil), r.1)
  {
  }

  /** TokenAt, given the offset the blanks end at and the result of the run from there. */
  lemma TokenAtFrom(buf: seq<Byte>, p: nat, s: nat, state: int, e: nat)
    requires s == SkipBlanks(buf, p) && (state, e) == Run(buf, StartState(Norm(buf, s)), s + 1)
    ensures s <= e
    ensures TokenAt(buf, p) ==
      (Token(Kind(state), s, s - LineStart(buf, s + 1) + 1, 1 + EolCount(buf, s + 1), Text(buf, s, e), Nil), e)
  {
    TokenAtIs(buf, p);
  }

  /** What the first character and the run after it say about the kind and the end of a
      token starting at s. */
  lemma TokenFacts(buf: seq<Byte>, s: nat)
    requires !Ignored(Norm(buf, s))
    ensures var r := Run(buf, StartState(Norm(buf, s)), s + 1);
      (Kind(r.0) == EofSym <==> s >= |buf|) &&
      (r.0 != -1 ==> r.1 <= |buf|)
  {
    var st := StartState(Norm(buf, s));
    RunStep(buf, st, s + 1);
  }

  /** A token is preceded only by blanks and holds none itself. */
  lemma TokenBlanks(buf: seq<Byte>, p: nat)
    ensures var (tk, e) := TokenAt(buf, p);
      (forall i :: p <= i < tk.pos ==> Ignored(Norm(buf, i))) &&
      (forall k :: 0 <= k < |tk.val| ==> !Ignored(tk.val[k]))
  {
    var s := SkipBlanks(buf, p);
    SkipBlanksSkips(buf, p);
    TokenAtIs(buf, p);
    RunTextNoBlanks(buf, s);
  }

  /** The text of the token that starts at the non-blank offset s holds no blank. */
  lemma RunTextNoBlanks(buf: seq<Byte>, s: nat)
    requires !Ignored(Norm(buf, s))
    ensures var e := Run(buf, StartState(Norm(buf, s)), s + 1).1;
      s < e && forall k :: 0 <= k < e - s ==> !Ignored(Text(buf, s, e)[k])
  {
    var e := Run(buf, StartState(Norm(buf, s)), s + 1).1;
    RunNoBlanks(buf, StartState(Norm(buf, s)), s + 1);
    TextAt(buf, s, e);
  }

  /** The tokens NextToken returns one after another from offset p, up to and including the
      first end-of-input token (not yet linked, the last one not yet patched). */
  function Pending(buf: seq<Byte>, p: nat): (ts: seq<Token>)
    decreases |buf| + 1 - p
    ensures |ts| >= 1 && ts[0] == TokenAt(buf, p).0
  {
    var (tk, e) := TokenAt(buf, p);
    if tk.kind == EofSym then [tk] else [tk] + Pending(buf, e)
  }

  /** The shape of Pending: one end-of-input token, last; offsets strictly increasing from p;
      no token linked yet. */
  lemma PendingFacts(buf: seq<Byte>, p: nat)
    ensures var ts := Pending(buf, p);
      ts[|ts| - 1].kind == EofSym &&
      (forall i :: 0 <= i < |ts| - 1 ==> ts[i].kind != EofSym) &&
      (forall i :: 0 <= i < |ts| - 1 ==> ts[i].pos < ts[i + 1].pos) &&
      (forall i :: 0 <= i < |ts| ==> p <= ts[i].pos && ts[i].next == Nil)
  {
    PendingEnds(buf, p);
    PendingOrdered(buf, p);
  }

  lemma {:induction false} PendingEnds(buf: seq<Byte>, p: nat)
    decreases |buf| + 1 - p
    ensures var ts := Pending(buf, p);
      ts[|ts| - 1].kind == EofSym &&
      (forall i :: 0 <= i < |ts| - 1 ==> ts[i].kind != EofSym)
  {
    var (tk, e) := TokenAt(buf, p);
    var ts := Pending(buf, p);
    if tk.kind != EofSym {
      PendingEnds(buf, e);
      var rest := Pending(buf, e);
      assert ts == [tk] + rest;
      assert forall i :: 1 <= i < |ts| ==> ts[i] == rest[i - 1];
    }
  }

  lemma {:induction false} PendingOrdered(buf: seq<Byte>, p: nat)
    decreases |buf| + 1 - p
    ensures var ts := Pending(buf, p);
      (forall i :: 0 <= i < |ts| - 1 ==> ts[i].pos < ts[i + 1].pos) &&
      (forall i :: 0 <= i < |ts| ==> p <= ts[i].pos && ts[i].next == Nil)
  {
    var (tk, e) := TokenAt(buf, p);
    var ts := Pending(buf, p);
    if tk.kind != EofSym {
      PendingOrdered(buf, e);
      var rest := Pending(buf, e);
      assert var ts := Pending(buf, e);
        (forall i :: 0 <= i < |ts| - 1 ==> ts[i].pos < ts[i + 1].pos) &&
        (forall i :: 0 <= i < |ts| ==> e <= ts[i].pos && ts[i].next == Nil);
      assert ts == [tk] + rest;
      assert forall i :: 1 <= i < |ts| ==> ts[i] == rest[i - 1];
    } else {
      assert ts == [tk];
    }
  }

  /** Pending unfolded once, behind tokens already taken: taking the token at p leaves the
      tokens after it still to come, or, for the end-of-input token, none. */
  lemma PendingStep(buf: seq<Byte>, p0: nat, built: seq<Token>, p: nat)
    requires built + Pending(buf, p) == Pending(buf, p0)
    ensures TokenAt(buf, p).0.kind == EofSym ==> built + [TokenAt(buf, p).0] == Pending(buf, p0)
    ensures TokenAt(buf, p).0.kind != EofSym ==>
      (built + [TokenAt(buf, p).0]) + Pending(buf, TokenAt(buf, p).1) == Pending(buf, p0)
  {
    var (tk, e) := TokenAt(buf, p);
    if tk.kind != EofSym {
      assert Pending(buf, p) == [tk] + Pending(buf, e);
    }
  }

  // ---------------------------------------------------------------------------
  // The Email_Sym pattern, stated independently of the automaton

  const Domain: string := "@campus.ru.ac.za"

  /** An Email_Sym text: a letter, two digits, a letter, then "@campus.ru.ac.za". */
  predicate IsEmail(w: string)
  {
    |w| == 20 && IsLetter(w[0]) && IsDigit(w[1]) && IsDigit(w[2]) && IsLetter(w[3]) && w[4..] == Domain
  }

  /** Whether c may stand at position k of an Email_Sym text. */
  predicate Fits(k: int, c: char)
  {
    if k == 0 || k == 3 then IsLetter(c)
    else if k == 1 || k == 2 then IsDigit(c)
    else 4 <= k < 20 && c == Domain[k - 4]
  }

  /** w can be extended to an Email_Sym text. */
  predicate IsEmailPrefix(w: string)
  {
    |w| <= 20 && forall k :: 0 <= k < |w| ==> Fits(k, w[k])
  }

  lemma EmailIsFullPrefix(w: string)
    ensures IsEmail(w) <==> |w| == 20 && IsEmailPrefix(w)
  {
    if |w| == 20 && IsEmailPrefix(w) {
      assert forall k :: 0 <= k < 16 ==> w[4..][k] == w[k + 4] && Fits(k + 4, w[k + 4]);
    }
    if IsEmail(w) {
      forall k | 0 <= k < 20 ensures Fits(k, w[k]) {
        if k >= 4 {
          assert w[k] == w[4..][k - 4];
        }
      }
    }
  }

  /** A prefix of a pattern prefix is one too. */
  lemma PrefixOfPrefix(w: string, full: string)
    requires IsEmailPrefix(full) && |w| <= |full|
    requires forall k :: 0 <= k < |w| ==> w[k] == full[k]
    ensures IsEmailPrefix(w)
  {
  }

  /** The per-state tests of the automaton are exactly the positions of the pattern:
      state n reads the character at position n - 1. */
  lemma AcceptsFits(state: int, c: char)
    ensures Accepts(state, c) <==> 2 <= state <= 20 && Fits(state - 1, c)
  {
  }

  /** From a letter the automaton reads the longest prefix of the pattern it can, and the
      character it stops at cannot extend that prefix. */
  lemma LetterRun(buf: seq<Byte>, s: nat)
    requires IsLetter(Norm(buf, s))
    ensures var (last, e) := Run(buf, 2, s + 1);
      IsEmailPrefix(Text(buf, s, e)) && e - s == last - 1 &&
      !IsEmailPrefix(Text(buf, s, e) + [Norm(buf, e)])
  {
    var (last, e) := Run(buf, 2, s + 1);
    RunReads(buf, 2, s + 1);
    TextAt(buf, s, e);
    RunIsPrefix(buf, s, last, e);
    if last <= 20 {
      AcceptsFits(last, Norm(buf, e));
      var w := Text(buf, s, e);
      assert !Fits(|w|, (w + [Norm(buf, e)])[|w|]);
    }
  }

  /** The characters of a run from a letter, one transition each, form a prefix of the pattern. */
  lemma RunIsPrefix(buf: seq<Byte>, s: nat, last: int, e: nat)
    requires IsLetter(Norm(buf, s)) && s < e && e - s == last - 1 <= 20
    requires forall i :: s + 1 <= i < e ==> Accepts(last - (e - i), Norm(buf, i))
    requires forall k :: 0 <= k < e - s ==> Text(buf, s, e)[k] == Norm(buf, s + k)
    ensures IsEmailPrefix(Text(buf, s, e))
  {
    var w := Text(buf, s, e);
    forall k | 0 <= k < |w|
      ensures Fits(k, w[k])
    {
      if k > 0 {
        assert Accepts(k + 1, w[k]);
        AcceptsFits(k + 1, w[k]);
      }
    }
  }

  /** Every prefix of input text that spells an Email_Sym is a pattern prefix. */
  lemma EmailPrefixes(buf: seq<Byte>, s: nat, e: nat)
    requires IsEmail(Text(buf, s, s + 20)) && s <= e <= s + 20
    ensures IsEmailPrefix(Text(buf, s, e))
  {
    EmailIsFullPrefix(Text(buf, s, s + 20));
    TextPrefix(buf, s, e, s + 20);
    PrefixOfPrefix(Text(buf, s, e), Text(buf, s, s + 20));
  }

  /** The automaton misses no Email_Sym: when the input after the blanks spells one, the token
      is that Email_Sym, all 20 characters of it. */
  lemma EmailInputGivesEmail(buf: seq<Byte>, p: nat)
    requires var s := SkipBlanks(buf, p); IsEmail(Text(buf, s, s + 20))
    ensures var s := SkipBlanks(buf, p);
      TokenAt(buf, p).0.kind == EmailSym && TokenAt(buf, p).1 == s + 20
  {
    var s := SkipBlanks(buf, p);
    EmailRunIsWhole(buf, s);
    var (last, e) := Run(buf, 2, s + 1);
    TokenAtFrom(buf, p, s, last, e);
  }

  /** From the first letter of an Email_Sym in the input, the automaton runs to state 21,
      consuming the whole Email_Sym. */
  lemma EmailRunIsWhole(buf: seq<Byte>, s: nat)
    requires IsEmail(Text(buf, s, s + 20))
    ensures var (last, e) := Run(buf, 2, s + 1); IsLetter(Norm(buf, s)) && last == 21 && e == s + 20
  {
    EmailStartsWithLetter(buf, s);
    var (last, e) := Run(buf, 2, s + 1);
    LetterRun(buf, s);
    if e < s + 20 {
      EmailExtends(buf, s, e);
      assert false;
    }
  }

  lemma EmailStartsWithLetter(buf: seq<Byte>, s: nat)
    requires IsEmail(Text(buf, s, s + 20))
    ensures IsLetter(Norm(buf, s))
  {
    TextPrefix(buf, s, s + 1, s + 20);
    assert Text(buf, s, s + 1) == Text(buf, s, s) + [Norm(buf, s)];
  }

  /** Short of its end, an Email_Sym in the input always offers the next pattern character. */
  lemma EmailExtends(buf: seq<Byte>, s: nat, e: nat)
    requires IsEmail(Text(buf, s, s + 20)) && s <= e < s + 20
    ensures IsEmailPrefix(Text(buf, s, e) + [Norm(buf, e)])
  {
    EmailPrefixes(buf, s, e + 1);
    TextSnoc(buf, s, e);
  }

  /** "12a@campus.ru.ac.za" as bytes. */
  const DigitFirst: seq<Byte> := [49, 50, 97, 64, 99, 97, 109, 112, 117, 115, 46, 114, 117, 46, 97, 99, 46, 122, 97]

  /** A text that starts with a digit is no Email_Sym: its first token is the digit alone. */
  lemma DigitFirstIsNotEmail()
    ensures TokenAt(DigitFirst, 0).0.kind == NotSym && TokenAt(DigitFirst, 0).0.val == "1"
    ensures TokenAt(DigitFirst, 0).1 == 1
  {
    assert Norm(DigitFirst, 0) == '1';
    StrayCharIsOneToken(DigitFirst, 0);
  }

  /** End of input: kind EofSym exactly when the (unpatched) text is the EOF character. */
  lemma ClassifyEof(buf: seq<Byte>, p: nat)
    ensures var tk := TokenAt(buf, p).0;
      tk.kind == EofSym <==> tk.val == [EofChar]
  {
    var (tk, e) := TokenAt(buf, p);
    var s := SkipBlanks(buf, p);
    var c := Norm(buf, s);
    TokenAtIs(buf, p);
    TextAt(buf, s, e);
    assert tk.val == Text(buf, s, e) && tk.val[0] == c;
    if !IsLetter(c) {
      assert Run(buf, StartState(c), s + 1) == (StartState(c), s + 1);
    }
  }

  /** A line break is a token of its own, kind EolSym, and nothing else is. */
  lemma ClassifyEol(buf: seq<Byte>, p: nat)
    ensures var tk := TokenAt(buf, p).0;
      tk.kind == EolSym <==> tk.val == [EOL]
  {
    var (tk, e) := TokenAt(buf, p);
    var s := SkipBlanks(buf, p);
    var c := Norm(buf, s);
    TokenAtIs(buf, p);
    TextAt(buf, s, e);
    assert tk.val == Text(buf, s, e) && tk.val[0] == c;
    if !IsLetter(c) {
      assert Run(buf, StartState(c), s + 1) == (StartState(c), s + 1);
    }
  }

  /** Kind EmailSym exactly when the text is an Email_Sym text. */
  lemma ClassifyEmail(buf: seq<Byte>, p: nat)
    ensures var tk := TokenAt(buf, p).0;
      tk.kind == EmailSym <==> IsEmail(tk.val)
  {
    TokenAtIs(buf, p);
    RunEmail(buf, SkipBlanks(buf, p));
  }

  /** ClassifyEmail for the run that starts at offset s. */
  lemma RunEmail(buf: seq<Byte>, s: nat)
    ensures var (last, e) := Run(buf, StartState(Norm(buf, s)), s + 1);
      s < e && (Kind(last) == EmailSym <==> IsEmail(Text(buf, s, e)))
  {
    var c := Norm(buf, s);
    var (last, e) := Run(buf, StartState(c), s + 1);
    var w := Text(buf, s, e);
    TextAt(buf, s, e);
    assert w[0] == c;
    EmailIsFullPrefix(w);
    if IsLetter(c) {
      LetterRun(buf, s);
    } else {
      RunStep(buf, StartState(c), s + 1);
      assert last == StartState(c) && |w| == 1;
    }
  }

  /** Kind NotSym for a single character that starts no token, or for the longest prefix of
      the Email_Sym pattern that the input offers, short of the whole pattern. The character
      that fails to extend it is left for the next token. */
  lemma ClassifyNotSym(buf: seq<Byte>, p: nat)
    ensures var (tk, e) := TokenAt(buf, p);
      tk.kind == NotSym <==>
        (|tk.val| == 1 && StartState(tk.val[0]) == 0) ||
        (IsEmailPrefix(tk.val) && |tk.val| < 20 && !IsEmailPrefix(tk.val + [Norm(buf, e)]))
  {
    TokenAtIs(buf, p);
    RunNotSym(buf, SkipBlanks(buf, p));
  }

  /** ClassifyNotSym for the run that starts at offset s. */
  lemma RunNotSym(buf: seq<Byte>, s: nat)
    ensures var (last, e) := Run(buf, StartState(Norm(buf, s)), s + 1);
      var w := Text(buf, s, e);
      s < e && (Kind(last) == NotSym <==>
        (|w| == 1 && StartState(w[0]) == 0) ||
        (IsEmailPrefix(w) && |w| < 20 && !IsEmailPrefix(w + [Norm(buf, e)])))
  {
    var c := Norm(buf, s);
    var (last, e) := Run(buf, StartState(c), s + 1);
    var w := Text(buf, s, e);
    TextAt(buf, s, e);
    assert w[0] == c;
    if IsLetter(c) {
      LetterRun(buf, s);
    } else {
      RunStep(buf, StartState(c), s + 1);
      assert last == StartState(c) && |w| == 1;
    }
  }

  /** A first character the start table sends to state 0 (a digit, say) is a NotSym token of
      its own, one character long. */
  lemma StrayCharIsOneToken(buf: seq<Byte>, p: nat)
    requires var c := Norm(buf, SkipBlanks(buf, p)); c != EOL && c != EofChar && !IsLetter(c)
    ensures var (tk, e) := TokenAt(buf, p);
      tk.kind == NotSym && tk.val == [Norm(buf, tk.pos)] && e == tk.pos + 1
  {
    var s := SkipBlanks(buf, p);
    RunStep(buf, 0, s + 1);
    TokenAtFrom(buf, p, s, 0, s + 1);
    assert Text(buf, s, s + 1) == Text(buf, s, s) + [Norm(buf, s)];
  }

  /** The character that stops a token is not consumed: after skipping blanks the next token
      starts there, and if it is not a blank it is that token's first character. */
  lemma StopCharStartsNext(buf: seq<Byte>, p: nat)
    ensures var (tk, e) := TokenAt(buf, p); var next := TokenAt(buf, e).0;
      next.pos == SkipBlanks(buf, e) &&
      (!Ignored(Norm(buf, e)) ==> next.pos == e && next.val[0] == Norm(buf, e))
  {
    var e := TokenAt(buf, p).1;
    TokenAtIs(buf, e);
    var (next, e2) := TokenAt(buf, e);
    TextAt(buf, next.pos, e2);
  }

  /** The carriage return of a CR LF pair is not a blank and starts no token: it becomes a NotSym
      token of its own, and the line feed after it is the line break. */
  lemma CrOfCrLfIsNotSym(buf: seq<Byte>, p: nat)
    requires p + 1 < |buf| && buf[p] == CR && buf[p + 1] == LF
    ensures TokenAt(buf, p).0.kind == NotSym && TokenAt(buf, p).0.val == "\r"
    ensures TokenAt(buf, p).1 == p + 1 && TokenAt(buf, p + 1).0.kind == EolSym
  {
    assert Norm(buf, p) == '\r' && Norm(buf, p + 1) == EOL;
    TokenAtFrom(buf, p, p, 0, p + 1);
    TokenAtFrom(buf, p + 1, p + 1, 1, p + 2);
    assert Text(buf, p, p + 1) == Text(buf, p, p) + [Norm(buf, p)];
  }

  /** Where NextToken places the token it builds: a line break token sits at column 0 and
      already carries the number of the line that follows it; any other token carries its
      own line and a column of at least 1, counted from the start of that line. */
  lemma TokenPlace(buf: seq<Byte>, p: nat)
    ensures var tk := TokenAt(buf, p).0;
      (tk.kind == EolSym ==> tk.col == 0 && tk.line == 2 + EolCount(buf, tk.pos)) &&
      (tk.kind != EolSym ==>
         tk.col == tk.pos - LineStart(buf, tk.pos) + 1 && tk.col >= 1 && tk.line == 1 + EolCount(buf, tk.pos))
  {
    var tk := TokenAt(buf, p).0;
    ClassifyEol(buf, p);
    var s := tk.pos;
    TokenAtIs(buf, p);
    TextAt(buf, s, TokenAt(buf, p).1);
    assert tk.val[0] == Norm(buf, s);
  }

  // ---------------------------------------------------------------------------
  // Nothing but blanks is lost

  /** The texts of ts, one after another. */
  function Concat(ts: seq<Token>): string
  {
    if ts == [] then [] else ts[0].val + Concat(ts[1..])
  }

  /** w without its ignored characters. */
  function Unblanked(w: string): string
  {
    if w == [] then [] else (if Ignored(w[0]) then [] else [w[0]]) + Unblanked(w[1..])
  }

  lemma {:induction false} UnblankedAppend(a: string, b: string)
    ensures Unblanked(a + b) == Unblanked(a) + Unblanked(b)
  {
    if a == [] {
      assert a + b == b;
    } else {
      assert (a + b)[0] == a[0] && (a + b)[1..] == a[1..] + b;
      UnblankedAppend(a[1..], b);
    }
  }

  lemma {:induction false} UnblankedKeeps(w: string)
    requires forall k :: 0 <= k < |w| ==> !Ignored(w[k])
    ensures Unblanked(w) == w
  {
    if w != [] {
      UnblankedKeeps(w[1..]);
    }
  }

  lemma {:induction false} UnblankedDrops(w: string)
    requires forall k :: 0 <= k < |w| ==> Ignored(w[k])
    ensures Unblanked(w) == []
  {
    if w != [] {
      UnblankedDrops(w[1..]);
    }
  }

  lemma {:induction false} TextSplit(buf: seq<Byte>, a: nat, b: nat, c: nat)
    requires a <= b <= c
    decreases c - b
    ensures Text(buf, a, c) == Text(buf, a, b) + Text(buf, b, c)
  {
    if b < c {
      TextSplit(buf, a, b, c - 1);
      assert Text(buf, a, c) == (Text(buf, a, b) + Text(buf, b, c - 1)) + [Norm(buf, c - 1)];
    }
  }

  /** One token's share of the input: the blanks before it, dropped, then its own text. */
  lemma TokenShare(buf: seq<Byte>, p: nat)
    requires p <= |buf|
    ensures var (tk, e) := TokenAt(buf, p);
      tk.kind != EofSym ==> Unblanked(Text(buf, p, |buf|)) == tk.val + Unblanked(Text(buf, e, |buf|))
  {
    var (tk, e) := TokenAt(buf, p);
    var s := tk.pos;
    TokenBlanks(buf, p);
    if tk.kind != EofSym {
      assert tk.val == Text(buf, s, e);
      TextSplit(buf, p, s, |buf|);
      TextSplit(buf, s, e, |buf|);
      assert Text(buf, p, |buf|) == Text(buf, p, s) + (tk.val + Text(buf, e, |buf|));
      UnblankedAppend(Text(buf, p, s), tk.val + Text(buf, e, |buf|));
      UnblankedAppend(tk.val, Text(buf, e, |buf|));
      TextAt(buf, p, s);
      UnblankedDrops(Text(buf, p, s));
      UnblankedKeeps(tk.val);
    }
  }

  /** Past the last token there are only blanks. */
  lemma BlanksBeforeEof(buf: seq<Byte>, p: nat)
    requires p <= |buf|
    ensures TokenAt(buf, p).0.kind == EofSym ==> Unblanked(Text(buf, p, |buf|)) == []
  {
    TokenBlanks(buf, p);
    if TokenAt(buf, p).0.kind == EofSym {
      TextAt(buf, p, |buf|);
      UnblankedDrops(Text(buf, p, |buf|));
    }
  }

  /** The texts of all tokens before the end-of-input token, put together, are the input as
      NextCh delivers it (isolated carriage returns turned into line feeds) with the blanks
      removed: only blanks are dropped, and each character lands in exactly one token. */
  lemma {:induction false} NothingLost(buf: seq<Byte>, p: nat)
    requires p <= |buf|
    decreases |buf| - p
    ensures var ts := Pending(buf, p);
      Concat(ts[..|ts| - 1]) == Unblanked(Text(buf, p, |buf|))
  {
    var ts := Pending(buf, p);
    var (tk, e) := TokenAt(buf, p);
    if tk.kind == EofSym {
      BlanksBeforeEof(buf, p);
      assert ts[..|ts| - 1] == [];
    } else {
      var rest := Pending(buf, e);
      var front := rest[..|rest| - 1];
      assert ts[..|ts| - 1] == [tk] + front;
      assert ([tk] + front)[1..] == front;
      NothingLost(buf, e);
      TokenShare(buf, p);
    }
  }

  /** Input made only of blanks gives exactly one token, the end-of-input token. */
  lemma {:induction false} OnlyBlanks(buf: seq<Byte>, p: nat)
    requires forall i :: p <= i < |buf| ==> buf[i] == ' ' as int
    ensures |Pending(buf, p)| == 1
    decreases |buf| - p
  {
    if p < |buf| {
      assert Norm(buf, p) == ' ';
      OnlyBlanks(buf, p + 1);
      assert SkipBlanks(buf, p) == SkipBlanks(buf, p + 1);
      assert TokenAt(buf, p) == TokenAt(buf, p + 1);
    }
  }
}
