/** The token list that Init builds, as an arena: token i lives in slot i, its link is the
    index of its successor, and the terminal token links to itself. The dummy head that
    precedes the first token is index Head (-1); its link is always slot 0. */
module TokenList {
  import opened Buffers
  import opened Lexer

  /** The list while Init builds it: every token but the newest links to the next slot. */
  function Chain(ts: seq<Token>): (r: seq<Token>)
    ensures |r| == |ts|
  {
    seq(|ts|, i requires 0 <= i < |ts| => if i < |ts| - 1 then ts[i].(next := i + 1) else ts[i])
  }

  /** Linking changes nothing but the links, and the newest token is not linked yet. */
  lemma ChainOnlyLinks(ts: seq<Token>)
    ensures forall i :: 0 <= i < |ts| ==> Chain(ts)[i].(next := ts[i].next) == ts[i]
    ensures |ts| >= 1 ==> Chain(ts)[|ts| - 1] == ts[|ts| - 1]
  {
  }

  /** Init's final patch: the terminal token links to itself and its text becomes "EOF". */
  function Close(ts: seq<Token>): (r: seq<Token>)
    requires |ts| >= 1
    ensures |r| == |ts|
  {
    ts[|ts| - 1 := ts[|ts| - 1].(next := |ts| - 1, val := "EOF")]
  }

  /** The patch touches only the terminal token, and only its link and its text. */
  lemma CloseOnlyPatchesLast(ts: seq<Token>)
    requires |ts| >= 1
    ensures forall i :: 0 <= i < |ts| - 1 ==> Close(ts)[i] == ts[i]
    ensures var r, n := Close(ts), |ts| - 1;
      r[n].(next := ts[n].next, val := ts[n].val) == ts[n] && r[n].next == n && r[n].val == "EOF"
  {
  }

  /** The finished token list for an input. */
  function Arena(buf: seq<Byte>): seq<Token>
  {
    Close(Chain(Pending(buf, 0)))
  }

  /** A well-formed list: tokens of other kinds, each linking to the next slot, then one
      end-of-input token that links to itself and reads "EOF". */
  ghost predicate ListShape(ts: seq<Token>)
  {
    |ts| >= 1 &&
    (forall i :: 0 <= i < |ts| - 1 ==> ts[i].next == i + 1 && ts[i].kind != EofSym) &&
    ts[|ts| - 1].next == |ts| - 1 && ts[|ts| - 1].kind == EofSym && ts[|ts| - 1].val == "EOF"
  }

  /** Follows the link of node i (the dummy head or a slot). */
  function Link(ts: seq<Token>, i: int): (j: int)
    requires ListShape(ts) && Head <= i < |ts|
    ensures 0 <= j < |ts|
    ensures j == if i < |ts| - 1 then i + 1 else i
  {
    if i == Head then 0 else ts[i].next
  }

  /** Where Peek's loop stops: the first node after i, along the links, whose kind is at most MaxT. */
  function NextVisible(ts: seq<Token>, i: int): (j: int)
    requires ListShape(ts) && Head <= i < |ts|
    decreases |ts| - i
    ensures i < j < |ts| || j == i == |ts| - 1
    ensures ts[j].kind <= MaxT
    ensures forall k :: i < k < j ==> ts[k].kind > MaxT
  {
    var j := Link(ts, i);
    if ts[j].kind > MaxT then NextVisible(ts, j) else j
  }

  /** The tokens of the finished list are those NextToken returned, in order, linked. */
  lemma ArenaShape(buf: seq<Byte>)
    ensures var ts := Pending(buf, 0); var a := Arena(buf);
      ListShape(a) && |a| == |ts| &&
      (forall i :: 0 <= i < |a| - 1 ==> a[i] == ts[i].(next := i + 1)) &&
      a[|a| - 1] == ts[|ts| - 1].(next := |ts| - 1, val := "EOF")
  {
    var ts := Pending(buf, 0);
    var a := Arena(buf);
    PendingFacts(buf, 0);
    assert forall i :: 0 <= i < |a| - 1 ==> a[i] == Chain(ts)[i];
  }

  /** Every kind in the finished list is a real terminal (0..MaxT); there are no pragmas. */
  lemma {:induction false} PendingKinds(buf: seq<Byte>, p: nat)
    decreases |buf| + 1 - p
    ensures var ts := Pending(buf, p);
      forall i :: 0 <= i < |ts| ==> 0 <= ts[i].kind <= MaxT
  {
    var (tk, e) := TokenAt(buf, p);
    var ts := Pending(buf, p);
    if tk.kind != EofSym {
      PendingKinds(buf, e);
      assert forall i :: 0 <= i < |Pending(buf, e)| ==> 0 <= Pending(buf, e)[i].kind <= MaxT;
      assert ts == [tk] + Pending(buf, e);
    } else {
      assert ts == [tk];
    }
  }

  lemma ArenaKinds(buf: seq<Byte>)
    ensures var a := Arena(buf);
      forall i :: 0 <= i < |a| ==> 0 <= a[i].kind <= MaxT
  {
    ArenaShape(buf);
    PendingKinds(buf, 0);
  }

  /** Since the list holds no pragmas, Peek advances exactly one link. */
  lemma PeekIsOneLink(buf: seq<Byte>, i: int)
    requires Head <= i < |Arena(buf)|
    ensures ListShape(Arena(buf))
    ensures NextVisible(Arena(buf), i) == Link(Arena(buf), i)
  {
    ArenaShape(buf);
    ArenaKinds(buf);
  }

  /** Token offsets strictly increase along the list, and every token but the last holds text. */
  lemma ArenaOrdered(buf: seq<Byte>)
    ensures var a := Arena(buf);
      (forall i :: 0 <= i < |a| - 1 ==> a[i].pos < a[i + 1].pos && |a[i].val| >= 1)
  {
    ArenaShape(buf);
    var ts := Pending(buf, 0);
    PendingFacts(buf, 0);
    forall i | 0 <= i < |ts| - 1
      ensures |ts[i].val| >= 1
    {
      PendingTokenAt(buf, 0, i);
    }
  }

  /** Each element of Pending is a token NextToken builds, at some offset. */
  lemma {:induction false} PendingTokenAt(buf: seq<Byte>, p: nat, i: nat)
    requires i < |Pending(buf, p)|
    decreases |buf| + 1 - p
    ensures exists q: nat :: p <= q && Pending(buf, p)[i] == TokenAt(buf, q).0
  {
    var (tk, e) := TokenAt(buf, p);
    if i > 0 {
      PendingTokenAt(buf, e, i - 1);
      assert Pending(buf, p)[i] == Pending(buf, e)[i - 1];
    } else {
      assert Pending(buf, p)[i] == TokenAt(buf, p).0;
    }
  }

  /** The concatenated texts of the tokens before the terminal one are the normalised input
      without its blanks. */
  lemma ArenaLosesOnlyBlanks(buf: seq<Byte>)
    ensures var a := Arena(buf);
      Concat(a[..|a| - 1]) == Unblanked(Text(buf, 0, |buf|))
  {
    var ts := Pending(buf, 0);
    var a := Arena(buf);
    ArenaShape(buf);
    NothingLost(buf, 0);
    var front, pend := a[..|a| - 1], ts[..|ts| - 1];
    assert forall i :: 0 <= i < |front| ==> front[i].val == a[i].val == ts[i].val == pend[i].val;
    ConcatIgnoresLinks(front, pend);
  }

  lemma {:induction false} ConcatIgnoresLinks(a: seq<Token>, b: seq<Token>)
    requires |a| == |b| && forall i :: 0 <= i < |a| ==> a[i].val == b[i].val
    ensures Concat(a) == Concat(b)
  {
    if a != [] {
      ConcatIgnoresLinks(a[1..], b[1..]);
    }
  }

  /** Blank-only input gives a list of exactly one token, the end-of-input token. */
  lemma BlankInputIsOnlyEof(buf: seq<Byte>)
    requires forall i :: 0 <= i < |buf| ==> buf[i] == ' ' as int
    ensures |Arena(buf)| == 1 && Arena(buf)[0].kind == EofSym
  {
    OnlyBlanks(buf, 0);
  }

  /** Following the terminal token's link always gives the terminal token again. */
  lemma {:induction false} TerminalLoops(ts: seq<Token>, n: nat)
    requires ListShape(ts)
    ensures Iterate(ts, |ts| - 1, n) == |ts| - 1
  {
    if n > 0 {
      TerminalLoops(ts, n - 1);
    }
  }

  /** The node reached from i after n links. */
  function Iterate(ts: seq<Token>, i: int, n: nat): (j: int)
    requires ListShape(ts) && Head <= i < |ts|
    decreases n
    ensures 0 <= j < |ts| || (n == 0 && j == i)
  {
    if n == 0 then i else Iterate(ts, Link(ts, i), n - 1)
  }
}
