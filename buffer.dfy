/** The input buffer: the whole input held in memory, with one read cursor.
    Bytes are stored already masked to 0..255 (what `buf[pos] & 0xff` yields);
    reading at or past the end yields the sentinel EOF = 256. */
module Buffers {

  /** A byte as the scanner sees it after masking out the sign bits. */
  type Byte = b: int | 0 <= b < 256

  /** The end-of-input sentinel: one more than the largest byte, so it never collides with one. */
  const EOF: int := 256

  function Min(a: int, b: int): int { if a <= b then a else b }

  function Max(a: int, b: int): int { if a >= b then a else b }

  /** What a read at offset i yields: the byte there, or EOF outside the buffer. */
  function CharAt(buf: seq<Byte>, i: int): (c: int)
    ensures 0 <= c <= EOF
    ensures c == EOF <==> !(0 <= i < |buf|)
    ensures 0 <= i < |buf| ==> c == buf[i]
  {
    if 0 <= i < |buf| then buf[i] else EOF
  }

  /** The cursor value setPos stores for a requested value v, for a buffer of length len. */
  function Clamp(v: int, len: nat): (r: int)
    ensures 0 <= r <= len
    ensures 0 <= v <= len ==> r == v
    ensures v < 0 ==> r == 0
    ensures v > len ==> r == len
  {
    if v < 0 then 0 else if v >= len then len else v
  }

  /** The text GetString(beg, end) returns: end - beg reads (none if end <= beg),
      starting from beg clamped into the buffer; reads past the end give char 256. */
  function Slice(buf: seq<Byte>, beg: int, end: int): (s: string)
    ensures |s| == Max(0, end - beg)
  {
    seq(Max(0, end - beg), k => CharAt(buf, Clamp(beg, |buf|) + k) as char)
  }

  /** Inside the buffer, GetString is the plain substring buf[beg..end). */
  lemma SliceInRange(buf: seq<Byte>, beg: int, end: int)
    requires 0 <= beg <= end <= |buf|
    ensures |Slice(buf, beg, end)| == end - beg
    ensures forall k :: 0 <= k < end - beg ==> Slice(buf, beg, end)[k] == buf[beg + k] as char
  {
    forall k | 0 <= k < end - beg
      ensures Slice(buf, beg, end)[k] == buf[beg + k] as char
    {
      assert Slice(buf, beg, end)[k] == CharAt(buf, Clamp(beg, |buf|) + k) as char;
    }
  }

  /** A position of the requested range that lies past the end contributes char 256. */
  lemma SlicePastEnd(buf: seq<Byte>, beg: int, end: int, k: nat)
    requires k < end - beg && Clamp(beg, |buf|) + k >= |buf|
    ensures Slice(buf, beg, end)[k] == EOF as char
  {
    assert Slice(buf, beg, end)[k] == CharAt(buf, Clamp(beg, |buf|) + k) as char;
  }

  /** A range that starts before offset 0 is read from offset 0, still end - beg characters long. */
  lemma SliceBeforeStart(buf: seq<Byte>, beg: int, end: int, k: nat)
    requires beg < 0 && k < end - beg
    ensures Slice(buf, beg, end)[k] == CharAt(buf, k) as char
  {
    assert Slice(buf, beg, end)[k] == CharAt(buf, Clamp(beg, |buf|) + k) as char;
  }

  class Buffer {
    /** The input bytes, loaded once. */
    const buf: seq<Byte>
    /** The read cursor. */
    var pos: int

    ghost predicate Valid()
      reads this
    {
      0 <= pos <= |buf|
    }

    /** Stands for Fill: the bytes are given instead of read from a stream. */
    constructor (bytes: seq<Byte>)
      ensures Valid() && buf == bytes && pos == 0
    {
      buf := bytes;
      pos := 0;
    }

    /** Returns the byte at the cursor and moves past it, or EOF (cursor unchanged) at the end. */
    method Read() returns (c: int)
      requires Valid()
      modifies this`pos
      ensures Valid()
      ensures c == CharAt(buf, old(pos))
      ensures pos == if old(pos) < |buf| then old(pos) + 1 else old(pos)
    {
      if pos < |buf| {
        c := buf[pos];
        pos := pos + 1;
      } else {
        c := EOF;
      }
    }

    /** Returns what Read would return, without moving the cursor. */
    method Peek() returns (c: int)
      requires Valid()
      ensures 0 <= c <= EOF
      ensures c == CharAt(buf, pos)
      ensures c == EOF <==> pos == |buf|
    {
      if pos < |buf| {
        c := buf[pos];
      } else {
        c := EOF;
      }
    }

    method GetPos() returns (p: int)
      requires Valid()
      ensures 0 <= p <= |buf| && p == pos
    {
      p := pos;
    }

    /** Moves the cursor to value, clamped into [0, |buf|]. */
    method SetPos(value: int)
      modifies this`pos
      ensures Valid()
      ensures pos == Clamp(value, |buf|)
    {
      if value < 0 {
        pos := 0;
      } else if value >= |buf| {
        pos := |buf|;
      } else {
        pos := value;
      }
    }

    /** Reads end - beg characters from beg out of band; the cursor is restored afterwards. */
    method GetString(beg: int, end: int) returns (s: string)
      requires Valid()
      modifies this`pos
      ensures pos == old(pos)
      ensures s == Slice(buf, beg, end)
    {
      s := [];
      var oldPos := GetPos();
      SetPos(beg);
      ghost var first := pos;
      var b := beg;
      while b < end
        invariant Valid()
        invariant beg <= b && (b <= end || b == beg) && |s| == b - beg
        invariant pos == Min(first + (b - beg), |buf|)
        invariant forall k :: 0 <= k < |s| ==> s[k] == CharAt(buf, first + k) as char
      {
        var c := Read();
        s := s + [c as char];
        b := b + 1;
      }
      SetPos(oldPos);
    }
  }
}
