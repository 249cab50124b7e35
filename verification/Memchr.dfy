/**
 memchr: a scan for a byte that reads a longword at a time once the pointer is aligned.
 The longword is 64 bits wide; its bytes may be in either order.
 */
module Memchr {
  type Byte = bv8
  type Word = bv64

  const WORD_SIZE := 8

  datatype Pointer = Null | At(index: nat)

  /** c is not among the first i bytes. */
  ghost predicate NotAmong(s: seq<Byte>, c: Byte, i: nat) {
    i <= |s| && forall j :: 0 <= j < i ==> s[j] != c
  }

  /** What the naive scan finds: the first occurrence of c, if there is one. */
  ghost predicate IsFirst(s: seq<Byte>, c: Byte, p: Pointer) {
    match p
    case Null => NotAmong(s, c, |s|)
    case At(i) => i < |s| && s[i] == c && NotAmong(s, c, i)
  }

  /** There is one such pointer. */
  lemma FirstIsUnique(s: seq<Byte>, c: Byte, p: Pointer, q: Pointer)
    requires IsFirst(s, c, p) && IsFirst(s, c, q)
    ensures p == q
  {
  }

  /** b0, ..., b7 are the bytes of a longword, from its low end. */
  ghost predicate IsBytes(w: Word, b0: Byte, b1: Byte, b2: Byte, b3: Byte, b4: Byte, b5: Byte, b6: Byte, b7: Byte) {
    && w & 0xff == b0 as Word && (w >> 8) & 0xff == b1 as Word
    && (w >> 16) & 0xff == b2 as Word && (w >> 24) & 0xff == b3 as Word
    && (w >> 32) & 0xff == b4 as Word && (w >> 40) & 0xff == b5 as Word
    && (w >> 48) & 0xff == b6 as Word && (w >> 56) & 0xff == b7 as Word
  }

  /** Eight bytes in memory are read as one longword. */
  ghost predicate IsLoaded(w: Word, b: seq<Byte>, bigEndian: bool) {
    && |b| == WORD_SIZE
    && if bigEndian
       then IsBytes(w, b[7], b[6], b[5], b[4], b[3], b[2], b[1], b[0])
       else IsBytes(w, b[0], b[1], b[2], b[3], b[4], b[5], b[6], b[7])
  }

  method Compose(b0: Byte, b1: Byte, b2: Byte, b3: Byte, b4: Byte, b5: Byte, b6: Byte, b7: Byte) returns (w: Word)
    ensures IsBytes(w, b0, b1, b2, b3, b4, b5, b6, b7)
  {
    w := b0 as Word | (b1 as Word << 8) | (b2 as Word << 16) | (b3 as Word << 24)
      | (b4 as Word << 32) | (b5 as Word << 40) | (b6 as Word << 48) | (b7 as Word << 56);
  }

  method LoadWord(s: array<Byte>, i: nat, bigEndian: bool) returns (w: Word)
    requires i + WORD_SIZE <= s.Length
    ensures IsLoaded(w, s[i..i + WORD_SIZE], bigEndian)
  {
    if bigEndian {
      w := Compose(s[i + 7], s[i + 6], s[i + 5], s[i + 4], s[i + 3], s[i + 2], s[i + 1], s[i]);
    } else {
      w := Compose(s[i], s[i + 1], s[i + 2], s[i + 3], s[i + 4], s[i + 5], s[i + 6], s[i + 7]);
    }
  }

  ghost predicate HasZeroByte(w: Word) {
    || w & 0xff == 0 || (w >> 8) & 0xff == 0 || (w >> 16) & 0xff == 0 || (w >> 24) & 0xff == 0
    || (w >> 32) & 0xff == 0 || (w >> 40) & 0xff == 0 || (w >> 48) & 0xff == 0 || (w >> 56) & 0xff == 0
  }

  ghost predicate SomeByteEqual(w: Word, r: Word) {
    || w & 0xff == r & 0xff || (w >> 8) & 0xff == (r >> 8) & 0xff
    || (w >> 16) & 0xff == (r >> 16) & 0xff || (w >> 24) & 0xff == (r >> 24) & 0xff
    || (w >> 32) & 0xff == (r >> 32) & 0xff || (w >> 40) & 0xff == (r >> 40) & 0xff
    || (w >> 48) & 0xff == (r >> 48) & 0xff || (w >> 56) & 0xff == (r >> 56) & 0xff
  }

  /** Carries may spoil the bytes above a zero byte, but never the test as a whole. */
  lemma ZeroByteTest(w: Word)
    ensures ((w - 0x0101010101010101) & !w) & 0x8080808080808080 != 0 <==> HasZeroByte(w)
  {
  }

  lemma XorZero(w: Word, r: Word)
    ensures HasZeroByte(w ^ r) <==> SomeByteEqual(w, r)
  {
  }

  lemma BytesCompared(w: Word, r: Word, b0: Byte, b1: Byte, b2: Byte, b3: Byte, b4: Byte, b5: Byte, b6: Byte, b7: Byte, c: Byte)
    requires IsBytes(w, b0, b1, b2, b3, b4, b5, b6, b7) && IsBytes(r, c, c, c, c, c, c, c, c)
    ensures SomeByteEqual(w, r) <==> b0 == c || b1 == c || b2 == c || b3 == c || b4 == c || b5 == c || b6 == c || b7 == c
  {
  }

  lemma EqualsOneOf(w: Word, r: Word, b: seq<Byte>, c: Byte, bigEndian: bool)
    requires IsLoaded(w, b, bigEndian) && IsBytes(r, c, c, c, c, c, c, c, c)
    ensures SomeByteEqual(w, r) <==> c in b
  {
    hide IsBytes, SomeByteEqual;
    if bigEndian {
      BytesCompared(w, r, b[7], b[6], b[5], b[4], b[3], b[2], b[1], b[0], c);
    } else {
      BytesCompared(w, r, b[0], b[1], b[2], b[3], b[4], b[5], b[6], b[7], c);
    }
    assert b == [b[0], b[1], b[2], b[3], b[4], b[5], b[6], b[7]];
    assert c in b <==> (b[0] == c || b[1] == c || b[2] == c || b[3] == c || b[4] == c || b[5] == c || b[6] == c || b[7] == c);
  }

  /** The word test succeeds exactly when one of the eight bytes is the one looked for. */
  lemma WordTest(w: Word, r: Word, b: seq<Byte>, c: Byte, bigEndian: bool)
    requires IsLoaded(w, b, bigEndian) && IsBytes(r, c, c, c, c, c, c, c, c)
    ensures (((w ^ r) - 0x0101010101010101) & !(w ^ r)) & 0x8080808080808080 != 0 <==> c in b
  {
    ZeroByteTest(w ^ r);
    XorZero(w, r);
    EqualsOneOf(w, r, b, c, bigEndian);
  }

  /** The auxiliary longwords, each built by doubling. */
  method RepeatedBytes(c: Byte) returns (repeatedOne: Word, repeatedC: Word)
    ensures repeatedOne == 0x0101010101010101
    ensures IsBytes(repeatedC, c, c, c, c, c, c, c, c)
  {
    repeatedOne := 0x01010101;
    repeatedC := c as Word | (c as Word << 8);
    repeatedC := repeatedC | (repeatedC << 16);
    repeatedOne := repeatedOne | (repeatedOne << 31 << 1);
    repeatedC := repeatedC | (repeatedC << 31 << 1);
  }

  /** Skips whole longwords that do not hold c; stops at one that does. */
  method SkipWords(s: array<Byte>, start: nat, c: Byte, bigEndian: bool) returns (i: nat)
    requires NotAmong(s[..], c, start)
    ensures NotAmong(s[..], c, i)
  {
    var repeatedOne, repeatedC := RepeatedBytes(c);
    i := start;
    var n := s.Length - i;
    while n >= WORD_SIZE
      invariant n == s.Length - i && NotAmong(s[..], c, i)
    {
      var word := LoadWord(s, i, bigEndian);
      WordTest(word, repeatedC, s[i..i + WORD_SIZE], c, bigEndian);
      var longword1 := word ^ repeatedC;
      if ((longword1 - repeatedOne) & !longword1) & (repeatedOne << 7) != 0 {
        break;
      }
      assert forall j :: i <= j < i + WORD_SIZE ==> s[j] == s[i..i + WORD_SIZE][j - i];
      n, i := n - WORD_SIZE, i + WORD_SIZE;
    }
  }

  /**
   Scans the bytes s, the first of which is at address addr, for the low eight bits of an int.
   Every read is inside the array, whose length is the n of the source.
   */
  method Search(s: array<Byte>, cIn: int, addr: nat, bigEndian: bool) returns (p: Pointer)
    ensures IsFirst(s[..], (cIn % 256) as Byte, p)
  {
    var c := (cIn % 256) as Byte;
    var n, i := s.Length, 0;
    while n > 0 && (addr + i) % WORD_SIZE != 0
      invariant n == s.Length - i && 0 <= i && NotAmong(s[..], c, i)
    {
      if s[i] == c {
        return At(i);
      }
      n, i := n - 1, i + 1;
    }
    i := SkipWords(s, i, c, bigEndian);
    n := s.Length - i;
    while n > 0
      invariant n == s.Length - i && 0 <= i && NotAmong(s[..], c, i)
    {
      if s[i] == c {
        return At(i);
      }
      n, i := n - 1, i + 1;
    }
    return Null;
  }
}
