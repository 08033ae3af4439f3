/**
 * The bit copy of source/BitMap.cpp. A byte is the vector of its eight bits, least significant bit first, and
 * the operators of the source act on it bit by bit. The integers that the source promotes bytes to are kept to
 * eight bits: what is above them is masked out or lost when a byte is stored.
 */
module BitMap {

  type Byte = b: seq<bool> | |b| == 8 witness [false, false, false, false, false, false, false, false]

  function ShiftRight(x: Byte, k: nat): Byte {
    seq(8, i requires 0 <= i < 8 => i + k < 8 && x[i + k])
  }

  function ShiftLeft(x: Byte, k: nat): Byte {
    seq(8, i requires 0 <= i < 8 => k <= i && x[i - k])
  }

  function And(x: Byte, y: Byte): Byte {
    seq(8, i requires 0 <= i < 8 => x[i] && y[i])
  }

  function Or(x: Byte, y: Byte): Byte {
    seq(8, i requires 0 <= i < 8 => x[i] || y[i])
  }

  function Xor(x: Byte, y: Byte): Byte {
    seq(8, i requires 0 <= i < 8 => x[i] != y[i])
  }

  /** (1 << n) - 1 */
  function Ones(n: nat): Byte {
    seq(8, i requires 0 <= i < 8 => i < n)
  }

  /** Bit number i of a byte buffer. */
  predicate BitAt(s: seq<Byte>, i: nat)
    requires i < 8 * |s|
  {
    s[i / 8][i % 8]
  }

  /** The bits of w, put in place of n bits of d from position off on, by exclusive or. */
  function Merge(d: Byte, w: Byte, off: nat, n: nat): Byte {
    Xor(d, ShiftLeft(And(Xor(ShiftRight(d, off), w), Ones(n)), off))
  }

  lemma MergeBits(d: Byte, w: Byte, off: nat, n: nat)
    requires off + n <= 8
    ensures forall k :: 0 <= k < 8 ==> Merge(d, w, off, n)[k] == if off <= k < off + n then w[k - off] else d[k]
  {}

  /** What the source reads at position pos: the rest of that byte and, when two is set, the start of the next. */
  function Window(s: seq<Byte>, pos: nat, off: nat, two: bool): Byte
    requires off < 8 && pos < |s| && (two ==> pos + 1 < |s|)
  {
    if two then Or(ShiftRight(s[pos], off), ShiftLeft(s[pos + 1], 8 - off)) else ShiftRight(s[pos], off)
  }

  lemma WindowBits(s: seq<Byte>, pos: nat, off: nat, two: bool, k: nat)
    requires off < 8 && pos < |s| && (two ==> pos + 1 < |s|) && k < 8 && (!two ==> off + k < 8)
    ensures 8 * pos + off + k < 8 * |s| && Window(s, pos, off, two)[k] == BitAt(s, 8 * pos + off + k)
  {
    if off + k < 8 { BitInByte(s, pos, off + k); } else { BitInByte(s, pos + 1, off + k - 8); }
  }

  lemma BitInByte(s: seq<Byte>, pos: nat, k: nat)
    requires pos < |s| && k < 8
    ensures BitAt(s, 8 * pos + k) == s[pos][k]
  {
    assert (8 * pos + k) / 8 == pos && (8 * pos + k) % 8 == k;
  }

  /** The first done bits have been copied, and every other bit of the destination is as before. */
  ghost predicate Copied(dest: seq<Byte>, before: seq<Byte>, destOffset: nat, source: seq<Byte>, sourceOffset: nat,
                         done: nat) {
    && |dest| == |before| && destOffset + done <= 8 * |dest| && sourceOffset + done <= 8 * |source|
    && forall i {:trigger BitAt(dest, i)} :: 0 <= i < 8 * |dest| ==>
         BitAt(dest, i) == if destOffset <= i < destOffset + done then BitAt(source, i - destOffset + sourceOffset)
                           else BitAt(before, i)
  }

  /** Putting the next n bits of the source into one byte of the destination. */
  lemma Extend(dest: seq<Byte>, before: seq<Byte>, destOffset: nat, source: seq<Byte>, sourceOffset: nat, done: nat,
               pos: nat, lo: nat, n: nat, b: Byte)
    requires Copied(dest, before, destOffset, source, sourceOffset, done)
    requires pos < |dest| && lo + n <= 8 && destOffset + done == 8 * pos + lo
    requires sourceOffset + done + n <= 8 * |source|
    requires forall k {:trigger b[k]} :: 0 <= k < 8 ==>
               b[k] == if lo <= k < lo + n then BitAt(source, sourceOffset + done + k - lo) else dest[pos][k]
    ensures Copied(dest[pos := b], before, destOffset, source, sourceOffset, done + n)
  {
    var after := dest[pos := b];
    forall i | 0 <= i < 8 * |dest|
      ensures BitAt(after, i) ==
        if destOffset <= i < destOffset + done + n then BitAt(source, i - destOffset + sourceOffset)
                                 else BitAt(before, i)
    {
      assert BitAt(dest, i) == dest[i / 8][i % 8];
      if i / 8 == pos { assert b[i % 8] == after[i / 8][i % 8]; }
    }
  }

  /** A merge of up to eight bits, read with or without the next byte as the source does. */
  lemma MergeExtends(dest: seq<Byte>, before: seq<Byte>, destOffset: nat, source: seq<Byte>, sourceOffset: nat,
                     done: nat, pos: nat, lo: nat, n: nat, sourcePos: nat, off: nat, two: bool)
    requires Copied(dest, before, destOffset, source, sourceOffset, done)
    requires pos < |dest| && lo + n <= 8 && destOffset + done == 8 * pos + lo
    requires off < 8 && sourceOffset + done == 8 * sourcePos + off && sourceOffset + done + n <= 8 * |source|
    requires sourcePos < |source| && (two ==> sourcePos + 1 < |source|) && (!two ==> off + n <= 8)
    ensures Copied(dest[pos := Merge(dest[pos], Window(source, sourcePos, off, two), lo, n)],
                   before, destOffset, source, sourceOffset, done + n)
  {
    var w := Window(source, sourcePos, off, two);
    var b := Merge(dest[pos], w, lo, n);
    MergeBits(dest[pos], w, lo, n);
    forall k | 0 <= k < n
      ensures w[k] == BitAt(source, sourceOffset + done + k)
    {
      WindowBits(source, sourcePos, off, two, k);
    }
    Extend(dest, before, destOffset, source, sourceOffset, done, pos, lo, n, b);
  }

  lemma FullByte(dest: seq<Byte>, before: seq<Byte>, destOffset: nat, source: seq<Byte>, sourceOffset: nat, done: nat,
                 pos: nat, sourcePos: nat, off: nat)
    requires Copied(dest, before, destOffset, source, sourceOffset, done)
    requires pos < |dest| && destOffset + done == 8 * pos
    requires off < 8 && sourceOffset + done == 8 * sourcePos + off && sourcePos + 1 < |source|
    ensures Copied(dest[pos := Window(source, sourcePos, off, true)], before, destOffset, source, sourceOffset,
                   done + 8)
  {
    var w := Window(source, sourcePos, off, true);
    forall k | 0 <= k < 8
      ensures w[k] == BitAt(source, sourceOffset + done + k)
    {
      WindowBits(source, sourcePos, off, true, k);
    }
    Extend(dest, before, destOffset, source, sourceOffset, done, pos, 0, 8, w);
  }

  /** The statement for fewer than eight bits, at the start and at the end of the copy. */
  method CopyBits(dest: array<Byte>, destPos: nat, lo: nat, source: array<Byte>, sourcePos: nat, off: nat, n: nat,
                  ghost before: seq<Byte>, ghost destOffset: nat, ghost sourceOffset: nat, ghost done: nat)
    requires dest != source && Copied(dest[..], before, destOffset, source[..], sourceOffset, done)
    requires destPos < dest.Length && lo + n <= 8 && destOffset + done == 8 * destPos + lo
    requires off < 8 && sourceOffset + done == 8 * sourcePos + off && sourceOffset + done + n <= 8 * source.Length
    requires sourcePos < source.Length
    modifies dest
    ensures Copied(dest[..], before, destOffset, source[..], sourceOffset, done + n)
  {
    var two := !(n <= 8 - off);
    MergeExtends(dest[..], before, destOffset, source[..], sourceOffset, done, destPos, lo, n, sourcePos, off, two);
    var b := Merge(dest[destPos], Window(source[..], sourcePos, off, two), lo, n);
    ghost var after := dest[..][destPos := b];
    dest[destPos] := b;
    assert dest[..] == after;
  }

  /** The loop that copies full bytes. */
  method CopyBytes(dest: array<Byte>, destPos0: nat, source: array<Byte>, sourcePos0: nat, off: nat, count: nat,
                   ghost before: seq<Byte>, ghost destOffset: nat, ghost sourceOffset: nat, ghost done0: nat)
    requires dest != source && Copied(dest[..], before, destOffset, source[..], sourceOffset, done0)
    requires destOffset + done0 == 8 * destPos0 && destPos0 + count <= dest.Length
    requires off < 8 && sourceOffset + done0 == 8 * sourcePos0 + off
    requires count > 0 ==> sourcePos0 + count < source.Length
    modifies dest
    ensures Copied(dest[..], before, destOffset, source[..], sourceOffset, done0 + 8 * count)
  {
    var sourcePos, destPos := sourcePos0, destPos0;
    var b := 0;
    while b < count
      invariant 0 <= b <= count && sourcePos == sourcePos0 + b && destPos == destPos0 + b
      invariant Copied(dest[..], before, destOffset, source[..], sourceOffset, done0 + 8 * b)
    {
      FullByte(dest[..], before, destOffset, source[..], sourceOffset, done0 + 8 * b, destPos, sourcePos, off);
      var w := Window(source[..], sourcePos, off, true);
      ghost var after := dest[..][destPos := w];
      dest[destPos] := w;
      assert dest[..] == after;
      sourcePos, destPos := sourcePos + 1, destPos + 1;
      b := b + 1;
    }
  }

  /** The start of the copy, up to a byte boundary of the destination. */
  method CopyHead(dest: array<Byte>, destOffset: nat, source: array<Byte>, sourceOffset: nat, length: nat)
    returns (amount: nat)
    requires dest != source
    requires destOffset + length <= 8 * dest.Length && (sourceOffset + length) / 8 < source.Length
    modifies dest
    ensures amount <= length && (amount < length ==> (destOffset + amount) % 8 == 0)
    ensures Copied(dest[..], old(dest[..]), destOffset, source[..], sourceOffset, amount)
  {
    var sourcePos, sourceBitOffset := sourceOffset / 8, sourceOffset % 8;
    var destPos, destBitOffset := destOffset / 8, destOffset % 8;
    amount := 0;
    if destBitOffset != 0 {
      amount := if 8 - destBitOffset < length then 8 - destBitOffset else length;
      CopyBits(dest, destPos, destBitOffset, source, sourcePos, sourceBitOffset, amount,
               dest[..], destOffset, sourceOffset, 0);
    }
  }

  /** BitMap::bitcpy. The source needs one byte beyond its bits when they end on a byte boundary. */
  method Bitcpy(dest: array<Byte>, destOffset: nat, source: array<Byte>, sourceOffset: nat, length: nat)
    requires dest != source
    requires destOffset + length <= 8 * dest.Length && (sourceOffset + length) / 8 < source.Length
    modifies dest
    ensures Copied(dest[..], old(dest[..]), destOffset, source[..], sourceOffset, length)
  {
    ghost var before := dest[..];
    var amount := CopyHead(dest, destOffset, source, sourceOffset, length);
    var sourcePos, sourceBitOffset := (sourceOffset + amount) / 8, (sourceOffset + amount) % 8;
    var destPos := (destOffset + amount) / 8;
    var left := length - amount;
    if left > 0 {
      var fullLengthBytes := left / 8;
      CopyBytes(dest, destPos, source, sourcePos, sourceBitOffset, fullLengthBytes,
                before, destOffset, sourceOffset, amount);
      sourcePos, destPos := sourcePos + fullLengthBytes, destPos + fullLengthBytes;
      left := left % 8;
      if left != 0 {
        CopyBits(dest, destPos, 0, source, sourcePos, sourceBitOffset, left,
                 before, destOffset, sourceOffset, amount + 8 * fullLengthBytes);
      }
    }
  }

  /** What has been copied determines the whole buffer, so a loop over single bits leaves the same one. */
  lemma CopiedIsUnique(d: seq<Byte>, e: seq<Byte>, before: seq<Byte>, destOffset: nat,
                       source: seq<Byte>, sourceOffset: nat, length: nat)
    requires Copied(d, before, destOffset, source, sourceOffset, length)
    requires Copied(e, before, destOffset, source, sourceOffset, length)
    ensures d == e
  {
    forall j | 0 <= j < |d|
      ensures d[j] == e[j]
    {
      forall k | 0 <= k < 8
        ensures d[j][k] == e[j][k]
      {
        BitInByte(d, j, k);
        BitInByte(e, j, k);
        assert BitAt(d, 8 * j + k) == BitAt(e, 8 * j + k);
      }
    }
  }
}
