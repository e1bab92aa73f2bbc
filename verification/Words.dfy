/** 32-bit words, their little-endian bytes, and flat word memories. */
module Words {

  type Word = bv32
  type Byte = bv8

  /** The word whose bytes, lowest address first, are b0 to b3. */
  function Join(b0: Byte, b1: Byte, b2: Byte, b3: Byte): Word {
    (b0 as bv32) | ((b1 as bv32) << 8) | ((b2 as bv32) << 16) | ((b3 as bv32) << 24)
  }

  function ByteOf(w: Word, k: nat): Byte
    requires k < 4
  {
    if k == 0 then (w & 0xFF) as bv8
    else if k == 1 then ((w >> 8) & 0xFF) as bv8
    else if k == 2 then ((w >> 16) & 0xFF) as bv8
    else ((w >> 24) & 0xFF) as bv8
  }

  lemma JoinOfBytes(w: Word)
    ensures Join(ByteOf(w, 0), ByteOf(w, 1), ByteOf(w, 2), ByteOf(w, 3)) == w
  {
    assert (w & 0xFF) | (((w >> 8) & 0xFF) << 8) | (((w >> 16) & 0xFF) << 16) | (((w >> 24) & 0xFF) << 24) == w;
  }

  lemma BytesOfJoin(b0: Byte, b1: Byte, b2: Byte, b3: Byte)
    ensures var w := Join(b0, b1, b2, b3);
            ByteOf(w, 0) == b0 && ByteOf(w, 1) == b1 && ByteOf(w, 2) == b2 && ByteOf(w, 3) == b3
  {
  }

  /** Storing the bytes of a word at any address, if they all fit. */
  function StoreBytes(bytes: seq<Byte>, addr: nat, v: Word): (r: seq<Byte>)
    ensures |r| == |bytes|
  {
    if addr + 4 <= |bytes| then
      bytes[addr := ByteOf(v, 0)][addr + 1 := ByteOf(v, 1)][addr + 2 := ByteOf(v, 2)][addr + 3 := ByteOf(v, 3)]
    else
      bytes
  }

  /** Reading back the bytes of a word. */
  function LoadBytes(bytes: seq<Byte>, addr: nat): Word
    requires addr + 4 <= |bytes|
  {
    Join(bytes[addr], bytes[addr + 1], bytes[addr + 2], bytes[addr + 3])
  }

  lemma LoadStored(bytes: seq<Byte>, addr: nat, v: Word, a: nat)
    requires a + 4 <= |bytes| && addr + 4 <= |bytes| && (a == addr || a + 4 <= addr || addr + 4 <= a)
    ensures LoadBytes(StoreBytes(bytes, addr, v), a) == if a == addr then v else LoadBytes(bytes, a)
  {
    JoinOfBytes(v);
  }

  // ----- flat word memories -----

  /** A store to word w of a flat memory; a store outside it changes nothing. */
  function Put(memory: seq<Word>, w: nat, v: Word): seq<Word> {
    if w < |memory| then memory[w := v] else memory
  }

  /** A store of consecutive cells from cell w on; the part outside the memory is lost. */
  function PutBlock<T>(memory: seq<T>, w: nat, data: seq<T>): (r: seq<T>)
    ensures |r| == |memory|
    ensures forall i :: 0 <= i < |r| ==> r[i] == if w <= i < w + |data| then data[i - w] else memory[i]
  {
    seq(|memory|, i requires 0 <= i < |memory| => if w <= i < w + |data| then data[i - w] else memory[i])
  }

  lemma PutBlockSnoc(memory: seq<Word>, w: nat, data: seq<Word>, n: nat)
    requires n < |data|
    ensures Put(PutBlock(memory, w, data[..n]), w + n, data[n]) == PutBlock(memory, w, data[..n + 1])
  {
  }
}
