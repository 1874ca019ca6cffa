/** Bytes and the little-endian words that the Cortex-M3 stores in memory. */
module Bytes {

  type Byte = x: int | 0 <= x < 0x100

  const U16 := 0x1_0000
  const U32 := 0x1_0000_0000

  /** The four bytes of a 32-bit word, least significant first. */
  function Le32(v: int): (s: seq<Byte>)
    requires 0 <= v < U32
    ensures |s| == 4 && FromLe32(s) == v
  {
    var v1 := v / 0x100;
    var v2 := v1 / 0x100;
    [v % 0x100, v1 % 0x100, v2 % 0x100, v2 / 0x100]
  }

  function FromLe32(s: seq<Byte>): nat
    requires |s| == 4
  {
    Word32(s, 0)
  }

  function At(s: seq<Byte>, o: int): int
    requires 0 <= o < |s|
  {
    s[o]
  }

  /** The 32-bit word stored at offset o. */
  function Word32(s: seq<Byte>, o: int): nat
    requires 0 <= o <= |s| - 4
  {
    At(s, o) + 0x100 * At(s, o + 1) + 0x1_0000 * At(s, o + 2) + 0x100_0000 * At(s, o + 3)
  }

  /** The 16-bit word stored at offset o. */
  function Word16(s: seq<Byte>, o: int): nat
    requires 0 <= o <= |s| - 2
  {
    At(s, o) + 0x100 * At(s, o + 1)
  }

  method Store32(mem: array<Byte>, o: int, v: int)
    requires 0 <= o <= mem.Length - 4 && 0 <= v < U32
    modifies mem
    ensures Word32(mem[..], o) == v
    ensures forall x :: 0 <= x < mem.Length && !(o <= x < o + 4) ==> mem[x] == old(mem[x])
  {
    var s := Le32(v);
    mem[o], mem[o + 1], mem[o + 2], mem[o + 3] := s[0], s[1], s[2], s[3];
  }

  method Store16(mem: array<Byte>, o: int, v: int)
    requires 0 <= o <= mem.Length - 2 && 0 <= v < U16
    modifies mem
    ensures Word16(mem[..], o) == v
    ensures forall x :: 0 <= x < mem.Length && !(o <= x < o + 2) ==> mem[x] == old(mem[x])
  {
    mem[o], mem[o + 1] := v % 0x100, v / 0x100;
  }

  /** memcpy of a byte string into an array. */
  method Memcpy(dst: array<Byte>, o: int, src: seq<Byte>)
    requires 0 <= o && o + |src| <= dst.Length
    modifies dst
    ensures forall x :: 0 <= x < dst.Length ==> dst[x] == if o <= x < o + |src| then src[x - o] else old(dst[x])
  {
    for i := 0 to |src|
      invariant forall x :: 0 <= x < dst.Length ==> dst[x] == if o <= x < o + i then src[x - o] else old(dst[x])
    {
      dst[o + i] := src[i];
    }
  }
}
