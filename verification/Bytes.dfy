/** Machine words as the kernel stores them: bytes, and 32-bit little-endian words over byte sequences. */
module Bytes {
  type byte = x: int | 0 <= x < 0x100
  type u32 = x: int | 0 <= x < 0x1_0000_0000

  const U32: int := 0x1_0000_0000

  function Join(b0: int, b1: int, b2: int, b3: int): int {
    b0 + 0x100 * b1 + 0x1_0000 * b2 + 0x100_0000 * b3
  }

  /** `*(uint32_t*)(s + o)` on a little-endian machine. */
  function Word(s: seq<byte>, o: nat): (w: u32)
    requires o + 4 <= |s|
  {
    Join(s[o], s[o + 1], s[o + 2], s[o + 3])
  }

  /** `*(uint16_t*)(s + o)`. */
  function Half(s: seq<byte>, o: nat): nat
    requires o + 2 <= |s|
  {
    s[o] as int + 0x100 * s[o + 1] as int
  }

  /** The four bytes from `o` on are those of `v`, the lowest first. */
  ghost predicate LittleEndian(s: seq<byte>, o: nat, v: int) {
    && o + 4 <= |s|
    && s[o] + s[o + 1] as int * 0x100 + s[o + 2] as int * 0x1_0000 + s[o + 3] as int * 0x100_0000 == v
  }

  /** Four bytes are those of exactly one word, and that is what is read. */
  lemma WordIs(s: seq<byte>, o: nat)
    requires o + 4 <= |s|
    ensures forall v: int :: LittleEndian(s, o, v) <==> v == Word(s, o)
  {
  }

  lemma JoinSplit(v: u32)
    ensures Join(v % 0x100, v / 0x100 % 0x100, v / 0x1_0000 % 0x100, v / 0x100_0000) == v
  {
    assert v / 0x100 == v / 0x1_0000 * 0x100 + v / 0x100 % 0x100;
    assert v / 0x1_0000 == v / 0x100_0000 * 0x100 + v / 0x1_0000 % 0x100;
  }

  method Split(v: u32) returns (b0: byte, b1: byte, b2: byte, b3: byte)
    ensures Join(b0, b1, b2, b3) == v
  {
    b0, b1, b2, b3 := v % 0x100, v / 0x100 % 0x100, v / 0x1_0000 % 0x100, v / 0x100_0000;
    JoinSplit(v);
  }

  /** `*(uint32_t*)(s + o) = v`. */
  method PutWord(s: seq<byte>, o: nat, v: u32) returns (r: seq<byte>)
    requires o + 4 <= |s|
    ensures |r| == |s| && Word(r, o) == v
    ensures forall k :: 0 <= k < |s| && !(o <= k < o + 4) ==> r[k] == s[k]
  {
    var b0, b1, b2, b3 := Split(v);
    r := s[o := b0][o + 1 := b1][o + 2 := b2][o + 3 := b3];
  }

  method ZeroBytes(n: nat) returns (z: seq<byte>)
    ensures |z| == n && forall k :: 0 <= k < n ==> z[k] == 0
  {
    z := seq(n, _ => 0);
  }
}
