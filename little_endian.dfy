/** Fixed-width unsigned integers and their little-endian byte encoding
    (Rust's `to_le_bytes` / `from_le_bytes`), plus the truncating `as u16` cast. */
module LittleEndian {

  type u8 = x: int | 0 <= x < 0x100
  type u16 = x: int | 0 <= x < 0x1_0000
  type u32 = x: int | 0 <= x < 0x1_0000_0000
  type u64 = x: int | 0 <= x < 0x1_0000_0000_0000_0000

  /** 256^n: one more than the largest value n bytes can hold. */
  function Pow256(n: nat): (r: nat)
    ensures r > 0
  {
    if n == 0 then 1 else 256 * Pow256(n - 1)
  }

  /** `x as u16` in Rust keeps the low 16 bits. */
  function AsU16(x: nat): (r: u16)
    ensures x < 0x1_0000 ==> r == x
  {
    x % 0x1_0000
  }

  /** The n little-endian bytes of v (least significant byte first). */
  function Encode(v: nat, n: nat): (r: seq<u8>)
    ensures |r| == n
  {
    if n == 0 then [] else [v % 256] + Encode(v / 256, n - 1)
  }

  /** The unsigned value of a little-endian byte sequence. */
  function Decode(s: seq<u8>): (v: nat)
    ensures v < Pow256(|s|)
  {
    if s == [] then 0 else s[0] + 256 * Decode(s[1..])
  }

  /** Decoding what was encoded gives back every value that fits in n bytes. */
  lemma {:induction false} DecodeEncode(v: nat, n: nat)
    requires v < Pow256(n)
    ensures Decode(Encode(v, n)) == v
  {
    if n > 0 {
      var e := Encode(v, n);
      assert e[1..] == Encode(v / 256, n - 1);
      DecodeEncode(v / 256, n - 1);
    }
  }

  /** Encoding what was decoded gives back the same bytes. */
  lemma {:induction false} EncodeDecode(s: seq<u8>)
    ensures Encode(Decode(s), |s|) == s
  {
    if s != [] {
      var v := Decode(s);
      assert v % 256 == s[0] && v / 256 == Decode(s[1..]);
      EncodeDecode(s[1..]);
    }
  }

  /** A u16 is written as two bytes, least significant first. */
  lemma EncodeU16(v: nat)
    requires v < 0x1_0000
    ensures Encode(v, 2) == [v % 256, v / 256]
  {
  }

  /** Two bytes read as a u16, least significant first. */
  lemma DecodeU16(s: seq<u8>)
    requires |s| == 2
    ensures Decode(s) == s[0] as int + 256 * s[1] as int
  {
    assert s[1..][1..] == [];
  }

  lemma Widths()
    ensures Pow256(2) == 0x1_0000 && Pow256(4) == 0x1_0000_0000
    ensures Pow256(8) == 0x1_0000_0000_0000_0000
  {
  }
}
