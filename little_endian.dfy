/**
 * Bytes and 64-bit unsigned integers, and the little-endian conversion
 * between them that `usize::to_le_bytes` and `usize::from_le_bytes` perform
 * on a 64-bit target.
 */
module LittleEndian {

  type Byte = b: int | 0 <= b < 0x100

  /** `usize` on the 64-bit target the probe runs on. */
  type U64 = n: int | 0 <= n < 0x1_0000_0000_0000_0000

  /** Width in bytes of an encoded `usize`: `num.to_le_bytes().len()`. */
  const WordSize: nat := 8

  /** 256 to the power k: one more than the largest value k bytes can hold. */
  function Pow256(k: nat): (r: nat)
    ensures r >= 1
  {
    if k == 0 then 1 else 0x100 * Pow256(k - 1)
  }

  /** The k low-order bytes of n, least significant first. */
  function ToLe(n: nat, k: nat): (s: seq<Byte>)
    ensures |s| == k
  {
    if k == 0 then [] else [n % 0x100] + ToLe(n / 0x100, k - 1)
  }

  /** The value of a little-endian byte string; it always fits in |s| bytes. */
  function FromLe(s: seq<Byte>): (n: nat)
    ensures n < Pow256(|s|)
  {
    if |s| == 0 then 0 else s[0] + 0x100 * FromLe(s[1..])
  }

  /** Reading back k bytes written from n gives n, when n fits in k bytes. */
  lemma {:induction false} FromLeToLe(n: nat, k: nat)
    requires n < Pow256(k)
    ensures FromLe(ToLe(n, k)) == n
  {
    if k > 0 {
      var rest := ToLe(n / 0x100, k - 1);
      assert ToLe(n, k)[1..] == rest;
      FromLeToLe(n / 0x100, k - 1);
    }
  }

  /** Writing back the value of a byte string gives the same bytes. */
  lemma {:induction false} ToLeFromLe(s: seq<Byte>)
    ensures ToLe(FromLe(s), |s|) == s
  {
    if |s| > 0 {
      var v := FromLe(s[1..]);
      assert (s[0] + 0x100 * v) % 0x100 == s[0];
      assert (s[0] + 0x100 * v) / 0x100 == v;
      ToLeFromLe(s[1..]);
    }
  }

  lemma WordBound()
    ensures Pow256(WordSize) == 0x1_0000_0000_0000_0000
  {
  }

  /** `usize::to_le_bytes`: exactly eight bytes. */
  function LeBytes(n: U64): (s: seq<Byte>)
    ensures |s| == WordSize
  {
    ToLe(n, WordSize)
  }

  /** `usize::from_le_bytes` on an eight-byte array. */
  function FromLeBytes(b: seq<Byte>): (n: U64)
    requires |b| == WordSize
    ensures LeBytes(n) == b
  {
    WordBound();
    ToLeFromLe(b);
    FromLe(b)
  }

  /** Decoding an encoded word gives the word back. */
  lemma DecodeEncode(n: U64)
    ensures FromLeBytes(LeBytes(n)) == n
  {
    WordBound();
    FromLeToLe(n, WordSize);
  }

  /** Encoding a decoded eight-byte array gives the same bytes. */
  lemma EncodeDecode(b: seq<Byte>)
    requires |b| == WordSize
    ensures LeBytes(FromLeBytes(b)) == b
  {
    ToLeFromLe(b);
  }

  /** Two words with the same encoding are equal. */
  lemma LeBytesInjective(m: U64, n: U64)
    requires LeBytes(m) == LeBytes(n)
    ensures m == n
  {
    DecodeEncode(m);
    DecodeEncode(n);
  }
}
