/** The integer <-> byte-string conversion the contract uses for token ids,
    counters and index positions (BigInteger.AsByteArray / AsBigInteger),
    abstracted as a minimal little-endian base-256 encoding. */
module Encoding {
  import opened Types

  /** The bytes of `n`, least significant first, with no trailing zero byte. */
  function Encode(n: nat): (r: Bytes)
    ensures n == 0 <==> r == []
    decreases n
  {
    if n == 0 then [] else [(n % 256) as byte] + Encode(n / 256)
  }

  /** The number a little-endian byte string stands for. */
  function Decode(s: Bytes): nat
    decreases |s|
  {
    if s == [] then 0 else s[0] as nat + 256 * Decode(s[1..])
  }

  /** Decoding an encoded number gives the number back. */
  lemma {:induction false} DecodeEncode(n: nat)
    ensures Decode(Encode(n)) == n
    decreases n
  {
    if n > 0 {
      DecodeEncode(n / 256);
      assert Encode(n)[1..] == Encode(n / 256);
    }
  }

  /** Distinct numbers have distinct encodings, so token ids never collide. */
  lemma EncodeInjective(m: nat, n: nat)
    ensures Encode(m) == Encode(n) ==> m == n
  {
    DecodeEncode(m);
    DecodeEncode(n);
  }
}
