/**
 * Bytes and the 8-byte big-endian length prefix of a frame: `u64::to_be_bytes`
 * and `u64::from_be_bytes` as written in the session writer and reader.
 */
module Bytes {

  type uint8 = x: int | 0 <= x < 256

  const U64_LIMIT: int := 0x1_0000_0000_0000_0000

  type u64 = x: int | 0 <= x < U64_LIMIT

  /**
   * A `Vec<u8>` on a 64-bit target: its length is a `usize`, so the cast
   * `length as u64` in the writer is the identity.
   */
  type Vec = s: seq<uint8> | |s| < U64_LIMIT witness []

  /** 256 to the power k. */
  function Pow256(k: nat): (r: nat)
    ensures r > 0
  {
    if k == 0 then 1 else 256 * Pow256(k - 1)
  }

  /** The k lowest bytes of n, most significant first. */
  function BeBytes(n: nat, k: nat): (r: seq<uint8>)
    ensures |r| == k
  {
    if k == 0 then [] else BeBytes(n / 256, k - 1) + [n % 256]
  }

  /** The unsigned number whose big-endian bytes are s. */
  function BeValue(s: seq<uint8>): (r: nat)
    ensures r < Pow256(|s|)
  {
    if s == [] then 0 else BeValue(s[..|s| - 1]) * 256 + s[|s| - 1]
  }

  lemma {:induction false} BeValueOfBeBytes(n: nat, k: nat)
    requires n < Pow256(k)
    ensures BeValue(BeBytes(n, k)) == n
  {
    if k > 0 {
      var s := BeBytes(n, k);
      assert s[..k - 1] == BeBytes(n / 256, k - 1);
      assert s[k - 1] == n % 256;
      BeValueOfBeBytes(n / 256, k - 1);
    }
  }

  lemma {:induction false} BeBytesOfBeValue(s: seq<uint8>)
    ensures BeBytes(BeValue(s), |s|) == s
  {
    if s != [] {
      var init, last := s[..|s| - 1], s[|s| - 1];
      var v := BeValue(s);
      assert v / 256 == BeValue(init) && v % 256 == last;
      BeBytesOfBeValue(init);
      assert s == init + [last];
    }
  }

  /** `(n as u64).to_be_bytes()`. */
  function ToBeBytes(n: u64): (r: seq<uint8>)
    ensures |r| == 8
  {
    BeBytes(n, 8)
  }

  /** `u64::from_be_bytes(b)` for an 8-byte array b: the first byte is the most significant, the last the least. */
  function FromBeBytes(b: seq<uint8>): (r: u64)
    requires |b| == 8
    ensures r / Pow256(7) == b[0] && r % 256 == b[7]
  {
    assert Pow256(8) == U64_LIMIT;
    BeValueEnds(b);
    BeValue(b)
  }

  /** The value of 8 bytes has the first byte as its top digit and the last as its lowest. */
  lemma BeValueEnds(b: seq<uint8>)
    requires |b| == 8
    ensures BeValue(b) / Pow256(7) == b[0] && BeValue(b) % 256 == b[7]
  {
    var v, k := BeValue(b), |b|;
    BeBytesOfBeValue(b);
    BeBytesDigits(v, k, 0);
    BeBytesDigits(v, k, k - 1);
    assert Pow256(k) == 256 * Pow256(k - 1);
    assert v / Pow256(k - 1) < 256;
  }

  /** Decoding a length prefix gives back the length that was encoded. */
  lemma FromBeBytesOfToBeBytes(n: u64)
    ensures FromBeBytes(ToBeBytes(n)) == n
  {
    assert Pow256(8) == U64_LIMIT;
    BeValueOfBeBytes(n, 8);
  }

  /** Every 8-byte prefix is the encoding of the length it decodes to. */
  lemma ToBeBytesOfFromBeBytes(b: seq<uint8>)
    requires |b| == 8
    ensures ToBeBytes(FromBeBytes(b)) == b
  {
    BeBytesOfBeValue(b);
  }

  /** The encoding is injective: distinct lengths have distinct prefixes. */
  lemma ToBeBytesInjective(m: u64, n: u64)
    requires ToBeBytes(m) == ToBeBytes(n)
    ensures m == n
  {
    FromBeBytesOfToBeBytes(m);
    FromBeBytesOfToBeBytes(n);
  }

  /** A product with a positive factor is positive only when the other factor is. */
  lemma PositiveFactor(k: int, d: int)
    requires d > 0 && k * d > 0
    ensures k > 0
  {
  }

  /** Euclidean division has one quotient: a decomposition with a remainder below d gives it. */
  lemma DivUnique(n: int, d: int, q: int, r: int)
    requires d > 0 && 0 <= r < d && n == q * d + r
    ensures n / d == q
  {
    var q0, r0 := n / d, n % d;
    assert n == q0 * d + r0;
    assert (q0 + 1 - q) * d == q0 * d + d - q * d;
    assert (q + 1 - q0) * d == q * d + d - q0 * d;
    PositiveFactor(q0 + 1 - q, d);
    PositiveFactor(q + 1 - q0, d);
  }

  /** Dropping the last byte and then m more is dropping m + 1 bytes. */
  lemma DivPow256(n: nat, m: nat)
    ensures (n / 256) / Pow256(m) == n / Pow256(m + 1)
  {
    var p := Pow256(m);
    var a, b := n / 256, n % 256;
    var q, c := a / p, a % p;
    assert n == a * 256 + b;
    assert a == q * p + c;
    assert n == q * (256 * p) + (c * 256 + b) by {
      assert a * 256 == q * (256 * p) + c * 256;
    }
    assert c * 256 + b < 256 * p by {
      assert c * 256 <= (p - 1) * 256;
    }
    DivUnique(n, 256 * p, q, c * 256 + b);
  }

  /** The i-th of the k big-endian bytes of n is digit k - 1 - i of n in base 256. */
  lemma {:induction false} BeBytesDigits(n: nat, k: nat, i: nat)
    requires i < k
    ensures BeBytes(n, k)[i] == (n / Pow256(k - 1 - i)) % 256
  {
    if i < k - 1 {
      BeBytesDigits(n / 256, k - 1, i);
      DivPow256(n, k - 2 - i);
    }
  }

  /** Big-endian order: byte i of the prefix is digit 7 - i of the length in base 256, most significant first. */
  lemma ToBeBytesDigits(n: u64)
    ensures forall i :: 0 <= i < 8 ==> ToBeBytes(n)[i] == (n / Pow256(7 - i)) % 256
  {
    forall i | 0 <= i < 8
      ensures ToBeBytes(n)[i] == (n / Pow256(7 - i)) % 256
    {
      BeBytesDigits(n, 8, i);
    }
  }
}
