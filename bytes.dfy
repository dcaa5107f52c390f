/** Bytes and the fixed-width big-endian integers of Python's struct module
    ('!H' is two bytes, '!Q' is eight). */
module Bytes {

  type byte = bv8

  /** A value below 256 survives the round trip through a byte. The solver proves each
      sixteen-value range separately far faster than the whole range at once. */
  lemma ByteValue(x: nat)
    requires x < 256
    ensures (x as byte) as nat == x
  {
    if x < 16 {
    } else if x < 32 {
    } else if x < 48 {
    } else if x < 64 {
    } else if x < 80 {
    } else if x < 96 {
    } else if x < 112 {
    } else if x < 128 {
    } else if x < 144 {
    } else if x < 160 {
    } else if x < 176 {
    } else if x < 192 {
    } else if x < 208 {
    } else if x < 224 {
    } else if x < 240 {
    } else {
    }
  }

  /** 256 to the power k: the number of values k bytes can hold. */
  function Pow256(k: nat): (r: nat)
    ensures r > 0
  {
    if k == 0 then 1 else 256 * Pow256(k - 1)
  }

  /** struct.pack with a k-byte big-endian unsigned field: defined only for values that fit. */
  function ToBigEndian(n: nat, k: nat): (r: seq<byte>)
    requires n < Pow256(k)
    ensures |r| == k
  {
    if k == 0 then [] else ToBigEndian(n / 256, k - 1) + [(n % 256) as byte]
  }

  /** struct.unpack of a big-endian unsigned field of |s| bytes. */
  function FromBigEndian(s: seq<byte>): (n: nat)
    ensures n < Pow256(|s|)
  {
    if s == [] then 0 else FromBigEndian(s[..|s| - 1]) * 256 + s[|s| - 1] as nat
  }

  lemma {:induction false} FromToBigEndian(n: nat, k: nat)
    requires n < Pow256(k)
    ensures FromBigEndian(ToBigEndian(n, k)) == n
  {
    if k > 0 {
      var s := ToBigEndian(n, k);
      assert s[..k - 1] == ToBigEndian(n / 256, k - 1);
      ByteValue(n % 256);
      FromToBigEndian(n / 256, k - 1);
      calc {
        FromBigEndian(s);
        FromBigEndian(s[..k - 1]) * 256 + s[k - 1] as nat;
        (n / 256) * 256 + n % 256;
        n;
      }
    }
  }

  lemma DivMod256(f: nat, b: nat)
    requires b < 256
    ensures (f * 256 + b) / 256 == f && (f * 256 + b) % 256 == b
  {
  }

  /** A byte is the byte of its value. */
  lemma ValueByte(x: nat, b: byte)
    requires x == b as nat
    ensures x as byte == b
  {
  }

  lemma ToBigEndianStep(n: nat, k: nat)
    requires 0 < k && n < Pow256(k)
    ensures ToBigEndian(n, k) == ToBigEndian(n / 256, k - 1) + [(n % 256) as byte]
  {
  }

  lemma {:induction false} ToFromBigEndian(s: seq<byte>)
    ensures ToBigEndian(FromBigEndian(s), |s|) == s
  {
    if s != [] {
      var n := FromBigEndian(s);
      var init, last := s[..|s| - 1], s[|s| - 1];
      var f := FromBigEndian(init);
      assert n == f * 256 + last as nat;
      DivMod256(f, last as nat);
      var b := (n % 256) as byte;
      ValueByte(n % 256, last);
      ToFromBigEndian(init);
      ToBigEndianStep(n, |s|);
      calc {
        ToBigEndian(n, |s|);
        ToBigEndian(f, |s| - 1) + [b];
        init + [last];
        s;
      }
    }
  }
}
