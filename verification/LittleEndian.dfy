/** Fixed-width unsigned integers as little-endian bytes. */
module LittleEndian {
  import opened Bytes

  const U32_LIMIT: nat := 0x1_0000_0000
  const U64_LIMIT: nat := 0x1_0000_0000_0000_0000

  function Pow256(n: nat): (p: nat)
    ensures p > 0
  {
    if n == 0 then 1 else 256 * Pow256(n - 1)
  }

  function Value(b: seq<byte>): nat
  {
    if b == [] then 0 else b[0] as nat + 256 * Value(b[1..])
  }

  function Encode(v: nat, n: nat): (b: seq<byte>)
    ensures |b| == n
  {
    if n == 0 then [] else [(v % 256) as byte] + Encode(v / 256, n - 1)
  }

  lemma {:induction false} ValueOfEncode(v: nat, n: nat)
    requires v < Pow256(n)
    ensures Value(Encode(v, n)) == v
  {
    if n > 0 {
      ValueOfEncode(v / 256, n - 1);
      assert Encode(v, n)[1..] == Encode(v / 256, n - 1);
    }
  }

  lemma {:induction false} EncodeOfValue(b: seq<byte>)
    ensures Encode(Value(b), |b|) == b
  {
    if b != [] {
      EncodeOfValue(b[1..]);
      Digit(b[0], Value(b[1..]));
      assert b == [b[0]] + Encode(Value(b[1..]), |b| - 1);
    }
  }

  lemma {:induction false} ValueBound(b: seq<byte>)
    ensures Value(b) < Pow256(|b|)
  {
    if b != [] {
      ValueBound(b[1..]);
    }
  }

  lemma {:induction false} ValueOfZeros(b: seq<byte>)
    requires forall k :: 0 <= k < |b| ==> b[k] == 0
    ensures Value(b) == 0
  {
    if b != [] {
      ValueOfZeros(b[1..]);
    }
  }

  // Four bytes as a number, the lowest first.
  function Number(b: seq<byte>): nat
    requires |b| == 4
  {
    b[0] as nat + 0x100 * b[1] as nat + 0x1_0000 * b[2] as nat + 0x100_0000 * b[3] as nat
  }

  lemma ValueDigits(b: seq<byte>)
    requires |b| == 4
    ensures Value(b) == Number(b)
  {
    assert b[1..][0] == b[1] && b[1..][1..][0] == b[2] && b[1..][1..][1..][0] == b[3];
    assert Value(b[1..][1..][1..]) == b[3] as nat + 256 * Value(b[1..][1..][1..][1..]);
    assert Value(b[1..][1..]) == b[2] as nat + 256 * Value(b[1..][1..][1..]);
    assert Value(b[1..]) == b[1] as nat + 256 * Value(b[1..][1..]);
  }

  lemma {:induction false} ValueHalves(a: seq<byte>, b: seq<byte>)
    requires |a| <= 4
    ensures Value(a + b) == Value(a) + Pow256(|a|) * Value(b)
  {
    if a == [] {
      assert a + b == b;
    } else {
      assert (a + b)[0] == a[0] && (a + b)[1..] == a[1..] + b;
      ValueHalves(a[1..], b);
      assert Pow256(|a|) == 256 * Pow256(|a| - 1) && Value(a) == a[0] as nat + 256 * Value(a[1..]);
      assert Value(a + b) == a[0] as nat + 256 * Value(a[1..] + b);
      var p, n := Pow256(|a| - 1), Value(b);
      hide Pow256, Value;
      Shift(p, n);
    }
  }

  lemma Shift(p: nat, n: nat)
    ensures 256 * (p * n) == (256 * p) * n
  {
  }

  lemma Digit(d: byte, rest: nat)
    ensures (d as nat + 256 * rest) % 256 == d as nat
    ensures (d as nat + 256 * rest) / 256 == rest
  {
  }

  lemma EncodeTwo(v: nat)
    requires v < U16_LIMIT
    ensures var b := Encode(v, 2); v == b[0] as nat + 0x100 * b[1] as nat
  {
    assert Encode(v / 256, 1) == [(v / 256 % 256) as byte] + Encode(v / 256 / 256, 0);
  }

  lemma EncodeBytes(u: nat)
    requires u < U64_LIMIT
    ensures var b := Encode(u, 8); u == Number(b[..4]) + 0x1_0000_0000 * Number(b[4..])
  {
    Limits();
    ValueOfEncode(u, 8);
    var b := Encode(u, 8);
    hide Encode;
    assert b == b[..4] + b[4..];
    ValueHalves(b[..4], b[4..]);
    ValueDigits(b[..4]);
    ValueDigits(b[4..]);
  }

  lemma Limits()
    ensures Pow256(1) == 256 && Pow256(2) == U16_LIMIT && Pow256(4) == U32_LIMIT && Pow256(8) == U64_LIMIT
  {
    assert Pow256(0) == 1;
    assert Pow256(1) == 256;
    assert Pow256(2) == 256 * Pow256(1);
    assert Pow256(3) == 256 * Pow256(2);
    assert Pow256(4) == 256 * Pow256(3);
    assert Pow256(5) == 256 * Pow256(4);
    assert Pow256(6) == 256 * Pow256(5);
    assert Pow256(7) == 256 * Pow256(6);
    assert Pow256(8) == 256 * Pow256(7);
  }
}
