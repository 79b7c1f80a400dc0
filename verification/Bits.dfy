/** Most-significant-bit-first bit strings, the bytes they are packed in, and the shifts and
    masks that move between them. */
module Bits {

  type byte = x: int | 0 <= x < 0x100

  function Pow2(n: nat): (r: nat)
    ensures r >= 1
  {
    if n == 0 then 1 else 2 * Pow2(n - 1)
  }

  /** v >> n */
  function Shr(v: nat, n: nat): nat {
    if n == 0 then v else Shr(v / 2, n - 1)
  }

  /** v << n, before any truncation */
  function Shl(v: nat, n: nat): (r: nat)
    ensures r >= v
  {
    if n == 0 then v else 2 * Shl(v, n - 1)
  }

  /** v & (1<<n - 1) */
  function Low(v: nat, n: nat): nat {
    if n == 0 then 0 else 2 * Low(v / 2, n - 1) + v % 2
  }

  /** The low n bits of v, most significant first. */
  function ToBits(n: nat, v: nat): (s: seq<bool>)
    ensures |s| == n
  {
    if n == 0 then [] else ToBits(n - 1, v / 2) + [v % 2 == 1]
  }

  /** The number a bit string denotes. */
  function FromBits(s: seq<bool>): nat
  {
    if s == [] then 0
    else 2 * FromBits(s[..|s| - 1]) + (if s[|s| - 1] then 1 else 0)
  }

  /** The bits of a byte string. */
  function Unpack(s: seq<byte>): (b: seq<bool>)
    ensures |b| == 8 * |s|
  {
    if s == [] then [] else Unpack(s[..|s| - 1]) + ToBits(8, s[|s| - 1])
  }

  // ----- splitting and joining

  /** The top n and the low m of n + m bits. */
  lemma {:induction false} ToBitsSplit(n: nat, m: nat, v: nat)
    ensures ToBits(n + m, v) == ToBits(n, Shr(v, m)) + ToBits(m, v)
  {
    if m > 0 {
      ToBitsSplit(n, m - 1, v / 2);
      assert n + m - 1 == n + (m - 1);
    }
  }

  /** Truncation to m bits does not touch the low k. */
  lemma {:induction false} ToBitsLow(k: nat, m: nat, v: nat)
    requires k <= m
    ensures ToBits(k, Low(v, m)) == ToBits(k, v)
  {
    if k > 0 {
      ToBitsLow(k - 1, m - 1, v / 2);
    }
  }

  lemma {:induction false} FromToBits(n: nat, v: nat)
    ensures FromBits(ToBits(n, v)) == Low(v, n)
  {
    if n > 0 {
      var s := ToBits(n, v);
      assert s[..|s| - 1] == ToBits(n - 1, v / 2);
      FromToBits(n - 1, v / 2);
    }
  }

  lemma {:induction false} LowSmall(v: nat, n: nat)
    requires v < Pow2(n)
    ensures Low(v, n) == v
  {
    if n > 0 {
      LowSmall(v / 2, n - 1);
    }
  }

  lemma {:induction false} LowBound(v: nat, n: nat)
    ensures Low(v, n) < Pow2(n)
  {
    if n > 0 {
      LowBound(v / 2, n - 1);
    }
  }

  lemma {:induction false} ToFromBits(s: seq<bool>)
    ensures FromBits(s) < Pow2(|s|)
    ensures ToBits(|s|, FromBits(s)) == s
  {
    if s != [] {
      ToFromBits(s[..|s| - 1]);
    }
  }

  lemma {:induction false} FromBitsConcat(a: seq<bool>, b: seq<bool>)
    ensures FromBits(a + b) == Shl(FromBits(a), |b|) + FromBits(b)
  {
    if b == [] {
      assert a + b == a;
    } else {
      var ab := a + b;
      assert ab[..|ab| - 1] == a + b[..|b| - 1];
      FromBitsConcat(a, b[..|b| - 1]);
    }
  }

  /** A value pushed below another: the shift-and-or of a bit accumulator. */
  lemma {:induction false} ToBitsPush(k: nat, n: nat, acc: nat, v: nat)
    requires v < Pow2(n)
    ensures ToBits(k + n, Shl(acc, n) + v) == ToBits(k, acc) + ToBits(n, v)
  {
    if n > 0 {
      var w := Shl(acc, n) + v;
      assert w / 2 == Shl(acc, n - 1) + v / 2 && w % 2 == v % 2;
      ToBitsPush(k, n - 1, acc, v / 2);
      assert k + n - 1 == k + (n - 1);
    }
  }

  /** Masking after a left shift is shifting the masked value. */
  lemma {:induction false} LowShl(v: nat, k: nat, t: nat)
    ensures Low(Shl(v, t), k + t) == Shl(Low(v, k), t)
  {
    if t > 0 {
      assert Shl(v, t) / 2 == Shl(v, t - 1) && Shl(v, t) % 2 == 0;
      LowShl(v, k, t - 1);
      assert k + t - 1 == k + (t - 1);
    }
  }

  /** A left shift over cleared bits leaves room for the or of a smaller value. */
  lemma {:induction false} ShrBound(v: nat, n: nat, m: nat)
    requires v < Pow2(n + m)
    ensures Shr(v, m) < Pow2(n)
  {
    if m > 0 {
      assert n + m - 1 == n + (m - 1);
      ShrBound(v / 2, n, m - 1);
    }
  }

  // ----- byte strings

  lemma {:induction false} UnpackConcat(a: seq<byte>, b: seq<byte>)
    ensures Unpack(a + b) == Unpack(a) + Unpack(b)
  {
    hide ToBits;
    if b == [] {
      assert a + b == a;
    } else {
      var ab := a + b;
      assert ab[..|ab| - 1] == a + b[..|b| - 1];
      UnpackConcat(a, b[..|b| - 1]);
    }
  }

  lemma UnpackAppend(a: seq<byte>, x: byte)
    ensures Unpack(a + [x]) == Unpack(a) + ToBits(8, x)
  {
    hide ToBits;
    assert (a + [x])[..|a|] == a;
  }

  lemma UnpackHead(s: seq<byte>)
    requires s != []
    ensures Unpack(s) == ToBits(8, s[0]) + Unpack(s[1..])
  {
    hide ToBits;
    UnpackConcat([s[0]], s[1..]);
    assert s == [s[0]] + s[1..];
    UnpackAppend([], s[0]);
    assert [] + [s[0]] == [s[0]];
    assert Unpack([]) + ToBits(8, s[0]) == ToBits(8, s[0]);
  }

  lemma {:induction false} UnpackAt(s: seq<byte>, i: nat)
    requires i < |s|
    ensures Unpack(s)[8 * i..8 * i + 8] == ToBits(8, s[i])
  {
    hide ToBits;
    var last := |s| - 1;
    var u, tail := Unpack(s[..last]), ToBits(8, s[last]);
    assert Unpack(s) == u + tail;
    if i == last {
      assert (u + tail)[8 * i..] == tail;
    } else {
      UnpackAt(s[..last], i);
      assert (u + tail)[8 * i..8 * i + 8] == u[8 * i..8 * i + 8];
    }
  }

  /** The whole bytes of a bit string; up to seven trailing bits are dropped. */
  function Pack(b: seq<bool>): (s: seq<byte>)
    ensures |s| == |b| / 8
  {
    if |b| < 8 then []
    else
      PowValues();
      ToFromBits(b[..8]);
      [FromBits(b[..8])] + Pack(b[8..])
  }

  lemma {:induction false} PackUnpack(s: seq<byte>, rest: seq<bool>)
    requires |rest| < 8
    ensures Pack(Unpack(s) + rest) == s
  {
    hide ToBits;
    if s == [] {
      assert Unpack(s) + rest == rest;
    } else {
      UnpackHead(s);
      assert Unpack(s) + rest == ToBits(8, s[0]) + (Unpack(s[1..]) + rest);
      PackHead(s[0], Unpack(s[1..]) + rest);
      PackUnpack(s[1..], rest);
    }
  }

  lemma PackHead(x: byte, tail: seq<bool>)
    ensures Pack(ToBits(8, x) + tail) == [x] + Pack(tail)
  {
    hide ToBits, Low, Pow2;
    var head := ToBits(8, x);
    var b := head + tail;
    assert b[..8] == head && b[8..] == tail;
    FromToBits(8, x);
    PowValues();
    LowSmall(x, 8);
  }

  lemma {:induction false} UnpackPack(b: seq<bool>)
    ensures Unpack(Pack(b)) == b[..|b| / 8 * 8]
  {
    hide ToBits, FromBits, Pow2;
    if |b| >= 8 {
      var x := Pack(b)[0];
      assert ToBits(8, x) == b[..8] by { ToFromBits(b[..8]); }
      UnpackHead(Pack(b));
      UnpackPack(b[8..]);
      var rest := b[8..];
      assert |b| / 8 * 8 == 8 + |rest| / 8 * 8;
      assert b[..|b| / 8 * 8] == b[..8] + rest[..|rest| / 8 * 8];
    }
  }

  lemma PowValues()
    ensures Pow2(0) == 1 && Pow2(1) == 2 && Pow2(2) == 4 && Pow2(4) == 16
    ensures Pow2(7) == 128 && Pow2(8) == 256 && Pow2(9) == 512
    ensures Pow2(11) == 2048 && Pow2(13) == 8192 && Pow2(16) == 0x1_0000
  {
  }

  lemma ShlValues(v: nat)
    ensures Shl(v, 2) == 4 * v && Shl(v, 4) == 16 * v && Shl(v, 7) == 128 * v
    ensures Shl(v, 8) == 256 * v && Shl(v, 11) == 2048 * v
  {
    assert Shl(v, 2) == 2 * Shl(v, 1) == 4 * v;
    assert Shl(v, 4) == 2 * Shl(v, 3) == 4 * Shl(v, 2);
    assert Shl(v, 6) == 2 * Shl(v, 5) == 4 * Shl(v, 4);
    assert Shl(v, 8) == 2 * Shl(v, 7) == 4 * Shl(v, 6);
    assert Shl(v, 10) == 2 * Shl(v, 9) == 4 * Shl(v, 8);
  }
}
