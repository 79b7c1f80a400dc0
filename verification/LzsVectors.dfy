/** The LZS codes bit by bit and number by number, and known inputs with their compressed bytes. */
module LzsVectors {
  import opened Bits
  import opened LzsFormat
  import opened LzsRoundTrip
  import opened LzsParse
  import opened LzsCompress

  /** Bit strings are most significant bit first. */
  lemma {:induction false} ToBitsAt(n: nat, v: nat, i: nat)
    requires i < n
    ensures ToBits(n, v)[i] <==> v / Pow2(n - 1 - i) % 2 == 1
  {
    if i < n - 1 {
      ToBitsAt(n - 1, v / 2, i);
      HalfDivides(v, Pow2(n - 2 - i));
      assert Pow2(n - 1 - i) == 2 * Pow2(n - 2 - i);
    }
  }

  lemma HalfDivides(v: nat, d: nat)
    requires d >= 1
    ensures v / 2 / d == v / (2 * d)
  {
    var q, r := v / 2 / d, v / 2 % d;
    assert v / 2 == d * q + r;
    assert v == 2 * d * q + (2 * r + v % 2);
    DivideUnique(v, 2 * d, q, 2 * r + v % 2);
  }

  lemma DivideUnique(a: nat, d: nat, q: nat, r: nat)
    requires d >= 1 && a == d * q + r && r < d
    ensures a / d == q
  {
    var e: int, m: int := a / d - q, 0 - d;
    assert a == d * (a / d) + a % d;
    assert d * e == d * (a / d) - d * q;
    assert m < d * e < d;
    assert e >= 1 ==> d * e >= d;
    assert e <= -1 ==> d * e <= m;
  }

  function Ones(n: nat): (s: seq<bool>)
    ensures |s| == n && forall i :: 0 <= i < n ==> s[i]
  {
    seq(n, _ => true)
  }

  /** Every code as numbers: nine bits with the top one clear for a literal; 0x180 and a seven-bit offset or
      0x1000 and an eleven-bit one for a match, then its length in two bits, in four, or as ones and a last
      nibble. */
  lemma CodeNumbers(t: Token)
    requires t.Encodable()
    ensures match t
            case Literal(b) => Code(t) == ToBits(9, b)
            case Match(o, n) =>
              Code(t) ==
              (if o < 128 then ToBits(9, 0x180 + o) else ToBits(13, 0x1000 + o)) +
              if n < 5 then ToBits(2, n - 2)
              else if n < 8 then ToBits(4, n + 7)
              else Ones((n + 7) / 15 * 4) + ToBits(4, (n + 7) % 15)
    ensures EndMarker() == [true, true, false, false, false, false, false, false, false]
  {
    hide ToBits, NibbleCode, LengthCode, OffsetCode;
    NineBits(t);
    if t.Match? {
      OffsetNumbers(t.offset);
      LengthNumbers(t.length);
      NibbleNumbers(t.length + 7);
    }
    MarkerBits();
  }

  lemma MarkerBits()
    ensures EndMarker() == [true, true, false, false, false, false, false, false, false]
  {
    ZeroBits(7);
    assert ToBits(2, 3) == [true, true];
  }

  lemma {:induction false} NibbleNumbers(k: nat)
    ensures NibbleCode(k) == Ones(k / 15 * 4) + ToBits(4, k % 15)
  {
    hide ToBits;
    if k < 15 {
      assert Ones(0) + ToBits(4, k) == ToBits(4, k);
    } else {
      var c := k / 15 - 1;
      NibbleNumbers(k - 15);
      assert (k - 15) / 15 == c && (k - 15) % 15 == k % 15 && k / 15 * 4 == 4 + c * 4;
      FourOnes();
      OnesConcat(4, c * 4);
      assert Ones(4) + (Ones(c * 4) + ToBits(4, k % 15)) == (Ones(4) + Ones(c * 4)) + ToBits(4, k % 15);
    }
  }

  lemma OnesConcat(a: nat, b: nat)
    ensures Ones(a) + Ones(b) == Ones(a + b)
  {
  }

  // ----- known answers

  /** Bytes that hold the parse's bits, the end marker and less than a byte more are the compressed form. */
  lemma PackedAs(src: seq<byte>, bytes: seq<byte>, rest: seq<bool>)
    requires ParseBits(src) + Closing() == Unpack(bytes) + rest && |rest| < 8
    ensures Compressed(src) == bytes
  {
    hide ParseBits, Closing, Unpack;
    PackUnpack(bytes, rest);
  }

  lemma Empty()
    ensures Compressed([]) == [0xc0, 0x00]
  {
    var b: seq<byte> := [0xc0, 0x00];
    assert ParseBits([]) == [];
    TwoBytes(0xc0, 0x00);
    assert [] + Closing() == Unpack(b) + [];
    PackedAs([], b, []);
  }

  lemma TwoBytes(x: byte, y: byte)
    ensures Unpack([x, y]) == ToBits(16, 256 * x + y)
  {
    hide ToBits, Unpack;
    assert [] + [x] == [x] && [x] + [y] == [x, y];
    EmptyBits();
    OneByteMore([], 0, x);
    OneByteMore([x], x, y);
  }

  /** abc */
  lemma Literals()
    ensures Compressed([0x61, 0x62, 0x63]) == [0x30, 0x98, 0x8c, 0x78, 0x00]
  {
    hide ToBits, Unpack, Parse, Codes, Closing, Code, Pack, Compressed;
    var src: seq<byte> := [0x61, 0x62, 0x63];
    var bytes: seq<byte> := [0x30, 0x98, 0x8c, 0x78, 0x00];
    ThreeLiterals();
    CodesThree(Literal(0x61), Literal(0x62), Literal(0x63));
    CodeNumbers(Literal(0x61));
    CodeNumbers(Literal(0x62));
    CodeNumbers(Literal(0x63));
    LiteralBits();
    PackedAs(src, bytes, [false, false, false]);
  }

  lemma ThreeLiterals()
    ensures Parse([0x61, 0x62, 0x63], 0) == [Literal(0x61), Literal(0x62), Literal(0x63)]
  {
    var src: seq<byte> := [0x61, 0x62, 0x63];
    assert Longest(src, 0) == Best(0, 0);
    assert LastPair(src, 1, 1) == -1;
    assert Parse(src, 1) == [Literal(0x62), Literal(0x63)];
  }

  lemma CodesThree(a: Token, b: Token, c: Token)
    requires a.Encodable() && b.Encodable() && c.Encodable()
    ensures Codes([a, b, c]) == Code(a) + Code(b) + Code(c)
  {
    hide Code;
    CodesCons(c, []);
    CodesCons(b, [c]);
    CodesCons(a, [b, c]);
    assert [a] + [b, c] == [a, b, c] && [b] + [c] == [b, c] && [c] + [] == [c];
  }

  lemma LiteralBits()
    ensures ToBits(9, 0x61) + ToBits(9, 0x62) + ToBits(9, 0x63) + Closing() ==
            Unpack([0x30, 0x98, 0x8c, 0x78, 0x00]) + [false, false, false]
  {
    hide ToBits;
    Powers();
    Join(9, 0x61, 9, 0x62);
    Join(18, 0x61 * 512 + 0x62, 9, 0x63);
    Join(27, (0x61 * 512 + 0x62) * 512 + 0x63, 16, 0xc000);
    FiveBytes(0x30, 0x98, 0x8c, 0x78, 0x00);
    Join(40, 0x30988c7800, 3, 0);
    NoBits();
  }

  /** Bit strings joined are numbers joined. */
  lemma Join(k: nat, a: nat, n: nat, b: nat)
    requires b < Pow2(n)
    ensures ToBits(k, a) + ToBits(n, b) == ToBits(k + n, a * Pow2(n) + b)
  {
    hide ToBits;
    ShlPow(a, n);
    ToBitsPush(k, n, a, b);
  }

  lemma {:induction false} ShlPow(v: nat, n: nat)
    ensures Shl(v, n) == v * Pow2(n)
  {
    if n > 0 { ShlPow(v, n - 1); }
  }

  lemma Powers()
    ensures Pow2(2) == 4 && Pow2(3) == 8 && Pow2(4) == 16 && Pow2(8) == 256 && Pow2(9) == 512 && Pow2(16) == 65536
  {
    PowValues();
  }

  lemma NoBits()
    ensures ToBits(2, 0) == [false, false] && ToBits(3, 0) == [false, false, false]
  {
  }

  lemma FiveBytes(a: byte, b: byte, c: byte, d: byte, e: byte)
    ensures Unpack([a, b, c, d, e]) == ToBits(40, (((a * 256 + b) * 256 + c) * 256 + d) * 256 + e)
  {
    hide ToBits, Unpack;
    assert [] + [a] == [a] && [a] + [b] == [a, b] && [a, b] + [c] == [a, b, c];
    assert [a, b, c] + [d] == [a, b, c, d] && [a, b, c, d] + [e] == [a, b, c, d, e];
    EmptyBits();
    OneByteMore([], 0, a);
    OneByteMore([a], a, b);
    OneByteMore([a, b], a * 256 + b, c);
    OneByteMore([a, b, c], (a * 256 + b) * 256 + c, d);
    OneByteMore([a, b, c, d], ((a * 256 + b) * 256 + c) * 256 + d, e);
  }

  lemma OneByteMore(s: seq<byte>, n: nat, x: byte)
    requires Unpack(s) == ToBits(8 * |s|, n)
    ensures Unpack(s + [x]) == ToBits(8 * |s + [x]|, n * 256 + x)
  {
    hide ToBits, Unpack;
    Powers();
    UnpackAppend(s, x);
    Join(8 * |s|, n, 8, x);
  }

  lemma EmptyBits()
    ensures Unpack([]) == ToBits(0, 0)
  {
  }

  /** Twenty times A: a literal and one match of length nineteen that overlaps itself. */
  lemma Repeated()
    ensures Compressed(seq(20, _ => 0x41)) == [0x20, 0xe0, 0x7e, 0xf0, 0x00]
  {
    hide ToBits, Unpack, Parse, Codes, Closing, Code, Pack, Compressed;
    var src: seq<byte> := seq(20, _ => 0x41);
    OneMatch(src);
    CodesCons(Match(1, 19), []);
    CodesCons(Literal(0x41), [Match(1, 19)]);
    assert [Match(1, 19)] + [] == [Match(1, 19)];
    assert [Literal(0x41)] + [Match(1, 19)] == [Literal(0x41), Match(1, 19)];
    NoCodes();
    CodeNumbers(Literal(0x41));
    CodeNumbers(Match(1, 19));
    RepeatedBits();
    PackedAs(src, [0x20, 0xe0, 0x7e, 0xf0, 0x00], [false, false]);
  }

  lemma NoCodes()
    ensures Codes([]) == []
  {
  }

  lemma OneMatch(src: seq<byte>)
    requires |src| == 20 && forall i :: 0 <= i < 20 ==> src[i] == 0x41
    ensures Parse(src, 0) == [Literal(0x41), Match(1, 19)]
  {
    hide Parse, Repeats;
    GreedyChoice(src, 0);
    ParseGoesOn(src, 0);
    AllRepeat(src, 2);
    GreedyChoice(src, 1);
    ParseGoesOn(src, 1);
    var m := Parse(src, 1)[0];
    AllRepeat(src, m.length);
    AllRepeat(src, m.length + 1);
    assert !RepeatsMore(src, 0, 1, m.length);
    assert Parse(src, 0) == [Parse(src, 0)[0]] + Parse(src, 0)[1..];
    assert Parse(src, 1) == [Parse(src, 1)[0]] + Parse(src, 1)[1..];
  }

  lemma AllRepeat(src: seq<byte>, n: nat)
    requires |src| == 20 && forall i :: 0 <= i < 20 ==> src[i] == 0x41
    ensures Repeats(src, 0, 1, n) <==> n <= 19
  {
  }

  lemma RepeatedBits()
    ensures ToBits(9, 0x41) + (ToBits(9, 0x181) + (Ones(4) + ToBits(4, 11))) + Closing() ==
            Unpack([0x20, 0xe0, 0x7e, 0xf0, 0x00]) + [false, false]
  {
    hide ToBits;
    Powers();
    assert Ones(4) == ToBits(4, 15) by { FourOnes(); }
    Join(4, 15, 4, 11);
    Join(9, 0x41, 9, 0x181);
    PowValues();
    Join(18, 0x41 * 512 + 0x181, 8, 15 * 16 + 11);
    Join(26, (0x41 * 512 + 0x181) * 256 + 0xfb, 16, 0xc000);
    FiveBytes(0x20, 0xe0, 0x7e, 0xf0, 0x00);
    Join(40, 0x20e07ef000, 2, 0);
    NoBits();
    var a, b, c := ToBits(9, 0x41), ToBits(9, 0x181), ToBits(8, 15 * 16 + 11);
    assert a + (b + c) == (a + b) + c;
  }

  lemma FourOnes()
    ensures Ones(4) == ToBits(4, 15)
  {
  }
}
