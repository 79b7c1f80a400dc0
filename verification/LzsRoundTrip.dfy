/** The reference decoder inverts the code, and how much it can produce. */
module LzsRoundTrip {
  import opened Bits
  import opened LzsFormat

  /** A bit string at a byte boundary leaves the decoder's two bytes for every field that
      starts at or before its last nine bits. */
  predicate Room(bits: seq<bool>, last: nat) {
    |bits| % 8 == 0 && last + 9 <= |bits|
  }

  /** code stands in bits at position pos. */
  ghost predicate At(bits: seq<bool>, pos: nat, code: seq<bool>) {
    pos + |code| <= |bits| && bits[pos..pos + |code|] == code
  }

  lemma AtSplit(bits: seq<bool>, pos: nat, a: seq<bool>, b: seq<bool>)
    requires At(bits, pos, a + b)
    ensures At(bits, pos, a) && At(bits, pos + |a|, b)
  {
    var ab := bits[pos..pos + |a + b|];
    assert ab[..|a|] == a && ab[|a|..] == b;
  }

  lemma FieldIs(bits: seq<bool>, pos: nat, k: nat, v: nat)
    requires k <= 9 && v < Pow2(k)
    requires At(bits, pos, ToBits(k, v))
    requires Room(bits, pos)
    ensures Field(bits, pos, k) == Got(v, pos + k)
  {
    hide ToBits, FromBits, Pow2;
    FromToBits(k, v);
    LowSmall(v, k);
  }

  lemma {:induction false} NibblesRead(bits: seq<bool>, pos: nat, k: nat, sum: nat)
    requires At(bits, pos, NibbleCode(k))
    requires Room(bits, pos + |NibbleCode(k)|)
    ensures ReadNibbles(bits, pos, sum) == Got(sum + k, pos + |NibbleCode(k)|)
    decreases k
  {
    hide ToBits, FromBits, Pow2;
    PowValues();
    if k < 15 {
      FieldIs(bits, pos, 4, k);
    } else {
      AtSplit(bits, pos, ToBits(4, 15), NibbleCode(k - 15));
      FieldIs(bits, pos, 4, 15);
      NibblesRead(bits, pos + 4, k - 15, sum + 15);
    }
  }

  lemma LengthRead(bits: seq<bool>, pos: nat, n: nat)
    requires n >= 2
    requires At(bits, pos, LengthCode(n))
    requires Room(bits, pos + |LengthCode(n)|)
    ensures ReadLength(bits, pos) == Got(n, pos + |LengthCode(n)|)
  {
    hide ToBits, FromBits, Pow2;
    PowValues();
    if n < 5 {
      FieldIs(bits, pos, 2, n - 2);
    } else if n < 8 {
      AtSplit(bits, pos, ToBits(2, 3), ToBits(2, n - 5));
      FieldIs(bits, pos, 2, 3);
      FieldIs(bits, pos + 2, 2, n - 5);
    } else {
      AtSplit(bits, pos, ToBits(2, 3), ToBits(2, 3) + NibbleCode(n - 8));
      AtSplit(bits, pos + 2, ToBits(2, 3), NibbleCode(n - 8));
      FieldIs(bits, pos, 2, 3);
      FieldIs(bits, pos + 2, 2, 3);
      NibblesRead(bits, pos + 4, n - 8, 8);
    }
  }

  /** The first nine bits of each code, as one number. */
  lemma NineBits(t: Token)
    requires t.Encodable()
    ensures t.Literal? ==> LiteralCode(t.value) == ToBits(9, t.value)
    ensures t.Match? && t.offset < 0x80 ==> OffsetCode(t.offset) == ToBits(9, 0x180 + t.offset)
    ensures t.Match? && t.offset >= 0x80 ==>
              OffsetCode(t.offset) == ToBits(9, 0x100 + t.offset / 16) + ToBits(4, t.offset % 16)
    ensures EndMarker() == ToBits(9, 0x180)
  {
    hide FromBits, Pow2, ToBits, Shl;
    PowValues();
    ToBitsPush(2, 7, 3, 0);
    ShlValues(3);
    match t
    case Literal(b) =>
      ToBitsPush(1, 8, 0, b);
      ShlValues(0);
      ZeroBit();
    case Match(o, _) =>
      if o < 0x80 {
        ToBitsPush(2, 7, 3, o);
      } else {
        ToBitsPush(2, 7, 2, o / 16);
        ToBitsPush(7, 4, o / 16, o % 16);
        ShlValues(2);
        ShlValues(o / 16);
      }
  }

  lemma ZeroBit()
    ensures ToBits(1, 0) == [false]
  {
    assert ToBits(0, 0) == [];
  }

  lemma OffsetRead(bits: seq<bool>, pos: nat, o: nat)
    requires 1 <= o < 2048
    requires At(bits, pos, OffsetCode(o))
    requires Room(bits, pos + |OffsetCode(o)|)
    ensures var v := if o < 0x80 then 0x180 + o else 0x100 + o / 16;
            && Field(bits, pos, 9) == Got(v, pos + 9)
            && ReadOffset(bits, pos + 9, v) == Got(o, pos + |OffsetCode(o)|)
  {
    hide ToBits, FromBits, Pow2;
    if o < 0x80 {
      assert At(bits, pos, ToBits(9, 0x180 + o)) by { NineBits(Match(o, 2)); }
      assert 0x180 + o < Pow2(9) by { PowValues(); }
      FieldIs(bits, pos, 9, 0x180 + o);
    } else {
      var hi, lo := 0x100 + o / 16, o % 16;
      assert At(bits, pos, ToBits(9, hi) + ToBits(4, lo)) by { NineBits(Match(o, 2)); }
      WideRead(bits, pos, hi, lo);
      JoinNibble(o);
    }
  }

  lemma JoinNibble(o: nat)
    requires o < 2048
    ensures (0x100 + o / 16) % 0x80 * 16 + o % 16 == o
  {
  }

  lemma WideRead(bits: seq<bool>, pos: nat, hi: nat, lo: nat)
    requires hi < 0x200 && lo < 0x10
    requires At(bits, pos, ToBits(9, hi) + ToBits(4, lo))
    requires Room(bits, pos + 13)
    ensures Field(bits, pos, 9) == Got(hi, pos + 9)
    ensures Field(bits, pos + 9, 4) == Got(lo, pos + 13)
  {
    hide ToBits, FromBits, Pow2;
    PowValues();
    AtSplit(bits, pos, ToBits(9, hi), ToBits(4, lo));
    FieldIs(bits, pos, 9, hi);
    FieldIs(bits, pos + 9, 4, lo);
  }

  lemma ItemRead(bits: seq<bool>, pos: nat, t: Token)
    requires t.Encodable()
    requires At(bits, pos, Code(t))
    requires Room(bits, pos + |Code(t)|)
    ensures ReadItem(bits, pos) == Got(Item(t), pos + |Code(t)|)
  {
    hide ToBits, FromBits, Pow2, OffsetCode, LengthCode, ReadOffset, ReadLength;
    match t
    case Literal(b) =>
      PowValues();
      NineBits(t);
      FieldIs(bits, pos, 9, b);
    case Match(o, n) =>
      MatchRead(bits, pos, o, n);
  }

  lemma MatchRead(bits: seq<bool>, pos: nat, o: nat, n: nat)
    requires Match(o, n).Encodable()
    requires At(bits, pos, OffsetCode(o) + LengthCode(n))
    requires Room(bits, pos + |OffsetCode(o) + LengthCode(n)|)
    ensures ReadItem(bits, pos) == Got(Item(Match(o, n)), pos + |OffsetCode(o) + LengthCode(n)|)
  {
    hide Field, OffsetCode, LengthCode, ReadOffset, ReadLength;
    AtSplit(bits, pos, OffsetCode(o), LengthCode(n));
    OffsetRead(bits, pos, o);
    LengthRead(bits, pos + |OffsetCode(o)|, n);
  }

  lemma EndRead(bits: seq<bool>, pos: nat)
    requires At(bits, pos, EndMarker())
    requires Room(bits, pos)
    ensures ReadItem(bits, pos) == Got(End, pos + 9)
  {
    hide ToBits, FromBits, Pow2;
    PowValues();
    NineBits(Literal(0));
    FieldIs(bits, pos, 9, 0x180);
  }

  lemma {:induction false} ExpandableEncodable(out: seq<byte>, tokens: seq<Token>)
    requires ExpandsFrom(out, tokens)
    ensures AllEncodable(tokens)
    decreases |tokens|
  {
    if tokens != [] {
      ExpandableEncodable(Apply(out, tokens[0]), tokens[1..]);
      forall i | 0 <= i < |tokens| ensures tokens[i].Encodable() {
        if i > 0 { assert tokens[i] == tokens[1..][i - 1]; }
      }
    }
  }

  /** Decoding the codes of a token string, closed by the end marker, gives what the tokens
      stand for if it fits and reports a full output otherwise. */
  lemma {:induction false} DecodeCodes(bits: seq<bool>, pos: nat, tokens: seq<Token>,
                                      out: seq<byte>, room: nat)
    requires ExpandsFrom(out, tokens)
    requires AllEncodable(tokens)
    requires At(bits, pos, Codes(tokens) + EndMarker())
    requires |bits| % 8 == 0
    requires |out| <= room
    ensures Decode(bits, pos, out, room) ==
            if |Expand(out, tokens)| <= room then Ok(Expand(out, tokens)) else Fail(OutputFull)
    decreases |tokens|
  {
    hide ToBits, FromBits, ReadItem, Field, Code, Pow2;
    if tokens == [] {
      assert Codes(tokens) + EndMarker() == EndMarker();
      EndRead(bits, pos);
      assert Decode(bits, pos, out, room) == Ok(out);
    } else {
      var t, c, rest := tokens[0], Code(tokens[0]), Codes(tokens[1..]) + EndMarker();
      assert Codes(tokens) + EndMarker() == c + rest;
      var out2, next := Apply(out, t), pos + |c|;
      assert At(bits, pos, c) && At(bits, next, rest) by { AtSplit(bits, pos, c, rest); }
      assert Decode(bits, pos, out, room) ==
             if |out2| <= room then Decode(bits, next, out2, room) else Fail(OutputFull) by {
        ItemRead(bits, pos, t);
        DecodeStep(bits, pos, next, t, out, room);
      }
      if |out2| <= room {
        DecodeCodes(bits, next, tokens[1..], out2, room);
      }
    }
  }

  lemma DecodeStep(bits: seq<bool>, pos: nat, next: nat, t: Token, out: seq<byte>, room: nat)
    requires Applicable(t, |out|) && |out| <= room
    requires ReadItem(bits, pos) == Got(Item(t), next)
    ensures Decode(bits, pos, out, room) ==
            if |Apply(out, t)| <= room then Decode(bits, next, Apply(out, t), room) else Fail(OutputFull)
  {
  }

  // ----- how much a decoder can produce

  lemma {:induction false} NibblesYield(bits: seq<bool>, pos: nat, sum: nat)
    ensures var r := ReadNibbles(bits, pos, sum);
            r.Got? ==> 4 * (r.value - sum) <= 15 * (r.next - pos) - 4
    decreases |bits| - pos
  {
    match Field(bits, pos, 4)
    case Short =>
    case Got(v, p) =>
      FieldBound(bits, pos, 4);
      PowValues();
      if v == 15 {
        NibblesYield(bits, p, sum + 15);
      }
  }

  lemma FieldBound(bits: seq<bool>, pos: nat, k: nat)
    requires k <= 9
    ensures Field(bits, pos, k).Got? ==> Field(bits, pos, k).value < Pow2(k)
  {
    if Field(bits, pos, k).Got? {
      ToFromBits(bits[pos..pos + k]);
    }
  }

  lemma ItemYield(bits: seq<bool>, pos: nat)
    ensures var r := ReadItem(bits, pos);
            r.Got? ==>
              match r.value
              case End => true
              case Item(Literal(_)) => r.next == pos + 9
              case Item(Match(_, n)) => 4 * n <= 15 * (r.next - pos)
  {
    hide ToBits, FromBits, Pow2;
    PowValues();
    match Field(bits, pos, 9)
    case Short =>
    case Got(v, p) =>
      if v >= 0x100 && v != 0x180 && ReadOffset(bits, p, v).Got? {
        var q := ReadOffset(bits, p, v).next;
        FieldBound(bits, q, 2);
        if Field(bits, q, 2).Got? {
          FieldBound(bits, q + 2, 2);
          NibblesYield(bits, q + 4, 8);
        }
      }
  }

  /** Whatever the input, a decoded result fits the room and is at most thirty times as long
      as the bytes it came from. */
  lemma {:induction false} DecodeYield(bits: seq<bool>, pos: nat, out: seq<byte>, room: nat)
    requires |out| <= room && pos <= |bits|
    ensures var r := Decode(bits, pos, out, room);
            r.Ok? ==> |r.data| <= room && 4 * (|r.data| - |out|) <= 15 * (|bits| - pos)
    decreases |bits| - pos
  {
    ItemYield(bits, pos);
    match ReadItem(bits, pos)
    case Short =>
    case Got(End, _) =>
    case Got(Item(Literal(b)), p) =>
      if |out| < room {
        DecodeYield(bits, p, out + [b], room);
      }
    case Got(Item(Match(offset, length)), p) =>
      if 1 <= offset <= |out| && length + |out| <= room {
        DecodeYield(bits, p, CopyBack(out, offset, length), room);
      }
  }

  /** At most thirty bytes come out for each byte that went in. */
  lemma DecompressionRatio(src: seq<byte>, room: nat)
    ensures var r := Decode(Unpack(src), 0, [], room);
            r.Ok? ==> |r.data| <= room && |r.data| <= 30 * |src|
  {
    hide Decode;
    DecodeYield(Unpack(src), 0, [], room);
  }
}
