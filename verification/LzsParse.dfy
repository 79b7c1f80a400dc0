/** What the compressor is to produce: a greedy parse by brute-force search, the bytes that
    carry it, and the theorems about them (round trip, optimality, size, termination). */
module LzsParse {
  import opened Bits
  import opened LzsFormat
  import opened LzsRoundTrip

  const MAX_HISTORY: nat := 2048

  // ----- longest match by brute force

  /** How many bytes from position q on repeat those from the earlier position p on. */
  function Run(src: seq<byte>, p: nat, q: nat): (r: nat)
    requires p < q <= |src|
    ensures q + r <= |src|
    decreases |src| - q
  {
    if q < |src| && src[p] == src[q] then 1 + Run(src, p + 1, q + 1) else 0
  }

  datatype Best = Best(offset: nat, length: nat)

  /** The longest run over offsets 1..limit, the nearest one among equals. */
  function BestUpTo(src: seq<byte>, q: nat, limit: nat): (r: Best)
    requires limit <= q <= |src|
    ensures r.offset <= limit && q + r.length <= |src|
    ensures r.length > 0 ==> r.offset >= 1
  {
    if limit == 0 then Best(0, 0)
    else
      var b, r := BestUpTo(src, q, limit - 1), Run(src, q - limit, q);
      if r > b.length then Best(limit, r) else b
  }

  function Window(q: nat): (w: nat)
    ensures w <= q && w < MAX_HISTORY
  {
    if q < MAX_HISTORY then q else MAX_HISTORY - 1
  }

  function Longest(src: seq<byte>, q: nat): (r: Best)
    requires q <= |src|
    ensures r.offset < MAX_HISTORY && r.offset <= q && q + r.length <= |src|
    ensures r.length > 0 ==> r.offset >= 1
  {
    BestUpTo(src, q, Window(q))
  }

  // ----- greedy parse

  predicate SamePair(src: seq<byte>, p: nat, q: nat)
    requires p + 1 < |src| && q + 1 < |src|
  {
    src[p] == src[q] && src[p + 1] == src[q + 1]
  }

  /** The last position before limit whose two bytes are those at q, or -1. */
  function LastPair(src: seq<byte>, q: nat, limit: nat): (r: int)
    requires limit <= q && q + 1 < |src|
    ensures -1 <= r < limit
    ensures r >= 0 ==> SamePair(src, r, q)
    ensures forall p :: r < p < limit ==> !SamePair(src, p, q)
  {
    if limit == 0 then -1
    else if SamePair(src, limit - 1, q) then limit - 1
    else LastPair(src, q, limit - 1)
  }

  /** The end of the input. A two-byte remainder becomes a match with the nearest equal pair
      among the positions below indexed, longest or not. */
  function ParseTail(src: seq<byte>, q: nat, indexed: nat): seq<Token>
    requires indexed <= q <= |src|
  {
    if q + 2 == |src| then
      var p := LastPair(src, q, indexed);
      if p >= 0 && p + MAX_HISTORY > q then [Match(q - p, 2)]
      else [Literal(src[q]), Literal(src[q + 1])]
    else if q + 1 == |src| then [Literal(src[q])]
    else []
  }

  function Parse(src: seq<byte>, q: nat): seq<Token>
    requires q <= |src|
    decreases |src| - q
  {
    if q + 2 < |src| then
      var m := Longest(src, q);
      if m.length < 2 then [Literal(src[q])] + Parse(src, q + 1)
      else if q + m.length + 2 < |src| then
        [Match(m.offset, m.length)] + Parse(src, q + m.length)
      else
        [Match(m.offset, m.length)] + ParseTail(src, q + m.length, q + 1)
    else ParseTail(src, q, q)
  }

  // ----- optimality

  /** Over every offset 1..2047 no run is longer than the chosen one, and none as long is
      nearer. */
  lemma {:induction false} BestIsBest(src: seq<byte>, q: nat, limit: nat)
    requires limit <= q <= |src|
    ensures var b := BestUpTo(src, q, limit);
            && (b.length > 0 ==> Run(src, q - b.offset, q) == b.length)
            && (forall p: nat :: q - limit <= p < q ==> Run(src, p, q) <= b.length)
            && (forall p: nat :: q - b.offset < p < q ==> Run(src, p, q) < b.length)
  {
    hide Run;
    if limit > 0 {
      BestIsBest(src, q, limit - 1);
    }
  }

  /** The n bytes at q are those at p. */
  predicate Repeats(src: seq<byte>, p: nat, q: nat, n: nat)
    requires p <= q
  {
    q + n <= |src| && src[p..p + n] == src[q..q + n]
  }

  /** And the next one is too. */
  predicate RepeatsMore(src: seq<byte>, p: nat, q: nat, n: nat)
    requires p <= q
  {
    Repeats(src, p, q, n + 1)
  }

  /** The main loop's choice at q: a literal exactly when none of the 2047 positions before q has the
      same two bytes, and otherwise the longest match among those positions, the nearest of several. */
  lemma GreedyChoice(src: seq<byte>, q: nat)
    requires q + 2 < |src|
    ensures Parse(src, q) != []
    ensures Parse(src, q)[0] == Literal(src[q]) <==> forall p: nat :: q - 2048 < p < q ==> !Repeats(src, p, q, 2)
    ensures Parse(src, q)[0] != Literal(src[q]) ==>
              var m := Parse(src, q)[0];
              && m.Match? && 1 <= m.offset < 2048 && m.offset <= q && 2 <= m.length
              && Repeats(src, q - m.offset, q, m.length)
              && (forall p: nat :: q - 2048 < p < q ==> !RepeatsMore(src, p, q, m.length))
              && (forall p: nat :: q - m.offset < p < q ==> !Repeats(src, p, q, m.length))
  {
    hide Run, BestUpTo, Parse;
    ParseHead(src, q);
    BestIsBest(src, q, Window(q));
    var m := Longest(src, q);
    forall p: nat | q - 2048 < p < q
      ensures Repeats(src, p, q, 2) <==> Run(src, p, q) >= 2
      ensures Repeats(src, p, q, m.length) <==> Run(src, p, q) >= m.length
      ensures RepeatsMore(src, p, q, m.length) <==> Run(src, p, q) > m.length
    {
      RunRepeats(src, p, q, 2);
      RunRepeats(src, p, q, m.length);
      RunRepeats(src, p, q, m.length + 1);
    }
    if m.length >= 2 {
      assert Repeats(src, q - m.offset, q, 2);
    }
  }

  lemma RunRepeats(src: seq<byte>, p: nat, q: nat, n: nat)
    requires p < q <= |src|
    ensures Repeats(src, p, q, n) <==> Run(src, p, q) >= n
  {
    hide Run;
    if q + n <= |src| { RunSlices(src, p, q, n); }
  }

  /** The choice for a last pair at q: a match of length two with the nearest equal pair among the
      positions below indexed, if that is not more than 2047 back. */
  lemma TailChoice(src: seq<byte>, q: nat, indexed: nat)
    requires indexed <= q && q + 2 == |src|
    ensures ParseTail(src, q, indexed) == [Literal(src[q]), Literal(src[q + 1])] <==>
            forall p: nat :: q - 2048 < p < indexed ==> !Repeats(src, p, q, 2)
    ensures ParseTail(src, q, indexed) != [Literal(src[q]), Literal(src[q + 1])] ==>
            exists p: nat ::
              && q - 2048 < p < indexed && Repeats(src, p, q, 2) && ParseTail(src, q, indexed) == [Match(q - p, 2)]
              && (forall r: nat :: p < r < indexed ==> !Repeats(src, r, q, 2))
  {
    var p := LastPair(src, q, indexed);
    forall r: nat | r < indexed ensures Repeats(src, r, q, 2) <==> SamePair(src, r, q) {
      PairIsRun(src, r, q);
      RunRepeats(src, r, q, 2);
    }
    if p >= 0 { assert Repeats(src, p, q, 2); }
  }

  /** What follows the first token: the parse of what it leaves, or, if it is a match that leaves at most
      two bytes, their tail, in which only positions up to the match's own count. */
  lemma ParseGoesOn(src: seq<byte>, q: nat)
    requires q + 2 < |src|
    ensures Parse(src, q) != [] && match Parse(src, q)[0]
            case Literal(_) => Parse(src, q)[1..] == Parse(src, q + 1)
            case Match(_, n) =>
              q + n <= |src| &&
              Parse(src, q)[1..] ==
              if q + n + 2 < |src| then Parse(src, q + n)
              else if q + n + 2 == |src| then ParseTail(src, q + n, q + 1)
              else if q + n + 1 == |src| then [Literal(src[q + n])]
              else []
  {
    hide BestUpTo, Parse;
    ParseHead(src, q);
  }

  lemma {:induction false} RunSlices(src: seq<byte>, p: nat, q: nat, n: nat)
    requires p < q && q + n <= |src|
    ensures Run(src, p, q) >= n <==> src[p..p + n] == src[q..q + n]
    decreases n
  {
    if n > 0 {
      assert src[p..p + n] == [src[p]] + src[p + 1..p + n];
      assert src[q..q + n] == [src[q]] + src[q + 1..q + n];
      if src[p] == src[q] {
        RunSlices(src, p + 1, q + 1, n - 1);
      }
    }
  }

  /** One step of the parse. */
  lemma ParseHead(src: seq<byte>, q: nat)
    requires q + 2 < |src|
    ensures var m := Longest(src, q);
            Parse(src, q) ==
            if m.length < 2 then [Literal(src[q])] + Parse(src, q + 1)
            else [Match(m.offset, m.length)] +
                 if q + m.length + 2 < |src| then Parse(src, q + m.length)
                 else ParseTail(src, q + m.length, q + 1)
  {
  }

  lemma PairIsRun(src: seq<byte>, p: nat, q: nat)
    requires p < q && q + 1 < |src|
    ensures SamePair(src, p, q) <==> Run(src, p, q) >= 2
  {
    assert src[p] == src[q] ==> Run(src, p, q) == 1 + Run(src, p + 1, q + 1);
  }

  // ----- the parse stands for the input

  lemma {:induction false} CopyRun(src: seq<byte>, q: nat, offset: nat, n: nat)
    requires 1 <= offset <= q && q + n <= |src|
    requires Run(src, q - offset, q) >= n
    ensures CopyBack(src[..q], offset, n) == src[..q + n]
    decreases n
  {
    if n > 0 {
      assert src[..q] + [src[q]] == src[..q + 1];
      CopyRun(src, q + 1, offset, n - 1);
    }
  }

  lemma {:induction false} ExpandCons(out: seq<byte>, t: Token, rest: seq<Token>)
    requires Applicable(t, |out|) && ExpandsFrom(Apply(out, t), rest)
    ensures ExpandsFrom(out, [t] + rest)
    ensures Expand(out, [t] + rest) == Expand(Apply(out, t), rest)
  {
    assert ([t] + rest)[1..] == rest;
  }

  lemma TailExpands(src: seq<byte>, q: nat, indexed: nat)
    requires indexed <= q <= |src| <= q + 2
    ensures ExpandsFrom(src[..q], ParseTail(src, q, indexed))
    ensures Expand(src[..q], ParseTail(src, q, indexed)) == src
  {
    var out := src[..q];
    if q + 2 == |src| {
      var p := LastPair(src, q, indexed);
      var all := out + [src[q]] + [src[q + 1]];
      assert all == src;
      if p >= 0 && p + MAX_HISTORY > q {
        var t := Match(q - p, 2);
        PairIsRun(src, p, q);
        CopyRun(src, q, q - p, 2);
        ExpandCons(out, t, []);
        assert [t] + [] == [t];
      } else {
        var s, t := Literal(src[q]), Literal(src[q + 1]);
        ExpandCons(out + [src[q]], t, []);
        assert [t] + [] == [t];
        ExpandCons(out, s, [t]);
        assert [s] + [t] == [s, t];
      }
    } else if q + 1 == |src| {
      var t := Literal(src[q]);
      assert out + [src[q]] == src;
      ExpandCons(out, t, []);
      assert [t] + [] == [t];
    }
  }

  lemma {:induction false} ParseExpands(src: seq<byte>, q: nat)
    requires q <= |src|
    ensures ExpandsFrom(src[..q], Parse(src, q))
    ensures Expand(src[..q], Parse(src, q)) == src
    decreases |src| - q
  {
    hide BestUpTo, ParseTail, Run, CopyBack, Expand, ExpandsFrom, Parse;
    if q + 2 < |src| {
      ParseHead(src, q);
      var m := Longest(src, q);
      if m.length < 2 {
        assert src[..q] + [src[q]] == src[..q + 1];
        ParseExpands(src, q + 1);
        ExpandCons(src[..q], Literal(src[q]), Parse(src, q + 1));
      } else {
        var t, next := Match(m.offset, m.length), q + m.length;
        assert Apply(src[..q], t) == src[..next] by {
          BestIsBest(src, q, Window(q));
          CopyRun(src, q, m.offset, m.length);
        }
        if next + 2 < |src| {
          ParseExpands(src, next);
          ExpandCons(src[..q], t, Parse(src, next));
        } else {
          TailExpands(src, next, q + 1);
          ExpandCons(src[..q], t, ParseTail(src, next, q + 1));
        }
      }
    } else {
      ParseLast(src, q);
      TailExpands(src, q, q);
    }
  }

  lemma ParseLast(src: seq<byte>, q: nat)
    requires q <= |src| <= q + 2
    ensures Parse(src, q) == ParseTail(src, q, q)
  {
  }

  lemma ParseEncodable(src: seq<byte>, q: nat)
    requires q <= |src|
    ensures AllEncodable(Parse(src, q))
  {
    ParseExpands(src, q);
    ExpandableEncodable(src[..q], Parse(src, q));
  }

  // ----- the compressed bytes

  /** 0xc000: the end marker and seven zero bits to push it out. */
  function Closing(): (r: seq<bool>)
    ensures |r| == 16
  {
    ToBits(16, 0xc000)
  }

  lemma ClosingIs()
    ensures Closing() == EndMarker() + ToBits(7, 0)
  {
    hide ToBits, Pow2, Shl;
    PowValues();
    ShlValues(0x180);
    ToBitsPush(9, 7, 0x180, 0);
    NineBits(Literal(0));
  }

  function BitsFrom(src: seq<byte>, q: nat): seq<bool>
    requires q <= |src|
  {
    ParseEncodable(src, q);
    Codes(Parse(src, q))
  }

  function TailBits(src: seq<byte>, q: nat, indexed: nat): seq<bool>
    requires indexed <= q <= |src|
  {
    Codes(ParseTail(src, q, indexed))
  }

  function ParseBits(src: seq<byte>): seq<bool> {
    BitsFrom(src, 0)
  }

  lemma {:induction false} CodesCons(t: Token, rest: seq<Token>)
    requires t.Encodable() && AllEncodable(rest)
    ensures AllEncodable([t] + rest)
    ensures Codes([t] + rest) == Code(t) + Codes(rest)
  {
    assert ([t] + rest)[1..] == rest;
  }

  /** One step of the parse, in bits. */
  lemma BitsStep(src: seq<byte>, q: nat)
    requires q + 2 < |src|
    ensures var m := Longest(src, q);
            BitsFrom(src, q) ==
            if m.length < 2 then Code(Literal(src[q])) + BitsFrom(src, q + 1)
            else Code(Match(m.offset, m.length)) +
                 if q + m.length + 2 < |src| then BitsFrom(src, q + m.length)
                 else TailBits(src, q + m.length, q + 1)
  {
    hide Codes, Code, Parse, ParseTail, BestUpTo;
    ParseHead(src, q);
    var m := Longest(src, q);
    if m.length < 2 {
      ParseEncodable(src, q + 1);
      CodesCons(Literal(src[q]), Parse(src, q + 1));
    } else {
      var t, next := Match(m.offset, m.length), q + m.length;
      if next + 2 < |src| {
        ParseEncodable(src, next);
        CodesCons(t, Parse(src, next));
      } else {
        TailEncodable(src, next, q + 1);
        CodesCons(t, ParseTail(src, next, q + 1));
      }
    }
  }

  lemma TailEncodable(src: seq<byte>, q: nat, indexed: nat)
    requires indexed <= q <= |src|
    ensures AllEncodable(ParseTail(src, q, indexed))
  {
  }

  lemma BitsLast(src: seq<byte>, q: nat)
    requires q <= |src| <= q + 2
    ensures BitsFrom(src, q) == TailBits(src, q, q)
  {
    ParseLast(src, q);
  }

  function Compressed(src: seq<byte>): seq<byte> {
    Pack(ParseBits(src) + Closing())
  }

  lemma CompressedBits(src: seq<byte>)
    ensures var b := Unpack(Compressed(src));
            && At(b, 0, ParseBits(src) + EndMarker())
            && |ParseBits(src)| + 9 <= |b| <= |ParseBits(src)| + 16
            && forall i :: |ParseBits(src)| + 9 <= i < |b| ==> !b[i]
  {
    hide ToBits, Codes, Pack;
    var codes := ParseBits(src);
    var all := codes + Closing();
    UnpackPack(all);
    ClosingIs();
    ZeroBits(7);
    assert all == (codes + EndMarker()) + ToBits(7, 0);
  }

  lemma {:induction false} ZeroBits(n: nat)
    ensures forall i :: 0 <= i < n ==> !ToBits(n, 0)[i]
  {
    if n > 0 { ZeroBits(n - 1); }
  }

  /** Decompressing what was compressed gives the input back whenever it fits. */
  lemma RoundTrip(src: seq<byte>, room: nat)
    ensures Decode(Unpack(Compressed(src)), 0, [], room) ==
            if |src| <= room then Ok(src) else Fail(OutputFull)
  {
    hide ToBits, Codes, Pack, Decode;
    ParseExpands(src, 0);
    ParseEncodable(src, 0);
    CompressedBits(src);
    assert src[..0] == [];
    DecodeCodes(Unpack(Compressed(src)), 0, Parse(src, 0), [], room);
  }

  /** The output ends with the byte pair that holds the start of the end marker: only zero
      padding is dropped, and the decoder reads the marker with exactly two bytes left. */
  lemma TightEnd(src: seq<byte>)
    ensures |Compressed(src)| == |ParseBits(src)| / 8 + 2
    ensures ReadItem(Unpack(Compressed(src)), |ParseBits(src)|) == Got(End, |ParseBits(src)| + 9)
  {
    hide ToBits, Codes, Pack;
    CompressedBits(src);
    AtSplit(Unpack(Compressed(src)), 0, ParseBits(src), EndMarker());
    EndRead(Unpack(Compressed(src)), |ParseBits(src)|);
  }

  // ----- size

  lemma {:induction false} NibbleSize(k: nat)
    ensures 4 <= |NibbleCode(k)| <= k + 4
  {
    if k >= 15 { NibbleSize(k - 15); }
  }

  /** No code takes more than nine bits for each byte it stands for. */
  lemma CodeSize(t: Token)
    requires t.Encodable()
    ensures |Code(t)| <= if t.Literal? then 9 else 9 * t.length
  {
    if t.Match? && t.length >= 8 { NibbleSize(t.length - 8); }
  }

  lemma {:induction false} CodesSize(out: seq<byte>, tokens: seq<Token>)
    requires ExpandsFrom(out, tokens) && AllEncodable(tokens)
    ensures |Codes(tokens)| <= 9 * (|Expand(out, tokens)| - |out|)
    decreases |tokens|
  {
    if tokens != [] {
      CodeSize(tokens[0]);
      CodesSize(Apply(out, tokens[0]), tokens[1..]);
    }
  }

  /** n bytes compress to at most floor(9n / 8) + 2. */
  lemma SizeBound(src: seq<byte>)
    ensures |Compressed(src)| <= 9 * |src| / 8 + 2
    ensures |src| <= 2048 ==> |Compressed(src)| <= 4096
  {
    ParseExpands(src, 0);
    ParseEncodable(src, 0);
    CodesSize(src[..0], Parse(src, 0));
  }
}
