/** The compressor: a bit writer kept in a 32-bit accumulator, a hash table with a ring of
    chain links, and the loop that drives them. */
module LzsCompress {
  import opened Bits
  import opened LzsFormat
  import opened LzsParse
  import opened LzsDecompress
  import opened LzsRoundTrip

  type uint16 = x: int | 0 <= x < 0x1_0000

  const HASH_SIZE: nat := 0x1_0000
  const INVALID: uint16 := 0xffff
  const MAX_INPUT: nat := 0x1_0000

  // ----- writing bits

  lemma {:induction false} ShlLess(v: nat, k: nat, n: nat, b: nat)
    requires v < Pow2(k) && b < Pow2(n)
    ensures Shl(v, n) + b < Pow2(k + n)
  {
    if n > 0 {
      ShlLess(v, k, n - 1, b / 2);
      assert k + n - 1 == k + (n - 1);
    }
  }

  /** The accumulator step: a 32-bit left shift and an or keep the k pending bits and add nr. */
  lemma Accumulate(acc: nat, k: nat, nr: nat, bits: nat)
    requires k < 8 && nr <= 16 && bits < Pow2(nr)
    ensures Low(Shl(acc, nr), 32) + bits < Pow2(32)
    ensures ToBits(k + nr, Low(Shl(acc, nr), 32) + bits) == ToBits(k, acc) + ToBits(nr, bits)
  {
    hide ToBits, Pow2, Low, Shl;
    var kept := Low(acc, 32 - nr);
    LowShl(acc, 32 - nr, nr);
    assert (32 - nr) + nr == 32;
    LowBound(acc, 32 - nr);
    ShlLess(kept, 32 - nr, nr, bits);
    ToBitsPush(k, nr, kept, bits);
    ToBitsLow(k, 32 - nr, acc);
  }

  /** The byte that leaves the accumulator. */
  lemma TopByte(acc: nat, k: nat)
    ensures Low(Shr(acc, k), 8) < 0x100
    ensures ToBits(8 + k, acc) == ToBits(8, Low(Shr(acc, k), 8)) + ToBits(k, acc)
  {
    hide ToBits, Pow2, Low, Shr;
    PowValues();
    LowBound(Shr(acc, k), 8);
    ToBitsSplit(8, k, acc);
    ToBitsLow(8, 8, Shr(acc, k));
  }

  class BitWriter {
    const dst: array<byte>
    var outpos: nat
    var outbits: nat
    var nrOutbits: nat

    ghost predicate Valid() reads this, dst {
      outpos <= dst.Length && nrOutbits < 8 && outbits < Pow2(32)
    }

    /** Everything put so far: whole bytes in dst, the rest pending. */
    ghost function Bits(): seq<bool>
      requires outpos <= dst.Length
      reads this, dst
    {
      Unpack(dst[..outpos]) + ToBits(nrOutbits, outbits)
    }

    constructor (dst: array<byte>)
      ensures Valid() && this.dst == dst && outpos == 0 && Bits() == []
    {
      this.dst := dst;
      outpos, outbits, nrOutbits := 0, 0, 0;
    }

    /** Moves the eight bits above the low nrOutbits - 8 out. */
    method PutByte() returns (ok: bool)
      requires outpos <= dst.Length && nrOutbits >= 8
      modifies this, dst
      ensures outpos <= dst.Length && outbits == old(outbits)
      ensures ok <==> old(outpos) < dst.Length
      ensures ok ==> Bits() == old(Bits()) && outpos == old(outpos) + 1 && nrOutbits == old(nrOutbits) - 8
      ensures old(outpos) <= outpos && forall i :: outpos <= i < dst.Length ==> dst[i] == old(dst[i])
    {
      hide ToBits, Low, Shr, Unpack;
      TopByte(outbits, nrOutbits - 8);
      nrOutbits := nrOutbits - 8;
      if outpos == dst.Length {
        return false;
      }
      ghost var before := dst[..outpos];
      UnpackAppend(before, Low(Shr(outbits, nrOutbits), 8));
      dst[outpos] := Low(Shr(outbits, nrOutbits), 8);
      outpos := outpos + 1;
      assert dst[..outpos] == before + [dst[outpos - 1]];
      return true;
    }

    method PutBits(nr: nat, bits: nat) returns (ok: bool)
      requires Valid() && nr <= 16 && bits < Pow2(nr)
      modifies this, dst
      ensures outpos <= dst.Length
      ensures ok ==> Valid() && Bits() == old(Bits()) + ToBits(nr, bits)
      ensures !ok ==> |old(Bits())| + nr >= 8 * (dst.Length + 1)
      ensures old(outpos) <= outpos && forall i :: outpos <= i < dst.Length ==> dst[i] == old(dst[i])
    {
      hide ToBits, Low, Shr, Shl, Unpack, Pow2;
      Accumulate(outbits, nrOutbits, nr, bits);
      ghost var bytes := Unpack(dst[..outpos]);
      ghost var size := |Bits()| + nr;
      outbits := Low(Shl(outbits, nr), 32) + bits;
      nrOutbits := nrOutbits + nr;
      assert Bits() == old(Bits()) + ToBits(nr, bits);
      if nr > 8 {
        ok := PutByte();
        if !ok { return; }
      }
      if nrOutbits >= 8 {
        ok := PutByte();
        if !ok { return; }
      }
      return true;
    }
  }

  // ----- the index

  function Hash(src: seq<byte>, p: nat): (h: nat)
    requires p + 1 < |src|
    ensures h < HASH_SIZE
  {
    src[p] as int + 0x100 * (src[p + 1] as int)
  }

  /** The last position before n with hash h, or -1. */
  function LastHash(src: seq<byte>, h: nat, n: nat): (r: int)
    requires n == 0 || n < |src|
    ensures -1 <= r < n
  {
    if n == 0 then -1 else if Hash(src, n - 1) == h then n - 1 else LastHash(src, h, n - 1)
  }

  lemma {:induction false} LastHashIsPair(src: seq<byte>, q: nat, n: nat)
    requires n <= q && q + 1 < |src|
    ensures LastHash(src, Hash(src, q), n) == LastPair(src, q, n)
  {
    if n > 0 {
      LastHashIsPair(src, q, n - 1);
      assert Hash(src, n - 1) == Hash(src, q) <==> SamePair(src, n - 1, q);
    }
  }

  /** How a position is stored in sixteen bits. */
  function Entry(p: int): (r: uint16)
    requires -1 <= p < INVALID
  {
    if p < 0 then INVALID else p
  }

  class HashIndex {
    const src: seq<byte>
    const table: array<uint16>
    const chain: array<uint16>

    /** Positions below n are indexed: the table holds the last of each hash, and the ring slot
        of each of the last 2048 still holds that position's predecessor. */
    ghost predicate Indexed(n: nat) reads table, chain {
      && table.Length == HASH_SIZE && chain.Length == MAX_HISTORY && table != chain
      && n <= INVALID && (n == 0 || n < |src|)
      && (forall h: nat :: h < HASH_SIZE ==> table[h] == Entry(LastHash(src, h, n)))
      && (forall p: nat :: n - MAX_HISTORY <= p < n ==>
            chain[p % MAX_HISTORY] == Entry(LastHash(src, Hash(src, p), p)))
    }

    constructor (src: seq<byte>)
      ensures this.src == src && Indexed(0) && fresh(table) && fresh(chain)
    {
      this.src := src;
      var t := new uint16[HASH_SIZE](_ => 0);
      var c := new uint16[MAX_HISTORY](_ => 0);
      table, chain := t, c;
      var i := 0;
      while i < HASH_SIZE
        invariant 0 <= i <= HASH_SIZE
        invariant forall h: nat :: h < i ==> t[h] == INVALID
      {
        t[i] := INVALID;
        i := i + 1;
      }
    }

    /** The entry of the last indexed position with the two bytes at q. */
    method Lookup(q: nat, ghost n: nat) returns (hofs: uint16)
      requires Indexed(n) && n <= q && q + 1 < |src|
      ensures n <= INVALID && hofs == Entry(LastPair(src, q, n))
    {
      var hash := Hash(src, q);
      hofs := table[hash];
      LastHashIsPair(src, q, n);
    }

    /** Indexes position n, and gives the entry that was the last with its two bytes. */
    method Insert(n: nat) returns (hofs: uint16)
      requires Indexed(n) && n + 1 < |src| && n < INVALID
      modifies table, chain
      ensures Indexed(n + 1)
      ensures hofs == Entry(LastPair(src, n, n))
    {
      hide LastHash;
      var hash := Hash(src, n);
      hofs := table[hash];
      LastHashIsPair(src, n, n);
      LastHashStep(src, n);
      SlotsDistinct(n);
      chain[n % MAX_HISTORY] := hofs;
      table[hash] := n;
    }
  }

  lemma LastHashStep(src: seq<byte>, n: nat)
    requires n + 1 < |src|
    ensures forall h: nat :: LastHash(src, h, n + 1) == if Hash(src, n) == h then n else LastHash(src, h, n)
  {
    var m := n + 1;
    forall h: nat
      ensures LastHash(src, h, m) == if Hash(src, m - 1) == h then m - 1 else LastHash(src, h, m - 1)
    {
    }
  }

  lemma SlotsDistinct(n: nat)
    ensures forall p: nat :: n + 1 - MAX_HISTORY <= p < n ==> p % MAX_HISTORY != n % MAX_HISTORY
  {
  }

  // ----- the search

  method BytesEqual(a: seq<byte>, b: seq<byte>) returns (r: bool)
    ensures r <==> a == b
  {
    if |a| != |b| { return false; }
    var i := 0;
    while i < |a|
      invariant 0 <= i <= |a|
      invariant a[..i] == b[..i]
    {
      if a[i] != b[i] { return false; }
      i := i + 1;
    }
    return true;
  }

  lemma {:induction false} RunStep(src: seq<byte>, p: nat, q: nat, n: nat)
    requires p < q && q + n <= |src| && Run(src, p, q) >= n
    ensures Run(src, p, q) >= n + 1 <==> q + n < |src| && src[p + n] == src[q + n]
    decreases n
  {
    if n > 0 {
      RunStep(src, p + 1, q + 1, n - 1);
    }
  }

  /** Offsets a+1..b add nothing. */
  lemma {:induction false} BestSkip(src: seq<byte>, q: nat, a: nat, b: nat)
    requires a <= b <= q <= |src|
    requires forall p: nat :: q - b <= p < q - a ==> Run(src, p, q) <= BestUpTo(src, q, a).length
    ensures BestUpTo(src, q, b) == BestUpTo(src, q, a)
  {
    hide Run;
    if a < b {
      BestSkip(src, q, a, b - 1);
      assert Run(src, q - b, q) <= BestUpTo(src, q, a).length;
    }
  }

  /** How many offsets have been dealt with when the walk stands at entry hofs. */
  ghost function Scanned(q: nat, hofs: uint16): (r: nat)
    requires hofs == INVALID || hofs < q
    ensures r <= Window(q)
  {
    if hofs == INVALID || hofs + MAX_HISTORY <= q then Window(q) else q - hofs - 1
  }

  /** From one candidate to the next on its chain nothing is missed. */
  lemma ChainSkips(src: seq<byte>, q: nat, h: nat, next: uint16)
    requires h < q && q + 1 < |src| && q <= INVALID && SamePair(src, h, q) && h + MAX_HISTORY > q
    requires next == Entry(LastPair(src, h, h))
    requires BestUpTo(src, q, q - h).length >= 2
    ensures next == INVALID || (next < h && SamePair(src, next, q))
    ensures BestUpTo(src, q, Scanned(q, next)) == BestUpTo(src, q, q - h)
  {
    hide Run, BestUpTo;
    var a, b := q - h, Scanned(q, next);
    forall p: nat | q - b <= p < q - a
      ensures Run(src, p, q) <= BestUpTo(src, q, a).length
    {
      assert !SamePair(src, p, h);
      PairIsRun(src, p, q);
    }
    BestSkip(src, q, a, b);
  }

  lemma FirstSkips(src: seq<byte>, q: nat, hofs: uint16)
    requires q + 1 < |src| && q <= INVALID && hofs == Entry(LastPair(src, q, q))
    ensures hofs == INVALID || (hofs < q && SamePair(src, hofs, q))
    ensures BestUpTo(src, q, Scanned(q, hofs)).length < 2
  {
    hide Run, BestUpTo;
    var b := Scanned(q, hofs);
    BestIsBest(src, q, b);
    var m := BestUpTo(src, q, b);
    if m.length >= 2 {
      PairIsRun(src, q - m.offset, q);
    }
  }

  /** Lengthens a match known to be longer than length, up to a difference or the end of input. */
  method Extend(src: seq<byte>, q: nat, h: nat, length: uint16) returns (run: uint16, atEnd: bool)
    requires h < q <= |src| <= MAX_INPUT && Run(src, h, q) >= length + 1
    ensures run == Run(src, h, q) && run > length && (atEnd <==> q + run == |src|)
  {
    hide Run;
    run := length;
    while true
      invariant run + q < |src| && run >= length && Run(src, h, q) >= run + 1
      decreases |src| - run
    {
      run := run + 1;
      RunStep(src, h, q, run);
      if run + q == |src| {
        return run, true;
      }
      if src[run + q] != src[run + h] {
        return run, false;
      }
    }
  }

  /** Walks the chain from the nearest candidate and finds the longest match in the window. */
  method FindMatch(index: HashIndex, q: nat, first: uint16) returns (longestOfs: uint16, longestLen: uint16)
    requires index.Indexed(q + 1) && q + 2 < |index.src| <= MAX_INPUT
    requires first == Entry(LastPair(index.src, q, q))
    requires first != INVALID && first + MAX_HISTORY > q
    ensures longestOfs < q && 2 <= longestLen
    ensures Best(q - longestOfs, longestLen) == Longest(index.src, q)
  {
    hide Run, BestUpTo, LastHash;
    var src := index.src;
    var hofs: uint16 := first;
    longestLen, longestOfs := 2, hofs;
    FirstSkips(src, q, hofs);
    while hofs != INVALID && hofs + MAX_HISTORY > q
      invariant hofs == INVALID || (hofs < q && SamePair(src, hofs, q))
      invariant 2 <= longestLen && longestLen + q < |src| && longestOfs < q
      invariant var b := BestUpTo(src, q, Scanned(q, hofs));
                || (b.length >= 2 && b == Best(q - longestOfs, longestLen))
                || (b.length < 2 && longestLen == 2 && longestOfs == hofs && hofs + MAX_HISTORY > q && hofs != INVALID)
      decreases if hofs == INVALID then -1 else hofs
    {
      var matchLen := longestLen - 1;
      CandidateRun(src, q, hofs, longestLen);
      BestExtend(src, q, hofs);
      var equal := false;
      if matchLen > 0 {
        equal := BytesEqual(src[hofs + 2..hofs + 2 + matchLen], src[q + 2..q + 2 + matchLen]);
      }
      if equal {
        longestOfs := hofs;
        var atEnd;
        longestLen, atEnd := Extend(src, q, hofs, longestLen);
        if atEnd {
          BestSkip(src, q, q - hofs, Window(q));
          return;
        }
      }
      assert BestUpTo(src, q, q - hofs) == Best(q - longestOfs, longestLen);
      LastHashIsPair(src, hofs, hofs);
      ChainSkips(src, q, hofs, index.chain[hofs % MAX_HISTORY]);
      hofs := index.chain[hofs % MAX_HISTORY];
    }
  }

  /** The comparison of the bytes after the first two tells whether a candidate is longer. */
  lemma CandidateRun(src: seq<byte>, q: nat, h: nat, longest: nat)
    requires h < q && q + longest < |src| && longest >= 2 && SamePair(src, h, q)
    ensures Run(src, h, q) >= 2
    ensures Run(src, h, q) >= longest + 1 <==>
            src[h + 2..h + 2 + (longest - 1)] == src[q + 2..q + 2 + (longest - 1)]
  {
    hide Run;
    PairIsRun(src, h, q);
    var n := longest + 1;
    RunSlices(src, h, q, n);
    assert src[h..h + n] == [src[h], src[h + 1]] + src[h + 2..h + n];
    assert src[q..q + n] == [src[q], src[q + 1]] + src[q + 2..q + n];
  }

  lemma BestExtend(src: seq<byte>, q: nat, h: nat)
    requires h < q <= |src|
    ensures var b, r := BestUpTo(src, q, q - h - 1), Run(src, h, q);
            BestUpTo(src, q, q - h) == if r > b.length then Best(q - h, r) else b
  {
    hide Run;
  }

  // ----- codes

  lemma NibblePairs(k: nat)
    ensures ToBits(8, 0xff) == ToBits(4, 15) + ToBits(4, 15)
    ensures 15 <= k < 30 ==> ToBits(8, 0xf0 + (k - 15)) == ToBits(4, 15) + ToBits(4, k - 15)
    ensures k >= 30 ==> NibbleCode(k) == ToBits(8, 0xff) + NibbleCode(k - 30)
    ensures 15 <= k < 30 ==> NibbleCode(k) == ToBits(8, 0xf0 + (k - 15))
  {
    hide ToBits, Pow2, Shl;
    PowValues();
    ShlValues(15);
    ToBitsPush(4, 4, 15, 15);
    if 15 <= k < 30 {
      ToBitsPush(4, 4, 15, k - 15);
    } else if k >= 30 {
      var a, rest := ToBits(4, 15), NibbleCode(k - 30);
      assert NibbleCode(k - 15) == a + rest;
      assert NibbleCode(k) == a + (a + rest) == (a + a) + rest;
    }
  }

  /** The length code as the numbers the writer puts. */
  lemma LengthNumbers(length: nat)
    requires length >= 2
    ensures length < 5 ==> LengthCode(length) == ToBits(2, length - 2)
    ensures 5 <= length < 8 ==> LengthCode(length) == ToBits(4, length + 7)
    ensures length >= 8 ==> LengthCode(length) == NibbleCode(length + 7)
  {
    hide ToBits, Pow2, Shl;
    PowValues();
    ShlValues(3);
    if 5 <= length < 8 {
      ToBitsPush(2, 2, 3, length - 5);
    } else if length >= 8 {
      ToBitsPush(2, 2, 3, 3);
      var a, rest := ToBits(2, 3), NibbleCode(length - 8);
      assert a + (a + rest) == (a + a) + rest;
    }
  }

  lemma OffsetNumbers(offset: nat)
    requires 1 <= offset < 2048
    ensures offset < 0x80 ==> OffsetCode(offset) == ToBits(9, 0x180 + offset)
    ensures offset >= 0x80 ==> OffsetCode(offset) == ToBits(13, 0x1000 + offset)
  {
    hide ToBits, Pow2, Shl;
    PowValues();
    if offset < 0x80 {
      NineBits(Match(offset, 2));
    } else {
      ShlValues(2);
      ToBitsPush(2, 11, 2, offset);
    }
  }

  /** Puts the code of a match. */
  method PutMatch(w: BitWriter, offset: nat, matchLen: nat) returns (ok: bool)
    requires w.Valid() && Match(offset, matchLen).Encodable()
    modifies w, w.dst
    ensures w.outpos <= w.dst.Length
    ensures ok ==> w.Valid() && w.Bits() == old(w.Bits()) + Code(Match(offset, matchLen))
    ensures !ok ==> |old(w.Bits())| + |Code(Match(offset, matchLen))| >= 8 * (w.dst.Length + 1)
    ensures old(w.outpos) <= w.outpos
    ensures forall i :: w.outpos <= i < w.dst.Length ==> w.dst[i] == old(w.dst[i])
  {
    hide ToBits, Pow2, Unpack;
    PowValues();
    OffsetNumbers(offset);
    ghost var before, goal := w.Bits(), w.Bits() + Code(Match(offset, matchLen));
    if offset < 0x80 {
      ok := w.PutBits(9, 0x180 + offset);
    } else {
      ok := w.PutBits(13, 0x1000 + offset);
    }
    if !ok { return; }
    assert w.Bits() + LengthCode(matchLen) == goal;
    ok := PutLength(w, matchLen);
  }

  method PutLength(w: BitWriter, matchLen: nat) returns (ok: bool)
    requires w.Valid() && matchLen >= 2
    modifies w, w.dst
    ensures w.outpos <= w.dst.Length
    ensures ok ==> w.Valid() && w.Bits() == old(w.Bits()) + LengthCode(matchLen)
    ensures !ok ==> |old(w.Bits())| + |LengthCode(matchLen)| >= 8 * (w.dst.Length + 1)
    ensures old(w.outpos) <= w.outpos
    ensures forall i :: w.outpos <= i < w.dst.Length ==> w.dst[i] == old(w.dst[i])
  {
    hide ToBits, Pow2, Unpack, LengthCode, NibbleCode;
    PowValues();
    LengthNumbers(matchLen);
    var length := matchLen;
    if length < 5 {
      ok := w.PutBits(2, length - 2);
    } else if length < 8 {
      ok := w.PutBits(4, length + 7);
    } else {
      length := length + 7;
      ghost var goal := w.Bits() + NibbleCode(length);
      while length >= 30
        invariant 0 <= length && w.Valid()
        invariant w.Bits() + NibbleCode(length) == goal
        invariant old(w.outpos) <= w.outpos
        invariant forall i :: w.outpos <= i < w.dst.Length ==> w.dst[i] == old(w.dst[i])
      {
        NibblePairs(length);
        ok := w.PutBits(8, 0xff);
        if !ok { return; }
        length := length - 30;
      }
      NibblePairs(length);
      if length >= 15 {
        ok := w.PutBits(8, 0xf0 + (length - 15));
      } else {
        NibbleShort(length);
        ok := w.PutBits(4, length);
      }
    }
  }

  lemma NibbleShort(k: nat)
    requires k < 15
    ensures NibbleCode(k) == ToBits(4, k)
  {
  }

  // ----- the compressor

  /** Puts the end of the input. Only positions below `indexed` can be matched. */
  method PutTail(w: BitWriter, index: HashIndex, q: nat, ghost indexed: nat) returns (ok: bool)
    requires w.Valid() && {w.dst} !! {index.table, index.chain}
    requires indexed <= q <= |index.src| && index.Indexed(indexed)
    modifies w, w.dst
    ensures w.outpos <= w.dst.Length
    ensures ok ==> w.Valid() && w.Bits() == old(w.Bits()) + TailBits(index.src, q, indexed)
    ensures !ok ==> |old(w.Bits())| + |TailBits(index.src, q, indexed)| >= 8 * (w.dst.Length + 1)
    ensures old(w.outpos) <= w.outpos
    ensures forall i :: w.outpos <= i < w.dst.Length ==> w.dst[i] == old(w.dst[i])
  {
    hide ToBits, Pow2, BitWriter.Bits, LastHash, LastPair, Code, TailBits, LiteralCode, HashIndex.Indexed;
    PowValues();
    var src := index.src;
    TailBitsIs(src, q, indexed);
    ok := true;
    if q + 2 == |src| {
      var hofs := index.Lookup(q, indexed);
      if hofs != INVALID && hofs + MAX_HISTORY > q {
        ok := PutMatch(w, q - hofs, 2);
      } else {
        NineBits(Literal(src[q]));
        NineBits(Literal(src[q + 1]));
        ghost var before := w.Bits();
        ok := w.PutBits(9, src[q]);
        if !ok { return; }
        Assoc(before, LiteralCode(src[q]), LiteralCode(src[q + 1]));
        ok := w.PutBits(9, src[q + 1]);
      }
    } else if q + 1 == |src| {
      NineBits(Literal(src[q]));
      ok := w.PutBits(9, src[q]);
    }
  }

  lemma TailBitsIs(src: seq<byte>, q: nat, indexed: nat)
    requires indexed <= q <= |src|
    ensures TailBits(src, q, indexed) ==
            if q + 2 == |src| then
              var p := LastPair(src, q, indexed);
              if p >= 0 && p + MAX_HISTORY > q then Code(Match(q - p, 2))
              else LiteralCode(src[q]) + LiteralCode(src[q + 1])
            else if q + 1 == |src| then LiteralCode(src[q])
            else []
  {
    hide Codes, Code, LastPair;
    var t := ParseTail(src, q, indexed);
    TailEncodable(src, q, indexed);
    CodesShort(t);
    if |t| == 2 {
      LiteralCodes(src[q], src[q + 1]);
    } else if |t| == 1 && t[0].Literal? {
      LiteralCodes(src[q], src[q]);
    }
  }

  lemma LiteralCodes(a: byte, b: byte)
    ensures Code(Literal(a)) == LiteralCode(a) && Code(Literal(b)) == LiteralCode(b)
  {
  }

  lemma CodesShort(t: seq<Token>)
    requires AllEncodable(t) && |t| <= 2
    ensures Codes(t) == if |t| == 0 then [] else if |t| == 1 then Code(t[0]) else Code(t[0]) + Code(t[1])
  {
    hide Code;
    if |t| >= 1 {
      assert Codes(t) == Code(t[0]) + Codes(t[1..]);
      if |t| == 2 {
        assert Codes(t[1..]) == Code(t[1]) + Codes(t[1..][1..]);
      }
    }
  }

  /** Indexes positions from..to of a match. */
  method IndexRest(index: HashIndex, from: nat, to: nat)
    requires index.Indexed(from) && from <= to && to + 2 < |index.src| <= MAX_INPUT
    modifies index.table, index.chain
    ensures index.Indexed(to)
  {
    hide HashIndex.Indexed;
    var inpos, remaining := from, to - from;
    while remaining > 0
      invariant 0 <= remaining && from <= inpos && inpos + remaining == to
      invariant index.Indexed(inpos)
    {
      var _ := index.Insert(inpos);
      inpos := inpos + 1;
      remaining := remaining - 1;
    }
  }

  /** Puts the longest match at q, given its nearest candidate. */
  method PutLongest(w: BitWriter, index: HashIndex, q: nat, first: uint16) returns (ok: bool, longestLen: uint16)
    requires w.Valid() && {w.dst} !! {index.table, index.chain}
    requires index.Indexed(q + 1) && q + 2 < |index.src| <= MAX_INPUT
    requires first == Entry(LastPair(index.src, q, q))
    requires first != INVALID && first + MAX_HISTORY > q
    modifies w, w.dst
    ensures var m := Longest(index.src, q);
            && longestLen == m.length >= 2 && w.outpos <= w.dst.Length
            && (ok ==> w.Valid() && w.Bits() == old(w.Bits()) + Code(Match(m.offset, m.length)))
            && (!ok ==> |old(w.Bits())| + |Code(Match(m.offset, m.length))| >= 8 * (w.dst.Length + 1))
    ensures old(w.outpos) <= w.outpos
    ensures forall i :: w.outpos <= i < w.dst.Length ==> w.dst[i] == old(w.dst[i])
  {
    hide HashIndex.Indexed, BitWriter.Bits, LastPair, BestUpTo, Code;
    var longestOfs;
    longestOfs, longestLen := FindMatch(index, q, first);
    ok := PutMatch(w, q - longestOfs, longestLen);
  }

  lemma Assoc(a: seq<bool>, b: seq<bool>, c: seq<bool>)
    ensures a + (b + c) == (a + b) + c
  {
  }

  /** One turn of the main loop. atTail says that the match reaches the last two bytes, in which case
      its positions are not indexed. */
  method PutStep(w: BitWriter, index: HashIndex, inpos: nat) returns (ok: bool, next: nat, atTail: bool)
    requires w.Valid() && {w.dst} !! {index.table, index.chain}
    requires index.Indexed(inpos) && inpos + 2 < |index.src| <= MAX_INPUT
    modifies w, w.dst, index.table, index.chain
    ensures w.outpos <= w.dst.Length && old(w.outpos) <= w.outpos && inpos < next <= |index.src|
    ensures ok && !atTail ==> w.Valid() && next + 2 <= |index.src| && index.Indexed(next)
                              && w.Bits() + BitsFrom(index.src, next) == old(w.Bits()) + BitsFrom(index.src, inpos)
    ensures ok && atTail ==> w.Valid() && |index.src| <= next + 2 && index.Indexed(inpos + 1)
                             && w.Bits() + TailBits(index.src, next, inpos + 1) ==
                                old(w.Bits()) + BitsFrom(index.src, inpos)
    ensures !ok ==> |old(w.Bits())| + |BitsFrom(index.src, inpos)| >= 8 * (w.dst.Length + 1)
    ensures forall i :: w.outpos <= i < w.dst.Length ==> w.dst[i] == old(w.dst[i])
  {
    hide HashIndex.Indexed, BitWriter.Bits, ToBits, Pow2, LastPair, BestUpTo, BitsFrom, TailBits, Code;
    var src := index.src;
    ghost var before := w.Bits();
    BitsStep(src, inpos);
    var hofs := index.Insert(inpos);
    FirstSkips(src, inpos, hofs);
    next, atTail := inpos + 1, false;
    if hofs == INVALID || hofs + MAX_HISTORY <= inpos {
      PowValues();
      LiteralCodes(src[inpos], src[inpos]);
      NineBits(Literal(src[inpos]));
      ok := w.PutBits(9, src[inpos]);
      Assoc(before, Code(Literal(src[inpos])), BitsFrom(src, inpos + 1));
      return;
    }
    var longestLen;
    ok, longestLen := PutLongest(w, index, inpos, hofs);
    next := inpos + longestLen;
    if !ok { return; }
    ghost var m := Longest(src, inpos);
    ghost var code := Code(Match(m.offset, m.length));
    if next + 2 >= |src| {
      Assoc(before, code, TailBits(src, next, inpos + 1));
      atTail := true;
      return;
    }
    Assoc(before, code, BitsFrom(src, next));
    IndexRest(index, inpos + 1, next);
  }

  /** The main loop: everything but the last two bytes, or up to a match that reaches them. */
  method PutBody(w: BitWriter, index: HashIndex) returns (ok: bool, inpos: nat, ghost indexed: nat)
    requires w.Valid() && w.Bits() == [] && {w.dst} !! {index.table, index.chain}
    requires index.Indexed(0) && |index.src| <= MAX_INPUT
    modifies w, w.dst, index.table, index.chain
    ensures w.outpos <= w.dst.Length
    ensures ok ==> w.Valid() && indexed <= inpos <= |index.src| <= inpos + 2 && index.Indexed(indexed)
    ensures ok ==> w.Bits() + TailBits(index.src, inpos, indexed) == ParseBits(index.src)
    ensures !ok ==> |ParseBits(index.src)| >= 8 * (w.dst.Length + 1)
    ensures forall i :: w.outpos <= i < w.dst.Length ==> w.dst[i] == old(w.dst[i])
  {
    hide HashIndex.Indexed, BitWriter.Bits, BitsFrom, TailBits, Pow2;
    var src := index.src;
    ghost var goal := BitsFrom(src, 0);
    ok, inpos, indexed := true, 0, 0;
    while inpos + 2 < |src|
      invariant ok && w.Valid() && inpos <= |src| && index.Indexed(inpos)
      invariant w.Bits() + BitsFrom(src, inpos) == goal
      invariant forall i :: w.outpos <= i < w.dst.Length ==> w.dst[i] == old(w.dst[i])
      decreases |src| - inpos
    {
      indexed := inpos + 1;
      var atTail;
      ok, inpos, atTail := PutStep(w, index, inpos);
      if !ok || atTail { return; }
    }
    indexed := inpos;
    BitsLast(src, inpos);
  }

  /** Compresses src into dst: exactly the bytes of the brute-force parse if they fit, and a
      full output otherwise. Inputs over 64 KiB are refused. */
  method Compress(dst: array<byte>, src: seq<byte>) returns (r: Count)
    modifies dst
    ensures |src| > 0x1_0000 ==> r == Failed(OutputFull) && dst[..] == old(dst[..])
    ensures |src| <= 0x1_0000 ==>
              if |Compressed(src)| > dst.Length then r == Failed(OutputFull)
              else
                && r == Count(|Compressed(src)|)
                && dst[..|Compressed(src)|] == Compressed(src)
                && dst[|Compressed(src)|..] == old(dst[|Compressed(src)|..])
  {
    hide ToBits, Pow2, Unpack, TailBits, ParseBits, Pack;
    if |src| > MAX_INPUT {
      return Failed(OutputFull);
    }
    var w := new BitWriter(dst);
    var index := new HashIndex(src);
    var ok, inpos;
    ghost var indexed;
    ok, inpos, indexed := PutBody(w, index);
    if !ok { return Failed(OutputFull); }
    ok := PutTail(w, index, inpos, indexed);
    if !ok { return Failed(OutputFull); }
    assert w.Bits() == ParseBits(src);
    PowValues();
    ok := w.PutBits(16, 0xc000);
    if !ok { return Failed(OutputFull); }
    PackUnpack(dst[..w.outpos], ToBits(w.nrOutbits, w.outbits));
    return Count(w.outpos);
  }

  /** Through two buffers and back: with room for floor(9n/8) + 2 compressed bytes and for n
      decompressed ones, n bytes up to 64 KiB always come back. */
  method ThereAndBack(src: seq<byte>, compressRoom: nat, decompressRoom: nat) returns (back: seq<byte>)
    requires |src| <= 0x1_0000 && compressRoom >= 9 * |src| / 8 + 2 && decompressRoom >= |src|
    ensures back == src
  {
    hide Compressed, Decode, Unpack;
    var packed := new byte[compressRoom](_ => 0);
    var n := Compress(packed, src);
    SizeBound(src);
    var unpacked := new byte[decompressRoom](_ => 0);
    var m := Decompress(unpacked, packed[..n.n]);
    RoundTrip(src, decompressRoom);
    back := unpacked[..m.n];
  }
}
