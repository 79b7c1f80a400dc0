/** The decompressor: a bit reader kept in three small integers, and the decoding loop. */
module LzsDecompress {
  import opened Bits
  import opened LzsFormat

  /** A length, or the reason there is none. */
  datatype Count = Count(n: nat) | Failed(error: Error)

  /** The field lies inside the current byte, of which the low `left` bits are unread. */
  lemma ReadWithin(src: seq<byte>, si: nat, left: nat, k: nat)
    requires si < |src| && 1 <= left <= 8 && k < left
    ensures var pos := 8 * si + 8 - left;
            FromBits(Unpack(src)[pos..pos + k]) == Low(Shr(src[si], left - k), k)
  {
    hide ToBits, FromBits, Low, Shr, Unpack;
    var b, u, pos := src[si], Unpack(src), 8 * si + 8 - left;
    var w := Shr(b, left - k);
    UnpackAt(src, si);
    ToBitsSplit(8 - left + k, left - k, b);
    ToBitsSplit(8 - left, k, w);
    assert (8 - left + k) + (left - k) == 8;
    var whole := u[8 * si..8 * si + 8];
    assert whole == (ToBits(8 - left, Shr(w, k)) + ToBits(k, w)) + ToBits(left - k, b);
    assert whole[8 - left..8 - left + k] == ToBits(k, w);
    SliceSlice(u, 8 * si, 8 * si + 8, 8 - left, 8 - left + k);
    FromToBits(k, w);
  }

  /** The field takes all `left` unread bits of the current byte and t of the next. */
  lemma ReadAcross(src: seq<byte>, si: nat, left: nat, t: nat)
    requires si < |src| && 1 <= left <= 8 && t <= 8 && (t > 0 ==> si + 1 < |src|)
    ensures var pos := 8 * si + 8 - left;
            && pos + left + t <= |Unpack(src)|
            && FromBits(Unpack(src)[pos..pos + left + t]) ==
               Low(Shl(src[si], t), left + t) + if t > 0 then Shr(src[si + 1], 8 - t) else 0
  {
    hide ToBits, FromBits, Low, Shr, Shl, Unpack, Pow2;
    var u, pos := Unpack(src), 8 * si + 8 - left;
    UnpackAt(src, si);
    ToBitsSplit(8 - left, left, src[si]);
    assert (8 - left) + left == 8;
    var first := u[8 * si..8 * si + 8];
    var head := ToBits(left, src[si]);
    SliceSlice(u, 8 * si, 8 * si + 8, 8 - left, 8);
    assert u[pos..pos + left] == head;
    FromToBits(left, src[si]);
    LowShl(src[si], left, t);
    if t == 0 {
      ShlZero(Low(src[si], left));
    } else {
      var b := src[si + 1];
      UnpackAt(src, si + 1);
      ToBitsSplit(t, 8 - t, b);
      assert t + (8 - t) == 8;
      var second := u[8 * (si + 1)..8 * (si + 1) + 8];
      var tail := ToBits(t, Shr(b, 8 - t));
      SliceSlice(u, 8 * (si + 1), 8 * (si + 1) + 8, 0, t);
      assert u[pos + left..pos + left + t] == tail;
      assert u[pos..pos + left + t] == u[pos..pos + left] + u[pos + left..pos + left + t];
      FromBitsConcat(head, tail);
      FromToBits(t, Shr(b, 8 - t));
      PowValues();
      ShrBound(b, t, 8 - t);
      LowSmall(Shr(b, 8 - t), t);
    }
  }

  lemma SliceSlice(s: seq<bool>, a: nat, b: nat, c: nat, d: nat)
    requires a <= b <= |s| && c <= d <= b - a
    ensures s[a..b][c..d] == s[a + c..a + d]
  {
    var x, y := s[a..b][c..d], s[a + c..a + d];
    forall i | 0 <= i < d - c ensures x[i] == y[i] {
      assert x[i] == s[a..b][c + i];
    }
  }

  lemma ShlZero(v: nat)
    ensures Shl(v, 0) == v
  {
  }

  class BitReader {
    const src: seq<byte>
    var si: nat
    var bitsLeft: int
    var data: nat

    ghost predicate Valid() reads this {
      1 <= bitsLeft <= 8 && si <= |src|
    }

    /** The bit position the reader stands at. */
    ghost function Pos(): int reads this {
      8 * si + 8 - bitsLeft
    }

    constructor (src: seq<byte>)
      ensures Valid() && this.src == src && Pos() == 0
    {
      this.src := src;
      si, bitsLeft, data := 0, 8, 0;
    }

    /** Reads the next 2, 4 or 9 bits into data. The or of two disjoint values is their sum. */
    method GetBits(bits: nat) returns (ok: bool)
      requires Valid() && (bits == 2 || bits == 4 || bits == 9)
      modifies this
      ensures Valid()
      ensures ok <==> |src| - old(si) >= 2
      ensures ok ==> Pos() == old(Pos()) + bits <= 8 * |src| && data == FromBits(Unpack(src)[old(Pos())..Pos()])
      ensures ok <==> Field(Unpack(src), old(Pos()), bits).Got?
      ensures ok ==> Field(Unpack(src), old(Pos()), bits) == Got(data, Pos())
      ensures !ok ==> Pos() == old(Pos())
    {
      hide ToBits, FromBits, Low, Shr, Shl, Unpack;
      if |src| - si < 2 {
        return false;
      }
      if bits >= 8 || bits >= bitsLeft {
        ReadAcross(src, si, bitsLeft, bits - bitsLeft);
        data := Low(Shl(src[si], bits - bitsLeft), bits);
        si := si + 1;
        bitsLeft := bitsLeft + 8 - bits;
        if bits > 8 || bitsLeft < 8 {
          data := data + Shr(src[si], bitsLeft);
          if bits > 8 && bitsLeft == 0 {
            bitsLeft := 8;
            si := si + 1;
          }
        }
      } else {
        ReadWithin(src, si, bitsLeft, bits);
        data := Low(Shr(src[si], bitsLeft - bits), bits);
        bitsLeft := bitsLeft - bits;
      }
      return true;
    }
  }

  /** The length part of a match. */
  method GetLength(r: BitReader) returns (ok: bool, length: nat)
    requires r.Valid()
    modifies r
    ensures r.Valid()
    ensures ok <==> ReadLength(Unpack(r.src), old(r.Pos())).Got?
    ensures ok ==> ReadLength(Unpack(r.src), old(r.Pos())) == Got(length, r.Pos())
  {
    hide FromBits, Unpack, Field;
    ghost var u := Unpack(r.src);
    length := 0;
    ok := r.GetBits(2);
    if !ok { return; }
    if r.data != 3 {
      length := r.data + 2;
    } else {
      ok := r.GetBits(2);
      if !ok { return; }
      if r.data != 3 {
        length := r.data + 5;
      } else {
        length := 8;
        ghost var start := r.Pos();
        while true
          invariant r.Valid()
          invariant ReadNibbles(u, start, 8) == ReadNibbles(u, r.Pos(), length)
          decreases |u| - r.Pos()
        {
          ok := r.GetBits(4);
          if !ok { return; }
          if r.data != 15 {
            length := length + r.data;
            break;
          }
          length := length + 15;
        }
      }
    }
  }

  /** The rest of a match whose first nine bits, read from bit position start, are in data. */
  method GetMatch(r: BitReader, ghost start: nat) returns (ok: bool, offset: nat, length: nat)
    requires r.Valid() && r.data >= 0x100 && r.data != 0x180
    requires Field(Unpack(r.src), start, 9) == Got(r.data, r.Pos())
    modifies r
    ensures r.Valid()
    ensures ok <==> ReadItem(Unpack(r.src), start).Got?
    ensures ok ==> ReadItem(Unpack(r.src), start) == Got(Item(Match(offset, length)), r.Pos())
  {
    hide FromBits, Unpack, Field, ReadLength;
    offset, length := r.data % 0x80, 0;
    if r.data < 0x180 {
      ok := r.GetBits(4);
      if !ok { return; }
      offset := offset * 16 + r.data;
    }
    ok, length := GetLength(r);
  }

  /** Copies forward byte by byte, so that a match may overlap what it produces. */
  method CopyMatch(dst: array<byte>, start: nat, offset: nat, count: nat)
    requires 1 <= offset <= start && start + count <= dst.Length
    modifies dst
    ensures dst[..start + count] == CopyBack(old(dst[..start]), offset, count)
    ensures dst[start + count..] == old(dst[start + count..])
  {
    hide CopyBack;
    var outlen, length := start, count;
    ghost var full := CopyBack(dst[..outlen], offset, length);
    while length > 0
      invariant start <= outlen && 0 <= length && outlen + length == start + count
      invariant dst[outlen..] == old(dst[outlen..])
      invariant CopyBack(dst[..outlen], offset, length) == full
    {
      ghost var before := dst[..outlen];
      CopyStep(before, offset, length);
      dst[outlen] := dst[outlen - offset];
      assert dst[..outlen + 1] == before + [before[|before| - offset]];
      outlen := outlen + 1;
      length := length - 1;
    }
    CopyStep(dst[..outlen], offset, 0);
  }

  lemma CopyStep(out: seq<byte>, offset: nat, n: nat)
    requires 1 <= offset <= |out|
    ensures CopyBack(out, offset, n) == if n == 0 then out else CopyBack(out + [out[|out| - offset]], offset, n - 1)
  {
  }

  /** The reference decoder after a nine-bit field. */
  lemma DecodeNine(u: seq<bool>, pos: nat, v: nat, next: nat, out: seq<byte>, room: nat)
    requires Field(u, pos, 9) == Got(v, next)
    ensures v < 0x100 ==> Decode(u, pos, out, room) ==
                          if |out| >= room then Fail(OutputFull) else Decode(u, next, out + [v], room)
    ensures v == 0x180 ==> Decode(u, pos, out, room) == Ok(out)
  {
    hide Field;
    assert v < 0x100 ==> ReadItem(u, pos) == Got(Item(Literal(v)), next);
    assert v == 0x180 ==> ReadItem(u, pos) == Got(End, next);
  }

  /** The reference decoder at a match, or at the end of its input. */
  lemma DecodeMatch(u: seq<bool>, pos: nat, out: seq<byte>, room: nat)
    ensures ReadItem(u, pos).Short? ==> Decode(u, pos, out, room) == Fail(InputTooShort)
    ensures match ReadItem(u, pos)
            case Got(Item(Match(offset, length)), next) =>
              Decode(u, pos, out, room) ==
              if offset == 0 || offset > |out| then Fail(InvalidSequence)
              else if length + |out| > room then Fail(OutputFull)
              else Decode(u, next, CopyBack(out, offset, length), room)
            case _ => true
  {
    hide Field;
  }

  lemma DecodeShort(u: seq<bool>, pos: nat, out: seq<byte>, room: nat)
    requires Field(u, pos, 9).Short?
    ensures Decode(u, pos, out, room) == Fail(InputTooShort)
  {
  }

  /** On every input, the result or the error of the reference decoder. */
  method Decompress(dst: array<byte>, src: seq<byte>) returns (r: Count)
    modifies dst
    ensures match Decode(Unpack(src), 0, [], dst.Length)
            case Fail(e) => r == Failed(e)
            case Ok(d) =>
              && r == Count(|d|) && |d| <= dst.Length
              && dst[..|d|] == d && dst[|d|..] == old(dst[|d|..])
  {
    hide Unpack, Field, ReadItem, Decode, CopyBack;
    ghost var u, whole := Unpack(src), Decode(Unpack(src), 0, [], dst.Length);
    var reader := new BitReader(src);
    var outlen := 0;
    assert dst[..0] == [];
    while true
      invariant fresh(reader) && reader.Valid() && reader.src == src
      invariant 0 <= outlen <= dst.Length
      invariant dst[outlen..] == old(dst[outlen..])
      invariant whole == Decode(u, reader.Pos(), dst[..outlen], dst.Length)
      decreases |u| - reader.Pos()
    {
      ghost var start, outer := reader.Pos(), reader.Pos();
      var ok := reader.GetBits(9);
      if !ok { DecodeShort(u, start, dst[..outlen], dst.Length); return Failed(InputTooShort); }
      while reader.data < 0x100
        invariant reader.Valid() && outer <= start && start < |u|
        invariant 0 <= outlen <= dst.Length
        invariant dst[outlen..] == old(dst[outlen..])
        invariant Field(u, start, 9) == Got(reader.data, reader.Pos())
        invariant whole == Decode(u, start, dst[..outlen], dst.Length)
        decreases |u| - start
      {
        DecodeNine(u, start, reader.data, reader.Pos(), dst[..outlen], dst.Length);
        if outlen == dst.Length { return Failed(OutputFull); }
        ghost var before := dst[..outlen];
        dst[outlen] := reader.data;
        outlen := outlen + 1;
        assert dst[..outlen] == before + [dst[outlen - 1]];
        start := reader.Pos();
        ok := reader.GetBits(9);
        if !ok { DecodeShort(u, start, dst[..outlen], dst.Length); return Failed(InputTooShort); }
      }
      DecodeNine(u, start, reader.data, reader.Pos(), dst[..outlen], dst.Length);
      if reader.data == 0x180 {
        return Count(outlen);
      }
      var offset, length;
      ok, offset, length := GetMatch(reader, start);
      DecodeMatch(u, start, dst[..outlen], dst.Length);
      if !ok { return Failed(InputTooShort); }
      if offset == 0 || offset > outlen {
        return Failed(InvalidSequence);
      }
      if length + outlen > dst.Length {
        return Failed(OutputFull);
      }
      CopyMatch(dst, outlen, offset, length);
      outlen := outlen + length;
    }
  }
}
