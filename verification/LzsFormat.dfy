/** The LZS bit format (ANSI X3.241-1994; restated in section 3.5 of RFC 3943):
    tokens, their codes, and a reference decoder over a bit string. */
module LzsFormat {
  import opened Bits

  datatype Error = InputTooShort | OutputFull | InvalidSequence

  datatype Result = Ok(data: seq<byte>) | Fail(error: Error)

  datatype Token =
    | Literal(value: byte)
    | Match(offset: nat, length: nat)
  {
    /** The format has an 11-bit offset field and no code for shorter matches. */
    predicate Encodable() {
      Match? ==> 1 <= offset < 2048 && 2 <= length
    }
  }

  // ----- what tokens mean

  /** Appends length bytes, each a copy of the byte offset places back; source and
      destination overlap when length > offset. */
  function CopyBack(out: seq<byte>, offset: nat, length: nat): (r: seq<byte>)
    requires 1 <= offset <= |out|
    ensures |r| == |out| + length && r[..|out|] == out
    decreases length
  {
    if length == 0 then out
    else CopyBack(out + [out[|out| - offset]], offset, length - 1)
  }

  /** A match may only reach back into what has been produced. */
  predicate Applicable(t: Token, produced: nat) {
    t.Encodable() && (t.Match? ==> t.offset <= produced)
  }

  function Apply(out: seq<byte>, t: Token): (r: seq<byte>)
    requires Applicable(t, |out|)
    ensures |r| > |out|
  {
    match t
    case Literal(b) => out + [b]
    case Match(o, n) => CopyBack(out, o, n)
  }

  predicate ExpandsFrom(out: seq<byte>, tokens: seq<Token>)
    decreases |tokens|
  {
    tokens == [] ||
    (Applicable(tokens[0], |out|) && ExpandsFrom(Apply(out, tokens[0]), tokens[1..]))
  }

  /** The bytes a token string stands for, after out. */
  function Expand(out: seq<byte>, tokens: seq<Token>): (r: seq<byte>)
    requires ExpandsFrom(out, tokens)
    ensures |r| >= |out|
    decreases |tokens|
  {
    if tokens == [] then out else Expand(Apply(out, tokens[0]), tokens[1..])
  }

  // ----- codes

  function LiteralCode(b: byte): seq<bool> {
    [false] + ToBits(8, b)
  }

  /** 11 and seven bits, or 10 and eleven bits. */
  function OffsetCode(offset: nat): seq<bool> {
    if offset < 0x80 then ToBits(2, 3) + ToBits(7, offset)
    else ToBits(2, 2) + ToBits(11, offset)
  }

  /** One 1111 for each full fifteen, then the remainder. */
  function NibbleCode(k: nat): seq<bool> {
    if k < 15 then ToBits(4, k) else ToBits(4, 15) + NibbleCode(k - 15)
  }

  /** 00, 01, 10 for 2..4; 1100, 1101, 1110 for 5..7; 1111 and nibbles from 8 on. */
  function LengthCode(length: nat): seq<bool>
    requires length >= 2
  {
    if length < 5 then ToBits(2, length - 2)
    else if length < 8 then ToBits(2, 3) + ToBits(2, length - 5)
    else ToBits(2, 3) + (ToBits(2, 3) + NibbleCode(length - 8))
  }

  function Code(t: Token): (r: seq<bool>)
    requires t.Encodable()
  {
    match t
    case Literal(b) => LiteralCode(b)
    case Match(o, n) => OffsetCode(o) + LengthCode(n)
  }

  predicate AllEncodable(tokens: seq<Token>) {
    forall i :: 0 <= i < |tokens| ==> tokens[i].Encodable()
  }

  function Codes(tokens: seq<Token>): seq<bool>
    requires AllEncodable(tokens)
  {
    if tokens == [] then [] else Code(tokens[0]) + Codes(tokens[1..])
  }

  /** 110000000: a seven-bit offset of zero. */
  function EndMarker(): (r: seq<bool>)
    ensures |r| == 9
  {
    ToBits(2, 3) + ToBits(7, 0)
  }

  // ----- reference decoder

  datatype Read<T> = Got(value: T, next: nat) | Short

  datatype Item = Item(token: Token) | End

  /** The next k bits. The decoder insists on a second byte being there, whether or not
      the field reaches into it. */
  function Field(bits: seq<bool>, pos: nat, k: nat): (r: Read<nat>)
    requires k <= 9
    ensures r.Got? ==> r.next == pos + k <= |bits|
  {
    if |bits| / 8 - pos / 8 < 2 then Short
    else Got(FromBits(bits[pos..pos + k]), pos + k)
  }

  function ReadNibbles(bits: seq<bool>, pos: nat, sum: nat): (r: Read<nat>)
    ensures r.Got? ==> pos < r.next <= |bits|
    decreases |bits| - pos
  {
    match Field(bits, pos, 4)
    case Short => Short
    case Got(v, p) => if v == 15 then ReadNibbles(bits, p, sum + 15) else Got(sum + v, p)
  }

  function ReadLength(bits: seq<bool>, pos: nat): (r: Read<nat>)
    ensures r.Got? ==> pos < r.next <= |bits|
  {
    match Field(bits, pos, 2)
    case Short => Short
    case Got(v, p) =>
      if v != 3 then Got(v + 2, p)
      else
        match Field(bits, p, 2)
        case Short => Short
        case Got(w, q) => if w != 3 then Got(w + 5, q) else ReadNibbles(bits, q, 8)
  }

  /** The rest of an offset whose first nine bits, counting the 1x prefix, are v. */
  function ReadOffset(bits: seq<bool>, pos: nat, v: nat): (r: Read<nat>)
    requires pos <= |bits|
    ensures r.Got? ==> pos <= r.next <= |bits|
  {
    if v >= 0x180 then Got(v % 0x80, pos)
    else
      match Field(bits, pos, 4)
      case Short => Short
      case Got(w, p) => Got(v % 0x80 * 16 + w, p)
  }

  function ReadItem(bits: seq<bool>, pos: nat): (r: Read<Item>)
    ensures r.Got? ==> pos < r.next <= |bits|
  {
    match Field(bits, pos, 9)
    case Short => Short
    case Got(v, p) =>
      if v < 0x100 then Got(Item(Literal(v)), p)
      else if v == 0x180 then Got(End, p)
      else
        match ReadOffset(bits, p, v)
        case Short => Short
        case Got(offset, q) =>
          match ReadLength(bits, q)
          case Short => Short
          case Got(length, e) => Got(Item(Match(offset, length)), e)
  }

  /** Decodes from bit position pos, out being the output so far and room its limit. */
  function Decode(bits: seq<bool>, pos: nat, out: seq<byte>, room: nat): (r: Result)
    decreases |bits| - pos
  {
    match ReadItem(bits, pos)
    case Short => Fail(InputTooShort)
    case Got(End, _) => Ok(out)
    case Got(Item(Literal(b)), p) =>
      if |out| >= room then Fail(OutputFull)
      else Decode(bits, p, out + [b], room)
    case Got(Item(Match(offset, length)), p) =>
      if offset == 0 || offset > |out| then Fail(InvalidSequence)
      else if length + |out| > room then Fail(OutputFull)
      else Decode(bits, p, CopyBack(out, offset, length), room)
  }
}
