/**
 * The byte codes of identifiers: the fixed length of a type vertex IID, the length of a thing
 * vertex IID, and the one-byte infix codes that name an edge encoding and its direction.
 */
module Encoding {
  import opened Common
  import opened ByteArrays

  /** `VertexIID.Type.LENGTH`: a one-byte prefix followed by a two-byte type id. */
  const TYPE_LENGTH: nat := 3
  /** The instance key that follows the type IID inside a thing vertex IID. */
  const THING_KEY_LENGTH: nat := 8
  /** The length of a thing vertex IID: its type's IID followed by its key. */
  const THING_LENGTH: nat := TYPE_LENGTH + THING_KEY_LENGTH

  datatype Direction = Out | In

  /** Edge encodings: the first five connect types, the rest connect things (or a thing to its type). */
  datatype EdgeEncoding =
    | Sub | Owns | OwnsKey | Plays | Relates
    | Isa | Has | Playing | Relating | RolePlayer

  predicate IsTypeEdge(e: EdgeEncoding) {
    e.Sub? || e.Owns? || e.OwnsKey? || e.Plays? || e.Relates?
  }

  /** `Encoding.Infix`: an edge encoding together with the direction it is read in. */
  datatype InfixCode = InfixCode(encoding: EdgeEncoding, direction: Direction)

  /** The positive key of an encoding; the inward code is its two's-complement negation. */
  function Key(e: EdgeEncoding): (k: bv8)
    ensures 0 < k < 0x80
  {
    match e
    case Sub => 20
    case Owns => 21
    case OwnsKey => 22
    case Plays => 23
    case Relates => 24
    case Isa => 30
    case Has => 50
    case Playing => 51
    case Relating => 52
    case RolePlayer => 53
  }

  function EncodingOfKey(k: bv8): (r: Option<EdgeEncoding>)
    ensures r.Some? ==> Key(r.value) == k
  {
    if k == 20 then Some(Sub)
    else if k == 21 then Some(Owns)
    else if k == 22 then Some(OwnsKey)
    else if k == 23 then Some(Plays)
    else if k == 24 then Some(Relates)
    else if k == 30 then Some(Isa)
    else if k == 50 then Some(Has)
    else if k == 51 then Some(Playing)
    else if k == 52 then Some(Relating)
    else if k == 53 then Some(RolePlayer)
    else None
  }

  /** The first byte of an infix: the key for an outward edge, its negation for an inward one. */
  function InfixHead(c: InfixCode): (h: bv8)
    ensures h != 0
    ensures (h < 0x80) <==> c.direction == Out
  {
    if c.direction == Out then Key(c.encoding) else 0 - Key(c.encoding)
  }

  /** Reads an infix's first byte back into the code it stands for; unknown keys give `None`. */
  function DecodeHead(h: bv8): Option<InfixCode> {
    if h < 0x80 then
      match EncodingOfKey(h)
      case None => None
      case Some(e) => Some(InfixCode(e, Out))
    else
      match EncodingOfKey(0 - h)
      case None => None
      case Some(e) => Some(InfixCode(e, In))
  }

  /** Decoding inverts encoding ... */
  lemma DecodeInfixHead(c: InfixCode)
    ensures DecodeHead(InfixHead(c)) == Some(c)
  {
  }

  /**
   * ... and every byte that decodes is the encoding of what it decodes to: with `DecodeInfixHead`,
   * encoding and decoding are inverse bijections between infix codes and known head bytes.
   */
  lemma EncodeDecodedHead(h: bv8)
    ensures DecodeHead(h).Some? ==> InfixHead(DecodeHead(h).value) == h
  {
  }

  /** `InfixIID` lengths: a role-player infix also carries the role type's IID. */
  function InfixLength(e: EdgeEncoding): (n: nat)
    ensures n >= 1
  {
    if e == RolePlayer then 1 + TYPE_LENGTH else 1
  }

  /** The bytes of an `InfixIID`: a known head byte and exactly as many bytes as its encoding calls for. */
  predicate ValidInfix(i: Bytes) {
    |i| >= 1 && DecodeHead(i[0]).Some? && |i| == InfixLength(DecodeHead(i[0]).value.encoding)
  }

  /** The code a valid infix carries in its head byte. */
  function CodeOf(i: Bytes): InfixCode
    requires ValidInfix(i)
  {
    DecodeHead(i[0]).value
  }

  /** `Encoding.Edge.ISA.in().bytes()`: the infix of an inward ISA edge. */
  const ISA_IN: Bytes := [InfixHead(InfixCode(Isa, In))]

  /** The ISA-in infix is one valid byte that reads back as an inward ISA edge. */
  lemma IsaInIsValid()
    ensures |ISA_IN| == 1 && ValidInfix(ISA_IN) && CodeOf(ISA_IN) == InfixCode(Isa, In)
  {
  }
}
