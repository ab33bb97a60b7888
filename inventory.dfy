/** Inventory items of the Bitcoin peer-to-peer protocol ("inventory vectors"):
    a typed 32-byte hash, written on the wire as a 4-byte little-endian type
    code followed by the 32 hash bytes.

    Writing appends to a byte sequence and reading consumes a prefix of one:
    a reader is the input sequence, and a successful read returns the value
    together with the bytes that remain. */
module Inventory {

  type Byte = b: int | 0 <= b < 256

  /** A 32-byte hash, `[u8; 32]` in the source. */
  type Hash = s: seq<Byte> | |s| == 32 witness seq(32, _ => 0)

  /** The hash an error item is written with. */
  function ZeroHash(): Hash { seq(32, _ => 0) }

  /** Exclusive upper bound of an unsigned 32-bit integer. */
  const U32_LIMIT: int := 0x1_0000_0000

  datatype TxHash = TxHash(bytes: Hash)
  datatype BlockHash = BlockHash(bytes: Hash)

  datatype InventoryHash =
    | Error                       // "may be ignored": carries no hash
    | Tx(tx: TxHash)
    | Block(block: BlockHash)
    | FilteredBlock(block: BlockHash)

  /** The two ways decoding fails: the input ran out (an I/O error of the
      reader), or the type code is not one of the four known ones. */
  datatype SerializationError = UnexpectedEof | ParseError(msg: string)

  datatype Result<T> = Ok(value: T) | Err(error: SerializationError)

  const INVALID_CODE_MSG: string := "invalid inventory code"

  // ---------------------------------------------------------------------
  // Little-endian unsigned 32-bit integers

  /** The number that four bytes stand for, least significant byte first. */
  function LeValue(b: seq<Byte>): (x: int)
    requires |b| == 4
    ensures 0 <= x < U32_LIMIT
  {
    var b0, b1, b2, b3: int := b[0], b[1], b[2], b[3];
    b0 + 256 * b1 + 65536 * b2 + 16777216 * b3
  }

  /** `write_u32::<LittleEndian>`: the four bytes of `x`, least significant first. */
  function WriteU32Le(x: int): (r: seq<Byte>)
    requires 0 <= x < U32_LIMIT
    ensures |r| == 4 && LeValue(r) == x
  {
    var q0 := x / 256;
    var q1 := q0 / 256;
    var b0 := x % 256;
    var b1 := q0 % 256;
    var b2 := q1 % 256;
    var b3 := q1 / 256;
    assert x == b0 + 256 * (b1 + 256 * (b2 + 256 * b3));
    [b0, b1, b2, b3]
  }

  /** Four bytes are determined by the number they stand for. */
  lemma {:induction false} WriteU32LeOfLeValue(b: seq<Byte>)
    requires |b| == 4
    ensures WriteU32Le(LeValue(b)) == b
  {
    var x := LeValue(b);
    var b0, b1, b2, b3: int := b[0], b[1], b[2], b[3];
    var q0 := b1 + 256 * b2 + 65536 * b3;
    var q1 := b2 + 256 * b3;
    assert x == b0 + 256 * q0;
    assert x % 256 == b0 && x / 256 == q0;
    assert q0 == b1 + 256 * q1;
    assert q0 % 256 == b1 && q0 / 256 == q1;
    assert q1 % 256 == b2 && q1 / 256 == b3;
  }

  /** `read_u32::<LittleEndian>`: fails when fewer than four bytes are left. */
  function ReadU32Le(input: seq<Byte>): (r: Result<(int, seq<Byte>)>)
    ensures r.Err? <==> |input| < 4
    ensures r.Err? ==> r.error == UnexpectedEof
    ensures r.Ok? ==> 0 <= r.value.0 < U32_LIMIT && input == WriteU32Le(r.value.0) + r.value.1
  {
    if |input| < 4 then Err(UnexpectedEof)
    else
      WriteU32LeOfLeValue(input[..4]);
      Ok((LeValue(input[..4]), input[4..]))
  }

  /** `read_32_bytes`: fails when fewer than 32 bytes are left. */
  function Read32Bytes(input: seq<Byte>): (r: Result<(Hash, seq<Byte>)>)
    ensures r.Err? <==> |input| < 32
    ensures r.Err? ==> r.error == UnexpectedEof
    ensures r.Ok? ==> input == r.value.0 + r.value.1
  {
    if |input| < 32 then Err(UnexpectedEof)
    else
      var bytes: Hash := input[..32];
      Ok((bytes, input[32..]))
  }

  // ---------------------------------------------------------------------
  // Serialisation

  /** The type code each kind of inventory item is written with. */
  function Code(v: InventoryHash): (c: int)
    ensures 0 <= c <= 3
    ensures c == 0 <==> v == Error
  {
    match v
    case Error => 0
    case Tx(_) => 1
    case Block(_) => 2
    case FilteredBlock(_) => 3
  }

  /** The 32 bytes written after the code; an error item writes zeros. */
  function Payload(v: InventoryHash): (h: Hash)
    ensures v == Error ==> h == ZeroHash()
  {
    match v
    case Error => ZeroHash()
    case Tx(h) => h.bytes
    case Block(h) => h.bytes
    case FilteredBlock(h) => h.bytes
  }

  /** The code and the 32 bytes together tell every item apart: no two
      items are written alike. */
  lemma {:induction false} CodeAndPayloadDetermineItem(v: InventoryHash, w: InventoryHash)
    requires Code(v) == Code(w) && Payload(v) == Payload(w)
    ensures v == w
  {
    match v
    case Error =>
    case Tx(h) => assert w.Tx? && w.tx.bytes == h.bytes;
    case Block(h) => assert w.Block? && w.block.bytes == h.bytes;
    case FilteredBlock(h) => assert w.FilteredBlock? && w.block.bytes == h.bytes;
  }

  /** `zcash_serialize`: the code, then the hash bytes; always 36 bytes. */
  function Serialize(v: InventoryHash): (r: seq<Byte>)
    ensures |r| == 36
    ensures r[..4] == [Code(v), 0, 0, 0] && r[4..] == Payload(v)
  {
    var w := WriteU32Le(Code(v));
    assert w == [Code(v), 0, 0, 0];
    w + Payload(v)
  }

  /** `zcash_deserialize`: reads the code and the hash bytes, and only then
      looks at the code. On success, also returns the bytes after the item. */
  function Deserialize(input: seq<Byte>): (r: Result<(InventoryHash, seq<Byte>)>)
    ensures |input| < 36 ==> r == Err(UnexpectedEof)
    ensures |input| >= 36 ==> (r.Err? <==> LeValue(input[..4]) > 3)
    ensures r.Err? && |input| >= 36 ==> r.error == ParseError(INVALID_CODE_MSG)
    ensures r.Ok? ==> r.value.1 == input[36..] && Code(r.value.0) == LeValue(input[..4])
  {
    match ReadU32Le(input)
    case Err(e) => Err(e)
    case Ok((code, afterCode)) =>
      match Read32Bytes(afterCode)
      case Err(e) => Err(e)
      case Ok((bytes, rest)) =>
        assert input[..4] == WriteU32Le(code) && bytes == input[4..36] && rest == input[36..];
        if code == 0 then Ok((Error, rest))
        else if code == 1 then Ok((Tx(TxHash(bytes)), rest))
        else if code == 2 then Ok((Block(BlockHash(bytes)), rest))
        else if code == 3 then Ok((FilteredBlock(BlockHash(bytes)), rest))
        else Err(ParseError(INVALID_CODE_MSG))
  }

  // ---------------------------------------------------------------------
  // Properties

  /** Decoding what was encoded gives the item back and consumes exactly its
      36 bytes. */
  lemma {:induction false} DeserializeSerialize(v: InventoryHash, rest: seq<Byte>)
    ensures Deserialize(Serialize(v) + rest) == Ok((v, rest))
  {
    var b := Serialize(v) + rest;
    assert b[..4] == [Code(v), 0, 0, 0];
    assert b[4..][..32] == Payload(v) && b[4..][32..] == rest;
    assert ReadU32Le(b) == Ok((Code(v), b[4..]));
    assert Read32Bytes(b[4..]) == Ok((Payload(v), rest));
  }

  /** The hash bytes are read even when the code turns out to be invalid, so
      the outcome depends on the first 36 bytes only. */
  lemma {:induction false} DeserializeReadsWholeItem(input: seq<Byte>, rest: seq<Byte>)
    requires |input| == 36
    ensures Deserialize(input + rest).Err? <==> Deserialize(input).Err?
    ensures Deserialize(input).Err? ==> Deserialize(input + rest) == Deserialize(input)
    ensures Deserialize(input).Ok? ==>
      Deserialize(input + rest) == Ok((Deserialize(input).value.0, rest))
  {
    var b := input + rest;
    assert b[..4] == input[..4];
    assert b[4..][..32] == input[4..][..32];
    assert b[4..][32..] == rest && input[4..][32..] == [];
    assert ReadU32Le(b) == Ok((LeValue(input[..4]), b[4..]));
    assert ReadU32Le(input) == Ok((LeValue(input[..4]), input[4..]));
  }

  /** Re-encoding a decoded item gives back the bytes read exactly when the
      code is 1 to 3, or the code is 0 and the 32 hash bytes are zero: an
      error item forgets its hash bytes. */
  lemma {:induction false} SerializeDeserialize(input: seq<Byte>)
    requires Deserialize(input).Ok?
    ensures var (v, rest) := Deserialize(input).value;
      Serialize(v) + rest == input <==> (input[0] != 0 || input[4..36] == ZeroHash())
  {
    var (v, rest) := Deserialize(input).value;
    var code := LeValue(input[..4]);
    WriteU32LeOfLeValue(input[..4]);
    assert input[..4] == [code, 0, 0, 0];
    assert input == input[..4] + input[4..36] + input[36..];
    if Serialize(v) + rest == input {
      assert Serialize(v)[4..] == input[4..36];
    }
  }

  /** Every code other than 0, 1, 2, 3 is refused with the parse error. */
  lemma InvalidCodeRejected(code: int, hash: Hash, rest: seq<Byte>)
    requires 3 < code < U32_LIMIT
    ensures Deserialize(WriteU32Le(code) + hash + rest) == Err(ParseError(INVALID_CODE_MSG))
  {
    var b := WriteU32Le(code) + hash + rest;
    assert b[..4] == WriteU32Le(code);
  }
}
