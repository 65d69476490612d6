/**
 * Decoding of the ABI-encoded position array that script/get-compensation.py
 * receives on its command line: a dynamic-array head (offset 0x20, length)
 * followed by 96-byte `(int256 tickLower, int256 tickUpper, uint256 liquidity)`
 * records.
 */
module Positions {
  import opened Results
  import opened Words

  /** A liquidity position over the half-open tick range [tickLower, tickUpper). */
  datatype Position = Position(tickLower: int, tickUpper: int, liquidity: nat)

  datatype DecodeError =
    | BadRecordLength         // "Position must be 96 bytes"
    | InvalidPositionEncoding // "invalid position encoding"
    | TrailingBytes           // "Positions must be a multiple of 96 bytes"

  const POSITION_ENCODED_LENGTH: nat := 96
  const HEAD_LENGTH: nat := 0x40

  /** A position whose fields fit the ABI types int256, int256 and uint256. */
  predicate Encodable(p: Position)
  {
    -TWO_255 <= p.tickLower < TWO_255 &&
    -TWO_255 <= p.tickUpper < TWO_255 &&
    p.liquidity < TWO_256
  }

  /** `decode_position`: the three words of one 96-byte record. */
  function DecodePosition(raw: seq<byte>): (r: Result<Position, DecodeError>)
    ensures r.Success? <==> |raw| == POSITION_ENCODED_LENGTH
    ensures r.Failure? ==> r.error == BadRecordLength
    ensures r.Success? ==> Encodable(r.value)
  {
    if |raw| != POSITION_ENCODED_LENGTH then Failure(BadRecordLength)
    else
      Success(Position(
        FromSolidityInt(ReadWord(raw, 0)),
        FromSolidityInt(ReadWord(raw, 32)),
        ReadWord(raw, 64)))
  }

  /** The 96-byte record of a position (the encoder that `decode_position` inverts). */
  function EncodePosition(p: Position): (r: seq<byte>)
    requires Encodable(p)
    ensures |r| == POSITION_ENCODED_LENGTH
  {
    Word(ToSolidityInt(p.tickLower)) + Word(ToSolidityInt(p.tickUpper)) + Word(p.liquidity)
  }

  lemma DecodeEncodePosition(p: Position)
    requires Encodable(p)
    ensures DecodePosition(EncodePosition(p)) == Success(p)
  {
    var raw := EncodePosition(p);
    assert raw[0..32] == Word(ToSolidityInt(p.tickLower));
    assert raw[32..64] == Word(ToSolidityInt(p.tickUpper));
    assert raw[64..96] == Word(p.liquidity);
    ReadWordAt(raw, 0, ToSolidityInt(p.tickLower));
    ReadWordAt(raw, 32, ToSolidityInt(p.tickUpper));
    ReadWordAt(raw, 64, p.liquidity);
    SolidityIntRoundTrip(p.tickLower);
    SolidityIntRoundTrip(p.tickUpper);
  }

  /** The list comprehension of `decode_positions`: one position per 96-byte record, in order. */
  function DecodeRecords(body: seq<byte>): (ps: seq<Position>)
    requires |body| % POSITION_ENCODED_LENGTH == 0
    ensures |ps| == |body| / POSITION_ENCODED_LENGTH
    ensures forall i :: 0 <= i < |ps| ==>
      DecodePosition(body[96 * i .. 96 * i + 96]) == Success(ps[i])
    decreases |body|
  {
    if body == [] then []
    else
      var rest := DecodeRecords(body[96..]);
      assert forall i :: 1 <= i <= |rest| ==>
        body[96 * i .. 96 * i + 96] == body[96..][96 * (i - 1) .. 96 * (i - 1) + 96];
      [DecodePosition(body[..96]).value] + rest
  }

  /** The record bytes after byte 0x40 (`raw_positions[0x40:]`, empty when the input is shorter). */
  function RecordBytes(raw: seq<byte>): (r: seq<byte>)
    ensures |r| == |raw| - Min(|raw|, HEAD_LENGTH)
    ensures forall i :: 0 <= i < |r| ==> r[i] == raw[HEAD_LENGTH + i]
  {
    if |raw| >= HEAD_LENGTH then raw[HEAD_LENGTH..] else []
  }

  /**
   * `decode_positions`. The head must hold the offset 0x20 and a length equal
   * to the number of whole records after byte 0x40, and those bytes must be a
   * whole number of records.
   */
  function DecodePositions(raw: seq<byte>): (r: Result<seq<Position>, DecodeError>)
    ensures ReadWord(raw, 0) != 0x20 ==> r == Failure(InvalidPositionEncoding)
    ensures ReadWord(raw, 0x20) != |RecordBytes(raw)| / 96 ==> r == Failure(InvalidPositionEncoding)
    ensures (ReadWord(raw, 0) == 0x20 && ReadWord(raw, 0x20) == |RecordBytes(raw)| / 96 &&
             |RecordBytes(raw)| % 96 != 0) ==> r == Failure(TrailingBytes)
    ensures (ReadWord(raw, 0) == 0x20 && ReadWord(raw, 0x20) == |RecordBytes(raw)| / 96 &&
             |RecordBytes(raw)| % 96 == 0) ==> r.Success?
    ensures r.Success? ==>
      && ReadWord(raw, 0) == 0x20
      && ReadWord(raw, 0x20) == |r.value|
      && (|raw| < HEAD_LENGTH ==> r.value == [])
      && (|raw| >= HEAD_LENGTH ==> |raw| == HEAD_LENGTH + 96 * |r.value|)
      && forall i :: 0 <= i < |r.value| ==>
           DecodePosition(raw[HEAD_LENGTH + 96 * i .. HEAD_LENGTH + 96 * i + 96]) == Success(r.value[i])
  {
    var relOffset := ReadWord(raw, 0x00);
    var length := ReadWord(raw, 0x20);
    var body := RecordBytes(raw);
    var total := |body| / POSITION_ENCODED_LENGTH;
    if !(relOffset == 0x20 && length == total) then Failure(InvalidPositionEncoding)
    else if |body| % POSITION_ENCODED_LENGTH != 0 then Failure(TrailingBytes)
    else
      var ps := DecodeRecords(body);
      assert forall i :: 0 <= i < |ps| ==>
        raw[HEAD_LENGTH + 96 * i .. HEAD_LENGTH + 96 * i + 96] == body[96 * i .. 96 * i + 96];
      Success(ps)
  }

  /** The records of a position list, back to back. */
  function EncodeRecords(ps: seq<Position>): (r: seq<byte>)
    requires forall p <- ps :: Encodable(p)
    ensures |r| == 96 * |ps|
  {
    if ps == [] then [] else EncodePosition(ps[0]) + EncodeRecords(ps[1..])
  }

  /** The whole ABI encoding of a position array: head (0x20, length) and records. */
  function EncodePositions(ps: seq<Position>): (r: seq<byte>)
    requires forall p <- ps :: Encodable(p)
    requires |ps| < TWO_256
    ensures |r| == HEAD_LENGTH + 96 * |ps|
  {
    Word(0x20) + Word(|ps|) + EncodeRecords(ps)
  }

  lemma {:induction false} DecodeEncodeRecords(ps: seq<Position>)
    requires forall p <- ps :: Encodable(p)
    ensures DecodeRecords(EncodeRecords(ps)) == ps
  {
    if ps != [] {
      var body := EncodeRecords(ps);
      assert body[..96] == EncodePosition(ps[0]);
      assert body[96..] == EncodeRecords(ps[1..]);
      DecodeEncodePosition(ps[0]);
      DecodeEncodeRecords(ps[1..]);
    }
  }

  /** Decoding inverts encoding: every list of encodable positions survives the round trip. */
  lemma DecodeEncodePositions(ps: seq<Position>)
    requires forall p <- ps :: Encodable(p)
    requires |ps| < TWO_256
    ensures DecodePositions(EncodePositions(ps)) == Success(ps)
  {
    var records := EncodeRecords(ps);
    var raw := EncodePositions(ps);
    assert raw[0..32] == Word(0x20);
    assert raw[32..64] == Word(|ps|);
    ReadWordAt(raw, 0, 0x20);
    ReadWordAt(raw, 32, |ps|);
    assert RecordBytes(raw) == records;
    DecodeEncodeRecords(ps);
  }

  /**
   * `read_word` clips its slice, so an input shorter than the head can still
   * pass both head checks: the single byte 0x20 decodes to the empty list.
   */
  lemma ShortInputDecodesEmpty()
    ensures DecodePositions([0x20]) == Success([])
  {
    assert ReadWord([0x20], 0) == FromBytes([0x20]);
    assert [0x20][..0] == [];
    assert ReadWord([0x20], 0x20) == FromBytes([]);
  }
}
