/** The row record and its fixed-width binary codec: five raw copies at fixed
    offsets into (or out of) a 172-byte slot.  There is no length prefix and
    no terminator handling; text columns are copied at their full width. */
module Codec {
  import opened Layout

  newtype u32 = x: int | 0 <= x < 0x1_0000_0000

  /** One byte of memory or of the file. */
  newtype byte = b: int | 0 <= b < 256

  type Bytes = seq<byte>

  function Zeros(n: nat): (z: Bytes)
    ensures |z| == n && forall i | 0 <= i < n :: z[i] == 0
  {
    seq(n, _ => 0)
  }

  type CompanyBytes = s: Bytes | |s| == COMPANY_SIZE witness Zeros(COMPANY_SIZE)
  type ModelBytes = s: Bytes | |s| == MODEL_SIZE witness Zeros(MODEL_SIZE)
  /** The float column: its four bytes are copied and never interpreted. */
  type PowerBytes = s: Bytes | |s| == POWER_SIZE witness Zeros(POWER_SIZE)

  datatype Row = Row(slNo: u32, year: u32, company: CompanyBytes, model: ModelBytes, power: PowerBytes)

  /** A 32-bit unsigned integer as four bytes.  The stored program copies the
      host representation; any fixed four-byte scheme models that, and this
      one is little-endian. */
  function EncodeU32(x: u32): (b: Bytes)
    ensures |b| == 4
  {
    var v0 := x as int;
    var v1 := v0 / 256;
    var v2 := v1 / 256;
    [(v0 % 256) as byte, (v1 % 256) as byte, (v2 % 256) as byte, (v2 / 256) as byte]
  }

  function DecodeU32(b: Bytes): u32
    requires |b| == 4
  {
    (b[0] as int + 256 * (b[1] as int + 256 * (b[2] as int + 256 * b[3] as int))) as u32
  }

  lemma U32RoundTrip(x: u32)
    ensures DecodeU32(EncodeU32(x)) == x
  {
    var v0 := x as int;
    var v1 := v0 / 256;
    var v2 := v1 / 256;
    assert v0 == v0 % 256 + 256 * v1;
    assert v1 == v1 % 256 + 256 * v2;
    assert v2 == v2 % 256 + 256 * (v2 / 256);
  }

  lemma U32BytesRoundTrip(b: Bytes)
    requires |b| == 4
    ensures EncodeU32(DecodeU32(b)) == b
  {
    var hi2 := b[2] as int + 256 * b[3] as int;
    var hi1 := b[1] as int + 256 * hi2;
    var v0 := b[0] as int + 256 * hi1;
    assert v0 / 256 == hi1 && v0 % 256 == b[0] as int;
    assert hi1 / 256 == hi2 && hi1 % 256 == b[1] as int;
    assert hi2 / 256 == b[3] as int && hi2 % 256 == b[2] as int;
  }

  /** The bytes of column `c` inside a 172-byte row image. */
  function Field(b: Bytes, c: Column): Bytes
    requires |b| == ROW_SIZE
  {
    ColumnsPartitionRow(c, c, 0);
    b[Offset(c)..Offset(c) + Width(c)]
  }

  /** The row image that the five copies of the serializer leave in a slot. */
  function EncodeRow(r: Row): (b: Bytes)
    ensures |b| == ROW_SIZE
    ensures Field(b, SlNo) == EncodeU32(r.slNo)
    ensures Field(b, Year) == EncodeU32(r.year)
    ensures Field(b, Company) == r.company
    ensures Field(b, Model) == r.model
    ensures Field(b, Power) == r.power
  {
    EncodeU32(r.slNo) + EncodeU32(r.year) + r.company + r.model + r.power
  }

  /** The row the five copies of the deserializer rebuild from a row image. */
  function DecodeRow(b: Bytes): Row
    requires |b| == ROW_SIZE
  {
    Row(DecodeU32(Field(b, SlNo)), DecodeU32(Field(b, Year)),
        Field(b, Company), Field(b, Model), Field(b, Power))
  }

  /** Two row images that agree on every column are the same image. */
  lemma FieldsDetermineRow(a: Bytes, b: Bytes)
    requires |a| == ROW_SIZE && |b| == ROW_SIZE
    requires forall c: Column :: Field(a, c) == Field(b, c)
    ensures a == b
  {
    forall i | 0 <= i < ROW_SIZE
      ensures a[i] == b[i]
    {
      var c := ColumnAt(i);
      ColumnsPartitionRow(c, c, i);
      assert Field(a, c)[i - Offset(c)] == Field(b, c)[i - Offset(c)];
    }
  }

  lemma RowRoundTrip(r: Row)
    ensures DecodeRow(EncodeRow(r)) == r
  {
    U32RoundTrip(r.slNo);
    U32RoundTrip(r.year);
  }

  /** The codec is a raw copy: every 172-byte image is the encoding of the row
      decoded from it, so nothing is lost in either direction. */
  lemma ImageRoundTrip(b: Bytes)
    requires |b| == ROW_SIZE
    ensures EncodeRow(DecodeRow(b)) == b
  {
    var e := EncodeRow(DecodeRow(b));
    U32BytesRoundTrip(Field(b, SlNo));
    U32BytesRoundTrip(Field(b, Year));
    FieldsDetermineRow(e, b);
  }

  /** Serialize `row` into the 172-byte slot of `page` that starts at `off`. */
  function SerializeRow(row: Row, page: Bytes, off: nat): (r: Bytes)
    requires off + ROW_SIZE <= |page|
    ensures |r| == |page|
    ensures r[off..off + ROW_SIZE] == EncodeRow(row)
    ensures forall i | 0 <= i < |page| && !(off <= i < off + ROW_SIZE) :: r[i] == page[i]
  {
    page[..off] + EncodeRow(row) + page[off + ROW_SIZE..]
  }

  /** Deserialize the 172-byte slot of `page` that starts at `off`. */
  function DeserializeRow(page: Bytes, off: nat): Row
    requires off + ROW_SIZE <= |page|
  {
    DecodeRow(page[off..off + ROW_SIZE])
  }

  lemma SlotRoundTrip(row: Row, page: Bytes, off: nat)
    requires off + ROW_SIZE <= |page|
    ensures DeserializeRow(SerializeRow(row, page, off), off) == row
  {
    RowRoundTrip(row);
  }

  /** Serializing into one slot leaves every slot it does not overlap readable
      as before. */
  lemma SerializeFrame(row: Row, page: Bytes, off: nat, other: nat)
    requires off + ROW_SIZE <= |page| && other + ROW_SIZE <= |page|
    requires off + ROW_SIZE <= other || other + ROW_SIZE <= off
    ensures DeserializeRow(SerializeRow(row, page, off), other) == DeserializeRow(page, other)
  {
    var p' := SerializeRow(row, page, off);
    assert p'[other..other + ROW_SIZE] == page[other..other + ROW_SIZE];
  }

  /** Deserializing reads nothing outside the slot. */
  lemma DeserializeLocal(a: Bytes, b: Bytes, off: nat)
    requires off + ROW_SIZE <= |a| && off + ROW_SIZE <= |b|
    requires forall i | off <= i < off + ROW_SIZE :: a[i] == b[i]
    ensures DeserializeRow(a, off) == DeserializeRow(b, off)
  {
    assert a[off..off + ROW_SIZE] == b[off..off + ROW_SIZE];
  }

  /** Appending the head of `b` and then its tail is appending `b`; used when
      rows are inserted one at a time. */
  lemma AppendFirst<T>(a: seq<T>, b: seq<T>)
    requires b != []
    ensures a + [b[0]] + b[1..] == a + b
  {
    assert b == [b[0]] + b[1..];
  }
}
