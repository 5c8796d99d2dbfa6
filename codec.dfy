/** Explicit little-endian, fixed-width encoding of the journal header, the record
    header and the two record kinds (no host struct layout or padding). */
module Codec {
  import opened Layout

  /** `struct journal_header { uint32_t magic; uint32_t nbytes_used; }` */
  datatype JournalHeader = JournalHeader(magic: U32, nbytesUsed: U32)

  /** `struct rec_header { uint16_t type; uint16_t size; }` */
  datatype RecHeader = RecHeader(kind: U16, size: U16)

  /** The content of a DATA record: a home block number and that block's new image. */
  datatype LoggedBlock = LoggedBlock(home: U32, image: seq<Byte>)

  function EncodeU16(x: U16): (b: seq<Byte>)
    ensures |b| == 2
  {
    [x % 0x100, x / 0x100]
  }

  function DecodeU16(b: seq<Byte>): U16
    requires |b| == 2
  {
    b[0] as int + 0x100 * b[1] as int
  }

  function EncodeU32(x: U32): (b: seq<Byte>)
    ensures |b| == 4
  {
    [x % 0x100, (x / 0x100) % 0x100, (x / 0x100 / 0x100) % 0x100, x / 0x100 / 0x100 / 0x100]
  }

  function DecodeU32(b: seq<Byte>): U32
    requires |b| == 4
  {
    var b0: int, b1: int, b2: int, b3: int := b[0], b[1], b[2], b[3];
    b0 + 0x100 * (b1 + 0x100 * (b2 + 0x100 * b3))
  }

  lemma DecodeEncodeU16(x: U16)
    ensures DecodeU16(EncodeU16(x)) == x
  {
  }

  lemma EncodeDecodeU16(b: seq<Byte>)
    requires |b| == 2
    ensures EncodeU16(DecodeU16(b)) == b
  {
  }

  lemma DecodeEncodeU32(x: U32)
    ensures DecodeU32(EncodeU32(x)) == x
  {
  }

  lemma EncodeDecodeU32(b: seq<Byte>)
    requires |b| == 4
    ensures EncodeU32(DecodeU32(b)) == b
  {
    var b0: int, b1: int, b2: int, b3: int := b[0], b[1], b[2], b[3];
    var x := DecodeU32(b);
    var hi := b1 + 0x100 * (b2 + 0x100 * b3);
    assert x == b0 + 0x100 * hi;
    assert x % 0x100 == b0 && x / 0x100 == hi;
    var mid := b2 + 0x100 * b3;
    assert hi % 0x100 == b1 && hi / 0x100 == mid;
    assert mid % 0x100 == b2 && mid / 0x100 == b3;
  }

  function EncodeHeader(h: JournalHeader): (b: seq<Byte>)
    ensures |b| == HEADER_SIZE
  {
    EncodeU32(h.magic) + EncodeU32(h.nbytesUsed)
  }

  function DecodeHeader(b: seq<Byte>): JournalHeader
    requires |b| == HEADER_SIZE
  {
    JournalHeader(DecodeU32(b[..4]), DecodeU32(b[4..]))
  }

  lemma DecodeEncodeHeader(h: JournalHeader)
    ensures DecodeHeader(EncodeHeader(h)) == h
  {
    var b := EncodeHeader(h);
    assert b[..4] == EncodeU32(h.magic);
    assert b[4..] == EncodeU32(h.nbytesUsed);
    DecodeEncodeU32(h.magic);
    DecodeEncodeU32(h.nbytesUsed);
  }

  function EncodeRecHeader(rh: RecHeader): (b: seq<Byte>)
    ensures |b| == REC_HEADER_SIZE
  {
    EncodeU16(rh.kind) + EncodeU16(rh.size)
  }

  function DecodeRecHeader(b: seq<Byte>): RecHeader
    requires |b| == REC_HEADER_SIZE
  {
    RecHeader(DecodeU16(b[..2]), DecodeU16(b[2..]))
  }

  lemma DecodeEncodeRecHeader(rh: RecHeader)
    ensures DecodeRecHeader(EncodeRecHeader(rh)) == rh
  {
    var b := EncodeRecHeader(rh);
    assert b[..2] == EncodeU16(rh.kind);
    assert b[2..] == EncodeU16(rh.size);
    DecodeEncodeU16(rh.kind);
    DecodeEncodeU16(rh.size);
  }

  lemma EncodeDecodeRecHeader(b: seq<Byte>)
    requires |b| == REC_HEADER_SIZE
    ensures EncodeRecHeader(DecodeRecHeader(b)) == b
  {
    EncodeDecodeU16(b[..2]);
    EncodeDecodeU16(b[2..]);
    assert b == b[..2] + b[2..];
  }

  /** Every logged image is exactly one block. */
  ghost predicate FullBlocks(ws: seq<LoggedBlock>)
  {
    forall i :: 0 <= i < |ws| ==> |ws[i].image| == BLOCK_SIZE
  }

  /** Every logged image is one block and its home is a block of the disk image outside
      the journal region. */
  ghost predicate Replayable(ws: seq<LoggedBlock>)
  {
    FullBlocks(ws) && forall i :: 0 <= i < |ws| ==> IsHomeBlock(ws[i].home)
  }

  /** DATA record: header {REC_DATA, DATA_REC_SIZE}, home block number, image. */
  function EncodeDataRecord(w: LoggedBlock): (b: seq<Byte>)
    requires |w.image| == BLOCK_SIZE
    ensures |b| == DATA_REC_SIZE
    ensures DecodeRecHeader(b[..REC_HEADER_SIZE]) == RecHeader(REC_DATA, DATA_REC_SIZE as U16)
    ensures DecodeDataPayload(b[REC_HEADER_SIZE..]) == w
  {
    var b := EncodeRecHeader(RecHeader(REC_DATA, DATA_REC_SIZE as U16)) + EncodeU32(w.home) + w.image;
    assert b[..REC_HEADER_SIZE] == EncodeRecHeader(RecHeader(REC_DATA, DATA_REC_SIZE as U16));
    DecodeEncodeRecHeader(RecHeader(REC_DATA, DATA_REC_SIZE as U16));
    assert b[REC_HEADER_SIZE..] == EncodeU32(w.home) + w.image;
    DecodeEncodeU32(w.home);
    b
  }

  /** The part of a DATA record after its record header: home block number and image. */
  function DecodeDataPayload(p: seq<Byte>): LoggedBlock
    requires |p| == DATA_REC_SIZE - REC_HEADER_SIZE
  {
    LoggedBlock(DecodeU32(p[..4]), p[4..])
  }

  /** COMMIT record: a bare header {REC_COMMIT, COMMIT_REC_SIZE}. */
  function EncodeCommitRecord(): (b: seq<Byte>)
    ensures |b| == COMMIT_REC_SIZE
    ensures DecodeRecHeader(b) == RecHeader(REC_COMMIT, COMMIT_REC_SIZE as U16)
  {
    DecodeEncodeRecHeader(RecHeader(REC_COMMIT, COMMIT_REC_SIZE as U16));
    EncodeRecHeader(RecHeader(REC_COMMIT, COMMIT_REC_SIZE as U16))
  }

  /** The DATA records for `ws`, in order. */
  function EncodeDataRecords(ws: seq<LoggedBlock>): (b: seq<Byte>)
    requires FullBlocks(ws)
    ensures |b| == |ws| * DATA_REC_SIZE
  {
    if ws == [] then [] else EncodeDataRecord(ws[0]) + EncodeDataRecords(ws[1..])
  }

  /** A slice that holds `x + y` holds `x` in its first `|x|` places and `y` after them. */
  lemma SliceSplit(j: seq<Byte>, lo: nat, hi: nat, x: seq<Byte>, y: seq<Byte>)
    requires lo <= hi <= |j| && j[lo..hi] == x + y
    ensures j[lo..lo + |x|] == x && j[lo + |x|..hi] == y
  {
    assert j[lo..lo + |x|] == (x + y)[..|x|];
    assert j[lo + |x|..hi] == (x + y)[|x|..];
  }

  /** A slice is the slice up to `mid` followed by the slice from `mid`. */
  lemma SliceJoin(j: seq<Byte>, lo: nat, mid: nat, hi: nat)
    requires lo <= mid <= hi <= |j|
    ensures j[lo..hi] == j[lo..mid] + j[mid..hi]
  {
  }

  /** Bytes a transaction occupies: one DATA record per logged block, then one COMMIT. */
  function TxnSize(n: nat): nat
  {
    n * DATA_REC_SIZE + COMMIT_REC_SIZE
  }

  /** One transaction: its DATA records followed by one COMMIT record. */
  function EncodeTxn(ws: seq<LoggedBlock>): (b: seq<Byte>)
    requires FullBlocks(ws)
    ensures |b| == TxnSize(|ws|)
    ensures b[..|ws| * DATA_REC_SIZE] == EncodeDataRecords(ws)
    ensures b[|ws| * DATA_REC_SIZE..] == EncodeCommitRecord()
  {
    EncodeDataRecords(ws) + EncodeCommitRecord()
  }

  /** A transaction's encoding is its first DATA record followed by the encoding of the rest. */
  lemma EncodeTxnCons(ws: seq<LoggedBlock>)
    requires FullBlocks(ws) && ws != []
    ensures EncodeTxn(ws) == EncodeDataRecord(ws[0]) + EncodeTxn(ws[1..])
  {
    var a, b, c := EncodeDataRecord(ws[0]), EncodeDataRecords(ws[1..]), EncodeCommitRecord();
    assert EncodeTxn(ws) == (a + b) + c;
    assert (a + b) + c == a + (b + c);
  }

  /** Four bytes whose record header reads `{REC_COMMIT, COMMIT_REC_SIZE}` are the COMMIT record. */
  lemma CommitRecordOf(b: seq<Byte>)
    requires |b| == COMMIT_REC_SIZE && DecodeRecHeader(b) == RecHeader(REC_COMMIT, COMMIT_REC_SIZE as U16)
    ensures b == EncodeCommitRecord()
  {
    EncodeDecodeRecHeader(b);
  }

  /** 4104 bytes whose record header reads `{REC_DATA, DATA_REC_SIZE}` are the DATA record of
      the home block and image their payload decodes to. */
  lemma DataRecordOf(b: seq<Byte>)
    requires |b| == DATA_REC_SIZE && DecodeRecHeader(b[..REC_HEADER_SIZE]) == RecHeader(REC_DATA, DATA_REC_SIZE as U16)
    ensures EncodeDataRecord(DecodeDataPayload(b[REC_HEADER_SIZE..])) == b
  {
    var p := b[REC_HEADER_SIZE..];
    EncodeDecodeRecHeader(b[..REC_HEADER_SIZE]);
    EncodeDecodeU32(p[..4]);
    assert p == p[..4] + p[4..];
    assert b == b[..REC_HEADER_SIZE] + p;
  }

  /** One record of the journal's record stream, as the scan reads it. */
  datatype Record = Data(block: LoggedBlock) | Commit

  /** Every DATA record of the stream logs one full block for a home block outside the
      journal region. */
  ghost predicate WellFormed(rs: seq<Record>)
  {
    forall i :: 0 <= i < |rs| && rs[i].Data? ==> |rs[i].block.image| == BLOCK_SIZE && IsHomeBlock(rs[i].block.home)
  }

  function EncodeRecord(r: Record): (b: seq<Byte>)
    requires r.Data? ==> |r.block.image| == BLOCK_SIZE
    ensures |b| == if r.Data? then DATA_REC_SIZE else COMMIT_REC_SIZE
  {
    match r
    case Data(w) => EncodeDataRecord(w)
    case Commit => EncodeCommitRecord()
  }

  /** A record stream laid end to end, in order. */
  function EncodeStream(rs: seq<Record>): (b: seq<Byte>)
    requires WellFormed(rs)
    ensures rs == [] ==> b == []
  {
    if rs == [] then [] else EncodeRecord(rs[0]) + EncodeStream(rs[1..])
  }

  /** A stream with one more record in front encodes as that record followed by the rest. */
  lemma EncodeStreamCons(r: Record, rest: seq<Record>)
    requires r.Data? ==> |r.block.image| == BLOCK_SIZE && IsHomeBlock(r.block.home)
    requires WellFormed(rest)
    ensures WellFormed([r] + rest)
    ensures EncodeStream([r] + rest) == EncodeRecord(r) + EncodeStream(rest)
  {
    var rs := [r] + rest;
    assert rs[0] == r && rs[1..] == rest;
    forall i | 0 <= i < |rs| && rs[i].Data?
      ensures |rs[i].block.image| == BLOCK_SIZE && IsHomeBlock(rs[i].block.home)
    {
      if i > 0 { assert rs[i] == rest[i - 1]; }
    }
  }
}
