/** The journal operations of journalv1.c on an in-memory disk image: the file
    descriptor becomes an array of 85 * 4096 bytes, updated in place at the byte
    offsets the C code seeks to, and every fatal exit becomes an error result. */
module JournalDisk {
  import opened Wrappers
  import opened Layout
  import opened Codec
  import opened Image
  import opened Writer
  import opened Replay

  class Disk {
    const img: array<Byte>

    ghost predicate Valid()
      reads this
    {
      img.Length == DISK_BYTES
    }

    constructor (image: seq<Byte>)
      requires |image| == DISK_BYTES
      ensures Valid() && fresh(img) && img[..] == image
    {
      img := new Byte[|image|](k requires 0 <= k < |image| => image[k]);
    }

    /** Seek to byte offset `off` and write `b` there. */
    method Put(off: nat, b: seq<Byte>)
      requires Valid() && off + |b| <= DISK_BYTES
      modifies img
      ensures img[..] == WriteAt(old(img[..]), off, b)
    {
      forall k | 0 <= k < |b| {
        img[off + k] := b[k];
      }
      assert img[..] == WriteAt(old(img[..]), off, b);
    }

    /** `read_block`: a block past the end of the image is a short read. */
    method ReadBlock(blkno: U32) returns (r: Result<seq<Byte>, JournalError>)
      requires Valid()
      ensures blkno < TOTAL_BLOCKS ==> r == Ok(BlockOf(img[..], blkno))
      ensures blkno >= TOTAL_BLOCKS ==> r == Err(ShortRead)
    {
      if blkno >= TOTAL_BLOCKS {
        return Err(ShortRead);
      }
      var off := BlockOffset(blkno);
      r := Ok(img[off..off + BLOCK_SIZE]);
    }

    /** `write_block`: the whole image of block `blkno` is replaced. */
    method WriteBlock(blkno: U32, image: seq<Byte>)
      requires Valid() && blkno < TOTAL_BLOCKS && |image| == BLOCK_SIZE
      modifies img
      ensures img[..] == WriteBlockImage(old(img[..]), LoggedBlock(blkno, image))
    {
      Put(BlockOffset(blkno), image);
    }

    /** `journal_read_header`: the 8 bytes at the start of the journal region. */
    method ReadHeader() returns (h: JournalHeader)
      requires Valid()
      ensures h == HeaderOf(img[..])
    {
      var off := JournalBaseOffset();
      h := DecodeHeader(img[off..off + HEADER_SIZE]);
    }

    /** `journal_write_header`. */
    method WriteHeader(h: JournalHeader)
      requires Valid()
      modifies img
      ensures img[..] == WithHeader(old(img[..]), h)
    {
      Put(JournalBaseOffset(), EncodeHeader(h));
    }

    /** `journal_append_bytes`: write `src` at journal offset `used`, unless that would run
        past the 16-block region; the check is made in 64 bits before anything is written. */
    method AppendBytes(used: U32, src: seq<Byte>) returns (r: Outcome<JournalError>)
      requires Valid() && |src| < 0x1_0000_0000
      modifies img
      ensures used + |src| > JOURNAL_BYTES ==> r == Fail(JournalFull) && img[..] == old(img[..])
      ensures used + |src| <= JOURNAL_BYTES ==> r == Pass && img[..] == WriteAt(old(img[..]), JOURNAL_BASE + used, src)
    {
      if used + |src| > JOURNAL_BYTES {
        return Fail(JournalFull);
      }
      Put(JournalBaseOffset() + used, src);
      r := Pass;
    }

    /** `journal_read_bytes`: the `len` bytes at journal offset `offset`, unless that would run
        past the 16-block region. */
    method ReadBytes(offset: U32, len: U32) returns (r: Result<seq<Byte>, JournalError>)
      requires Valid()
      ensures offset + len > JOURNAL_BYTES ==> r == Err(ReadOutOfBounds)
      ensures offset + len <= JOURNAL_BYTES ==> r == Ok(JournalOf(img[..])[offset..offset + len])
    {
      if offset + len > JOURNAL_BYTES {
        return Err(ReadOutOfBounds);
      }
      var off := JournalBaseOffset() + offset;
      r := Ok(img[off..off + len]);
      assert r.value == JournalOf(img[..])[offset..offset + len];
    }

    /** `journal_init_if_needed`. */
    method InitIfNeeded()
      requires Valid()
      modifies img
      ensures img[..] == InitImage(old(img[..]))
    {
      var h := ReadHeader();
      if h.magic != JOURNAL_MAGIC {
        WriteHeader(JournalHeader(JOURNAL_MAGIC, HEADER_SIZE));
      }
    }

    /** The `append_data` helper of `handle_create`: append the record header, the home
        block number and the image of one DATA record, each through its own bounds-checked
        append, and return the cursor advanced by exactly one DATA record. */
    method AppendData(used: U32, w: LoggedBlock) returns (r: Result<U32, JournalError>)
      requires Valid() && |w.image| == BLOCK_SIZE
      modifies img
      ensures img[..] == AppendAll(old(img[..]), used, DataPieces(w)).image
      ensures r.Ok? <==> AppendAll(old(img[..]), used, DataPieces(w)).Appended?
      ensures r.Ok? ==> r.value == AppendAll(old(img[..]), used, DataPieces(w)).cursor == used + DATA_REC_SIZE
      ensures r.Err? ==> r.error == JournalFull
    {
      ghost var s0 := img[..];
      ghost var ps := DataPieces(w);
      var rh := EncodeRecHeader(RecHeader(REC_DATA, DATA_REC_SIZE as U16));
      var home := EncodeU32(w.home);
      assert ps == [rh, home, w.image] && ps[1..] == [home, w.image] && ps[2..] == [w.image] && ps[3..] == [];
      var o := AppendBytes(used, rh);
      if o.Fail? {
        return Err(o.error);
      }
      ghost var s1 := img[..];
      var cur: U32 := used + REC_HEADER_SIZE;
      o := AppendBytes(cur, home);
      if o.Fail? {
        assert AppendAll(s0, used, ps) == AppendAll(s1, cur, ps[1..]) == Full(s1);
        return Err(o.error);
      }
      ghost var s2 := img[..];
      cur := cur + 4;
      o := AppendBytes(cur, w.image);
      if o.Fail? {
        assert AppendAll(s0, used, ps) == AppendAll(s1, used + REC_HEADER_SIZE, ps[1..]) == AppendAll(s2, cur, ps[2..]) == Full(s2);
        return Err(o.error);
      }
      assert AppendAll(s0, used, ps) == AppendAll(s1, used + REC_HEADER_SIZE, ps[1..]) == AppendAll(s2, used + REC_HEADER_SIZE + 4, ps[2..])
          == AppendAll(img[..], cur + BLOCK_SIZE, []);
      cur := cur + BLOCK_SIZE;
      r := Ok(cur);
    }

    /** `handle_create` for a transaction `txn` computed by the caller: append one DATA
        record per logged block, in order, and one COMMIT record, tracking the cursor
        locally; only then publish the new nbytes_used with a single header write. Home
        blocks are never written (see Writer.CreateSucceedsIffFits and
        Writer.CreateFailureIsInert for what this state is). */
    method Create(txn: seq<LoggedBlock>) returns (r: Outcome<JournalError>)
      requires Valid() && FullBlocks(txn)
      modifies img
      ensures (r, img[..]) == CreateSpec(old(img[..]), txn)
    {
      InitIfNeeded();
      ghost var s0 := img[..];
      var h := ReadHeader();
      var cur: U32 := h.nbytesUsed;
      var i := 0;
      while i < |txn|
        invariant 0 <= i <= |txn|
        invariant AppendAll(s0, h.nbytesUsed, TxnPieces(txn)) == AppendAll(img[..], cur, TxnPieces(txn[i..]))
      {
        assert txn[i..][1..] == txn[i + 1..];
        AppendAllConcat(img[..], cur, DataPieces(txn[i]), TxnPieces(txn[i + 1..]));
        var next := AppendData(cur, txn[i]);
        if next.Err? {
          return Fail(next.error);
        }
        cur := next.value;
        i := i + 1;
      }
      assert txn[|txn|..] == [];
      var commit := EncodeCommitRecord();
      assert TxnPieces([]) == [commit] && [commit][1..] == TxnPieces([])[1..];
      var o := AppendBytes(cur, commit);
      if o.Fail? {
        return Fail(o.error);
      }
      WriteHeader(JournalHeader(h.magic, cur + COMMIT_REC_SIZE));
      r := Pass;
    }

    /** The record scan of `handle_install` over `[8, used)`: a cursor loop that advances
        by each record's declared size, keeps the DATA records of the current run pending
        and hands a run to the committed writes at its COMMIT. Every read is checked
        against `used` first; nothing is written. */
    method ScanRecords(used: U32) returns (r: Result<ScanState, JournalError>)
      requires Valid()
      ensures r == Scan(JournalOf(img[..]), used)
    {
      ghost var j := JournalOf(img[..]);
      var cur: nat := HEADER_SIZE;
      var pending: seq<LoggedBlock> := [];
      var committed: seq<LoggedBlock> := [];
      while cur < used
        invariant HEADER_SIZE <= cur
        invariant Replayable(pending) && Replayable(committed)
        invariant Scan(j, used) == ScanFrom(j, cur, used, pending, committed)
        decreases used - cur
      {
        if cur + REC_HEADER_SIZE > used {
          return Err(RecordOverrun);
        }
        var rb := ReadBytes(cur, REC_HEADER_SIZE);
        if rb.Err? {
          return Err(rb.error);
        }
        var rh := DecodeRecHeader(rb.value);
        if cur + rh.size > used {
          return Err(RecordOverrun);
        }
        if rh.kind == REC_DATA {
          if rh.size != DATA_REC_SIZE {
            return Err(SizeMismatch);
          }
          var pb := ReadBytes(cur + REC_HEADER_SIZE, DATA_REC_SIZE - REC_HEADER_SIZE);
          if pb.Err? {
            return Err(pb.error);
          }
          var w := DecodeDataPayload(pb.value);
          if w.home >= TOTAL_BLOCKS {
            return Err(HomeBlockOutOfRange);
          }
          if JOURNAL_START_BLK <= w.home < JOURNAL_START_BLK + JOURNAL_NBLOCKS {
            return Err(HomeBlockInJournal);
          }
          pending := pending + [w];
          cur := cur + DATA_REC_SIZE;
        } else if rh.kind == REC_COMMIT {
          if rh.size != COMMIT_REC_SIZE {
            return Err(SizeMismatch);
          }
          committed := committed + pending;
          pending := [];
          cur := cur + COMMIT_REC_SIZE;
        } else {
          return Err(UnknownRecordKind);
        }
      }
      r := Ok(ScanState(pending, committed));
    }

    /** The replay step of `handle_install`: write each committed image to its home block,
        in append order. */
    method ReplayWrites(ws: seq<LoggedBlock>)
      requires Valid() && Replayable(ws)
      modifies img
      ensures img[..] == ApplyWrites(old(img[..]), ws)
    {
      ghost var s0 := img[..];
      var i := 0;
      while i < |ws|
        invariant 0 <= i <= |ws|
        invariant img[..] == ApplyWrites(s0, ws[..i])
      {
        assert ws[..i + 1][..i] == ws[..i];
        WriteBlock(ws[i].home, ws[i].image);
        i := i + 1;
      }
      assert ws[..|ws|] == ws;
    }

    /** `handle_install`: on an empty journal return at once; otherwise scan the records from
        offset 8 to nbytes_used, drop an unterminated trailing run, write the committed images
        to their home blocks in append order and reset nbytes_used to 8. The scan checks every
        record before any block is written, so an error leaves the image as it was. */
    method Install() returns (r: Outcome<JournalError>)
      requires Valid()
      modifies img
      ensures (r, img[..]) == InstallSpec(old(img[..]))
    {
      InitIfNeeded();
      var h := ReadHeader();
      if h.nbytesUsed == HEADER_SIZE {
        return Pass;
      }
      if h.nbytesUsed < HEADER_SIZE {
        return Fail(BadHeader);
      }
      var scan := ScanRecords(h.nbytesUsed);
      if scan.Err? {
        return Fail(scan.error);
      }
      // scan.value.pending is an unterminated trailing run: it is dropped.
      ReplayWrites(scan.value.committed);
      WriteHeader(JournalHeader(h.magic, HEADER_SIZE));
      r := Pass;
    }
  }
}
