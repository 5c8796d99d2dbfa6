/** The install scan as a value: how the record stream `[8, nbytes_used)` of the
    journal region decides which block images reach their home blocks. */
module Replay {
  import opened Wrappers
  import opened Layout
  import opened Codec
  import opened Image

  /** The scan's state: DATA records of the run in progress, and the images of every
      run a COMMIT record has sealed, in append order. */
  datatype ScanState = ScanState(pending: seq<LoggedBlock>, committed: seq<LoggedBlock>)

  /** Scan the journal region `j` from record offset `cur` up to `used` (nbytes_used).
      A DATA record joins the pending run; a COMMIT appends the pending run to the
      committed writes and starts a new run. When the scan reaches `used`, the
      pending run is what an unterminated trailing run left. Each record is checked
      against `used` before it is read, so no byte at or past `used` is read. */
  function ScanFrom(j: seq<Byte>, cur: nat, used: nat, pending: seq<LoggedBlock>, committed: seq<LoggedBlock>): (r: Result<ScanState, JournalError>)
    requires |j| == JOURNAL_BYTES
    requires Replayable(pending) && Replayable(committed)
    ensures r.Ok? ==> Replayable(r.value.pending) && Replayable(r.value.committed)
    ensures r.Ok? ==> |committed| <= |r.value.committed| && r.value.committed[..|committed|] == committed
    decreases used - cur
  {
    if cur >= used then Ok(ScanState(pending, committed))
    else if cur + REC_HEADER_SIZE > used then Err(RecordOverrun)
    else if cur + REC_HEADER_SIZE > JOURNAL_BYTES then Err(ReadOutOfBounds)
    else
      var rh := DecodeRecHeader(j[cur..cur + REC_HEADER_SIZE]);
      if cur + rh.size > used then Err(RecordOverrun)
      else if rh.kind == REC_DATA then
        if rh.size != DATA_REC_SIZE then Err(SizeMismatch)
        else if cur + DATA_REC_SIZE > JOURNAL_BYTES then Err(ReadOutOfBounds)
        else
          var w := DecodeDataPayload(j[cur + REC_HEADER_SIZE..cur + DATA_REC_SIZE]);
          if w.home >= TOTAL_BLOCKS then Err(HomeBlockOutOfRange)
          else if JOURNAL_START_BLK <= w.home < JOURNAL_START_BLK + JOURNAL_NBLOCKS then Err(HomeBlockInJournal)
          else ScanFrom(j, cur + DATA_REC_SIZE, used, pending + [w], committed)
      else if rh.kind == REC_COMMIT then
        if rh.size != COMMIT_REC_SIZE then Err(SizeMismatch)
        else ScanFrom(j, cur + COMMIT_REC_SIZE, used, [], committed + pending)
      else Err(UnknownRecordKind)
  }

  /** The whole scan of a journal region whose header says `used` bytes are in use. */
  function Scan(j: seq<Byte>, used: nat): (r: Result<ScanState, JournalError>)
    requires |j| == JOURNAL_BYTES
    ensures r.Ok? ==> Replayable(r.value.pending) && Replayable(r.value.committed)
  {
    ScanFrom(j, HEADER_SIZE, used, [], [])
  }

  /** `handle_install` on image `s`: initialise the journal if needed; return at once on
      an empty journal; otherwise scan, write every committed image to its home block in
      append order and checkpoint the header to nbytes_used == 8. Any error is found by
      the scan, before anything is written. */
  function InstallSpec(s: seq<Byte>): (res: (Outcome<JournalError>, seq<Byte>))
    requires |s| == DISK_BYTES
    ensures |res.1| == DISK_BYTES
  {
    var s1 := InitImage(s);
    var h := HeaderOf(s1);
    if h.nbytesUsed == HEADER_SIZE then (Pass, s1)
    else if h.nbytesUsed < HEADER_SIZE then (Fail(BadHeader), s1)
    else
      match Scan(JournalOf(s1), h.nbytesUsed)
      case Err(e) => (Fail(e), s1)
      case Ok(st) => (Pass, WithHeader(ApplyWrites(s1, st.committed), JournalHeader(h.magic, HEADER_SIZE)))
  }

  /** The scan reads nothing at or past `used`: two journal regions that agree below `used`
      scan alike. */
  lemma {:induction false} ScanReadsOnlyBelowUsed(j: seq<Byte>, j': seq<Byte>, cur: nat, used: nat, pending: seq<LoggedBlock>, committed: seq<LoggedBlock>)
    requires |j| == |j'| == JOURNAL_BYTES
    requires Replayable(pending) && Replayable(committed)
    requires forall k :: cur <= k < used && k < JOURNAL_BYTES ==> j[k] == j'[k]
    ensures ScanFrom(j, cur, used, pending, committed) == ScanFrom(j', cur, used, pending, committed)
    decreases used - cur
  {
    if cur < used && cur + REC_HEADER_SIZE <= used && cur + REC_HEADER_SIZE <= JOURNAL_BYTES {
      assert j[cur..cur + REC_HEADER_SIZE] == j'[cur..cur + REC_HEADER_SIZE];
      var rh := DecodeRecHeader(j[cur..cur + REC_HEADER_SIZE]);
      if cur + rh.size <= used {
        if rh.kind == REC_DATA && rh.size == DATA_REC_SIZE && cur + DATA_REC_SIZE <= JOURNAL_BYTES {
          assert j[cur + REC_HEADER_SIZE..cur + DATA_REC_SIZE] == j'[cur + REC_HEADER_SIZE..cur + DATA_REC_SIZE];
          var w := DecodeDataPayload(j[cur + REC_HEADER_SIZE..cur + DATA_REC_SIZE]);
          if IsHomeBlock(w.home) {
            ScanReadsOnlyBelowUsed(j, j', cur + DATA_REC_SIZE, used, pending + [w], committed);
          }
        } else if rh.kind == REC_COMMIT && rh.size == COMMIT_REC_SIZE {
          ScanReadsOnlyBelowUsed(j, j', cur + COMMIT_REC_SIZE, used, [], committed + pending);
        }
      }
    }
  }

  /** A scan that reaches `mid` without error can be continued from `mid` when `used`
      lies further on: the records in `[cur, mid)` are scanned the same way. */
  lemma {:induction false} ScanSplit(j: seq<Byte>, cur: nat, mid: nat, used: nat, pending: seq<LoggedBlock>, committed: seq<LoggedBlock>)
    requires |j| == JOURNAL_BYTES && Replayable(pending) && Replayable(committed)
    requires cur <= mid <= used
    requires ScanFrom(j, cur, mid, pending, committed).Ok?
    ensures var st := ScanFrom(j, cur, mid, pending, committed).value;
      ScanFrom(j, cur, used, pending, committed) == ScanFrom(j, mid, used, st.pending, st.committed)
    decreases mid - cur
  {
    if cur < mid {
      var rh := DecodeRecHeader(j[cur..cur + REC_HEADER_SIZE]);
      if rh.kind == REC_DATA {
        var w := DecodeDataPayload(j[cur + REC_HEADER_SIZE..cur + DATA_REC_SIZE]);
        ScanSplit(j, cur + DATA_REC_SIZE, mid, used, pending + [w], committed);
      } else {
        ScanSplit(j, cur + COMMIT_REC_SIZE, mid, used, [], committed + pending);
      }
    }
  }

  /** One well-formed DATA record within nbytes_used moves its logged block to pending. */
  lemma ScanData(j: seq<Byte>, cur: nat, used: nat, w: LoggedBlock, pending: seq<LoggedBlock>, committed: seq<LoggedBlock>)
    requires |j| == JOURNAL_BYTES && Replayable(pending) && Replayable(committed)
    requires |w.image| == BLOCK_SIZE && IsHomeBlock(w.home)
    requires cur + DATA_REC_SIZE <= used && cur + DATA_REC_SIZE <= JOURNAL_BYTES
    requires j[cur..cur + DATA_REC_SIZE] == EncodeDataRecord(w)
    ensures Replayable(pending + [w])
    ensures ScanFrom(j, cur, used, pending, committed) == ScanFrom(j, cur + DATA_REC_SIZE, used, pending + [w], committed)
  {
    assert j[cur..cur + REC_HEADER_SIZE] == EncodeDataRecord(w)[..REC_HEADER_SIZE];
    assert j[cur + REC_HEADER_SIZE..cur + DATA_REC_SIZE] == EncodeDataRecord(w)[REC_HEADER_SIZE..];
  }

  /** A run of DATA records joins the pending run one by one and seals nothing: without a
      COMMIT, none of it is committed. */
  lemma {:induction false} ScanDataRun(j: seq<Byte>, cur: nat, used: nat, ws: seq<LoggedBlock>, pending: seq<LoggedBlock>, committed: seq<LoggedBlock>)
    requires |j| == JOURNAL_BYTES && Replayable(ws) && Replayable(pending) && Replayable(committed)
    requires cur + |ws| * DATA_REC_SIZE <= used && cur + |ws| * DATA_REC_SIZE <= JOURNAL_BYTES
    requires j[cur..cur + |ws| * DATA_REC_SIZE] == EncodeDataRecords(ws)
    ensures Replayable(pending + ws)
    ensures ScanFrom(j, cur, used, pending, committed) == ScanFrom(j, cur + |ws| * DATA_REC_SIZE, used, pending + ws, committed)
    decreases |ws|
  {
    if ws == [] {
      assert pending + ws == pending;
    } else {
      var rest := cur + |ws| * DATA_REC_SIZE;
      assert |ws[1..]| * DATA_REC_SIZE == |ws| * DATA_REC_SIZE - DATA_REC_SIZE;
      SliceSplit(j, cur, rest, EncodeDataRecord(ws[0]), EncodeDataRecords(ws[1..]));
      ScanData(j, cur, used, ws[0], pending, committed);
      assert (pending + [ws[0]]) + ws[1..] == pending + ws;
      ScanDataRun(j, cur + DATA_REC_SIZE, used, ws[1..], pending + [ws[0]], committed);
    }
  }

  /** A COMMIT record seals the pending run: it joins the committed writes. */
  lemma ScanCommit(j: seq<Byte>, cur: nat, used: nat, pending: seq<LoggedBlock>, committed: seq<LoggedBlock>)
    requires |j| == JOURNAL_BYTES && Replayable(pending) && Replayable(committed)
    requires cur + COMMIT_REC_SIZE <= used && cur + COMMIT_REC_SIZE <= JOURNAL_BYTES
    requires j[cur..cur + COMMIT_REC_SIZE] == EncodeCommitRecord()
    ensures ScanFrom(j, cur, used, pending, committed) == ScanFrom(j, cur + COMMIT_REC_SIZE, used, [], committed + pending)
  {
  }

  /** A whole transaction written from `cur` appends its blocks, in order, to the committed
      writes, and leaves no run pending. */
  lemma ScanTxn(j: seq<Byte>, cur: nat, used: nat, txn: seq<LoggedBlock>, committed: seq<LoggedBlock>)
    requires |j| == JOURNAL_BYTES && Replayable(txn) && Replayable(committed)
    requires cur + TxnSize(|txn|) <= used && used <= JOURNAL_BYTES
    requires j[cur..cur + TxnSize(|txn|)] == EncodeTxn(txn)
    ensures Replayable(committed + txn)
    ensures ScanFrom(j, cur, used, [], committed) == ScanFrom(j, cur + TxnSize(|txn|), used, [], committed + txn)
  {
    var mid := cur + |txn| * DATA_REC_SIZE;
    var enc := EncodeTxn(txn);
    assert j[cur..mid] == enc[..|txn| * DATA_REC_SIZE];
    assert j[mid..mid + COMMIT_REC_SIZE] == enc[|txn| * DATA_REC_SIZE..];
    ScanDataRun(j, cur, used, txn, [], committed);
    assert [] + txn == txn;
    ScanCommit(j, mid, used, txn, committed);
  }

  /** A journal region `j'` that reads as `j` up to `used`, where `j` scans to a transaction
      boundary, and holds one more encoded transaction from `used` on, scans to the old
      committed writes followed by that transaction's. */
  lemma ScanAppendedTxn(j: seq<Byte>, j': seq<Byte>, used: nat, txn: seq<LoggedBlock>, committed: seq<LoggedBlock>)
    requires |j| == |j'| == JOURNAL_BYTES && Replayable(txn)
    requires HEADER_SIZE <= used && used + TxnSize(|txn|) <= JOURNAL_BYTES
    requires forall k :: HEADER_SIZE <= k < used ==> j'[k] == j[k]
    requires j'[used..used + TxnSize(|txn|)] == EncodeTxn(txn)
    requires Scan(j, used) == Ok(ScanState([], committed))
    ensures Replayable(committed + txn)
    ensures Scan(j', used + TxnSize(|txn|)) == Ok(ScanState([], committed + txn))
  {
    var end := used + TxnSize(|txn|);
    assert Replayable(committed) by {
      assert ScanFrom(j, HEADER_SIZE, used, [], []).Ok?;
    }
    ScanReadsOnlyBelowUsed(j, j', HEADER_SIZE, used, [], []);
    ScanSplit(j', HEADER_SIZE, used, end, [], []);
    ScanTxn(j', used, end, txn, committed);
    assert ScanFrom(j', end, end, [], committed + txn) == Ok(ScanState([], committed + txn));
  }

  /** What a record stream leaves behind, record by record: a DATA record joins the pending
      run, a COMMIT appends the pending run to the committed writes. */
  function Sealed(rs: seq<Record>, pending: seq<LoggedBlock>, committed: seq<LoggedBlock>): (st: ScanState)
    requires WellFormed(rs) && Replayable(pending) && Replayable(committed)
    ensures Replayable(st.pending) && Replayable(st.committed)
    decreases |rs|
  {
    if rs == [] then ScanState(pending, committed)
    else match rs[0]
      case Data(w) => Sealed(rs[1..], pending + [w], committed)
      case Commit => Sealed(rs[1..], [], committed + pending)
  }

  /** A well-formed record stream that ends exactly at `used` scans without error to what
      the stream leaves behind. */
  lemma {:induction false} ScanStream(j: seq<Byte>, cur: nat, used: nat, rs: seq<Record>, pending: seq<LoggedBlock>, committed: seq<LoggedBlock>)
    requires |j| == JOURNAL_BYTES && WellFormed(rs) && Replayable(pending) && Replayable(committed)
    requires cur + |EncodeStream(rs)| == used <= JOURNAL_BYTES
    requires j[cur..used] == EncodeStream(rs)
    ensures ScanFrom(j, cur, used, pending, committed) == Ok(Sealed(rs, pending, committed))
    decreases |rs|
  {
    if rs != [] {
      var r, rest := rs[0], rs[1..];
      assert rs == [r] + rest;
      EncodeStreamCons(r, rest);
      SealedCons(r, rest, pending, committed);
      SliceSplit(j, cur, used, EncodeRecord(r), EncodeStream(rest));
      var next := cur + |EncodeRecord(r)|;
      match r
      case Data(w) =>
        ScanData(j, cur, used, w, pending, committed);
        ScanStream(j, next, used, rest, pending + [w], committed);
      case Commit =>
        ScanCommit(j, cur, used, pending, committed);
        ScanStream(j, next, used, rest, [], committed + pending);
    }
  }

  /** The converse: a scan that succeeds has read a well-formed record stream ending exactly
      at `used`, and its result is what that stream leaves behind. So a record that runs past
      `used`, a size that does not match its kind, an unknown kind or a home block outside the
      image or inside the journal region is never skipped. */
  lemma {:induction false} ScanFromParses(j: seq<Byte>, cur: nat, used: nat, pending: seq<LoggedBlock>, committed: seq<LoggedBlock>)
      returns (rs: seq<Record>)
    requires |j| == JOURNAL_BYTES && Replayable(pending) && Replayable(committed)
    requires cur <= used && cur <= JOURNAL_BYTES
    requires ScanFrom(j, cur, used, pending, committed).Ok?
    ensures used <= JOURNAL_BYTES && WellFormed(rs)
    ensures j[cur..used] == EncodeStream(rs)
    ensures ScanFrom(j, cur, used, pending, committed).value == Sealed(rs, pending, committed)
    decreases used - cur
  {
    if cur == used {
      return [];
    }
    var rh := DecodeRecHeader(j[cur..cur + REC_HEADER_SIZE]);
    if rh.kind == REC_DATA {
      var next := cur + DATA_REC_SIZE;
      var b := j[cur..next];
      assert b[..REC_HEADER_SIZE] == j[cur..cur + REC_HEADER_SIZE];
      assert b[REC_HEADER_SIZE..] == j[cur + REC_HEADER_SIZE..next];
      DataRecordOf(b);
      var w := DecodeDataPayload(j[cur + REC_HEADER_SIZE..next]);
      var rest := ScanFromParses(j, next, used, pending + [w], committed);
      rs := [Data(w)] + rest;
      StreamStep(j, cur, next, used, Data(w), rest);
      SealedCons(Data(w), rest, pending, committed);
    } else {
      var next := cur + COMMIT_REC_SIZE;
      CommitRecordOf(j[cur..next]);
      var rest := ScanFromParses(j, next, used, [], committed + pending);
      rs := [Commit] + rest;
      StreamStep(j, cur, next, used, Commit, rest);
      SealedCons(Commit, rest, pending, committed);
    }
  }

  /** A slice holding one record's encoding followed by a slice holding a stream holds the
      stream with that record in front. */
  lemma StreamStep(j: seq<Byte>, cur: nat, next: nat, used: nat, r: Record, rest: seq<Record>)
    requires cur <= next <= used <= |j|
    requires r.Data? ==> |r.block.image| == BLOCK_SIZE && IsHomeBlock(r.block.home)
    requires WellFormed(rest)
    requires j[cur..next] == EncodeRecord(r) && j[next..used] == EncodeStream(rest)
    ensures WellFormed([r] + rest)
    ensures j[cur..used] == EncodeStream([r] + rest)
  {
    SliceJoin(j, cur, next, used);
    EncodeStreamCons(r, rest);
  }

  /** One record in front of a stream: the stream is scanned from the state that record leaves. */
  lemma SealedCons(r: Record, rest: seq<Record>, pending: seq<LoggedBlock>, committed: seq<LoggedBlock>)
    requires r.Data? ==> |r.block.image| == BLOCK_SIZE && IsHomeBlock(r.block.home)
    requires WellFormed(rest) && Replayable(pending) && Replayable(committed)
    ensures WellFormed([r] + rest) && Replayable(committed + pending)
    ensures r.Data? ==> Replayable(pending + [r.block])
    ensures Sealed([r] + rest, pending, committed) ==
      if r.Data? then Sealed(rest, pending + [r.block], committed) else Sealed(rest, [], committed + pending)
  {
    EncodeStreamCons(r, rest);
    var rs := [r] + rest;
    assert rs[0] == r && rs[1..] == rest;
  }

  /** Install's scan succeeds exactly on the journal regions whose bytes `[8, used)` are a
      well-formed record stream; its committed writes and its dropped trailing run are what
      that stream leaves behind. */
  lemma ScanIsParse(j: seq<Byte>, used: nat) returns (rs: seq<Record>)
    requires |j| == JOURNAL_BYTES && HEADER_SIZE <= used
    requires Scan(j, used).Ok?
    ensures used <= JOURNAL_BYTES && WellFormed(rs)
    ensures j[HEADER_SIZE..used] == EncodeStream(rs)
    ensures Scan(j, used).value == Sealed(rs, [], [])
  {
    rs := ScanFromParses(j, HEADER_SIZE, used, [], []);
  }

  lemma ParseIsScan(j: seq<Byte>, used: nat, rs: seq<Record>)
    requires |j| == JOURNAL_BYTES && WellFormed(rs)
    requires HEADER_SIZE + |EncodeStream(rs)| == used <= JOURNAL_BYTES
    requires j[HEADER_SIZE..used] == EncodeStream(rs)
    ensures Scan(j, used) == Ok(Sealed(rs, [], []))
  {
    ScanStream(j, HEADER_SIZE, used, rs, [], []);
  }

  /** The strategy the comment in `handle_install` describes: read the journal region of the
      image as it currently is and write a run's images to their home blocks as soon as its
      COMMIT is read. An error stops the scan; what was written before it is not modelled. */
  function ReplayAtCommit(s: seq<Byte>, cur: nat, used: nat, pending: seq<LoggedBlock>): (r: Result<seq<Byte>, JournalError>)
    requires |s| == DISK_BYTES && Replayable(pending)
    ensures r.Ok? ==> |r.value| == DISK_BYTES
    decreases used - cur
  {
    var j := JournalOf(s);
    if cur >= used then Ok(s)
    else if cur + REC_HEADER_SIZE > used then Err(RecordOverrun)
    else if cur + REC_HEADER_SIZE > JOURNAL_BYTES then Err(ReadOutOfBounds)
    else
      var rh := DecodeRecHeader(j[cur..cur + REC_HEADER_SIZE]);
      if cur + rh.size > used then Err(RecordOverrun)
      else if rh.kind == REC_DATA then
        if rh.size != DATA_REC_SIZE then Err(SizeMismatch)
        else if cur + DATA_REC_SIZE > JOURNAL_BYTES then Err(ReadOutOfBounds)
        else
          var w := DecodeDataPayload(j[cur + REC_HEADER_SIZE..cur + DATA_REC_SIZE]);
          if w.home >= TOTAL_BLOCKS then Err(HomeBlockOutOfRange)
          else if JOURNAL_START_BLK <= w.home < JOURNAL_START_BLK + JOURNAL_NBLOCKS then Err(HomeBlockInJournal)
          else ReplayAtCommit(s, cur + DATA_REC_SIZE, used, pending + [w])
      else if rh.kind == REC_COMMIT then
        if rh.size != COMMIT_REC_SIZE then Err(SizeMismatch)
        else ReplayAtCommit(ApplyWrites(s, pending), cur + COMMIT_REC_SIZE, used, [])
      else Err(UnknownRecordKind)
  }

  /** Writing at each COMMIT and writing after the whole scan agree: the same error, or the
      same image. Home blocks never lie in the journal region, so a replayed write never
      changes a record still to be read. */
  lemma {:induction false} ReplayAtCommitAgrees(s: seq<Byte>, cur: nat, used: nat, pending: seq<LoggedBlock>, committed: seq<LoggedBlock>)
    requires |s| == DISK_BYTES && Replayable(pending) && Replayable(committed)
    ensures ReplayAtCommit(ApplyWrites(s, committed), cur, used, pending) ==
      match ScanFrom(JournalOf(s), cur, used, pending, committed)
      case Err(e) => Err(e)
      case Ok(st) => Ok(ApplyWrites(s, st.committed))
    decreases used - cur
  {
    var t := ApplyWrites(s, committed);
    var j := JournalOf(s);
    ApplyWritesKeepsJournal(s, committed);
    if cur < used && cur + REC_HEADER_SIZE <= used && cur + REC_HEADER_SIZE <= JOURNAL_BYTES {
      var rh := DecodeRecHeader(j[cur..cur + REC_HEADER_SIZE]);
      if cur + rh.size <= used {
        if rh.kind == REC_DATA && rh.size == DATA_REC_SIZE && cur + DATA_REC_SIZE <= JOURNAL_BYTES {
          var w := DecodeDataPayload(j[cur + REC_HEADER_SIZE..cur + DATA_REC_SIZE]);
          if IsHomeBlock(w.home) {
            ReplayAtCommitAgrees(s, cur + DATA_REC_SIZE, used, pending + [w], committed);
          }
        } else if rh.kind == REC_COMMIT && rh.size == COMMIT_REC_SIZE {
          ApplyWritesConcat(s, committed, pending);
          ReplayAtCommitAgrees(s, cur + COMMIT_REC_SIZE, used, [], committed + pending);
        }
      }
    }
  }
}
