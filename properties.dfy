/** What the journal promises across operations: initialisation and install are
    idempotent, install either fails without writing or ends with an empty journal,
    a published transaction is replayed in append order, and neither a failed append
    nor an unpublished or unterminated run is ever replayed. */
module Properties {
  import opened Wrappers
  import opened Layout
  import opened Codec
  import opened Image
  import opened Writer
  import opened Replay

  /** `journal_init_if_needed` twice is `journal_init_if_needed` once. */
  lemma InitIdempotent(s: seq<Byte>)
    requires |s| == DISK_BYTES
    ensures InitImage(InitImage(s)) == InitImage(s)
  {
  }

  /** A successful install ends with an initialised, empty journal. */
  lemma InstallEndsEmpty(s: seq<Byte>)
    requires |s| == DISK_BYTES
    requires InstallSpec(s).0.Pass?
    ensures HeaderOf(InstallSpec(s).1) == JournalHeader(JOURNAL_MAGIC, HEADER_SIZE)
  {
    InitImageCases(s);
  }

  /** A second install after a successful one finds the journal empty and changes nothing. */
  lemma InstallIdempotent(s: seq<Byte>)
    requires |s| == DISK_BYTES
    requires InstallSpec(s).0.Pass?
    ensures InstallSpec(InstallSpec(s).1) == (Pass, InstallSpec(s).1)
  {
    InstallEndsEmpty(s);
  }

  /** A failed install leaves the disk image exactly as it was: the scan finds every error
      before any home block or the header is written. */
  lemma InstallFailureLeavesImage(s: seq<Byte>)
    requires |s| == DISK_BYTES
    requires InstallSpec(s).0.Fail?
    ensures InstallSpec(s).1 == s
  {
    InitImageCases(s);
  }

  /** A journal region written by `handle_create` on top of a journal that ended at a
      transaction boundary scans to the old committed writes followed by the new ones. */
  lemma ScanAfterCreate(s: seq<Byte>, txn: seq<LoggedBlock>, committed: seq<LoggedBlock>)
    requires |s| == DISK_BYTES && Replayable(txn)
    requires HEADER_SIZE <= HeaderOf(s).nbytesUsed && HeaderOf(s).nbytesUsed + TxnSize(|txn|) <= JOURNAL_BYTES
    requires Scan(JournalOf(s), HeaderOf(s).nbytesUsed) == Ok(ScanState([], committed))
    ensures Replayable(committed + txn)
    ensures Scan(JournalOf(Journaled(s, txn)), HeaderOf(Journaled(s, txn)).nbytesUsed) == Ok(ScanState([], committed + txn))
  {
    JournaledKeepsPrefix(s, txn);
    JournaledHoldsTxn(s, txn);
    ScanAppendedTxn(JournalOf(s), JournalOf(Journaled(s, txn)), HeaderOf(s).nbytesUsed, txn, committed);
  }

  /** Create, then install: with the journal at a transaction boundary, a transaction that
      fits is journaled, and install replays the earlier committed writes and then the new
      ones, in append order, and checkpoints the journal. */
  lemma CreateThenInstall(s: seq<Byte>, txn: seq<LoggedBlock>, committed: seq<LoggedBlock>)
    requires |s| == DISK_BYTES && Replayable(txn)
    requires HeaderOf(s).magic == JOURNAL_MAGIC
    requires HEADER_SIZE <= HeaderOf(s).nbytesUsed && HeaderOf(s).nbytesUsed + TxnSize(|txn|) <= JOURNAL_BYTES
    requires Scan(JournalOf(s), HeaderOf(s).nbytesUsed) == Ok(ScanState([], committed))
    ensures Replayable(committed + txn)
    ensures CreateSpec(s, txn).0 == Pass
    ensures var s' := CreateSpec(s, txn).1;
      InstallSpec(s') == (Pass, WithHeader(ApplyWrites(s', committed + txn), JournalHeader(JOURNAL_MAGIC, HEADER_SIZE)))
  {
    InitImageCases(s);
    assert CreateSpec(s, txn) == AppendTxn(s, txn);
    CreateJournalsTxn(s, txn);
    ScanAfterCreate(s, txn, committed);
  }

  /** After create and install, every block outside the journal region holds the image of
      the last committed write to it (later transactions win), or its old contents. */
  lemma CreateThenInstallBlocks(s: seq<Byte>, txn: seq<LoggedBlock>, committed: seq<LoggedBlock>, b: nat)
    requires |s| == DISK_BYTES && Replayable(txn)
    requires HeaderOf(s).magic == JOURNAL_MAGIC
    requires HEADER_SIZE <= HeaderOf(s).nbytesUsed && HeaderOf(s).nbytesUsed + TxnSize(|txn|) <= JOURNAL_BYTES
    requires Scan(JournalOf(s), HeaderOf(s).nbytesUsed) == Ok(ScanState([], committed))
    requires IsHomeBlock(b)
    ensures Replayable(committed + txn)
    ensures BlockOf(InstallSpec(CreateSpec(s, txn).1).1, b) == LastImage(committed + txn, b, BlockOf(s, b))
  {
    CreateThenInstall(s, txn, committed);
    InitImageCases(s);
    assert CreateSpec(s, txn) == AppendTxn(s, txn);
    CreateJournalsTxn(s, txn);
    var s' := CreateSpec(s, txn).1;
    var applied := ApplyWrites(s', committed + txn);
    var fin := WithHeader(applied, JournalHeader(JOURNAL_MAGIC, HEADER_SIZE));
    LastWriteWins(s', committed + txn, b);
    assert SameOutside(fin, applied, JOURNAL_BASE, JOURNAL_END);
    SameOutsideBlock(fin, applied, JOURNAL_BASE, JOURNAL_END, b);
    SameOutsideBlock(s', s, JOURNAL_BASE, JOURNAL_END, b);
  }

  /** The first create on a fresh image: three DATA records and a COMMIT publish
      nbytes_used = 8 + 3 * 4104 + 4 = 12324. */
  lemma FreshCreateOfThreeBlocks(s: seq<Byte>, txn: seq<LoggedBlock>)
    requires |s| == DISK_BYTES && HeaderOf(s).magic != JOURNAL_MAGIC
    requires |txn| == 3 && FullBlocks(txn)
    ensures CreateSpec(s, txn).0 == Pass
    ensures HeaderOf(CreateSpec(s, txn).1) == JournalHeader(JOURNAL_MAGIC, 12324)
  {
    InitImageCases(s);
    assert TxnSize(|txn|) == 12316;
    CreateJournalsTxn(InitImage(s), txn);
  }

  /** A run of DATA records that no COMMIT follows within nbytes_used (a transaction whose
      COMMIT was never published) is dropped: install replays only what was committed before
      it and still checkpoints the journal. */
  lemma UnterminatedRunIsDropped(s: seq<Byte>, run: seq<LoggedBlock>, committed: seq<LoggedBlock>, used: nat)
    requires |s| == DISK_BYTES && Replayable(run)
    requires HeaderOf(s).magic == JOURNAL_MAGIC
    requires HEADER_SIZE < HeaderOf(s).nbytesUsed == used + |run| * DATA_REC_SIZE <= JOURNAL_BYTES
    requires HEADER_SIZE <= used
    requires Scan(JournalOf(s), used) == Ok(ScanState([], committed))
    requires JournalOf(s)[used..used + |run| * DATA_REC_SIZE] == EncodeDataRecords(run)
    ensures Replayable(committed)
    ensures InstallSpec(s) == (Pass, WithHeader(ApplyWrites(s, committed), JournalHeader(JOURNAL_MAGIC, HEADER_SIZE)))
  {
    var j := JournalOf(s);
    var end := HeaderOf(s).nbytesUsed;
    assert Replayable(committed) by {
      assert ScanFrom(j, HEADER_SIZE, used, [], []).Ok?;
    }
    ScanSplit(j, HEADER_SIZE, used, end, [], []);
    ScanDataRun(j, used, end, run, [], committed);
  }

  /** Bytes past nbytes_used are never replayed: two initialised images that agree outside
      the journal's unused tail install alike and still agree afterwards outside that tail.
      This covers a failed create and a crash at any point before the header write. */
  lemma UnusedTailIsInert(s: seq<Byte>, t: seq<Byte>)
    requires |s| == |t| == DISK_BYTES
    requires HeaderOf(s).magic == JOURNAL_MAGIC && HeaderOf(s).nbytesUsed >= HEADER_SIZE
    requires SameOutside(t, s, JOURNAL_BASE + HeaderOf(s).nbytesUsed, JOURNAL_END)
    ensures InstallSpec(t).0 == InstallSpec(s).0
    ensures SameOutside(InstallSpec(t).1, InstallSpec(s).1, JOURNAL_BASE + HeaderOf(s).nbytesUsed, JOURNAL_END)
  {
    var used := HeaderOf(s).nbytesUsed;
    var lo, hi := JOURNAL_BASE + used, JOURNAL_END;
    assert t[JOURNAL_BASE..JOURNAL_BASE + HEADER_SIZE] == s[JOURNAL_BASE..JOURNAL_BASE + HEADER_SIZE];
    assert HeaderOf(t) == HeaderOf(s);
    var j, j' := JournalOf(s), JournalOf(t);
    forall k | HEADER_SIZE <= k < used && k < JOURNAL_BYTES
      ensures j[k] == j'[k]
    {
      assert t[JOURNAL_BASE + k] == s[JOURNAL_BASE + k];
    }
    ScanReadsOnlyBelowUsed(j, j', HEADER_SIZE, used, [], []);
    if used != HEADER_SIZE {
      match Scan(j, used)
      case Err(_) =>
      case Ok(st) =>
        var h := JournalHeader(JOURNAL_MAGIC, HEADER_SIZE);
        ApplyWritesKeepsAgreement(t, s, st.committed, lo, hi);
        var at, as_ := ApplyWrites(t, st.committed), ApplyWrites(s, st.committed);
        forall k | 0 <= k < DISK_BYTES && !(lo <= k < hi)
          ensures WithHeader(at, h)[k] == WithHeader(as_, h)[k]
        {
          if !(JOURNAL_BASE <= k < JOURNAL_BASE + HEADER_SIZE) {
            assert WithHeader(at, h)[k] == at[k];
          } else {
            WriteAtReadBack(at, JOURNAL_BASE, EncodeHeader(h));
            WriteAtReadBack(as_, JOURNAL_BASE, EncodeHeader(h));
          }
        }
    }
  }

  /** A create that ran out of journal space leaves install's outcome unchanged: the same
      writes are replayed and the same blocks result, outside the unused tail. */
  lemma FailedCreateIsInvisible(s: seq<Byte>, txn: seq<LoggedBlock>)
    requires |s| == DISK_BYTES
    requires HeaderOf(InitImage(s)).nbytesUsed >= HEADER_SIZE
    requires CreateSpec(s, txn).0.Fail?
    ensures var s0 := InitImage(s);
      InstallSpec(CreateSpec(s, txn).1).0 == InstallSpec(s0).0 &&
      SameOutside(InstallSpec(CreateSpec(s, txn).1).1, InstallSpec(s0).1, JOURNAL_BASE + HeaderOf(s0).nbytesUsed, JOURNAL_END)
  {
    CreateFailureIsInert(InitImage(s), txn);
    UnusedTailIsInert(InitImage(s), CreateSpec(s, txn).1);
  }

  /** Install finds the same error, or writes the same image, as an install that replays each
      transaction at its COMMIT record and then checkpoints. */
  lemma InstallReplaysAsAtCommit(s: seq<Byte>)
    requires |s| == DISK_BYTES && HeaderOf(InitImage(s)).nbytesUsed > HEADER_SIZE
    ensures var s1 := InitImage(s);
      var h := HeaderOf(s1);
      InstallSpec(s) ==
        match ReplayAtCommit(s1, HEADER_SIZE, h.nbytesUsed, [])
        case Err(e) => (Fail(e), s1)
        case Ok(t) => (Pass, WithHeader(t, JournalHeader(h.magic, HEADER_SIZE)))
  {
    ReplayAtCommitAgrees(InitImage(s), HEADER_SIZE, HeaderOf(InitImage(s)).nbytesUsed, [], []);
  }
}
