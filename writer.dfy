/** The transaction writer as a value: the successive bounds-checked appends of
    `handle_create` and the single header write that publishes them. */
module Writer {
  import opened Wrappers
  import opened Layout
  import opened Codec
  import opened Image

  /** Where a run of appends ends: every piece written and the cursor after the last one,
      or the journal full at some piece, with the image as the earlier pieces left it. */
  datatype Appended = Appended(image: seq<Byte>, cursor: nat) | Full(image: seq<Byte>)

  /** One `journal_append_bytes` call per piece, the cursor advancing by each piece's
      length; the first piece that does not fit stops the run before it writes anything. */
  function AppendAll(s: seq<Byte>, used: nat, pieces: seq<seq<Byte>>): (r: Appended)
    requires |s| == DISK_BYTES
    ensures |r.image| == DISK_BYTES
    ensures r.Appended? ==> r.cursor == used || r.cursor <= JOURNAL_BYTES
    decreases pieces
  {
    if pieces == [] then Appended(s, used)
    else if used + |pieces[0]| > JOURNAL_BYTES then Full(s)
    else AppendAll(WriteAt(s, JOURNAL_BASE + used, pieces[0]), used + |pieces[0]|, pieces[1..])
  }

  function Flatten(pieces: seq<seq<Byte>>): seq<Byte>
  {
    if pieces == [] then [] else pieces[0] + Flatten(pieces[1..])
  }

  /** The three appends of the `append_data` helper: record header, home block number, image. */
  function DataPieces(w: LoggedBlock): seq<seq<Byte>>
  {
    [EncodeRecHeader(RecHeader(REC_DATA, DATA_REC_SIZE as U16)), EncodeU32(w.home), w.image]
  }

  /** Every append of `handle_create`: the DATA pieces of each logged block, then the COMMIT. */
  function TxnPieces(txn: seq<LoggedBlock>): seq<seq<Byte>>
  {
    if txn == [] then [EncodeCommitRecord()] else DataPieces(txn[0]) + TxnPieces(txn[1..])
  }

  /** `handle_create` on image `s`: initialise the journal if needed, append the transaction
      at the stored nbytes_used and, only if every append fitted, write the header once with
      the new count. */
  function CreateSpec(s: seq<Byte>, txn: seq<LoggedBlock>): (res: (Outcome<JournalError>, seq<Byte>))
    requires |s| == DISK_BYTES
    ensures |res.1| == DISK_BYTES
  {
    AppendTxn(InitImage(s), txn)
  }

  /** The part of `handle_create` after initialisation, on an image `s0` whose journal
      header is in place. */
  function AppendTxn(s0: seq<Byte>, txn: seq<LoggedBlock>): (res: (Outcome<JournalError>, seq<Byte>))
    requires |s0| == DISK_BYTES
    ensures |res.1| == DISK_BYTES
  {
    var h := HeaderOf(s0);
    match AppendAll(s0, h.nbytesUsed, TxnPieces(txn))
    case Full(img) => (Fail(JournalFull), img)
    case Appended(img, cur) => (Pass, WithHeader(img, JournalHeader(h.magic, cur)))
  }

  /** Appending `ps + qs` is appending `ps`, then, if that fitted, `qs` from where it stopped. */
  lemma {:induction false} AppendAllConcat(s: seq<Byte>, used: nat, ps: seq<seq<Byte>>, qs: seq<seq<Byte>>)
    requires |s| == DISK_BYTES
    decreases ps
    ensures AppendAll(s, used, ps + qs) ==
      match AppendAll(s, used, ps)
      case Full(img) => Full(img)
      case Appended(img, cur) => AppendAll(img, cur, qs)
  {
    if ps != [] {
      assert (ps + qs)[0] == ps[0];
      assert (ps + qs)[1..] == ps[1..] + qs;
      if used + |ps[0]| <= JOURNAL_BYTES {
        AppendAllConcat(WriteAt(s, JOURNAL_BASE + used, ps[0]), used + |ps[0]|, ps[1..], qs);
      }
    } else {
      assert ps + qs == qs;
    }
  }

  /** A run of appends fits exactly when its total length fits after `used`. */
  lemma {:induction false} AppendAllFitsIff(s: seq<Byte>, used: nat, pieces: seq<seq<Byte>>)
    requires |s| == DISK_BYTES
    ensures AppendAll(s, used, pieces).Appended? <==> pieces == [] || used + |Flatten(pieces)| <= JOURNAL_BYTES
    decreases pieces
  {
    if pieces != [] && used + |pieces[0]| <= JOURNAL_BYTES {
      AppendAllFitsIff(WriteAt(s, JOURNAL_BASE + used, pieces[0]), used + |pieces[0]|, pieces[1..]);
    }
  }

  /** A run of appends that fits is one write of the concatenated pieces at `used`. */
  lemma {:induction false} AppendAllIsOneWrite(s: seq<Byte>, used: nat, pieces: seq<seq<Byte>>)
    requires |s| == DISK_BYTES && used + |Flatten(pieces)| <= JOURNAL_BYTES
    ensures AppendAll(s, used, pieces) == Appended(WriteAt(s, JOURNAL_BASE + used, Flatten(pieces)), used + |Flatten(pieces)|)
    decreases pieces
  {
    if pieces == [] {
      WriteAtNothing(s, JOURNAL_BASE + used);
    } else {
      var s' := WriteAt(s, JOURNAL_BASE + used, pieces[0]);
      assert Flatten(pieces) == pieces[0] + Flatten(pieces[1..]);
      assert AppendAll(s, used, pieces) == AppendAll(s', used + |pieces[0]|, pieces[1..]);
      AppendAllIsOneWrite(s', used + |pieces[0]|, pieces[1..]);
      WriteAtConcat(s, JOURNAL_BASE + used, pieces[0], Flatten(pieces[1..]));
    }
  }

  /** Appends touch nothing but the journal region from `used` on. */
  lemma {:induction false} AppendAllFrame(s: seq<Byte>, used: nat, pieces: seq<seq<Byte>>)
    requires |s| == DISK_BYTES
    ensures SameOutside(AppendAll(s, used, pieces).image, s, JOURNAL_BASE + used, JOURNAL_END)
    decreases pieces
  {
    if pieces != [] && used + |pieces[0]| <= JOURNAL_BYTES {
      var s' := WriteAt(s, JOURNAL_BASE + used, pieces[0]);
      AppendAllFrame(s', used + |pieces[0]|, pieces[1..]);
      WriteAtInside(s, JOURNAL_BASE + used, pieces[0], JOURNAL_BASE + used, JOURNAL_END);
      SameOutsideTrans(AppendAll(s', used + |pieces[0]|, pieces[1..]).image, s', s,
        JOURNAL_BASE + used + |pieces[0]|, JOURNAL_END, JOURNAL_BASE + used, JOURNAL_END);
    }
  }

  /** The three pieces of a DATA append are the DATA record. */
  lemma FlattenDataPieces(w: LoggedBlock)
    requires |w.image| == BLOCK_SIZE
    ensures Flatten(DataPieces(w)) == EncodeDataRecord(w)
  {
    var d := DataPieces(w);
    assert Flatten(d[2..]) == d[2] + Flatten([]);
    assert Flatten(d[1..]) == d[1] + Flatten(d[2..]);
    assert Flatten(d) == d[0] + Flatten(d[1..]);
    assert Flatten(d) == d[0] + d[1] + d[2];
  }

  /** The pieces of a transaction are its encoding. */
  lemma {:induction false} FlattenTxnPieces(txn: seq<LoggedBlock>)
    requires FullBlocks(txn)
    ensures Flatten(TxnPieces(txn)) == EncodeTxn(txn)
  {
    if txn == [] {
      assert Flatten([EncodeCommitRecord()]) == EncodeCommitRecord() + Flatten([]);
    } else {
      assert TxnPieces(txn) == DataPieces(txn[0]) + TxnPieces(txn[1..]);
      FlattenConcat(DataPieces(txn[0]), TxnPieces(txn[1..]));
      FlattenDataPieces(txn[0]);
      FlattenTxnPieces(txn[1..]);
      EncodeTxnCons(txn);
    }
  }

  lemma {:induction false} FlattenConcat(ps: seq<seq<Byte>>, qs: seq<seq<Byte>>)
    ensures Flatten(ps + qs) == Flatten(ps) + Flatten(qs)
  {
    if ps == [] {
      assert ps + qs == qs;
    } else {
      assert (ps + qs)[1..] == ps[1..] + qs;
      FlattenConcat(ps[1..], qs);
    }
  }

  /** `handle_create` fails exactly when the transaction does not fit after the stored
      nbytes_used. */
  lemma CreateSucceedsIffFits(s0: seq<Byte>, txn: seq<LoggedBlock>)
    requires |s0| == DISK_BYTES && FullBlocks(txn)
    ensures AppendTxn(s0, txn).0.Pass? <==> HeaderOf(s0).nbytesUsed + TxnSize(|txn|) <= JOURNAL_BYTES
  {
    FlattenTxnPieces(txn);
    AppendAllFitsIff(s0, HeaderOf(s0).nbytesUsed, TxnPieces(txn));
  }

  /** The appends of a transaction that fits are one write of its encoding. */
  lemma AppendTxnIsOneWrite(s: seq<Byte>, used: nat, txn: seq<LoggedBlock>)
    requires |s| == DISK_BYTES && FullBlocks(txn) && used + TxnSize(|txn|) <= JOURNAL_BYTES
    ensures AppendAll(s, used, TxnPieces(txn)) == Appended(WriteAt(s, JOURNAL_BASE + used, EncodeTxn(txn)), used + TxnSize(|txn|))
  {
    FlattenTxnPieces(txn);
    AppendAllIsOneWrite(s, used, TxnPieces(txn));
  }

  /** When the transaction fits, `handle_create` leaves the journal holding it after the old
      records, and the header publishes `old + n * 4104 + 4`. */
  lemma CreateJournalsTxn(s0: seq<Byte>, txn: seq<LoggedBlock>)
    requires |s0| == DISK_BYTES && FullBlocks(txn)
    requires HeaderOf(s0).nbytesUsed + TxnSize(|txn|) <= JOURNAL_BYTES
    ensures AppendTxn(s0, txn) == (Pass, Journaled(s0, txn))
  {
    var h := HeaderOf(s0);
    var a := AppendAll(s0, h.nbytesUsed, TxnPieces(txn));
    AppendTxnIsOneWrite(s0, h.nbytesUsed, txn);
    assert AppendTxn(s0, txn) == (Pass, WithHeader(a.image, JournalHeader(h.magic, a.cursor)));
    JournaledIsWrite(s0, txn);
  }

  /** A failed `handle_create` does not write the header and touches no byte before the
      stored nbytes_used nor any byte outside the journal region: no home block and, when
      nbytes_used is at least the header size, not the header. */
  lemma CreateFailureIsInert(s0: seq<Byte>, txn: seq<LoggedBlock>)
    requires |s0| == DISK_BYTES
    requires AppendTxn(s0, txn).0.Fail?
    ensures SameOutside(AppendTxn(s0, txn).1, s0, JOURNAL_BASE + HeaderOf(s0).nbytesUsed, JOURNAL_END)
    ensures HeaderOf(s0).nbytesUsed >= HEADER_SIZE ==> HeaderOf(AppendTxn(s0, txn).1) == HeaderOf(s0)
  {
    var used := HeaderOf(s0).nbytesUsed;
    AppendAllFrame(s0, used, TxnPieces(txn));
    var r := AppendTxn(s0, txn).1;
    if used >= HEADER_SIZE {
      assert r[JOURNAL_BASE..JOURNAL_BASE + HEADER_SIZE] == s0[JOURNAL_BASE..JOURNAL_BASE + HEADER_SIZE];
    }
  }
}
