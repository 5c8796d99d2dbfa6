/** The disk image as a value: the effect of every journal operation on the
    85-block image, stated as functions on its byte sequence. */
module Image {
  import opened Layout
  import opened Codec

  /** `s` with `b` written at byte offset `off`; every other byte unchanged. */
  function WriteAt(s: seq<Byte>, off: nat, b: seq<Byte>): (r: seq<Byte>)
    requires off + |b| <= |s|
    ensures |r| == |s|
    ensures forall k :: off <= k < off + |b| ==> r[k] == b[k - off]
    ensures forall k :: 0 <= k < |s| && !(off <= k < off + |b|) ==> r[k] == s[k]
  {
    s[..off] + b + s[off + |b|..]
  }

  /** Writing no bytes changes nothing. */
  lemma WriteAtNothing(s: seq<Byte>, off: nat)
    requires off <= |s|
    ensures WriteAt(s, off, []) == s
  {
    assert s[..off] + [] + s[off..] == s;
  }

  /** Reading back what WriteAt wrote gives exactly those bytes. */
  lemma WriteAtReadBack(s: seq<Byte>, off: nat, b: seq<Byte>)
    requires off + |b| <= |s|
    ensures WriteAt(s, off, b)[off..off + |b|] == b
  {
    var r := WriteAt(s, off, b);
    assert forall k :: 0 <= k < |b| ==> r[off..off + |b|][k] == b[k];
  }

  /** A range of bytes disjoint from the written one reads as before. */
  lemma WriteAtElsewhere(s: seq<Byte>, off: nat, b: seq<Byte>, lo: nat, hi: nat)
    requires off + |b| <= |s| && lo <= hi <= |s|
    requires hi <= off || off + |b| <= lo
    ensures WriteAt(s, off, b)[lo..hi] == s[lo..hi]
  {
    var r := WriteAt(s, off, b);
    assert forall k :: 0 <= k < hi - lo ==> r[lo..hi][k] == r[lo + k];
  }

  /** `a` and `b` agree on every byte outside `[lo, hi)`. */
  ghost predicate SameOutside(a: seq<Byte>, b: seq<Byte>, lo: int, hi: int)
  {
    |a| == |b| && forall k :: 0 <= k < |a| && !(lo <= k < hi) ==> a[k] == b[k]
  }

  /** A write inside `[lo, hi)` changes nothing outside it. */
  lemma WriteAtInside(s: seq<Byte>, off: nat, b: seq<Byte>, lo: int, hi: int)
    requires off + |b| <= |s| && lo <= off && off + |b| <= hi
    ensures SameOutside(WriteAt(s, off, b), s, lo, hi)
  {
  }

  /** Agreement outside a range is transitive, and survives widening the range. */
  lemma SameOutsideTrans(a: seq<Byte>, b: seq<Byte>, c: seq<Byte>, lo: int, hi: int, lo': int, hi': int)
    requires SameOutside(a, b, lo, hi) && SameOutside(b, c, lo', hi')
    requires lo' <= lo && hi <= hi'
    ensures SameOutside(a, c, lo', hi')
  {
  }

  /** Two consecutive writes are one write of their concatenation. */
  lemma WriteAtConcat(s: seq<Byte>, off: nat, b: seq<Byte>, c: seq<Byte>)
    requires off + |b| + |c| <= |s|
    ensures WriteAt(WriteAt(s, off, b), off + |b|, c) == WriteAt(s, off, b + c)
  {
    var lhs := WriteAt(WriteAt(s, off, b), off + |b|, c);
    var rhs := WriteAt(s, off, b + c);
    assert |lhs| == |rhs|;
    forall k | 0 <= k < |s|
      ensures lhs[k] == rhs[k]
    {
      if off <= k < off + |b| {
        assert lhs[k] == b[k - off] == (b + c)[k - off];
      } else if off + |b| <= k < off + |b| + |c| {
        assert lhs[k] == c[k - off - |b|] == (b + c)[k - off];
      }
    }
  }

  /** The 16-block journal region of a disk image. */
  function JournalOf(s: seq<Byte>): (j: seq<Byte>)
    requires |s| == DISK_BYTES
    ensures |j| == JOURNAL_BYTES
    ensures forall k :: 0 <= k < JOURNAL_BYTES ==> j[k] == s[JOURNAL_BASE + k]
  {
    s[JOURNAL_BASE..JOURNAL_END]
  }

  /** A write inside the journal region is the same write on the journal region. */
  lemma JournalOfWriteAt(s: seq<Byte>, off: nat, b: seq<Byte>)
    requires |s| == DISK_BYTES && off + |b| <= JOURNAL_BYTES
    ensures JournalOf(WriteAt(s, JOURNAL_BASE + off, b)) == WriteAt(JournalOf(s), off, b)
  {
    var lhs := JournalOf(WriteAt(s, JOURNAL_BASE + off, b));
    var rhs := WriteAt(JournalOf(s), off, b);
    assert forall k :: 0 <= k < JOURNAL_BYTES ==> lhs[k] == rhs[k];
  }

  /** A slice of the journal region is the same slice of the image, shifted by the
      region's base. */
  lemma JournalSlice(s: seq<Byte>, a: nat, b: nat)
    requires |s| == DISK_BYTES && a <= b <= JOURNAL_BYTES
    ensures JournalOf(s)[a..b] == s[JOURNAL_BASE + a..JOURNAL_BASE + b]
  {
  }

  /** The journal header stored at offset 0 of the journal region. */
  function HeaderOf(s: seq<Byte>): JournalHeader
    requires |s| == DISK_BYTES
  {
    DecodeHeader(s[JOURNAL_BASE..JOURNAL_BASE + HEADER_SIZE])
  }

  /** The image after `journal_write_header(h)`. */
  function WithHeader(s: seq<Byte>, h: JournalHeader): (r: seq<Byte>)
    requires |s| == DISK_BYTES
    ensures |r| == DISK_BYTES
    ensures HeaderOf(r) == h
    ensures forall k :: 0 <= k < |s| && !(JOURNAL_BASE <= k < JOURNAL_BASE + HEADER_SIZE) ==> r[k] == s[k]
  {
    var r := WriteAt(s, JOURNAL_BASE, EncodeHeader(h));
    WriteAtReadBack(s, JOURNAL_BASE, EncodeHeader(h));
    DecodeEncodeHeader(h);
    r
  }

  /** A header write leaves every range past the header as it was. */
  lemma WithHeaderElsewhere(s: seq<Byte>, h: JournalHeader, lo: nat, hi: nat)
    requires |s| == DISK_BYTES
    ensures JOURNAL_BASE + HEADER_SIZE <= lo <= hi <= DISK_BYTES ==> WithHeader(s, h)[lo..hi] == s[lo..hi]
  {
    if JOURNAL_BASE + HEADER_SIZE <= lo <= hi <= DISK_BYTES {
      WriteAtElsewhere(s, JOURNAL_BASE, EncodeHeader(h), lo, hi);
    }
  }

  /** The image after `journal_init_if_needed`: a journal whose magic is wrong gets a fresh,
      empty header; one whose magic is right is left alone. */
  function InitImage(s: seq<Byte>): (r: seq<Byte>)
    requires |s| == DISK_BYTES
    ensures |r| == DISK_BYTES
    ensures HeaderOf(r).magic == JOURNAL_MAGIC
  {
    if HeaderOf(s).magic != JOURNAL_MAGIC then WithHeader(s, JournalHeader(JOURNAL_MAGIC, HEADER_SIZE))
    else s
  }

  /** `journal_init_if_needed` resets a journal with the wrong magic to an empty one and
      leaves every other image as it is. */
  lemma InitImageCases(s: seq<Byte>)
    requires |s| == DISK_BYTES
    ensures HeaderOf(s).magic == JOURNAL_MAGIC ==> InitImage(s) == s
    ensures HeaderOf(s).magic != JOURNAL_MAGIC ==> HeaderOf(InitImage(s)) == JournalHeader(JOURNAL_MAGIC, HEADER_SIZE)
  {
  }

  /** The 4096 bytes of block `b`. */
  function BlockOf(s: seq<Byte>, b: nat): (r: seq<Byte>)
    requires |s| == DISK_BYTES && b < TOTAL_BLOCKS
    ensures |r| == BLOCK_SIZE
  {
    s[b * BLOCK_SIZE..b * BLOCK_SIZE + BLOCK_SIZE]
  }

  /** Two images that agree outside `[lo, hi)` hold the same contents in every block
      that lies wholly outside that range. */
  lemma SameOutsideBlock(a: seq<Byte>, b: seq<Byte>, lo: int, hi: int, blk: nat)
    requires |a| == DISK_BYTES && SameOutside(a, b, lo, hi) && blk < TOTAL_BLOCKS
    requires blk * BLOCK_SIZE + BLOCK_SIZE <= lo || hi <= blk * BLOCK_SIZE
    ensures BlockOf(a, blk) == BlockOf(b, blk)
  {
    forall k | 0 <= k < BLOCK_SIZE
      ensures BlockOf(a, blk)[k] == BlockOf(b, blk)[k]
    {
      assert a[blk * BLOCK_SIZE + k] == b[blk * BLOCK_SIZE + k];
    }
  }

  /** The image after `write_block(w.home, w.image)`. */
  function WriteBlockImage(s: seq<Byte>, w: LoggedBlock): (r: seq<Byte>)
    requires |s| == DISK_BYTES && w.home < TOTAL_BLOCKS && |w.image| == BLOCK_SIZE
    ensures |r| == DISK_BYTES
    ensures BlockOf(r, w.home) == w.image
    ensures forall b :: 0 <= b < TOTAL_BLOCKS && b != w.home ==> BlockOf(r, b) == BlockOf(s, b)
  {
    var r := WriteAt(s, BlockOffset(w.home), w.image);
    WriteAtReadBack(s, BlockOffset(w.home), w.image);
    forall b | 0 <= b < TOTAL_BLOCKS && b != w.home
      ensures BlockOf(r, b) == BlockOf(s, b)
    {
      BlocksDisjoint(b, w.home);
      WriteAtElsewhere(s, BlockOffset(w.home), w.image, b * BLOCK_SIZE, b * BLOCK_SIZE + BLOCK_SIZE);
    }
    r
  }

  /** The image after writing every block of `ws`, in order. */
  function ApplyWrites(s: seq<Byte>, ws: seq<LoggedBlock>): (r: seq<Byte>)
    requires |s| == DISK_BYTES && Replayable(ws)
    ensures |r| == DISK_BYTES
  {
    if ws == [] then s
    else WriteBlockImage(ApplyWrites(s, ws[..|ws| - 1]), ws[|ws| - 1])
  }

  /** Writing a home block leaves the journal region as it was. */
  lemma WriteBlockKeepsJournal(s: seq<Byte>, w: LoggedBlock)
    requires |s| == DISK_BYTES && IsHomeBlock(w.home) && |w.image| == BLOCK_SIZE
    ensures JournalOf(WriteBlockImage(s, w)) == JournalOf(s)
  {
    WriteAtElsewhere(s, BlockOffset(w.home), w.image, JOURNAL_BASE, JOURNAL_END);
  }

  /** A replay of home-block writes leaves the journal region as it was. */
  lemma {:induction false} ApplyWritesKeepsJournal(s: seq<Byte>, ws: seq<LoggedBlock>)
    requires |s| == DISK_BYTES && Replayable(ws)
    ensures JournalOf(ApplyWrites(s, ws)) == JournalOf(s)
  {
    if ws != [] {
      ApplyWritesKeepsJournal(s, ws[..|ws| - 1]);
      WriteBlockKeepsJournal(ApplyWrites(s, ws[..|ws| - 1]), ws[|ws| - 1]);
    }
  }

  /** Replaying `ws + [w]` is replaying `ws`, then writing `w`. */
  lemma ApplyWritesSnoc(s: seq<Byte>, ws: seq<LoggedBlock>, w: LoggedBlock)
    requires |s| == DISK_BYTES && Replayable(ws) && IsHomeBlock(w.home) && |w.image| == BLOCK_SIZE
    ensures Replayable(ws + [w])
    ensures ApplyWrites(s, ws + [w]) == WriteBlockImage(ApplyWrites(s, ws), w)
  {
    ReplayableConcat(ws, [w]);
    var ws' := ws + [w];
    assert ws'[..|ws'| - 1] == ws && ws'[|ws'| - 1] == w;
  }

  /** Replaying `a + b` is replaying `a`, then `b`. */
  lemma {:induction false} ApplyWritesConcat(s: seq<Byte>, a: seq<LoggedBlock>, b: seq<LoggedBlock>)
    requires |s| == DISK_BYTES && Replayable(a) && Replayable(b)
    ensures Replayable(a + b)
    ensures ApplyWrites(s, a + b) == ApplyWrites(ApplyWrites(s, a), b)
    decreases |b|
  {
    ReplayableConcat(a, b);
    if b == [] {
      assert a + b == a;
    } else {
      var b', w := b[..|b| - 1], b[|b| - 1];
      assert a + b == (a + b') + [w];
      assert b == b' + [w];
      ReplayableConcat(a, b');
      ApplyWritesSnoc(s, a + b', w);
      ApplyWritesSnoc(ApplyWrites(s, a), b', w);
      ApplyWritesConcat(s, a, b');
    }
  }

  lemma ReplayableConcat(a: seq<LoggedBlock>, b: seq<LoggedBlock>)
    requires Replayable(a) && Replayable(b)
    ensures Replayable(a + b)
  {
    forall i | 0 <= i < |a + b|
      ensures |(a + b)[i].image| == BLOCK_SIZE && IsHomeBlock((a + b)[i].home)
    {
      if i < |a| { assert (a + b)[i] == a[i]; } else { assert (a + b)[i] == b[i - |a|]; }
    }
  }

  /** The image of the last write to block `b` in `ws`, or `dflt` when `ws` has none. */
  function LastImage(ws: seq<LoggedBlock>, b: nat, dflt: seq<Byte>): seq<Byte>
  {
    if ws == [] then dflt
    else if ws[|ws| - 1].home == b then ws[|ws| - 1].image
    else LastImage(ws[..|ws| - 1], b, dflt)
  }

  /** Applying writes in order leaves each block holding the last image written to it. */
  lemma {:induction false} LastWriteWins(s: seq<Byte>, ws: seq<LoggedBlock>, b: nat)
    requires |s| == DISK_BYTES && Replayable(ws) && b < TOTAL_BLOCKS
    ensures BlockOf(ApplyWrites(s, ws), b) == LastImage(ws, b, BlockOf(s, b))
  {
    if ws != [] {
      LastWriteWins(s, ws[..|ws| - 1], b);
    }
  }

  /** Applying the same writes to two images keeps them equal wherever they were equal
      (outside the byte range [lo, hi)). */
  lemma {:induction false} ApplyWritesKeepsAgreement(s: seq<Byte>, t: seq<Byte>, ws: seq<LoggedBlock>, lo: nat, hi: nat)
    requires |s| == |t| == DISK_BYTES && Replayable(ws)
    requires SameOutside(s, t, lo, hi)
    ensures SameOutside(ApplyWrites(s, ws), ApplyWrites(t, ws), lo, hi)
  {
    if ws != [] {
      ApplyWritesKeepsAgreement(s, t, ws[..|ws| - 1], lo, hi);
    }
  }

  /** The image after a successful `handle_create` of transaction `txn` on `s`: the
      transaction's records follow the old nbytes_used, and the header then publishes the
      new count. */
  function Journaled(s: seq<Byte>, txn: seq<LoggedBlock>): (r: seq<Byte>)
    requires |s| == DISK_BYTES && FullBlocks(txn)
    requires HeaderOf(s).nbytesUsed + TxnSize(|txn|) <= JOURNAL_BYTES
    ensures |r| == DISK_BYTES
    ensures HeaderOf(r) == JournalHeader(HeaderOf(s).magic, HeaderOf(s).nbytesUsed + TxnSize(|txn|))
    ensures SameOutside(r, s, JOURNAL_BASE, JOURNAL_END)
    ensures var lo := JOURNAL_BASE + HeaderOf(s).nbytesUsed;
      HEADER_SIZE <= HeaderOf(s).nbytesUsed ==> r[lo..lo + TxnSize(|txn|)] == EncodeTxn(txn)
  {
    var h := HeaderOf(s);
    var lo := JOURNAL_BASE + h.nbytesUsed;
    var appended := WriteAt(s, lo, EncodeTxn(txn));
    var h' := JournalHeader(h.magic, h.nbytesUsed + TxnSize(|txn|));
    WriteAtReadBack(s, lo, EncodeTxn(txn));
    WithHeaderElsewhere(appended, h', lo, lo + TxnSize(|txn|));
    WithHeader(appended, h')
  }

  /** `Journaled` is the append at the old nbytes_used followed by the header write. */
  lemma JournaledIsWrite(s: seq<Byte>, txn: seq<LoggedBlock>)
    requires |s| == DISK_BYTES && FullBlocks(txn)
    requires HeaderOf(s).nbytesUsed + TxnSize(|txn|) <= JOURNAL_BYTES
    ensures var used := HeaderOf(s).nbytesUsed;
      Journaled(s, txn) == WithHeader(WriteAt(s, JOURNAL_BASE + used, EncodeTxn(txn)), JournalHeader(HeaderOf(s).magic, used + TxnSize(|txn|)))
  {
  }

  /** In the journal region of `Journaled(s, txn)`, the bytes between the header and the old
      nbytes_used are those of `s`. */
  lemma JournaledKeepsPrefix(s: seq<Byte>, txn: seq<LoggedBlock>)
    requires |s| == DISK_BYTES && FullBlocks(txn)
    requires HeaderOf(s).nbytesUsed + TxnSize(|txn|) <= JOURNAL_BYTES
    ensures forall k :: HEADER_SIZE <= k < HeaderOf(s).nbytesUsed ==> JournalOf(Journaled(s, txn))[k] == JournalOf(s)[k]
  {
    var used := HeaderOf(s).nbytesUsed;
    var appended := WriteAt(s, JOURNAL_BASE + used, EncodeTxn(txn));
    var s' := Journaled(s, txn);
    forall k | HEADER_SIZE <= k < used
      ensures JournalOf(s')[k] == JournalOf(s)[k]
    {
      assert s'[JOURNAL_BASE + k] == appended[JOURNAL_BASE + k];
    }
  }

  /** In the journal region of `Journaled(s, txn)`, the transaction's encoding follows the
      old nbytes_used. */
  lemma JournaledHoldsTxn(s: seq<Byte>, txn: seq<LoggedBlock>)
    requires |s| == DISK_BYTES && FullBlocks(txn)
    requires HEADER_SIZE <= HeaderOf(s).nbytesUsed
    requires HeaderOf(s).nbytesUsed + TxnSize(|txn|) <= JOURNAL_BYTES
    ensures var used := HeaderOf(s).nbytesUsed;
      JournalOf(Journaled(s, txn))[used..used + TxnSize(|txn|)] == EncodeTxn(txn)
  {
    var used := HeaderOf(s).nbytesUsed;
    JournalSlice(Journaled(s, txn), used, used + TxnSize(|txn|));
  }
}
