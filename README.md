# Write-ahead metadata journal (journalv1.c), modelled in Dafny

`journalv1.c` keeps a write-ahead journal for the metadata blocks of a small
85-block file-system image (block size 4096). The journal has a fixed size of
16 blocks, 65536 bytes, and starts at block 1. It is an append-only byte array:

- an 8-byte header `{magic = 0x4A524E4C, nbytes_used}` sits at offset 0;
- records follow from offset 8 up to `nbytes_used`;
- a DATA record is a 4-byte record header `{type = 1, size = 4104}`, a 4-byte
  home block number and a 4096-byte block image;
- a COMMIT record is a bare record header `{type = 2, size = 4}` that seals a
  transaction.

`create` appends one DATA record per changed metadata block and then one COMMIT.
It publishes the new `nbytes_used` with a single header write at the very end.
`install` scans the records and writes the images of every committed
transaction to their home blocks. It then checkpoints the journal back to
`nbytes_used == 8`.

The model has two layers:

- **Values.** Modules `Layout`, `Codec`, `Image`, `Writer` and `Replay` state
  each operation's effect as a function on the disk image (`seq<Byte>` of
  85 * 4096 bytes). They also define the explicit little-endian codec for the
  two header structs and the records.
- **The in-place program.** `JournalDisk.Disk` is a class that owns an
  `array<Byte>` of the same size and updates it in place at the offsets the C
  code seeks to. Every method is proved to compute exactly the value-level
  function it corresponds to.

`Properties` proves what the journal promises across operations:

- An install after a create replays the committed writes in append order, so
  the last write to a block wins.
- An unterminated run of DATA records is dropped.
- Nothing at or past `nbytes_used` is ever read, so a failed append or a crash
  before the header write is invisible to install.
- A failed install writes nothing.
- The scan accepts exactly the well-formed record streams that end at
  `nbytes_used`, and its result is what the stream's records leave behind.
- Initialisation and install are both idempotent.

Each `exit(1)` of the C code becomes an error result (`Wrappers.Result` or
`Wrappers.Outcome`, with a `Layout.JournalError` reason). Each primitive fails
before it writes. Install finds every error before it writes anything. A
create that overflows stops at the first append that does not fit:
- the earlier appends stay in the journal's unused tail;
- a wrong magic has already been replaced by a fresh header;
- `Writer.CreateFailureIsInert` and `Properties.FailedCreateIsInvisible` state
  why this is harmless.

Choices made where the code is silent:

- **The install scan is modelled from its contract comments.** The C function
  implements only the empty-journal fast path (journalv1.c:281-284) and then
  prints "not implemented". The scan, replay and checkpoint follow the contract
  comments of `handle_install` (journalv1.c:264-273, 286-294).
- **The scan checks everything before writing.** It validates the whole record
  stream and collects the committed writes first. Only then does it write them
  in order and reset the header. The comment's strategy (journalv1.c:289)
  writes each transaction at its COMMIT. `Replay.ReplayAtCommit` models that
  strategy, reading each record from the image as it stands after the earlier
  writes. `Replay.ReplayAtCommitAgrees` proves the two give the same error, or
  the same image. This holds because the scan rejects a home block inside the
  journal region, so a replayed write never changes a record still to be read.
  The model's order is what lets failure leave the image untouched.
- **Corrupt records are errors.**
  - A record header or a declared size that runs past `nbytes_used`:
    `RecordOverrun`.
  - A size that does not match its kind: `SizeMismatch`.
  - A record kind other than 1 or 2: `UnknownRecordKind`.
  - A home block number outside the 85-block image: `HomeBlockOutOfRange`.
  - A home block inside the journal region, blocks 1-16 (journalv1.c:34,
    46-48): `HomeBlockInJournal`. The journal region holds the log, not home
    locations. Writing a logged image there would overwrite the journal.
  - A read past the 16-block region, through `journal_read_bytes`, which is
    reachable when `nbytes_used > 65536`: `ReadOutOfBounds`.
  - An `nbytes_used` below 8: `BadHeader`.
- **The size of a first create of three blocks.** The record sizes in the
  code (journalv1.c:83, 88) make the header 8 bytes, a DATA record 4104 bytes
  and a COMMIT record 4 bytes. A first create that logs three blocks therefore
  publishes `nbytes_used` = 8 + 3 * 4104 + 4 = 12324
  (`Properties.FreshCreateOfThreeBlocks`).

## Model

| member | source | states |
|---|---|---|
| Layout.BlockOffset | journalv1.c:99-101 | `blk_off` is `blkno * 4096`: block-aligned, and dividing by the block size gives the block number back |
| Layout.JournalBaseOffset | journalv1.c:123-125 | the journal region starts at block 1 (byte 4096) and ends exactly where the inode bitmap block begins |
| Codec.EncodeDecodeU32 | journalv1.c:64-67 | decoding 4 bytes as a little-endian u32 and encoding the result gives the same 4 bytes back |
| Codec.DecodeEncodeHeader | journalv1.c:64-67 | the 8-byte `journal_header` encoding decodes back to the same `{magic, nbytes_used}` |
| Codec.DecodeEncodeRecHeader | journalv1.c:69-72 | the 4-byte `rec_header` encoding decodes back to the same `{type, size}` |
| Codec.EncodeDataRecord | journalv1.c:74-83 | a DATA record is 4104 bytes; its first 4 bytes decode as `{REC_DATA, 4104}` and the rest decodes back to the logged home block and image |
| Codec.EncodeCommitRecord | journalv1.c:85-88 | a COMMIT record is 4 bytes that decode as `{REC_COMMIT, 4}` |
| Codec.EncodeTxn | journalv1.c:220-254 | a transaction of n blocks takes n * 4104 + 4 bytes: its DATA records, then one COMMIT |
| Image.WriteAt | journalv1.c:146-149 | a seek-and-write puts exactly `b` at `off` and leaves every other byte unchanged |
| Image.WithHeader | journalv1.c:133-137 | after `journal_write_header(h)` the header reads back as `h`, and no byte outside the 8 header bytes changes |
| Image.InitImageCases | journalv1.c:164-174 | a wrong magic gives header `{0x4A524E4C, 8}`; a right magic leaves the image as it is |
| Image.InitImage | journalv1.c:164-174 | after `journal_init_if_needed` the magic is always right and the image keeps its size (both branches: `Image.InitImageCases`) |
| Image.WriteBlockImage | journalv1.c:110-114 | `write_block` replaces block `home` by the image and leaves every other block unchanged |
| Image.WriteBlockKeepsJournal | journalv1.c:110-114 | writing a home block, which lies outside blocks 1-16, leaves the journal region unchanged |
| Image.ApplyWrites | journalv1.c:289 | writing the committed images in append order keeps the image's size; `Image.LastWriteWins` states the block contents that result |
| Image.ApplyWritesKeepsJournal | journalv1.c:289 | replaying home-block writes never changes a journal byte |
| Image.ApplyWritesConcat | journalv1.c:264-269 | replaying two runs of writes one after the other is replaying their concatenation |
| Image.LastWriteWins | journalv1.c:268-269 | replaying writes in order leaves each block holding the last image logged for it, or its old contents |
| Image.ApplyWritesKeepsAgreement | journalv1.c:268-269 | replaying the same writes on two images keeps them equal wherever they were equal |
| Image.Journaled | journalv1.c:221-258 | a create that fits publishes `old + n * 4104 + 4`, places the encoded transaction at the old `nbytes_used`, and changes nothing outside the journal region |
| Image.JournaledKeepsPrefix | journalv1.c:229-253 | appending a transaction leaves the records below the old `nbytes_used` as they were |
| Writer.AppendAll | journalv1.c:140-150 | a run of bounds-checked appends keeps the image's size, and a run that completes leaves its cursor inside the 65536-byte region (or unmoved); `Writer.AppendAllFitsIff` and `Writer.AppendAllIsOneWrite` state when it completes and what it writes |
| Writer.AppendAllConcat | journalv1.c:221-253 | a sequence of appends split in two is the first part, then, if it fitted, the second part from where the cursor stopped |
| Writer.AppendAllFitsIff | journalv1.c:140-145 | a run of bounds-checked appends completes exactly when its total length fits after the cursor |
| Writer.AppendAllIsOneWrite | journalv1.c:146-149 | a run of appends that fits is one write of the concatenated bytes at the starting cursor |
| Writer.AppendAllFrame | journalv1.c:140-150 | appends touch nothing but the journal region from the starting cursor on, whether or not they all fit |
| Writer.FlattenTxnPieces | journalv1.c:224-254 | the successive appends of `append_data` and the COMMIT append lay down exactly the encoded transaction |
| Writer.CreateSpec | journalv1.c:190-258 | `handle_create` is initialisation followed by `Writer.AppendTxn`, and keeps the image's size |
| Writer.AppendTxn | journalv1.c:221-258 | the appends run at the stored `nbytes_used`; a journal-full append fails without the header write, otherwise one header write publishes the final cursor; the lemmas below state both outcomes |
| Writer.CreateSucceedsIffFits | journalv1.c:142-145 | `handle_create` fails with journal-full exactly when `nbytes_used + n * 4104 + 4 > 65536` |
| Writer.CreateJournalsTxn | journalv1.c:221-258 | a create that fits ends with the transaction journaled after the old records and the header publishing the new count |
| Writer.CreateFailureIsInert | journalv1.c:256-258 | a failed create writes no home block, touches nothing before the old `nbytes_used`, and leaves the header unchanged |
| Replay.ScanFrom | journalv1.c:286-294 | the scan's committed writes only grow, and every block it hands on has a 4096-byte image and a home block inside the image but outside the journal region |
| Replay.Scan | journalv1.c:286-294 | install's scan starts at offset 8 and, when it succeeds, hands on only full-block images for home blocks outside the journal region |
| Replay.InstallSpec | journalv1.c:275-297 | `handle_install` initialises, returns at once when `nbytes_used == 8`, fails with `BadHeader` below 8, and otherwise fails with the scan's error or writes the committed images and checkpoints; the image keeps its size (the outcomes are the `Properties.Install*` lemmas) |
| Replay.ScanReadsOnlyBelowUsed | journalv1.c:292-293 | the scan reads nothing at or past `nbytes_used`: two regions that agree below it scan alike |
| Replay.ScanSplit | journalv1.c:286-292 | a scan to `used` is a scan to an intermediate record boundary, continued from there |
| Replay.ScanData | journalv1.c:288-289 | one well-formed DATA record joins the pending run |
| Replay.ScanDataRun | journalv1.c:288-289 | a run of DATA records joins the pending run in append order and commits nothing |
| Replay.ScanCommit | journalv1.c:289 | a COMMIT record moves the pending run, in order, to the committed writes |
| Replay.ScanTxn | journalv1.c:267-269 | one encoded transaction appends its blocks, in order, to the committed writes |
| Replay.ScanAppendedTxn | journalv1.c:264-273 | a region that matches an old one up to its end and then holds one more transaction scans to the old writes followed by the new ones |
| Codec.EncodeDecodeRecHeader | journalv1.c:69-72 | any 4 bytes read as a `rec_header` re-encode to the same bytes |
| Codec.CommitRecordOf | journalv1.c:85-88 | 4 bytes whose record header reads `{REC_COMMIT, 4}` are the COMMIT record |
| Codec.DataRecordOf | journalv1.c:74-83 | 4104 bytes whose record header reads `{REC_DATA, 4104}` are the DATA record of the home block and image they hold |
| Replay.Sealed | journalv1.c:288-290 | the record-level reading of a stream: DATA records join the pending run, a COMMIT seals it, and every block handed on is replayable |
| Replay.ScanStream | journalv1.c:286-294 | a well-formed record stream that ends exactly at `used` scans without error to what its records leave behind |
| Replay.ScanFromParses | journalv1.c:292-293 | conversely, every successful scan has read a well-formed record stream ending exactly at `used`, within the region, and its result is what that stream leaves behind; so no corrupt record is ever skipped |
| Replay.ScanIsParse | journalv1.c:286-294 | a successful install scan means `[8, nbytes_used)` is a well-formed record stream, with `committed` and the dropped trailing run read off its records |
| Replay.ParseIsScan | journalv1.c:286-294 | a well-formed record stream in `[8, nbytes_used)` scans without error to what its records leave behind |
| Replay.ReplayAtCommit | journalv1.c:286-291 | the comment's strategy: replay each run at its COMMIT, reading later records from the image as already written; its result keeps the image's size |
| Replay.ReplayAtCommitAgrees | journalv1.c:286-291 | replaying at each COMMIT gives the same error as the model's scan, or the same image as writing all committed blocks after it |
| JournalDisk.Disk.ReadBlock | journalv1.c:104-108 | `read_block` returns the 4096 bytes of the block; a block past the image is a short read |
| JournalDisk.Disk.WriteBlock | journalv1.c:110-114 | `write_block` replaces exactly that block |
| JournalDisk.Disk.ReadHeader | journalv1.c:127-131 | `journal_read_header` decodes the 8 bytes at the journal's start |
| JournalDisk.Disk.WriteHeader | journalv1.c:133-137 | `journal_write_header` writes exactly the encoded header |
| JournalDisk.Disk.AppendBytes | journalv1.c:140-150 | fails with nothing written when `nbytes_used + len > 65536` (no wrap-around); otherwise writes `len` bytes at disk offset `4096 + nbytes_used` and nothing else |
| JournalDisk.Disk.ReadBytes | journalv1.c:153-162 | fails when `offset + len > 65536`; otherwise returns exactly journal bytes `[offset, offset + len)`; never changes the image |
| JournalDisk.Disk.InitIfNeeded | journalv1.c:164-174 | `journal_init_if_needed` computes `InitImage` on the array |
| JournalDisk.Disk.AppendData | journalv1.c:223-237 | `append_data` makes three bounds-checked appends and, when they fit, advances the cursor by exactly 4104 |
| JournalDisk.Disk.Create | journalv1.c:190-261 | `handle_create` on the array computes `Writer.CreateSpec`: appends in order, one header write only after every append fitted |
| JournalDisk.Disk.ScanRecords | journalv1.c:286-294 | the cursor loop with a pending list computes `Replay.Scan` and writes nothing |
| JournalDisk.Disk.ReplayWrites | journalv1.c:289 | writing the committed images in order computes `Image.ApplyWrites` |
| JournalDisk.Disk.Install | journalv1.c:275-297 | `handle_install` on the array computes `Replay.InstallSpec`: fast path on an empty journal, otherwise scan, replay, checkpoint |
| Properties.InitIdempotent | journalv1.c:164-174 | `journal_init_if_needed` twice equals once |
| Properties.InstallEndsEmpty | journalv1.c:270-273 | a successful install leaves an initialised journal with `nbytes_used == 8` |
| Properties.InstallIdempotent | journalv1.c:281-284 | a second install after a successful one returns at once and changes nothing |
| Properties.InstallFailureLeavesImage | journalv1.c:286-294 | an install that finds a corrupt record returns an error with the image exactly as it was |
| Properties.ScanAfterCreate | journalv1.c:264-273 | after a create on a journal at a transaction boundary, the scan finds the old committed writes followed by the new transaction |
| Properties.CreateThenInstall | journalv1.c:256-273 | create then install: the create succeeds, and install replays the older committed writes and then the new ones, in append order, and checkpoints |
| Properties.CreateThenInstallBlocks | journalv1.c:268-269 | after create then install, each block outside the journal holds its last committed image (later transactions override earlier ones) or its old contents |
| Properties.FreshCreateOfThreeBlocks | journalv1.c:247-258 | on a fresh image, a create that logs three blocks publishes `nbytes_used = 12324` |
| Properties.UnterminatedRunIsDropped | journalv1.c:290 | DATA records that no COMMIT follows within `nbytes_used` are never replayed; install still checkpoints |
| Properties.UnusedTailIsInert | journalv1.c:292-293 | images that differ only past `nbytes_used` install with the same outcome and the same result outside that tail, so a crash before the header write is invisible |
| Properties.FailedCreateIsInvisible | journalv1.c:142-145 | a create that ran out of journal space does not change what a later install does |
| Properties.InstallReplaysAsAtCommit | journalv1.c:275-297 | install's outcome and image are those of an install that replays each transaction at its COMMIT and then checkpoints |

## Left out

- POSIX I/O (`open`, `lseek`, `read`, `write`, `close`), `perror`/`die`/`exit`: the file descriptor is an in-memory array of 85 * 4096 bytes, and a failure is an error result.
- Short reads and short writes: the model only has them where the image is too short. `ReadBlock` returns `ShortRead` for a block past the image.
- JournalDisk.Disk.WriteBlock: requires a block inside the 85-block image, because the image has a fixed size. A write past the end of a real file would extend it; replay never issues one, because the scan rejects such home blocks.
- `main`, `usage` and every `printf`/`fprintf` message (journalv1.c:303-329): command-line glue.
- The filename argument of `handle_create`: it is only printed.
- The VSFS metadata computation for "create file X" (journalv1.c:196-218, 242-245): it is unwritten in the source. `Create` takes the ordered list of (home block, 4096-byte image) pairs from its caller.
- The other disk regions (superblock, bitmaps, inode table, data blocks): they appear only as the targets of replay writes.
- Host struct layout and endianness: the headers go through an explicit little-endian, fixed-width codec.
- The C++ lambda of `append_data` (journalv1.c:224-237): it is the method `JournalDisk.Disk.AppendData`.
- Writer.CreateFailureIsInert: "the header is unchanged" is stated only when the stored `nbytes_used` is at least 8. With a right magic and a smaller stored value, the source's first append lands on the header itself. Nothing in `handle_create` checks for that.
- Replay.InstallSpec: replay writes every committed transaction after the whole scan, not at each COMMIT as the comment's strategy does. `Replay.ReplayAtCommitAgrees` proves the two agree on the error and on the final image. In the model, an error found later in the stream writes nothing (no partial replay). Under the comment's strategy the earlier transactions would already be written, and `Replay.ReplayAtCommit` does not model those partial writes.
- Concurrency and crash timing are not modelled as events. A crash before the header write is covered by `Properties.UnusedTailIsInert`, which holds for any contents of the unused tail.
