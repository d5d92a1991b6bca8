/**
 The rotating binary log.  A log file is the sequence of record bodies written to it; on disk
 each record also has an eight-byte head, its time and its length.
 */
module Binlogs {
  import opened Bytes
  import opened ChunkAllocators

  const MAX_BINLOG_ITEM_LEN := 32 * 1024 * 1024 + 512
  const RECORD_HEAD := 8

  type LogRecord = seq<byte>

  /** File names: the newest file has no number. */
  datatype Name = Base | Numbered(i: int)

  function FileName(i: int): Name {
    if i == 0 then Base else Numbered(i)
  }

  type Disk = map<Name, seq<LogRecord>>

  function FileAt(files: Disk, i: int): seq<LogRecord> {
    if FileName(i) in files then files[FileName(i)] else []
  }

  /** The records of files i, i - 1, ..., 0: oldest first. */
  function From(files: Disk, i: int): (r: seq<LogRecord>)
    decreases if i < 0 then 0 else i + 1
  {
    if i < 0 then [] else FileAt(files, i) + From(files, i - 1)
  }

  function FileSize(records: seq<LogRecord>): nat {
    if records == [] then 0 else FileSize(records[..|records| - 1]) + RECORD_HEAD + |records[|records| - 1]|
  }

  /** What a rotation drops: the oldest file, if the newest is full and there is more than one. */
  function Overflow(files: Disk, maxSize: int, num: int): seq<LogRecord> {
    if FileSize(FileAt(files, 0)) >= maxSize && num >= 2 then FileAt(files, num - 1) else []
  }

  /** The bytes of all files, each just full. */
  ghost function LogCapacity(num: int, maxSize: int): int {
    num * maxSize
  }

  /** Every numbered file is full, and there are no gaps between them. */
  ghost predicate Packed(files: Disk, maxSize: int, num: int) {
    && (forall j :: 1 <= j < num && Numbered(j) in files ==> FileSize(files[Numbered(j)]) >= maxSize)
    && (forall i, j :: 1 <= i < j < num && Numbered(j) in files ==> Numbered(i) in files)
  }

  lemma {:induction false} FileSizeAppend(a: seq<LogRecord>, b: seq<LogRecord>)
    ensures FileSize(a + b) == FileSize(a) + FileSize(b)
    decreases |b|
  {
    if b == [] {
      assert a + b == a;
    } else {
      assert (a + b)[..|a + b| - 1] == a + b[..|b| - 1];
      FileSizeAppend(a, b[..|b| - 1]);
    }
  }

  /** When the last file is in use, all the others are full. */
  lemma {:induction false} PackedSize(files: Disk, maxSize: int, num: int, i: nat)
    requires Packed(files, maxSize, num) && i < num && (i > 0 ==> Numbered(i) in files)
    ensures FileSize(From(files, i)) >= FileSize(FileAt(files, 0)) + i * maxSize
    decreases i
  {
    hide FileSize, Packed;
    if i == 0 {
      assert From(files, 0) == FileAt(files, 0) + [] == FileAt(files, 0);
      assert 0 * maxSize == 0;
    } else {
      PackedAt(files, maxSize, num, i);
      PackedSize(files, maxSize, num, i - 1);
      FileSizeAppend(FileAt(files, i), From(files, i - 1));
      OneMore(i, maxSize);
    }
  }

  lemma PackedAt(files: Disk, maxSize: int, num: int, i: nat)
    requires Packed(files, maxSize, num) && 0 < i < num && Numbered(i) in files
    ensures FileSize(FileAt(files, i)) >= maxSize && (i > 1 ==> Numbered(i - 1) in files)
  {
  }

  lemma OneMore(i: int, m: int)
    ensures i * m == (i - 1) * m + m
  {
  }

  /** A rotation drops records only when the files hold as much as all of them full. */
  lemma OverflowIsLate(files: Disk, maxSize: int, num: int)
    requires Packed(files, maxSize, num) && num >= 1 && Overflow(files, maxSize, num) != []
    ensures FileSize(From(files, num - 1)) >= num * maxSize
  {
    hide FileSize, Packed, From;
    PackedSize(files, maxSize, num, num - 1);
    OneMore(num, maxSize);
  }

  /** The files after a rotation: each one renamed to the next number. */
  ghost predicate Shifted(files: Disk, files': Disk, num: int) {
    && (forall j :: 0 <= j < num - 1 ==> (Numbered(j + 1) in files' <==> FileName(j) in files))
    && (forall j :: 0 <= j < num - 1 && FileName(j) in files ==>
          Numbered(j + 1) in files' && files'[Numbered(j + 1)] == files[FileName(j)])
  }

  /** In the middle of a rotation: files above i have been renamed, i + 1 is free, the others are as before. */
  ghost predicate Shifting(files: Disk, files': Disk, i: int, num: int) {
    && (forall j :: 0 <= j <= i && j < num - 1 ==> (FileName(j) in files' <==> FileName(j) in files))
    && (forall j :: 0 <= j <= i && j < num - 1 && FileName(j) in files && FileName(j) in files' ==>
          files'[FileName(j)] == files[FileName(j)])
    && (forall j :: i < j < num - 1 ==> (Numbered(j + 1) in files' <==> FileName(j) in files))
    && (forall j :: i < j < num - 1 && FileName(j) in files && Numbered(j + 1) in files' ==>
          files'[Numbered(j + 1)] == files[FileName(j)])
    && (0 <= i < num - 1 ==> Numbered(i + 1) !in files')
  }

  lemma ShiftStart(files: Disk, num: int)
    requires num >= 1
    ensures Shifting(files, files - {Numbered(num - 1)}, num - 2, num)
  {
  }

  lemma ShiftStep(files: Disk, files': Disk, i: int, num: int)
    requires 0 <= i < num - 1 && Shifting(files, files', i, num)
    ensures Numbered(i + 1) !in files'
    ensures FileName(i) in files' ==>
      Shifting(files, (files' - {FileName(i)})[Numbered(i + 1) := files'[FileName(i)]], i - 1, num)
    ensures FileName(i) !in files' ==> Shifting(files, files', i - 1, num)
  {
  }

  lemma ShiftEnd(files: Disk, files': Disk, num: int)
    requires Shifting(files, files', -1, num)
    ensures Shifted(files, files', num)
  {
  }

  lemma PackedSame(files: Disk, files': Disk, maxSize: int, num: int)
    requires Packed(files, maxSize, num)
    requires forall j :: Numbered(j) in files' ==> Numbered(j) in files && files'[Numbered(j)] == files[Numbered(j)]
    requires forall j :: Numbered(j) in files ==> Numbered(j) in files'
    ensures Packed(files', maxSize, num)
  {
    hide FileSize;
  }

  lemma PackedNone(files: Disk, maxSize: int, num: int)
    requires forall j :: 0 <= j < num ==> FileName(j) !in files
    ensures Packed(files, maxSize, num)
  {
    forall j | 1 <= j < num ensures Numbered(j) !in files {
      assert FileName(j) !in files;
    }
  }

  lemma ShiftedPacked(files: Disk, files': Disk, maxSize: int, num: int)
    requires Packed(files, maxSize, num) && Shifted(files, files', num)
    requires Base in files && FileSize(files[Base]) >= maxSize
    ensures Packed(files', maxSize, num)
  {
    forall j | 1 <= j < num && Numbered(j) in files' ensures FileSize(files'[Numbered(j)]) >= maxSize {
      assert Numbered((j - 1) + 1) in files' && FileName(j - 1) in files;
    }
    forall i, j | 1 <= i < j < num && Numbered(j) in files' ensures Numbered(i) in files' {
      assert Numbered((j - 1) + 1) in files' && FileName(j - 1) in files;
      assert FileName(i - 1) in files;
      assert Numbered((i - 1) + 1) in files';
    }
  }

  /** Files above i do not matter. */
  lemma {:induction false} FromFrame(files: Disk, files': Disk, i: int)
    requires forall j :: 0 <= j <= i ==> FileAt(files, j) == FileAt(files', j)
    ensures From(files, i) == From(files', i)
    decreases if i < 0 then 0 else i + 1
  {
    if i >= 0 {
      FromFrame(files, files', i - 1);
    }
  }

  /** Removing the last numbered file takes its records off the front. */
  lemma RemoveLast(files: Disk, top: nat)
    ensures top > 0 ==> From(files, top) == FileAt(files, top) + From(files - {Numbered(top)}, top)
    ensures top == 0 ==> From(files, top) == From(files - {Numbered(top)}, top)
  {
    FromFrame(files, files - {Numbered(top)}, if top > 0 then top - 1 else 0);
    if top > 0 {
      assert From(files - {Numbered(top)}, top) == [] + From(files - {Numbered(top)}, top - 1);
    }
  }

  /** Renaming file i to a name that is not in use changes no record and no order. */
  lemma {:induction false} RenameKeeps(files: Disk, files': Disk, i: nat, top: nat)
    requires i < top
    requires FileName(i) in files && Numbered(i + 1) !in files
    requires files' == (files - {FileName(i)})[Numbered(i + 1) := files[FileName(i)]]
    ensures From(files', top) == From(files, top)
    decreases top
  {
    if top == i + 1 {
      FromFrame(files, files', i - 1);
      assert FileAt(files, i + 1) == [] && FileAt(files', i) == [];
      assert From(files', top) == FileAt(files', i + 1) + (FileAt(files', i) + From(files', i - 1));
    } else {
      RenameKeeps(files, files', i, top - 1);
    }
  }

  /** Appending to the newest file appends to the whole log. */
  lemma {:induction false} AppendKeeps(files: Disk, rec: LogRecord, top: nat)
    ensures From(files[Base := FileAt(files, 0) + [rec]], top) == From(files, top) + [rec]
  {
    if top > 0 {
      AppendKeeps(files, rec, top - 1);
    }
  }

  /** Copies of these lengths, one behind the other from at on, stay within a buffer of size bytes. */
  predicate CopiesFit(at: nat, lens: seq<nat>, size: nat)
    decreases |lens|
  {
    lens == [] || (at + lens[0] <= size && CopiesFit(at + lens[0], lens[1..], size))
  }

  function Total(lens: seq<nat>): nat {
    if lens == [] then 0 else lens[0] + Total(lens[1..])
  }

  lemma {:induction false} CopiesFitTotal(at: nat, lens: seq<nat>, size: nat)
    requires lens != []
    ensures CopiesFit(at, lens, size) <==> at + Total(lens) <= size
    decreases |lens|
  {
    if |lens| > 1 {
      CopiesFitTotal(at + lens[0], lens[1..], size);
    }
  }

  /** The copies into the staging buffer of WriteToBinLog: time, length and record. */
  function RecordCopies(len: nat): seq<nat> {
    [4, 4, len]
  }

  /** Of the lengths that WriteToBinLog accepts, the staging buffer has room for all but the last eight. */
  lemma RecordStaging(len: nat)
    requires 0 < len <= MAX_BINLOG_ITEM_LEN
    ensures CopiesFit(0, RecordCopies(len), MAX_BINLOG_ITEM_LEN) <==> len + RECORD_HEAD <= MAX_BINLOG_ITEM_LEN
  {
    CopiesFitTotal(0, RecordCopies(len), MAX_BINLOG_ITEM_LEN);
    assert Total([len]) == len + Total([]);
    assert [4, 4, len][1..] == [4, len] && [4, len][1..] == [len];
  }

  /** The longest length it accepts is one of the eight. */
  lemma LongestRecordDoesNotFit()
    ensures !CopiesFit(0, RecordCopies(MAX_BINLOG_ITEM_LEN), MAX_BINLOG_ITEM_LEN)
  {
    RecordStaging(MAX_BINLOG_ITEM_LEN);
  }

  /** A record with its head, put together in the staging buffer. */
  method StageRecord(now: u32, buff: LogRecord) returns (bytes: seq<byte>)
    requires |buff| + RECORD_HEAD <= MAX_BINLOG_ITEM_LEN
    ensures bytes == EncodeU32(now) + EncodeU32(|buff|) + buff
  {
    hide EncodeU32;
    var tmp := new byte[MAX_BINLOG_ITEM_LEN];
    CopyInto(tmp, 0, EncodeU32(now));
    CopyInto(tmp, 4, EncodeU32(|buff|));
    CopyInto(tmp, RECORD_HEAD, buff);
    bytes := tmp[..RECORD_HEAD + |buff|];
    assert bytes == EncodeU32(now) + EncodeU32(|buff|) + buff;
  }

  /** A history cut into files: each is closed by the record that fills it, and the last one is still open. */
  datatype Pieces = Pieces(full: seq<seq<LogRecord>>, open: seq<LogRecord>)

  ghost function Cut(history: seq<LogRecord>, maxSize: int): Pieces {
    if history == [] then Pieces([], [])
    else
      var before := Cut(history[..|history| - 1], maxSize);
      var last := before.open + [history[|history| - 1]];
      if FileSize(last) >= maxSize then Pieces(before.full + [last], []) else Pieces(before.full, last)
  }

  /** The files are the last pieces of the history, the newest one without number; a single file has everything. */
  ghost predicate Rotated(files: Disk, history: seq<LogRecord>, maxSize: int, num: int) {
    var p := Cut(history, maxSize);
    && (num == 1 ==> FileIs(files, Base, history != [], history))
    && (num >= 2 ==> FileIs(files, Base, p.open != [], p.open))
    && forall j :: 1 <= j < num ==> FileIs(files, Numbered(j), j <= |p.full|, PieceAt(p, j))
  }

  ghost predicate FileIs(files: Disk, name: Name, there: bool, records: seq<LogRecord>) {
    && (name in files <==> there)
    && (there ==> name in files && files[name] == records)
  }

  ghost function PieceAt(p: Pieces, j: int): seq<LogRecord> {
    if 1 <= j <= |p.full| then p.full[|p.full| - j] else []
  }

  lemma CutSnoc(history: seq<LogRecord>, rec: LogRecord, maxSize: int)
    ensures var p := Cut(history, maxSize);
      Cut(history + [rec], maxSize) ==
        if FileSize(p.open + [rec]) >= maxSize then Pieces(p.full + [p.open + [rec]], [])
        else Pieces(p.full, p.open + [rec])
  {
    hide FileSize;
    assert (history + [rec])[..|history|] == history;
  }

  /** One record more that does not fill the newest file. */
  lemma RotatedAppend(files: Disk, history: seq<LogRecord>, rec: LogRecord, maxSize: int, num: int)
    requires num >= 1 && Rotated(files, history, maxSize, num) && FileSize(FileAt(files, 0) + [rec]) < maxSize
    ensures Rotated(files[Base := FileAt(files, 0) + [rec]], history + [rec], maxSize, num)
  {
    hide FileSize, Cut;
    CutSnoc(history, rec, maxSize);
    var p, q, files' := Cut(history, maxSize), Cut(history + [rec], maxSize), files[Base := FileAt(files, 0) + [rec]];
    assert num >= 2 ==> FileAt(files, 0) == p.open;
    forall j | 1 <= j < num ensures FileIs(files', Numbered(j), j <= |q.full|, PieceAt(q, j)) {
      assert FileIs(files, Numbered(j), j <= |p.full|, PieceAt(p, j));
    }
  }

  /** One record more that fills it: every file has the next number. */
  lemma RotatedShift(files: Disk, files': Disk, history: seq<LogRecord>, rec: LogRecord, maxSize: int, num: int)
    requires num >= 2 && Rotated(files, history, maxSize, num) && FileSize(FileAt(files, 0) + [rec]) >= maxSize
    requires Shifted(files[Base := FileAt(files, 0) + [rec]], files', num) && Base !in files'
    ensures Rotated(files', history + [rec], maxSize, num)
  {
    hide FileSize, Cut;
    CutSnoc(history, rec, maxSize);
    var p, q := Cut(history, maxSize), Cut(history + [rec], maxSize);
    var was := files[Base := FileAt(files, 0) + [rec]];
    assert FileAt(files, 0) == p.open;
    forall j | 1 <= j < num ensures FileIs(files', Numbered(j), j <= |q.full|, PieceAt(q, j)) {
      assert Numbered((j - 1) + 1) in files' <==> FileName(j - 1) in was;
      if j > 1 {
        assert FileIs(files, Numbered(j - 1), j - 1 <= |p.full|, PieceAt(p, j - 1));
      }
    }
  }

  /** A single file is never renamed. */
  lemma RotatedSingle(files: Disk, history: seq<LogRecord>, rec: LogRecord, maxSize: int)
    requires Rotated(files, history, maxSize, 1)
    ensures Rotated(files[Base := FileAt(files, 0) + [rec]] - {Numbered(0)}, history + [rec], maxSize, 1)
  {
  }

  lemma SingleFile(files: Disk, history: seq<LogRecord>, maxSize: int)
    requires Rotated(files, history, maxSize, 1)
    ensures FileAt(files, 0) == history
  {
  }

  /** A record appended to the newest file, and the rotation after it. */
  lemma RotatedWrite(files: Disk, files': Disk, history: seq<LogRecord>, rec: LogRecord, maxSize: int, num: int)
    requires num >= 1 && Rotated(files, history, maxSize, num)
    requires var was := files[Base := FileAt(files, 0) + [rec]];
      && (FileSize(was[Base]) < maxSize ==> files' == was)
      && (FileSize(was[Base]) >= maxSize && num >= 2 ==> Shifted(was, files', num) && Base !in files')
      && (FileSize(was[Base]) >= maxSize && num == 1 ==> files' == was - {Numbered(0)})
    ensures Rotated(files', history + [rec], maxSize, num)
  {
    hide FileSize, Rotated, Shifted, FileAt;
    if FileSize(FileAt(files, 0) + [rec]) < maxSize {
      RotatedAppend(files, history, rec, maxSize, num);
    } else if num >= 2 {
      RotatedShift(files, files', history, rec, maxSize, num);
    } else {
      RotatedSingle(files, history, rec, maxSize);
    }
  }

  lemma RotatedNone(files: Disk, maxSize: int, num: int)
    requires num >= 1 && forall j :: 0 <= j < num ==> FileName(j) !in files
    ensures Rotated(files, [], maxSize, num)
  {
    assert FileName(0) !in files;
    forall j | 1 <= j < num ensures Numbered(j) !in files {
      assert FileName(j) !in files;
    }
  }

  /** Full, but only just: not without its last record. */
  ghost predicate JustFull(records: seq<LogRecord>, maxSize: int) {
    && records != [] && FileSize(records) >= maxSize
    && (|records| > 1 ==> FileSize(records[..|records| - 1]) < maxSize)
  }

  /** Every record could be written. */
  ghost predicate Writable(records: seq<LogRecord>) {
    forall i :: 0 <= i < |records| ==> 0 < |records[i]| <= MAX_BINLOG_ITEM_LEN - RECORD_HEAD
  }

  lemma WritableSnoc(records: seq<LogRecord>, rec: LogRecord)
    requires Writable(records) && 0 < |rec| <= MAX_BINLOG_ITEM_LEN - RECORD_HEAD
    ensures Writable(records + [rec])
  {
  }

  lemma {:induction false} PiecesAreJustFull(history: seq<LogRecord>, maxSize: int)
    requires Writable(history)
    ensures var p := Cut(history, maxSize);
      && (forall i :: 0 <= i < |p.full| ==> JustFull(p.full[i], maxSize) && Writable(p.full[i]))
      && (p.open != [] ==> FileSize(p.open) < maxSize) && Writable(p.open)
  {
    hide FileSize;
    if history != [] {
      PiecesAreJustFull(history[..|history| - 1], maxSize);
      var p := Cut(history[..|history| - 1], maxSize);
      var last := p.open + [history[|history| - 1]];
      assert last[..|last| - 1] == p.open;
    }
  }

  /** The limit of a file: less than the maximum, and one record of any length. */
  function FileLimit(maxSize: int): nat {
    (if maxSize > 0 then maxSize else 1) + MAX_BINLOG_ITEM_LEN
  }

  lemma JustFullIsSmall(records: seq<LogRecord>, maxSize: int)
    requires JustFull(records, maxSize) && Writable(records)
    ensures FileSize(records) < FileLimit(maxSize)
  {
    assert FileSize([]) == 0;
    assert |records[|records| - 1]| <= MAX_BINLOG_ITEM_LEN - RECORD_HEAD;
  }

  /** Which files there are and how full they are, after any history: with two files or more, none grows on. */
  lemma FilesAreBounded(files: Disk, history: seq<LogRecord>, maxSize: int, num: int, j: nat)
    requires num >= 2 && j < num && Rotated(files, history, maxSize, num) && Writable(history)
    ensures Base in files ==> FileSize(files[Base]) < maxSize
    ensures j > 0 && Numbered(j) in files ==> JustFull(files[Numbered(j)], maxSize)
    ensures FileSize(FileAt(files, j)) < FileLimit(maxSize)
  {
    hide FileSize, Cut, JustFull, Writable;
    PiecesAreJustFull(history, maxSize);
    var p := Cut(history, maxSize);
    NoRecords();
    if 1 <= j <= |p.full| {
      assert FileIs(files, Numbered(j), j <= |p.full|, PieceAt(p, j));
      JustFullIsSmall(p.full[|p.full| - j], maxSize);
    } else if j > 0 {
      assert FileIs(files, Numbered(j), j <= |p.full|, PieceAt(p, j));
    }
  }

  lemma NoRecords()
    ensures FileSize([]) == 0
  {
  }

  lemma {:induction false} LogIsBounded(files: Disk, history: seq<LogRecord>, maxSize: int, num: int, i: nat)
    requires num >= 2 && i < num && Rotated(files, history, maxSize, num) && Writable(history)
    ensures FileSize(From(files, i)) < (i + 1) * FileLimit(maxSize)
    decreases i
  {
    hide FileSize, Rotated, Writable, FileLimit, FileAt;
    FilesAreBounded(files, history, maxSize, num, i);
    if i == 0 {
      assert From(files, 0) == FileAt(files, 0) + [] == FileAt(files, 0);
      assert 1 * FileLimit(maxSize) == FileLimit(maxSize);
    } else {
      LogIsBounded(files, history, maxSize, num, i - 1);
      FileSizeAppend(FileAt(files, i), From(files, i - 1));
      OneMore(i + 1, FileLimit(maxSize));
    }
  }

  datatype Reader = Closed | Open(records: seq<LogRecord>, pos: nat, eof: bool)

  class BinLog {
    const maxLogSize: int
    const maxLogNum: int
    var files: Disk
    var writeOpen: bool
    var reader: Reader
    var readIdx: int

    /** All records written since the last clear, and those of them that rotation has dropped. */
    ghost var history: seq<LogRecord>
    ghost var dropped: seq<LogRecord>

    ghost predicate Valid()
      reads this`files, this`history, this`dropped
    {
      && Complete()
      && Rotated(files, history, maxLogSize, maxLogNum) && Writable(history)
    }

    /** No record is missing but the dropped ones. */
    ghost predicate Complete()
      reads this`files, this`history, this`dropped
    {
      && maxLogNum >= 1
      && history == dropped + From(files, maxLogNum - 1)
      && Packed(files, maxLogSize, maxLogNum)
    }

    /** In every state: all files together are bounded if there are two or more; a single one keeps everything. */
    lemma Bounded()
      requires Valid()
      ensures maxLogNum >= 2 ==> FileSize(Surviving()) < maxLogNum * FileLimit(maxLogSize)
      ensures maxLogNum == 1 ==> Surviving() == history && dropped == []
    {
      hide FileSize, Packed, Writable, Rotated;
      if maxLogNum >= 2 {
        LogIsBounded(files, history, maxLogSize, maxLogNum, maxLogNum - 1);
      } else {
        assert FileAt(files, 0) == history by { SingleFile(files, history, maxLogSize); }
        assert From(files, 0) == history + [];
      }
    }

    /** Less has been written since the last clear than the files hold before rotation drops one. */
    ghost predicate Roomy()
      reads this`history
    {
      FileSize(history) < LogCapacity(maxLogNum, maxLogSize)
    }

    /** What reading from the oldest file on will return. */
    ghost function Surviving(): seq<LogRecord>
      reads this`files
    {
      From(files, maxLogNum - 1)
    }

    constructor (size: int, num: int)
      requires num >= 1
      ensures Valid() && maxLogNum == num && maxLogSize == size
      ensures history == [] && dropped == [] && reader == Closed
    {
      maxLogSize, maxLogNum := size, num;
      files, writeOpen, reader, readIdx := map[], false, Closed, num;
      history, dropped := [], [];
      FromFrame(map[], map[], num - 1);
      new;
      NothingStored(num - 1);
      RotatedNone(map[], size, num);
    }

    lemma {:induction false} NothingStored(i: int)
      ensures From(map[], i) == []
      decreases if i < 0 then 0 else i + 1
    {
      if i >= 0 { NothingStored(i - 1); }
    }

    /** rename(2), used only towards a free name. */
    method Rename(i: nat)
      requires FileName(i) in files && Numbered(i + 1) !in files
      modifies this`files
      ensures files == (old(files) - {FileName(i)})[Numbered(i + 1) := old(files)[FileName(i)]]
    {
      files := (files - {FileName(i)})[Numbered(i + 1) := files[FileName(i)]];
    }

    /** Once the newest file is full, drops the oldest file and moves every other one up. */
    method ShiftFiles()
      requires Complete() && Base in files
      modifies this`files, this`writeOpen, this`dropped
      ensures Complete()
      ensures FileSize(old(files)[Base]) < maxLogSize ==> files == old(files)
      ensures FileSize(old(files)[Base]) >= maxLogSize && maxLogNum >= 2 ==>
        Shifted(old(files), files, maxLogNum) && Base !in files
      ensures FileSize(old(files)[Base]) >= maxLogSize && maxLogNum == 1 ==> files == old(files) - {Numbered(0)}
      ensures dropped == old(dropped) + Overflow(old(files), maxLogSize, maxLogNum)
    {
      hide From, FileSize, Packed, Shifting, Shifted;
      if FileSize(files[Base]) < maxLogSize {
        return;
      }
      writeOpen := false;
      ghost var top, was := maxLogNum - 1, files;
      RemoveLast(files, top);
      if maxLogNum >= 2 {
        assert dropped + From(files, top) == (dropped + FileAt(files, top)) + From(files - {Numbered(top)}, top);
        dropped := dropped + FileAt(files, top);
      }
      files := files - {Numbered(maxLogNum - 1)};
      ShiftStart(was, maxLogNum);
      ghost var gone := dropped;
      var i := maxLogNum - 2;
      while i >= 0
        invariant -1 <= i <= maxLogNum - 2
        invariant maxLogNum >= 2 ==> Numbered(i + 1) !in files || i == -1
        invariant history == dropped + From(files, top) && dropped == gone
        invariant Shifting(was, files, i, maxLogNum)
        invariant i == -1 && maxLogNum >= 2 ==> Base !in files
        invariant maxLogNum == 1 ==> files == was - {Numbered(0)}
      {
        ShiftStep(was, files, i, maxLogNum);
        if FileName(i) in files {
          RenameKeeps(files, (files - {FileName(i)})[Numbered(i + 1) := files[FileName(i)]], i, top);
          Rename(i);
        }
        i := i - 1;
      }
      ShiftEnd(was, files, maxLogNum);
      ShiftedPacked(was, files, maxLogSize, maxLogNum);
    }

    method WriteToBinLog(buff: LogRecord) returns (ret: int)
      requires Valid()
      requires 0 < |buff| <= MAX_BINLOG_ITEM_LEN ==> CopiesFit(0, RecordCopies(|buff|), MAX_BINLOG_ITEM_LEN)
      modifies this`files, this`writeOpen, this`dropped, this`history
      ensures Valid()
      ensures ret == if 0 < |buff| <= MAX_BINLOG_ITEM_LEN then 0 else -1
      ensures ret != 0 ==> history == old(history) && dropped == old(dropped) && files == old(files)
      ensures ret == 0 ==> history == old(history) + [buff]
      ensures ret == 0 ==>
        dropped == old(dropped) + Overflow(old(files)[Base := FileAt(old(files), 0) + [buff]], maxLogSize, maxLogNum)
      ensures Roomy() ==> dropped == old(dropped)
    {
      hide From, FileSize, Packed, Overflow, CopiesFit, EncodeU32, Rotated, Shifted, Writable, FileAt;
      if |buff| <= 0 || |buff| > MAX_BINLOG_ITEM_LEN {
        return -1;
      }
      if writeOpen && Base !in files {
        writeOpen := false;
      }
      if !writeOpen {
        writeOpen := true;
      }
      RecordStaging(|buff|);
      var now: u32 := *;
      var bytes := StageRecord(now, buff);
      var rec := bytes[RECORD_HEAD..];
      assert rec == buff;
      AppendKeeps(files, rec, maxLogNum - 1);
      PackedSame(files, files[Base := FileAt(files, 0) + [rec]], maxLogSize, maxLogNum);
      files := files[Base := FileAt(files, 0) + [rec]];
      history := history + [buff];
      FileSizeAppend(dropped, From(files, maxLogNum - 1));
      if Overflow(files, maxLogSize, maxLogNum) != [] {
        OverflowIsLate(files, maxLogSize, maxLogNum);
      }
      ShiftFiles();
      RotatedWrite(old(files), files, old(history), buff, maxLogSize, maxLogNum);
      WritableSnoc(old(history), buff);
      return 0;
    }

    method ClearAllBinLog()
      requires Valid()
      modifies this
      ensures Valid()
      ensures history == [] && dropped == [] && Surviving() == []
    {
      hide From, FileSize, Packed, Rotated;
      var i := maxLogNum - 1;
      while i >= 0
        invariant -1 <= i < maxLogNum
        invariant forall j :: i < j < maxLogNum ==> FileName(j) !in files
      {
        files := files - {FileName(i)};
        i := i - 1;
      }
      writeOpen, reader := false, Closed;
      history, dropped := [], [];
      FromFrame(files, map[], maxLogNum - 1);
      NothingStored(maxLogNum - 1);
      PackedNone(files, maxLogSize, maxLogNum);
      RotatedNone(files, maxLogSize, maxLogNum);
    }

    /** SetReadRecordStartTime(-1): read everything, oldest file first. */
    method SetReadRecordStart()
      requires Valid()
      modifies this`reader, this`readIdx
      ensures ReaderOk() && Remaining() == Surviving()
    {
      reader := Closed;
      readIdx := maxLogNum;
    }

    /** The read position lies in the open file, and at its end once end-of-file has been seen. */
    ghost predicate ReaderOk()
      reads this
    {
      reader.Open? ==> reader.pos <= |reader.records| && (reader.eof ==> reader.pos == |reader.records|)
    }

    ghost function Remaining(): seq<LogRecord>
      reads this
    {
      (if reader.Open? && reader.pos <= |reader.records| then reader.records[reader.pos..] else [])
        + From(files, readIdx - 1)
    }

    /** Moves on to the next older-to-newer file that exists; false when there is none. */
    method OpenNext() returns (found: bool)
      modifies this`reader, this`readIdx
      requires reader.Open? ==> reader.pos == |reader.records|
      ensures Remaining() == old(Remaining())
      ensures found ==> 0 <= readIdx < old(readIdx) && reader == Open(FileAt(files, readIdx), 0, false)
      ensures !found ==> readIdx < 0 && reader == Closed && Remaining() == []
    {
      reader := Closed;
      readIdx := readIdx - 1;
      while readIdx >= 0 && FileName(readIdx) !in files
        invariant reader == Closed && readIdx < old(readIdx)
        invariant From(files, readIdx) == From(files, old(readIdx) - 1)
      {
        readIdx := readIdx - 1;
      }
      if readIdx < 0 {
        return false;
      }
      reader := Open(files[FileName(readIdx)], 0, false);
      return true;
    }

    /** Returns the next record, from whichever file has it, or a negative code at the end of the log. */
    method ReadRecordFromBinLog(maxSize: nat) returns (ret: int, rec: LogRecord)
      requires ReaderOk()
      modifies this`reader, this`readIdx
      ensures ReaderOk()
      ensures old(Remaining()) == [] ==> ret == -1 && Remaining() == []
      ensures old(Remaining()) != [] && |old(Remaining())[0]| <= maxSize ==>
        ret == 1 && rec == old(Remaining())[0] && Remaining() == old(Remaining())[1..]
      ensures old(Remaining()) != [] && |old(Remaining())[0]| > maxSize ==> ret == -3 && reader == Closed
      decreases if readIdx < 0 then 0 else readIdx, reader.Open? && !reader.eof
    {
      hide From;
      ghost var left := Remaining();
      if reader.Closed? || reader.eof {
        var found := OpenNext();
        if !found {
          return -1, [];
        }
      }
      if reader.pos == |reader.records| {
        reader := reader.(eof := true);
        ret, rec := ReadRecordFromBinLog(maxSize);
        return;
      }
      rec := reader.records[reader.pos];
      assert Remaining()[0] == rec;
      if |rec| > maxSize {
        reader := Closed;
        return -3, [];
      }
      reader := reader.(pos := reader.pos + 1);
      assert Remaining() == left[1..];
      return 1, rec;
    }

    /** Reading on until a negative code returns every surviving record exactly once, in the order written. */
    method ReadAll(maxSize: nat) returns (recs: seq<LogRecord>)
      requires Valid() && forall r :: r in Surviving() ==> |r| <= maxSize
      modifies this`reader, this`readIdx
      ensures recs == Surviving()
      ensures |dropped| <= |history| && recs == history[|dropped|..]
    {
      hide From, Remaining, ReaderOk;
      SetReadRecordStart();
      recs := [];
      ghost var all := Surviving();
      while true
        invariant ReaderOk() && recs + Remaining() == all
        decreases |Remaining()|
      {
        ghost var left := Remaining();
        if left != [] {
          assert left[0] == all[|recs|] && all[|recs|] in all;
        }
        var ret, rec := ReadRecordFromBinLog(maxSize);
        if ret <= 0 {
          break;
        }
        assert recs + left == (recs + [rec]) + left[1..];
        recs := recs + [rec];
      }
      assert recs + [] == recs;
      assert history[|dropped|..] == Surviving();
    }
  }
}
