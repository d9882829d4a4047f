/**
 * The PAK archive of src/pak/mod.rs: a "PACK" magic, the directory's offset and byte
 * length, and a directory of 64-byte records (a 0x38-byte NUL-padded name, an offset and
 * a size). Opening decodes the directory into a name-to-entry table; `File` fetches one
 * member's bytes. The archive is read through a file, so a seek to an offset of 2^63 or
 * more fails.
 */
module Pak {
  import opened Common
  import opened Parse

  /** "PACK" */
  const MAGIC: seq<byte> := [0x50, 0x41, 0x43, 0x4B]
  const RECORD_SIZE: nat := 0x40
  const NAME_SIZE: nat := 0x38

  /** Where a member lies in the archive; both are the i32 fields sign-extended to u64. */
  datatype Entry = Entry(offset: u64, size: u64)

  datatype PackFile = PackFile(data: seq<byte>, entries: map<seq<byte>, Entry>)

  type Record = (seq<byte>, Entry)

  /**
   * One directory record at the cursor: read the 0x38 name bytes, the offset and the size,
   * then decode the name, failing at the first step that fails.
   */
  method ReadRecord(r: Reader) returns (res: Result<(Record, Reader)>)
    ensures res == RecordFrom(r.data, r.pos)
  {
    var nameRead := ReadString(r, NAME_SIZE);
    if nameRead.Err? { return Err(nameRead.error); }
    var offsetRead := ReadLong(nameRead.value.1);
    if offsetRead.Err? { return Err(offsetRead.error); }
    var sizeRead := ReadLong(offsetRead.value.1);
    if sizeRead.Err? { return Err(sizeRead.error); }
    var name := FromCString(nameRead.value.0);
    if name.Err? { return Err(name.error); }
    var entry := Entry(AsU64(offsetRead.value.0), AsU64(sizeRead.value.0));
    return Ok(((name.value, entry), sizeRead.value.1));
  }

  /**
   * The record laid out at byte `pos` and the position after it, or why it cannot be had:
   * Io when its 64 bytes run past the end, Utf8 when its name is not text.
   */
  function RecordFrom(data: seq<byte>, pos: nat): Result<(Record, Reader)>
  {
    if pos + RECORD_SIZE > |data| then Err(Io)
    else if FromCString(data[pos .. pos + NAME_SIZE]).Err? then Err(Utf8)
    else Ok((RecordAt(data, pos), Reader(data, pos + RECORD_SIZE)))
  }

  /** The record at byte `pos`, field by field at its fixed offsets (reference layout). */
  function RecordAt(data: seq<byte>, pos: nat): Record
    requires pos + RECORD_SIZE <= |data|
    requires FromCString(data[pos .. pos + NAME_SIZE]).Ok?
  {
    var name := FromCString(data[pos .. pos + NAME_SIZE]).value;
    (name, Entry(AsU64(I32At(data, pos + 0x38)), AsU64(I32At(data, pos + 0x3C))))
  }

  /**
   * The first `n` directory records laid out from byte `start`, or the failure of the first
   * that cannot be read: Io when it runs past the end, Utf8 when its name is not text.
   */
  function Records(data: seq<byte>, start: nat, n: nat): Result<seq<Record>>
  {
    if n == 0 then Ok([])
    else
      match Records(data, start, n - 1)
      case Err(e) => Err(e)
      case Ok(prev) =>
        match RecordFrom(data, start + RECORD_SIZE * (n - 1))
        case Err(e) => Err(e)
        case Ok(step) => Ok(prev + [step.0])
  }

  /** Inserting the records one after another into an empty table: a later name replaces an earlier one. */
  function InsertAll(recs: seq<Record>): map<seq<byte>, Entry>
  {
    if recs == [] then map[]
    else InsertAll(recs[..|recs| - 1])[recs[|recs| - 1].0 := recs[|recs| - 1].1]
  }

  lemma LemmaInsertAllSnoc(recs: seq<Record>, rec: Record)
    ensures InsertAll(recs + [rec]) == InsertAll(recs)[rec.0 := rec.1]
  {
    assert (recs + [rec])[..|recs|] == recs;
  }

  /** The directory length field read as Rust does: an i32, divided by 0x40 with truncation. */
  function DirectoryCount(data: seq<byte>): int
    requires |data| >= 12
  {
    TruncDiv(I32At(data, 8), RECORD_SIZE)
  }

  /**
   * The header: the magic, then the directory's offset and byte length as i32. Gives where
   * the records start (after the file seek) and how many there are.
   */
  function Header(data: seq<byte>): (res: Result<(nat, nat)>)
    ensures |data| < 4 ==> res == Err(Io)
    ensures |data| >= 4 && data[..4] != MAGIC ==> res == Err(BadMagic)
    ensures |data| >= 4 && data[..4] == MAGIC ==>
      if |data| < 12 || I32At(data, 4) < 0 then res == Err(Io)
      else res == Ok((I32At(data, 4), if DirectoryCount(data) > 0 then DirectoryCount(data) else 0))
  {
    var (magic, r1) :- ReadString(Reader(data, 0), 4);
    if magic != MAGIC then Err(BadMagic)
    else
      var (offset, r2) :- ReadLong(r1);
      var (length, r3) :- ReadLong(r2);
      var count := TruncDiv(length, RECORD_SIZE);
      var r4 :- FileSeek(r3, AsU64(offset));
      Ok((r4.pos, if count > 0 then count else 0))
  }

  /** What opening the archive decodes, from the header to the last record, or the first failure. */
  function Directory(data: seq<byte>): Result<seq<Record>>
  {
    var (start, count) :- Header(data);
    Records(data, start, count)
  }

  /** A failure among the first `n` records is the failure of every longer prefix. */
  lemma {:induction false} LemmaRecordsFailureSticks(data: seq<byte>, start: nat, n: nat, m: nat)
    requires n <= m
    requires Records(data, start, n).Err?
    ensures Records(data, start, m) == Records(data, start, n)
    decreases m - n
  {
    if n < m {
      LemmaRecordsFailureSticks(data, start, n, m - 1);
    }
  }

  /** The directory is the header's failure, or the records the header points at. */
  lemma LemmaDirectoryByHeader(data: seq<byte>)
    ensures Header(data).Err? ==> Directory(data) == Err(Header(data).error)
    ensures Header(data).Ok? ==> Directory(data) == Records(data, Header(data).value.0, Header(data).value.1)
  {
  }

  /** Reading one more record extends the decoded directory by it, or ends it with its failure. */
  lemma LemmaRecordsNext(data: seq<byte>, start: nat, i: nat, recs: seq<Record>, read: Result<(Record, Reader)>)
    requires Records(data, start, i) == Ok(recs)
    requires read == RecordFrom(data, start + RECORD_SIZE * i)
    ensures read.Err? ==> Records(data, start, i + 1) == Err(read.error)
    ensures read.Ok? ==> Records(data, start, i + 1) == Ok(recs + [read.value.0])
  {
  }

  /**
   * `PackFile::new`: check the magic, read the directory offset and length, seek to the
   * directory and insert every record into the table in order.
   */
  method Open(data: seq<byte>) returns (res: Result<PackFile>)
    ensures res.Ok? <==> Directory(data).Ok?
    ensures res.Ok? ==> res.value == PackFile(data, InsertAll(Directory(data).value))
    ensures res.Err? ==> res.error == Directory(data).error
  {
    var header := Header(data);
    LemmaDirectoryByHeader(data);
    if header.Err? { return Err(header.error); }
    var entries :- ReadDirectory(data, header.value.0, header.value.1);
    return Ok(PackFile(data, entries));
  }

  /** One step of the directory loop: the record read at `start + 64 i` extends the records decoded so far. */
  method ReadNextRecord(data: seq<byte>, start: nat, i: nat, ghost recs: seq<Record>) returns (res: Result<(Record, Reader)>)
    requires Records(data, start, i) == Ok(recs)
    ensures res.Err? ==> Records(data, start, i + 1) == Err(res.error)
    ensures res.Ok? ==> Records(data, start, i + 1) == Ok(recs + [res.value.0])
  {
    res := ReadRecord(Reader(data, start + RECORD_SIZE * i));
    LemmaRecordsNext(data, start, i, recs, res);
  }

  /** The loop of `PackFile::new`: read `count` records from byte `start`, inserting each into the table. */
  method ReadDirectory(data: seq<byte>, start: nat, count: nat) returns (res: Result<map<seq<byte>, Entry>>)
    ensures res.Ok? <==> Records(data, start, count).Ok?
    ensures res.Ok? ==> res.value == InsertAll(Records(data, start, count).value)
    ensures res.Err? ==> res.error == Records(data, start, count).error
  {
    var entries: map<seq<byte>, Entry> := map[];
    var i: nat := 0;
    ghost var recs: seq<Record> := [];
    while i < count
      invariant i <= count
      invariant Records(data, start, i) == Ok(recs)
      invariant entries == InsertAll(recs)
    {
      var recRead := ReadNextRecord(data, start, i, recs);
      if recRead.Err? {
        LemmaRecordsFailureSticks(data, start, i + 1, count);
        return Err(recRead.error);
      }
      var rec := recRead.value.0;
      LemmaInsertAllSnoc(recs, rec);
      entries := entries[rec.0 := rec.1];
      recs := recs + [rec];
      i := i + 1;
    }
    res := Ok(entries);
  }

  /**
   * `PackFile::file`: the member's bytes, read from its offset; a name not in the
   * directory is NotFound. The seek fails for offsets of 2^63 or more, and a size of 2^63
   * or more overflows the buffer's capacity, which panics.
   */
  function File(p: PackFile, name: seq<byte>): (res: Result<seq<byte>>)
    ensures name !in p.entries ==> res == Err(NotFound)
    ensures name in p.entries ==>
      var e := p.entries[name];
      && (res.Ok? <==> e.offset < ISIZE_LIMIT && e.size < ISIZE_LIMIT && (e.size == 0 || e.offset + e.size <= |p.data|))
      && (res.Ok? ==> |res.value| == e.size)
      && (res.Ok? && e.size > 0 ==> res.value == p.data[e.offset .. e.offset + e.size])
      && (res.Err? && e.offset < ISIZE_LIMIT && e.size >= ISIZE_LIMIT ==> res.error == Panic)
  {
    if name !in p.entries then Err(NotFound)
    else
      var e := p.entries[name];
      var r :- FileSeek(Reader(p.data, 0), e.offset);
      if e.size >= ISIZE_LIMIT then Err(Panic)
      else
        var (bytes, _) :- ReadString(r, e.size);
        Ok(bytes)
  }

  // ---------------------------------------------------------------------------------------
  // Properties of the decoded directory

  /** `rec` is the record laid out at byte `pos`. */
  predicate RecordIsAt(data: seq<byte>, pos: nat, rec: Record)
  {
    pos + RECORD_SIZE <= |data| && FromCString(data[pos .. pos + NAME_SIZE]).Ok? &&
    rec == RecordAt(data, pos)
  }

  /** Decoding `n` records that all succeed gives `n` records, the i-th laid out at start + 64 i. */
  lemma {:induction false} LemmaRecordsLayout(data: seq<byte>, start: nat, n: nat)
    requires Records(data, start, n).Ok?
    ensures |Records(data, start, n).value| == n
    ensures forall i :: 0 <= i < n ==> RecordIsAt(data, start + RECORD_SIZE * i, Records(data, start, n).value[i])
  {
    if n > 0 {
      LemmaRecordsLayout(data, start, n - 1);
    }
  }

  /** The number of records is the directory length over 0x40, or none when that is not positive. */
  lemma LemmaEntryCount(data: seq<byte>)
    requires Directory(data).Ok?
    ensures |data| >= 12
    ensures |Directory(data).value| == if DirectoryCount(data) > 0 then DirectoryCount(data) else 0
  {
    var (start, count) := Header(data).value;
    LemmaRecordsLayout(data, start, count);
  }

  /** The position of the last record with a given name, when there is one. */
  function LastIndexOf(recs: seq<Record>, name: seq<byte>): (k: int)
    ensures -1 <= k < |recs|
    ensures k >= 0 ==> recs[k].0 == name
    ensures forall j :: k < j < |recs| ==> recs[j].0 != name
  {
    if recs == [] then -1
    else if recs[|recs| - 1].0 == name then |recs| - 1
    else LastIndexOf(recs[..|recs| - 1], name)
  }

  /** A name is in the table iff some record carries it, and its entry is that of the LAST such record. */
  lemma {:induction false} LemmaLaterRecordWins(recs: seq<Record>, name: seq<byte>)
    ensures name in InsertAll(recs) <==> LastIndexOf(recs, name) >= 0
    ensures name in InsertAll(recs) ==> InsertAll(recs)[name] == recs[LastIndexOf(recs, name)].1
  {
    if recs != [] {
      LemmaLaterRecordWins(recs[..|recs| - 1], name);
    }
  }

  /** Every record name is a key, and every key is some record's name. */
  lemma {:induction false} LemmaTableKeys(recs: seq<Record>)
    ensures InsertAll(recs).Keys == set i | 0 <= i < |recs| :: recs[i].0
  {
    if recs != [] {
      var init := recs[..|recs| - 1];
      LemmaTableKeys(init);
      var s := set i | 0 <= i < |recs| :: recs[i].0;
      var t := set i | 0 <= i < |init| :: init[i].0;
      assert s == t + {recs[|recs| - 1].0} by {
        forall x | x in s ensures x in t + {recs[|recs| - 1].0} {
          var i :| 0 <= i < |recs| && recs[i].0 == x;
          if i < |init| { assert init[i].0 == x; }
        }
        forall x | x in t ensures x in s {
          var i :| 0 <= i < |init| && init[i].0 == x;
          assert recs[i].0 == x;
        }
      }
    }
  }

  /** After opening, a name from the directory fetches the bytes its last record points at. */
  lemma LemmaFileOfKnownName(data: seq<byte>, k: nat)
    requires Directory(data).Ok?
    requires k < |Directory(data).value|
    requires LastIndexOf(Directory(data).value, Directory(data).value[k].0) == k
    requires var e := Directory(data).value[k].1;
      e.offset < ISIZE_LIMIT && 0 < e.size < ISIZE_LIMIT && e.offset + e.size <= |data|
    ensures var p := PackFile(data, InsertAll(Directory(data).value));
            var e := Directory(data).value[k].1;
            File(p, Directory(data).value[k].0) == Ok(data[e.offset .. e.offset + e.size])
  {
    var recs := Directory(data).value;
    LemmaLaterRecordWins(recs, recs[k].0);
  }
}
