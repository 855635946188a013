/** The open-file registry (src/file.rs): `FileMod` hands out dense ids from
    a counter and cycles the current file; `FileBuf::save` overwrites the
    file on disk from its start. Opening and reading files are inputs: a
    buffer arrives already loaded. File contents are sequences of single
    code units standing for bytes. */
module FileStore {
  import opened Wrappers
  import opened TextSearch

  /** `FileBuf`: the name it was opened under, the text read at open time,
      what the file holds on disk, and whether it was opened for writing
      (`FileBuf::new` opens an existing read-only file with `write(false)`). */
  datatype FileBuf = FileBuf(name: seq<char>, buffer: seq<char>, disk: seq<char>, writable: bool)

  /** The `io::Error` of `write_all` on a file opened without write access. */
  datatype SaveError = NotWritable

  /** `FileBuf::save` as written: rewind and write, without truncating, so a
      shorter text leaves the tail of the old file behind it. A buffer opened
      read-only refuses the write (`Err`) and its file is left as it was. */
  function SaveAsWritten(fb: FileBuf, content: seq<char>): (r: Result<FileBuf, SaveError>)
    ensures r.Err? <==> !fb.writable
    ensures r.Ok? ==> r.value.name == fb.name && r.value.buffer == fb.buffer && r.value.writable
    ensures r.Ok? ==> |r.value.disk| == if |content| < |fb.disk| then |fb.disk| else |content|
    ensures r.Ok? ==> r.value.disk[..|content|] == content
    ensures r.Ok? && |content| < |fb.disk| ==> r.value.disk[|content|..] == fb.disk[|content|..]
  {
    if !fb.writable then Err(NotWritable)
    else if |content| < |fb.disk| then Ok(fb.(disk := content + fb.disk[|content|..]))
    else Ok(fb.(disk := content))
  }

  /** Saving that leaves the file holding exactly the saved text; a read-only
      buffer still refuses the write. */
  function Save(fb: FileBuf, content: seq<char>): (r: Result<FileBuf, SaveError>)
    ensures r.Err? <==> !fb.writable
    ensures r.Ok? ==> r.value.name == fb.name && r.value.buffer == fb.buffer && r.value.writable
    ensures r.Ok? ==> r.value.disk == content
  {
    if fb.writable then Ok(fb.(disk := content)) else Err(NotWritable)
  }

  /** As written, the file holds the saved text exactly when the text is at
      least as long as what the file held. */
  lemma SaveAsWrittenExact(fb: FileBuf, content: seq<char>)
    ensures fb.writable ==> (SaveAsWritten(fb, content).value.disk == content <==> |content| >= |fb.disk|)
  {
  }

  /** The two saves agree exactly when both refuse a read-only buffer or the
      text is at least as long as what the file held. */
  lemma SavesAgree(fb: FileBuf, content: seq<char>)
    ensures SaveAsWritten(fb, content) == Save(fb, content) <==> !fb.writable || |content| >= |fb.disk|
  {
  }

  /** Saving "hi" over "hello world" leaves "hillo world" on disk. */
  lemma ShorterSaveKeepsTail()
    ensures SaveAsWritten(FileBuf("a", "", "hello world", true), "hi") == Ok(FileBuf("a", "", "hillo world", true))
    ensures Save(FileBuf("a", "", "hello world", true), "hi") == Ok(FileBuf("a", "", "hi", true))
  {
    assert "hi" + "hello world"[2..] == "hillo world";
  }

  /** A buffer opened read-only cannot be saved, by either save. */
  lemma ReadOnlySaveFails(fb: FileBuf, content: seq<char>)
    requires !fb.writable
    ensures SaveAsWritten(fb, content) == Save(fb, content) == Err(NotWritable)
  {
  }

  /** `FileMod`: buffers by id, the id counter and the current id. */
  datatype FileMod = FileMod(files: map<nat, FileBuf>, count: nat, curr: Option<nat>)

  /** Ids are exactly `0 .. count`, and a current id names a stored buffer. */
  predicate Valid(fm: FileMod)
  {
    && (forall id :: id in fm.files ==> id < fm.count)
    && (forall id: nat :: id < fm.count ==> id in fm.files)
    && (fm.curr.Some? ==> fm.curr.value in fm.files)
  }

  /** `FileMod::new`: nothing open. */
  function New(): (r: FileMod)
    ensures Valid(r) && r.count == 0 && r.curr.None? && |r.files| == 0
  {
    FileMod(map[], 0, None)
  }

  /** `insert`: the buffer is stored under the next id; the current file does
      not change. */
  function Insert(fm: FileMod, fb: FileBuf): (r: FileMod)
    ensures r.count == fm.count + 1 && r.curr == fm.curr
    ensures fm.count in r.files && r.files[fm.count] == fb
    ensures forall id :: id in fm.files && id != fm.count ==> id in r.files && r.files[id] == fm.files[id]
    ensures Valid(fm) ==> Valid(r) && fm.count !in fm.files
  {
    FileMod(fm.files[fm.count := fb], fm.count + 1, fm.curr)
  }

  /** Ids handed out are never handed out again: inserting keeps every stored
      buffer and adds one under a fresh id. */
  lemma InsertFresh(fm: FileMod, fb: FileBuf)
    requires Valid(fm)
    ensures fm.files.Keys < Insert(fm, fb).files.Keys
    ensures Insert(fm, fb).files.Keys - fm.files.Keys == {fm.count}
  {
    assert fm.count in Insert(fm, fb).files.Keys - fm.files.Keys;
  }

  /** `From<Vec<String>>`: the loaded buffers get ids in argument order, and
      the first is current. Given no buffers, the current id names nothing. */
  function FromBufs(bufs: seq<FileBuf>): (r: FileMod)
    ensures r.count == |bufs| && r.curr == Some(0)
    ensures forall i :: 0 <= i < |bufs| ==> i in r.files && r.files[i] == bufs[i]
    ensures |bufs| > 0 <==> Valid(r)
  {
    FileMod(map i | 0 <= i < |bufs| :: bufs[i], |bufs|, Some(0))
  }

  /** `curr`: the current buffer; the two `unwrap`s panic (`None`) when there
      is no current id or it names nothing. */
  function Curr(fm: FileMod): (r: Option<FileBuf>)
    ensures r.Some? <==> fm.curr.Some? && fm.curr.value in fm.files
    ensures Valid(fm) && fm.curr.Some? ==> r.Some?
  {
    if fm.curr.Some? && fm.curr.value in fm.files then Some(fm.files[fm.curr.value]) else None
  }

  /** `shift`: the next id, wrapping to 0 after the last; it panics with no
      current file or (dividing by zero) an empty registry. */
  function Shift(fm: FileMod): (r: FileMod)
    requires fm.curr.Some? && fm.count > 0
    ensures r.files == fm.files && r.count == fm.count
    ensures r.curr == Some(Next(fm.curr.value, fm.count))
    ensures Valid(fm) ==> Valid(r)
  {
    fm.(curr := Some(Next(fm.curr.value, fm.count)))
  }

  function ShiftN(fm: FileMod, k: nat): (r: FileMod)
    requires fm.curr.Some? && fm.count > 0
    ensures r.files == fm.files && r.count == fm.count && r.curr.Some?
    decreases k
  {
    if k == 0 then fm else Shift(ShiftN(fm, k - 1))
  }

  /** `k` shifts land on the current id advanced by `k`, modulo the count. */
  lemma {:induction false} ShiftNIsNextN(fm: FileMod, k: nat)
    requires fm.curr.Some? && fm.count > 0
    ensures ShiftN(fm, k).curr.value == NextN(fm.curr.value, fm.count, k)
    decreases k
  {
    if k > 0 {
      ShiftNIsNextN(fm, k - 1);
    }
  }

  /** Shifting as many times as there are files comes back to the start. */
  lemma ShiftCycle(fm: FileMod)
    requires Valid(fm) && fm.curr.Some? && fm.count > 0
    ensures ShiftN(fm, fm.count) == fm
  {
    ShiftNIsNextN(fm, fm.count);
    CycleReturns(fm.curr.value, fm.count);
  }
}
