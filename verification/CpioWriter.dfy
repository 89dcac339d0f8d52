/** Writing the archive through file descriptors whose calls can fail. */
module CpioWriter {
  import opened Options
  import opened Streams
  import opened Cpio

  const CHUNK := 32 * 1024

  /** The output descriptor with what was written to it, and whether any read or write has failed. */
  class Channel {
    var written: Stream
    var failed: bool

    constructor ()
      ensures written == [] && !failed
    {
      written, failed := [], false;
    }

    method Write(bytes: Stream) returns (ok: bool)
      requires !failed
      modifies this
      ensures ok <==> !failed
      ensures written == if ok then old(written) + bytes else old(written)
    {
      ok := *;
      if ok {
        written := written + bytes;
      } else {
        failed := true;
      }
    }

    /** The next bytes of a file: some, at most what fits the buffer, and none only at its end. */
    method Read(content: Stream, at: nat) returns (chunk: Option<Stream>)
      requires !failed && at <= |content|
      modifies this
      ensures written == old(written)
      ensures chunk.Some? <==> !failed
      ensures chunk.Some? ==> |chunk.value| <= CHUNK && at + |chunk.value| <= |content|
      ensures chunk.Some? ==> chunk.value == content[at..at + |chunk.value|] && (chunk.value == [] ==> at == |content|)
    {
      failed := *;
      if failed {
        return None;
      }
      var size :| 0 <= size <= CHUNK && at + size <= |content| && (size == 0 ==> at == |content|);
      chunk := Some(content[at..at + size]);
    }
  }

  method WriteHeader(out: Channel, st: Stat, name: Stream) returns (ok: bool)
    requires !out.failed
    modifies out
    ensures ok <==> !out.failed
    ensures ok ==> out.written == old(out.written) + Header(st, name)
  {
    var values := Fields(st, |name| + 1);
    var text := MAGIC + Join(values, Field);
    JoinWidth(values, Field, 8);
    ok := out.Write(text);
    if !ok {
      return;
    }
    ok := out.Write(name + [0]);
    if !ok {
      return;
    }
    var over := (|text| + |name| + 1) % 4;
    assert Zeros(0) == [];
    if over != 0 {
      ok := out.Write(Zeros(4 - over));
    }
    Append3(old(out.written), text, name + [0], Zeros(Padding(FIXED + |name| + 1)));
  }

  lemma Append3<T>(before: seq<T>, a: seq<T>, b: seq<T>, c: seq<T>)
    ensures before + a + b + c == before + (a + b + c) && before + a + b == before + (a + b)
    ensures before + [] == before && a + [] == a && before + a + b + [] == before + a + b
  {
  }

  /** How much of a file may have been copied when a size was announced: at least that, and less than
      one buffer more. */
  predicate IsCopied(length: nat, size: nat, copied: nat) {
    size <= copied <= length && (if size == 0 then copied == 0 else copied < size + CHUNK)
  }

  /** Copies the file buffer by buffer until the announced size is reached; a file that ends before is an error. */
  method CopyContent(out: Channel, content: Stream, size: nat) returns (errors: nat, ghost copied: nat)
    requires !out.failed
    modifies out
    ensures errors == 0 <==> !out.failed && |content| >= size
    ensures errors == 0 ==> IsCopied(|content|, size, copied) && out.written == old(out.written) + content[..copied]
  {
    errors, copied := 0, 0;
    var left: int, at := size, 0;
    assert content[..0] == [];
    while left > 0
      invariant at <= |content| && left == size - at && -left < CHUNK && (size == 0 ==> at == 0) && !out.failed
      invariant out.written == old(out.written) + content[..at]
      decreases left
    {
      var chunk := out.Read(content, at);
      if chunk.None? {
        return 1, 0;
      }
      left := left - |chunk.value|;
      var ok := out.Write(chunk.value);
      if !ok {
        return 1, 0;
      }
      if |chunk.value| == 0 {
        return 1, 0;
      }
      Grow(old(out.written), content, at, |chunk.value|);
      at := at + |chunk.value|;
    }
    copied := at;
  }

  lemma Grow<T>(before: seq<T>, content: seq<T>, at: nat, more: nat)
    requires at + more <= |content|
    ensures before + content[..at] + content[at..at + more] == before + content[..at + more]
  {
  }

  /** The content and its padding; the padding is also written behind a file that ended early. */
  method WriteFileContent(out: Channel, content: Stream, st: Stat) returns (errors: nat, ghost copied: nat)
    requires !out.failed
    modifies out
    ensures errors == 0 <==> !out.failed && |content| >= st.size
    ensures errors == 0 ==>
              && IsCopied(|content|, st.size, copied)
              && out.written == old(out.written) + content[..copied] + Zeros(Padding(st.size))
  {
    errors, copied := CopyContent(out, content, st.size);
    if out.failed {
      return;
    }
    var over := st.size % 4;
    if over != 0 {
      var ok := out.Write(Zeros(4 - over));
      if !ok {
        return errors + 1, copied;
      }
    } else {
      assert Zeros(0) == [] && out.written + [] == out.written;
    }
  }

  method WriteFileTrailer(out: Channel) returns (ok: bool)
    requires !out.failed
    modifies out
    ensures ok <==> !out.failed
    ensures ok ==> out.written == old(out.written) + Trailer()
  {
    ok := out.Write(MAGIC + WideHex(1, 40) + WideHex(0x0b, 56) + WideHex(0, 8) + TRAILER_NAME + [0, 0, 0, 0]);
  }

  /** A directory entry; its status or its content may be out of reach. */
  datatype DirEntry = DirEntry(isRegular: bool, name: Stream, stat: Option<Stat>, content: Option<Stream>)

  predicate IsReadable(e: DirEntry) {
    e.stat.Some? && e.content.Some?
  }

  /** The record written for a readable file holds its first bytes, as many as were copied. */
  predicate IsRecordOf(f: File, e: DirEntry)
    requires IsReadable(e)
  {
    && f.stat == e.stat.value && f.base == e.name
    && f.content <= e.content.value && IsCopied(|e.content.value|, e.stat.value.size, |f.content|)
  }

  /** The files written for a directory: one for each readable regular file, in order. */
  ghost predicate AreWritten(files: seq<File>, dir: seq<DirEntry>) {
    if dir == [] then files == []
    else
      var last, rest := dir[|dir| - 1], dir[..|dir| - 1];
      if last.isRegular && IsReadable(last)
      then files != [] && IsRecordOf(files[|files| - 1], last) && AreWritten(files[..|files| - 1], rest)
      else AreWritten(files, rest)
  }

  ghost function Skipped(dir: seq<DirEntry>): nat {
    if dir == [] then 0
    else
      var last := dir[|dir| - 1];
      Skipped(dir[..|dir| - 1]) + if last.isRegular && !IsReadable(last) then 1 else 0
  }

  lemma WrittenSkip(dir: seq<DirEntry>, i: nat, files: seq<File>)
    requires i < |dir| && AreWritten(files, dir[..i]) && !(dir[i].isRegular && IsReadable(dir[i]))
    ensures AreWritten(files, dir[..i + 1])
  {
    assert dir[..i + 1][..i] == dir[..i];
  }

  lemma WrittenAdd(dir: seq<DirEntry>, i: nat, files: seq<File>, f: File)
    requires i < |dir| && AreWritten(files, dir[..i]) && dir[i].isRegular && IsReadable(dir[i]) && IsRecordOf(f, dir[i])
    ensures AreWritten(files + [f], dir[..i + 1])
  {
    assert dir[..i + 1][..i] == dir[..i] && (files + [f])[..|files|] == files;
  }

  lemma JoinAppend(files: seq<File>, f: File)
    ensures Join(files + [f], FileRecord) == Join(files, FileRecord) + FileRecord(f)
  {
    JoinConcat(files, [f], FileRecord);
    JoinOne(f);
  }

  /** No regular file became shorter than its status says. */
  ghost predicate NoneShort(dir: seq<DirEntry>) {
    forall e :: e in dir && e.isRegular && IsReadable(e) ==> |e.content.value| >= e.stat.value.size
  }

  lemma StepInDir(dir: seq<DirEntry>, i: nat)
    requires i < |dir|
    ensures Skipped(dir[..i + 1]) == Skipped(dir[..i]) + if dir[i].isRegular && !IsReadable(dir[i]) then 1 else 0
    ensures NoneShort(dir[..i + 1]) <==>
            NoneShort(dir[..i])
              && (dir[i].isRegular && IsReadable(dir[i]) ==> |dir[i].content.value| >= dir[i].stat.value.size)
  {
    assert dir[..i + 1][..i] == dir[..i] && dir[..i + 1] == dir[..i] + [dir[i]];
  }

  lemma ShortStays(dir: seq<DirEntry>, i: nat)
    requires i <= |dir| && !NoneShort(dir[..i])
    ensures !NoneShort(dir)
  {
  }

  /** Writes the record of one file. */
  method WriteFile(out: Channel, e: DirEntry) returns (errors: nat, ghost f: File)
    requires !out.failed && IsReadable(e)
    modifies out
    ensures errors == 0 <==> !out.failed && |e.content.value| >= e.stat.value.size
    ensures errors == 0 ==> IsRecordOf(f, e) && out.written == old(out.written) + FileRecord(f)
  {
    var st := e.stat.value;
    var name := e.name + [45] + Decimal(st.mtime);
    f := File(st, e.name, []);
    var ok := WriteHeader(out, st, name);
    if !ok {
      return 1, f;
    }
    ghost var copied;
    errors, copied := WriteFileContent(out, e.content.value, st);
    if errors == 0 {
      f := File(st, e.name, e.content.value[..copied]);
      Append3(old(out.written), Header(st, name), f.content, Zeros(Padding(st.size)));
    }
  }

  lemma JoinOne(f: File)
    ensures Join([f], FileRecord) == FileRecord(f)
  {
    var none: seq<File> := [];
    assert [f][1..] == none && Join(none, FileRecord) == [];
    assert FileRecord(f) + [] == FileRecord(f);
  }

  /** Archives the regular files of a directory. */
  method ArchiveFilesInDir(out: Channel, dir: Option<seq<DirEntry>>) returns (errors: nat, ghost files: seq<File>)
    requires !out.failed
    modifies out
    ensures dir.None? ==> errors == 1 && out.written == old(out.written)
    ensures dir.Some? && !out.failed && NoneShort(dir.value) ==>
              && errors == Skipped(dir.value) && AreWritten(files, dir.value)
              && out.written == old(out.written) + Archive(files)
    ensures dir.Some? && (out.failed || !NoneShort(dir.value)) ==> errors > 0
  {
    errors, files := 0, [];
    if dir.None? {
      return 1, [];
    }
    var entries := dir.value;
    Append3(old(out.written), [], [], []);
    for i := 0 to |entries|
      invariant !out.failed && NoneShort(entries[..i]) && errors == Skipped(entries[..i])
      invariant AreWritten(files, entries[..i]) && out.written == old(out.written) + Join(files, FileRecord)
    {
      var e := entries[i];
      StepInDir(entries, i);
      if !e.isRegular {
        WrittenSkip(entries, i, files);
        continue;
      }
      if !IsReadable(e) {
        WrittenSkip(entries, i, files);
        errors := errors + 1;
        continue;
      }
      var writeErrors, f := WriteFile(out, e);
      if writeErrors > 0 {
        if !NoneShort(entries[..i + 1]) {
          ShortStays(entries, i + 1);
        }
        return errors + writeErrors, files;
      }
      WrittenAdd(entries, i, files, f);
      JoinAppend(files, f);
      Append3(old(out.written), Join(files, FileRecord), FileRecord(f), []);
      files := files + [f];
    }
    assert entries[..|entries|] == entries;
    var ok := WriteFileTrailer(out);
    if !ok {
      return errors + 1, files;
    }
    Append3(old(out.written), Join(files, FileRecord), Trailer(), []);
  }

  // ----- When what was written reads back -----

  /** The record reads back with the body written, whatever follows. */
  ghost predicate IsSound(read: Reader, st: Stat, name: Stream, body: Stream) {
    ReadsBack(Record(st, name, body), read, Entry(Fields(st, |name| + 1), name, body))
  }

  lemma SoundIff(read: Reader, st: Stat, name: Stream, body: Stream)
    requires TakesHeaders(read) && IsStat(st) && IsName(name)
    ensures IsSound(read, st, name, body) <==> |body| == st.size % WORD
  {
    RecordIsNotEmpty(st, name, body);
    var record, entry := Record(st, name, body), Entry(Fields(st, |name| + 1), name, body);
    RecordReadsBackIff(read, st, name, body, []);
    forall after ensures read(record + after) == Some((entry, |record|)) <==> |body| == st.size % WORD {
      RecordReadsBackIff(read, st, name, body, after);
    }
  }

  lemma AllCopiesFitIff(length: nat, size: nat)
    requires length >= size
    ensures (forall n: nat :: IsCopied(length, size, n) ==> n == size % WORD)
       <==> size < WORD && (length == size || size == 0)
  {
    assert IsCopied(length, size, size);
    assert size % WORD == size <==> size < WORD;
    if length > size > 0 {
      assert IsCopied(length, size, size + 1);
    }
  }

  /**
   * However the reads go, the record written for a file that is at least as long as announced is sound,
   * if and only if the size fits 32 bits and the file did not grow: it has that size, or none was announced.
   */
  lemma WrittenReadsBackIff(read: Reader, st: Stat, name: Stream, content: Stream)
    requires TakesHeaders(read) && IsStat(st) && IsName(name) && |content| >= st.size
    ensures (forall n: nat :: IsCopied(|content|, st.size, n) ==> IsSound(read, st, name, content[..n]))
       <==> st.size < WORD && (|content| == st.size || st.size == 0)
  {
    AllCopiesFitIff(|content|, st.size);
    forall n: nat | IsCopied(|content|, st.size, n)
      ensures IsSound(read, st, name, content[..n]) <==> n == st.size % WORD
    {
      SoundIff(read, st, name, content[..n]);
    }
  }
}
