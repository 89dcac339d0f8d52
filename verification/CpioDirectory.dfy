/** The archive of a directory: which of its entries are in it, and what a reader gets back. */
module CpioDirectory {
  import opened Options
  import opened Selections
  import opened Cpio
  import opened CpioFormat
  import opened CpioWriter

  /** A regular file whose status and content could be had. */
  predicate IsArchived(e: DirEntry) {
    e.isRegular && e.stat.Some? && e.content.Some?
  }

  predicate IsMissed(e: DirEntry) {
    e.isRegular && (e.stat.None? || e.content.None?)
  }

  /** The errors counted for entries are one per regular file that could not be read. */
  lemma {:induction false} SkippedIs(dir: seq<DirEntry>)
    ensures Skipped(dir) == |Filter(dir, IsMissed)|
  {
    if dir != [] {
      var n := |dir| - 1;
      SkippedIs(dir[..n]);
      FilterLast(dir[..n], dir[n], IsMissed);
      assert dir == dir[..n] + [dir[n]];
    }
  }

  /** The file's own status and name, and its first bytes: at least the announced size, less than a
      buffer of 32 KiB more, and none if none were announced. */
  ghost predicate IsFileOf(f: File, e: DirEntry) {
    && IsArchived(e) && f.stat == e.stat.value && f.base == e.name
    && f.stat.size <= |f.content| <= |e.content.value| && |f.content| < f.stat.size + 32768
    && f.content == e.content.value[..|f.content|] && (f.stat.size == 0 ==> f.content == [])
  }

  /** What is written for a directory is one file per readable regular entry, in order. */
  lemma {:induction false} WrittenAre(files: seq<File>, dir: seq<DirEntry>)
    requires AreWritten(files, dir)
    ensures var entries := Filter(dir, IsArchived);
            |files| == |entries| && forall i :: 0 <= i < |files| ==> IsFileOf(files[i], entries[i])
  {
    if dir != [] {
      var n := |dir| - 1;
      FilterLast(dir[..n], dir[n], IsArchived);
      assert dir == dir[..n] + [dir[n]];
      if IsArchived(dir[n]) {
        WrittenAre(files[..|files| - 1], dir[..n]);
      } else {
        WrittenAre(files, dir[..n]);
      }
    }
  }

  /** A regular file that can be archived and did not change after its status was read. */
  ghost predicate IsStable(e: DirEntry) {
    e.isRegular && IsReadable(e) ==>
      && IsStat(e.stat.value) && !HasNul(e.name) && |e.name| + 1 + |Decimal(e.stat.value.mtime)| + 1 < WORD
      && |e.content.value| == e.stat.value.size < WORD
  }

  /** The entry of the archive is the directory entry: its status, its name with the time, its content. */
  ghost predicate Archives(entry: Entry, e: DirEntry) {
    IsArchived(e) && Shows(entry, File(e.stat.value, e.name, e.content.value))
  }

  lemma StableIsStorable(f: File, e: DirEntry)
    requires IsFileOf(f, e) && IsStable(e)
    ensures IsStorable(f) && f == File(e.stat.value, e.name, e.content.value)
  {
    assert f.content == e.content.value;
  }

  lemma StableFiles(dir: seq<DirEntry>, files: seq<File>)
    requires AreWritten(files, dir) && forall e :: e in dir ==> IsStable(e)
    ensures var entries := Filter(dir, IsArchived);
            && |files| == |entries|
            && forall i :: 0 <= i < |files| ==>
                 && IsArchived(entries[i]) && IsStorable(files[i])
                 && files[i] == File(entries[i].stat.value, entries[i].name, entries[i].content.value)
  {
    var entries := Filter(dir, IsArchived);
    WrittenAre(files, dir);
    forall i | 0 <= i < |files|
      ensures && IsArchived(entries[i]) && IsStorable(files[i])
              && files[i] == File(entries[i].stat.value, entries[i].name, entries[i].content.value)
    {
      FilterIff(dir, IsArchived, entries[i]);
      StableIsStorable(files[i], entries[i]);
    }
  }

  /** The archive of a directory of unchanging files reads back as its readable regular files, in order. */
  lemma StableDirReadsBack(dir: seq<DirEntry>, files: seq<File>)
    requires AreWritten(files, dir) && forall e :: e in dir ==> IsStable(e)
    ensures NoneShort(dir)
    ensures var archived, read := Filter(dir, IsArchived), ReadArchive(Archive(files));
            && read.Some? && |read.value| == |archived|
            && forall i :: 0 <= i < |archived| ==> Archives(read.value[i], archived[i])
  {
    StableFiles(dir, files);
    forall f | f in files ensures IsStorable(f) {
    }
    ArchiveShowsFiles(files);
  }
}
