/** The archive by the offsets of the "newc" format: which attribute stands where, as text.

    The reader here takes each attribute from its own byte offset and knows nothing of how
    headers are put together.
  */
module CpioFormat {
  import opened Bytes
  import opened Options
  import opened Streams
  import opened Cpio

  /** The bytes are these characters. */
  ghost predicate IsText(bytes: seq<byte>, text: string) {
    |bytes| == |text| && forall i :: 0 <= i < |text| ==> bytes[i] as int == text[i] as int
  }

  // ----- Numbers -----

  /** The value of a hexadecimal digit, or -1. */
  function DigitOf(b: byte): int {
    if '0' as int <= b as int <= '9' as int then b as int - '0' as int
    else if 'A' as int <= b as int <= 'F' as int then b as int - 'A' as int + 10
    else -1
  }

  /** The number written in hexadecimal digits. */
  function NumberOf(text: seq<byte>): int {
    if text == [] then 0 else 16 * NumberOf(text[..|text| - 1]) + DigitOf(text[|text| - 1])
  }

  /** The eight digits at an offset. */
  function WordAt(bytes: seq<byte>, at: nat): int
    requires at + 8 <= |bytes|
  {
    NumberOf(bytes[at..at + 8])
  }

  lemma {:induction false} HexIsNumber(n: nat, width: nat)
    requires n < Power16(width)
    ensures NumberOf(Hex(n, width)) == n
    decreases width
  {
    if width > 0 {
      HexIsNumber(n / 16, width - 1);
      var text := Hex(n, width);
      assert text[..|text| - 1] == Hex(n / 16, width - 1) && text[|text| - 1] == HexDigit(n % 16);
    }
  }

  lemma FieldIsNumber(n: nat)
    requires n < WORD
    ensures NumberOf(Field(n)) == n
  {
    WordFits(n);
    HexIsNumber(n, 8);
  }

  // ----- Headers -----

  lemma PartOfPart<T>(whole: seq<T>, at: nat, part: seq<T>, from: nat, to: nat)
    requires at + |part| <= |whole| && whole[at..at + |part|] == part && from <= to <= |part|
    ensures whole[at + from..at + to] == part[from..to]
  {
    assert forall i :: 0 <= i < |part| ==> part[i] == whole[at..at + |part|][i] == whole[at + i];
  }

  lemma FieldAt(bytes: seq<byte>, digits: seq<byte>, k: nat, n: nat)
    requires |bytes| >= 110 && |digits| == 104 && bytes[6..110] == digits && k < 13 && n < WORD
    requires digits[k * 8..(k + 1) * 8] == Field(n)
    ensures WordAt(bytes, 6 + 8 * k) == n
  {
    PartOfPart(bytes, 6, digits, k * 8, (k + 1) * 8);
    FieldIsNumber(n);
  }

  lemma DigitsOf(values: seq<nat>, name: seq<byte>)
    requires |values| == FIELDS
    ensures |RawHeader(values, name)| >= 110
    ensures RawHeader(values, name)[6..110] == Join(values, Field) && |Join(values, Field)| == 104
  {
    HeaderParts(values, name, []);
    JoinWidth(values, Field, 8);
    assert RawHeader(values, name) + [] == RawHeader(values, name);
  }

  /** Every value of a header stands at its offset, in eight digits. */
  lemma ValueAt(values: seq<nat>, name: seq<byte>, k: nat)
    requires |values| == FIELDS && AreWords(values) && k < FIELDS
    ensures |RawHeader(values, name)| >= 110 && WordAt(RawHeader(values, name), 6 + 8 * k) == values[k]
  {
    DigitsOf(values, name);
    JoinAt(values, Field, 8, k);
    FieldAt(RawHeader(values, name), Join(values, Field), k, values[k]);
  }

  /** The text around the values: the magic, the name with its NUL, and NULs up to a multiple of four. */
  lemma TextOf(values: seq<nat>, name: seq<byte>)
    requires |values| == FIELDS
    ensures var bytes := RawHeader(values, name);
            && |bytes| % 4 == 0 && 110 + |name| < |bytes| <= 110 + |name| + 4
            && IsText(bytes[..6], "070701") && bytes[110..110 + |name|] == name
            && forall i :: 110 + |name| <= i < |bytes| ==> bytes[i] == 0
  {
    var bytes, zeros := RawHeader(values, name), Zeros(Padding(FIXED + |name| + 1));
    HeaderParts(values, name, []);
    HeaderSize(values, name);
    assert bytes + [] == bytes;
    NamePart(bytes, 110, name);
    JoinWidth(values, Field, 8);
    forall i | 110 + |name| < i < |bytes| ensures bytes[i] == 0 {
      assert bytes[i] == zeros[i - (110 + |name| + 1)];
    }
  }

  const TWO_32 := 0x1_0000_0000

  /** The header shows these thirteen numbers. */
  ghost predicate ShowsAll(h: seq<byte>, values: seq<nat>) {
    |h| >= 110 && |values| == FIELDS && forall k: nat :: k < FIELDS ==> ShowsAt(h, k, values[k])
  }

  ghost predicate ShowsAt(h: seq<byte>, k: nat, value: nat) {
    k < 13 && |h| >= 110 && WordAt(h, 6 + 8 * k) == value
  }

  lemma AllShown(values: seq<nat>, name: seq<byte>)
    requires |values| == FIELDS && AreWords(values)
    ensures ShowsAll(RawHeader(values, name), values)
  {
    HeaderSize(values, name);
    forall k: nat | k < FIELDS ensures ShowsAt(RawHeader(values, name), k, values[k]) {
      ValueAt(values, name, k);
    }
  }

  lemma ShownWords(h: seq<byte>, v: seq<nat>)
    requires ShowsAll(h, v)
    ensures && WordAt(h, 6) == v[0] && WordAt(h, 14) == v[1] && WordAt(h, 22) == v[2] && WordAt(h, 30) == v[3]
            && WordAt(h, 38) == v[4] && WordAt(h, 46) == v[5] && WordAt(h, 54) == v[6] && WordAt(h, 62) == v[7]
            && WordAt(h, 70) == v[8] && WordAt(h, 78) == v[9] && WordAt(h, 86) == v[10] && WordAt(h, 94) == v[11]
            && WordAt(h, 102) == v[12]
  {
    assert ShowsAt(h, 0, v[0]) && ShowsAt(h, 1, v[1]) && ShowsAt(h, 2, v[2]) && ShowsAt(h, 3, v[3]);
    assert ShowsAt(h, 4, v[4]) && ShowsAt(h, 5, v[5]) && ShowsAt(h, 6, v[6]) && ShowsAt(h, 7, v[7]);
    assert ShowsAt(h, 8, v[8]) && ShowsAt(h, 9, v[9]) && ShowsAt(h, 10, v[10]) && ShowsAt(h, 11, v[11]);
    assert ShowsAt(h, 12, v[12]);
  }

  /** The header of a file shows its status and the length of its name with the NUL, each number cut to 32 bits. */
  lemma HeaderShows(st: Stat, name: seq<byte>)
    requires IsStat(st)
    ensures var h := Header(st, name);
            && |h| >= 110 && IsText(h[..6], "070701")
            && WordAt(h, 6) == st.ino % TWO_32 && WordAt(h, 14) == st.mode && WordAt(h, 22) == st.uid
            && WordAt(h, 30) == st.gid && WordAt(h, 38) == st.nlink % TWO_32 && WordAt(h, 46) == st.mtime % TWO_32
            && WordAt(h, 54) == st.size % TWO_32 && WordAt(h, 62) == st.devMajor && WordAt(h, 70) == st.devMinor
            && WordAt(h, 78) == st.rdevMajor && WordAt(h, 86) == st.rdevMinor
            && WordAt(h, 94) == (|name| + 1) % TWO_32 && WordAt(h, 102) == 0
  {
    var values := Fields(st, |name| + 1);
    TextOf(values, name);
    AllShown(values, name);
    ShownWords(Header(st, name), values);
  }

  lemma TrailerNameIsText()
    ensures |TRAILER_NAME| == 10 && IsText(TRAILER_NAME, "TRAILER!!!")
  {
  }

  /** A header without content is as long as its text, and shows its numbers. */
  lemma HeaderText(values: seq<nat>, name: seq<byte>)
    requires |values| == FIELDS && AreWords(values) && |name| == 10
    ensures var h := RawHeader(values, name);
            && |h| == 124 && IsText(h[..6], "070701") && h[110..120] == name
            && (forall i :: 120 <= i < 124 ==> h[i] == 0) && ShowsAll(h, values)
  {
    TextOf(values, name);
    AllShown(values, name);
  }

  /** The trailer is the header of an empty file with one link and the name "TRAILER!!!". */
  lemma TrailerShows()
    ensures var t := Trailer();
            && |t| == 124 && IsText(t[..6], "070701") && IsText(t[110..120], "TRAILER!!!")
            && (forall i :: 120 <= i < 124 ==> t[i] == 0)
            && WordAt(t, 38) == 1 && WordAt(t, 54) == 0 && WordAt(t, 94) == 11
  {
    TrailerIsHeader();
    TrailerFits();
    TrailerNameIsText();
    HeaderText(TRAILER_FIELDS, TRAILER_NAME);
    ShownWords(Trailer(), TRAILER_FIELDS);
  }

  // ----- Names -----

  /** A decimal number without a sign. */
  function UnsignedOf(text: seq<byte>): int {
    if text == [] then 0 else 10 * UnsignedOf(text[..|text| - 1]) + text[|text| - 1] as int - '0' as int
  }

  function SignedOf(text: seq<byte>): int {
    if text != [] && text[0] as int == '-' as int then -UnsignedOf(text[1..]) else UnsignedOf(text)
  }

  /** Digits read back as the number, and the first of them is not a zero unless it is the only one. */
  lemma {:induction false} DigitsReadBack(n: nat)
    ensures UnsignedOf(Digits(n)) == n
    ensures n > 0 ==> Digits(n)[0] as int != '0' as int
    ensures |Digits(0)| == 1
  {
    var text := Digits(n);
    if n < 10 {
      assert text[..0] == [];
    } else {
      DigitsReadBack(n / 10);
      assert text[..|text| - 1] == Digits(n / 10);
      assert text[0] == Digits(n / 10)[0];
    }
  }

  /** The archived name is the file's own, a hyphen, and the modification time in decimal. */
  lemma NameShows(f: File)
    ensures var name, n := Name(f), |f.base|;
            && |name| > n + 1 && name[..n] == f.base && name[n] as int == '-' as int
            && SignedOf(name[n + 1..]) == f.stat.mtime
            && (f.stat.mtime > 0 ==> name[n + 1] as int != '0' as int)
  {
    var name, n, time := Name(f), |f.base|, Decimal(f.stat.mtime);
    assert name[..n] == f.base && name[n + 1..] == time && name[n + 1] == time[0];
    if f.stat.mtime < 0 {
      DigitsReadBack(-f.stat.mtime);
      assert time[1..] == Digits(-f.stat.mtime);
    } else {
      DigitsReadBack(f.stat.mtime);
      assert time[0] in time;
    }
  }

  // ----- Archives -----

  /** The entry carries the file's status, name and content, attribute by attribute. */
  ghost predicate Shows(e: Entry, f: File) {
    var st, v := f.stat, e.fields;
    && e.name == Name(f) && e.body == f.content && |v| == 13
    && v[0] == st.ino % TWO_32 && v[1] == st.mode && v[2] == st.uid && v[3] == st.gid && v[4] == st.nlink % TWO_32
    && v[5] == st.mtime % TWO_32 && v[6] == st.size && v[7] == st.devMajor && v[8] == st.devMinor
    && v[9] == st.rdevMajor && v[10] == st.rdevMinor && v[11] == |Name(f)| + 1 && v[12] == 0
  }

  lemma {:induction false} MapAt<S, T>(items: seq<S>, f: S -> T)
    ensures |Map(items, f)| == |items| && forall i :: 0 <= i < |items| ==> Map(items, f)[i] == f(items[i])
  {
    if items != [] {
      MapAt(items[1..], f);
    }
  }

  lemma EntryShows(f: File)
    requires IsStorable(f)
    ensures Shows(EntryOf(f), f)
  {
  }

  /** The archive of any list of files reads back as one entry per file, in order, with all its attributes. */
  lemma ArchiveShowsFiles(files: seq<File>)
    requires forall f :: f in files ==> IsStorable(f)
    ensures var entries := ReadArchive(Archive(files));
            && entries.Some? && |entries.value| == |files|
            && forall i :: 0 <= i < |files| ==> Shows(entries.value[i], files[i])
  {
    ArchiveReadsBack(files);
    EachShows(files, Map(files, EntryOf));
  }

  lemma EachShows(files: seq<File>, entries: seq<Entry>)
    requires entries == Map(files, EntryOf) && forall f :: f in files ==> IsStorable(f)
    ensures |entries| == |files| && forall i :: 0 <= i < |files| ==> Shows(entries[i], files[i])
  {
    MapAt(files, EntryOf);
    forall i | 0 <= i < |files| ensures Shows(entries[i], files[i]) {
      EntryShows(files[i]);
    }
  }
}
