/** The cpio "newc" archive of the debug logs: what is written for a list of files, and how it reads back. */
module Cpio {
  import opened Bytes
  import opened Options
  import opened Streams

  const MAGIC: seq<byte> := [48, 55, 48, 55, 48, 49]
  const TRAILER_NAME: seq<byte> := [84, 82, 65, 73, 76, 69, 82, 33, 33, 33]
  const FIELDS := 13
  const FIXED := 110  // the magic and the fields
  const SIZE_FIELD := 6
  const NAME_FIELD := 11
  const WORD := 0x1_0000_0000

  // ----- Hexadecimal fields -----

  function HexDigit(d: nat): byte
    requires d < 16
  {
    if d < 10 then (48 + d) as byte else (55 + d) as byte
  }

  function DigitValue(b: byte): Option<nat> {
    if 48 <= b <= 57 then Some(b as int - 48) else if 65 <= b <= 70 then Some(b as int - 55) else None
  }

  /** The low digits of a number, padded with zeros to a width. */
  function Hex(n: nat, width: nat): (digits: seq<byte>)
    ensures |digits| == width
    decreases width
  {
    if width == 0 then [] else Hex(n / 16, width - 1) + [HexDigit(n % 16)]
  }

  function HexValue(digits: seq<byte>): Option<nat> {
    if digits == [] then Some(0)
    else
      var high, low := HexValue(digits[..|digits| - 1]), DigitValue(digits[|digits| - 1]);
      if high.None? || low.None? then None else Some(16 * high.value + low.value)
  }

  function Power16(width: nat): (p: nat)
    ensures p > 0
  {
    if width == 0 then 1 else 16 * Power16(width - 1)
  }

  lemma {:induction false} HexReadsBack(n: nat, width: nat)
    requires n < Power16(width)
    ensures HexValue(Hex(n, width)) == Some(n)
    decreases width
  {
    if width > 0 {
      HexReadsBack(n / 16, width - 1);
      var digits := Hex(n, width);
      assert digits[..|digits| - 1] == Hex(n / 16, width - 1) && digits[|digits| - 1] == HexDigit(n % 16);
    }
  }

  lemma WordFits(n: nat)
    ensures n < Power16(8) <==> n < WORD
  {
    assert Power16(1) == 16 && Power16(2) == 256 && Power16(3) == 4096 && Power16(4) == 65536;
    assert Power16(5) == 16 * Power16(4) && Power16(6) == 16 * Power16(5);
    assert Power16(7) == 16 * Power16(6) && Power16(8) == 16 * Power16(7);
  }

  lemma FieldReadsBack(n: nat)
    requires n < WORD
    ensures HexValue(Hex(n, 8)) == Some(n)
  {
    WordFits(n);
    HexReadsBack(n, 8);
  }

  /** A 32-bit number printed at least one field wide: zeros, then its own eight digits. */
  function WideHex(n: nat, width: nat): (digits: seq<byte>)
    requires n < WORD && width >= 8
    ensures |digits| == width
  {
    seq(width - 8, _ => 48) + Hex(n, 8)
  }

  function Field(n: nat): (digits: seq<byte>)
    ensures |digits| == 8
  {
    Hex(n, 8)
  }

  ghost predicate AreWords(values: seq<nat>) {
    forall i :: 0 <= i < |values| ==> values[i] < WORD
  }

  lemma FieldsReadBack(values: seq<nat>)
    requires AreWords(values)
    ensures Split(Join(values, Field), 8, HexValue) == Some(values) && |Join(values, Field)| == |values| * 8
  {
    forall i | 0 <= i < |values| ensures |Field(values[i])| == 8 && HexValue(Field(values[i])) == Some(values[i]) {
      FieldReadsBack(values[i]);
    }
    SplitOfJoin(values, Field, 8, HexValue);
    JoinWidth(values, Field, 8);
  }

  // ----- Writing -----

  /** The file's status as far as the header shows it. */
  datatype Stat = Stat(ino: nat, mode: nat, uid: nat, gid: nat, nlink: nat, mtime: int, size: nat,
                       devMajor: nat, devMinor: nat, rdevMajor: nat, rdevMinor: nat)

  /** Fields that are not cut to 32 bits when they are printed. */
  ghost predicate IsStat(st: Stat) {
    && st.mode < WORD && st.uid < WORD && st.gid < WORD
    && st.devMajor < WORD && st.devMinor < WORD && st.rdevMajor < WORD && st.rdevMinor < WORD
  }

  function Fields(st: Stat, nameSize: nat): (values: seq<nat>)
    ensures |values| == FIELDS && values[SIZE_FIELD] == st.size % WORD && values[NAME_FIELD] == nameSize % WORD
  {
    [st.ino % WORD, st.mode, st.uid, st.gid, st.nlink % WORD, st.mtime % WORD, st.size % WORD,
     st.devMajor, st.devMinor, st.rdevMajor, st.rdevMinor, nameSize % WORD, 0]
  }

  function Padding(length: nat): (n: nat)
    ensures n < 4 && (length + n) % 4 == 0
  {
    if length % 4 == 0 then 0 else 4 - length % 4
  }

  function Zeros(n: nat): seq<byte>
    requires n < 4
  {
    [0, 0, 0][..n]
  }

  function RawHeader(values: seq<nat>, name: seq<byte>): seq<byte> {
    MAGIC + Join(values, Field) + (name + [0]) + Zeros(Padding(FIXED + |name| + 1))
  }

  lemma HeaderSize(values: seq<nat>, name: seq<byte>)
    requires |values| == FIELDS
    ensures |RawHeader(values, name)| == FIXED + |name| + 1 + Padding(FIXED + |name| + 1)
    ensures |RawHeader(values, name)| % 4 == 0
  {
    JoinWidth(values, Field, 8);
  }

  function Header(st: Stat, name: seq<byte>): seq<byte> {
    RawHeader(Fields(st, |name| + 1), name)
  }

  function Trailer(): seq<byte> {
    MAGIC + WideHex(1, 40) + WideHex(0x0b, 56) + WideHex(0, 8) + TRAILER_NAME + [0, 0, 0, 0]
  }

  /** Some byte is the NUL that ends a name. */
  function HasNul(bytes: seq<byte>): bool {
    bytes != [] && (bytes[0] == 0 || HasNul(bytes[1..]))
  }

  lemma {:induction false} HasNulIff(bytes: seq<byte>)
    ensures HasNul(bytes) <==> 0 in bytes
  {
    if bytes != [] {
      HasNulIff(bytes[1..]);
      assert bytes == [bytes[0]] + bytes[1..];
    }
  }

  function Digits(n: nat): (digits: seq<byte>)
    ensures digits != [] && forall d :: d in digits ==> 48 <= d <= 57
  {
    if n < 10 then [(48 + n) as byte] else Digits(n / 10) + [(48 + n % 10) as byte]
  }

  function Decimal(n: int): (digits: seq<byte>)
    ensures digits != [] && 0 !in digits && 48 <= digits[|digits| - 1] <= 57
  {
    if n < 0 then [45] + Digits(-n) else Digits(n)
  }

  datatype File = File(stat: Stat, base: seq<byte>, content: seq<byte>)

  /** The archived name: the file's own, a hyphen and its modification time. */
  function Name(f: File): seq<byte> {
    f.base + [45] + Decimal(f.stat.mtime)
  }

  /** A record with whatever bytes were written for the body. */
  function Record(st: Stat, name: seq<byte>, body: seq<byte>): seq<byte> {
    Header(st, name) + body + Zeros(Padding(st.size))
  }

  function FileRecord(f: File): seq<byte> {
    Record(f.stat, Name(f), f.content)
  }

  function Archive(files: seq<File>): seq<byte> {
    Join(files, FileRecord) + Trailer()
  }

  // ----- Reading -----

  datatype Entry = Entry(fields: seq<nat>, name: seq<byte>, body: seq<byte>)

  /** The record at the start of the bytes, and where the next one starts. */
  function ReadEntry(bytes: seq<byte>): Option<(Entry, nat)> {
    if |bytes| < FIXED || bytes[..|MAGIC|] != MAGIC then None
    else ReadRest(bytes, Split(bytes[|MAGIC|..FIXED], 8, HexValue))
  }

  function ReadRest(bytes: seq<byte>, fields: Option<seq<nat>>): Option<(Entry, nat)> {
    if fields.None? || |fields.value| != FIELDS then None
    else
      var nameEnd := FIXED + fields.value[NAME_FIELD];
      var bodyAt := nameEnd + Padding(nameEnd);
      var bodyEnd := bodyAt + fields.value[SIZE_FIELD];
      var next := bodyEnd + Padding(bodyEnd);
      if next > |bytes| || nameEnd == FIXED || bytes[nameEnd - 1] != 0 || HasNul(bytes[FIXED..nameEnd - 1]) then None
      else Some((Entry(fields.value, bytes[FIXED..nameEnd - 1], bytes[bodyAt..bodyEnd]), next))
  }

  function IsTrailer(e: Entry): bool {
    e.name == TRAILER_NAME
  }

  /** All entries up to the trailer. */
  function ReadArchive(bytes: seq<byte>): Option<seq<Entry>> {
    ReadUntil(bytes, ReadEntry, IsTrailer)
  }

  // ----- Round trip -----

  lemma PaddingAfterAligned(aligned: nat, length: nat)
    requires aligned % 4 == 0
    ensures Padding(aligned + length) == Padding(length)
  {
  }

  lemma PaddingOfCut(length: nat)
    ensures Padding(length % WORD) == Padding(length)
  {
    assert length == WORD * (length / WORD) + length % WORD;
  }

  lemma AddAligned(a: nat, b: nat)
    requires a % 4 == 0 && b % 4 == 0
    ensures (a + b) % 4 == 0
  {
  }

  lemma Sections<T>(a: seq<T>, b: seq<T>, c: seq<T>, d: seq<T>)
    ensures var all := a + b + c + d;
            && all[..|a|] == a && all[|a|..|a| + |b|] == b
            && all[|a| + |b|..|a| + |b| + |c|] == c && all[|a| + |b| + |c|..] == d
  {
  }

  lemma MoveIn<T>(a: seq<T>, b: seq<T>, c: seq<T>, d: seq<T>, e: seq<T>)
    ensures a + b + c + d + e == a + b + c + (d + e)
  {
  }

  /** The parts of a header are found where the reader looks for them. */
  lemma HeaderParts(values: seq<nat>, name: seq<byte>, after: seq<byte>)
    requires |values| == FIELDS
    ensures var bytes := RawHeader(values, name) + after;
            && |bytes| >= FIXED + |name| + 1
            && bytes[..|MAGIC|] == MAGIC && bytes[|MAGIC|..FIXED] == Join(values, Field)
            && bytes[FIXED..FIXED + |name| + 1] == name + [0]
  {
    var digits, zeros := Join(values, Field), Zeros(Padding(FIXED + |name| + 1));
    JoinWidth(values, Field, 8);
    Sections(MAGIC, digits, name + [0], zeros + after);
    MoveIn(MAGIC, digits, name + [0], zeros, after);
  }

  lemma NamePart(bytes: seq<byte>, at: nat, name: seq<byte>)
    requires at + |name| + 1 <= |bytes| && bytes[at..at + |name| + 1] == name + [0]
    ensures bytes[at..at + |name|] == name && bytes[at + |name|] == 0
  {
    assert bytes[at + |name|] == (name + [0])[|name|];
    assert bytes[at..at + |name|] == (name + [0])[..|name|];
  }

  ghost predicate Fitting(values: seq<nat>, name: seq<byte>) {
    |values| == FIELDS && AreWords(values) && !HasNul(name) && values[NAME_FIELD] == |name| + 1
  }

  /** The body of the announced size is taken from behind the header, and its padding skipped. */
  ghost function Taken(values: seq<nat>, name: seq<byte>, header: nat, after: seq<byte>): Option<(Entry, nat)>
    requires |values| == FIELDS
  {
    var size := values[SIZE_FIELD];
    if size + Padding(size) > |after| then None
    else Some((Entry(values, name, after[..size]), header + size + Padding(size)))
  }

  /** The rest of a header whose fields are known. */
  lemma RestOfHeader(header: seq<byte>, values: seq<nat>, name: seq<byte>, after: seq<byte>)
    requires Fitting(values, name) && |header| == FIXED + |name| + 1 + Padding(FIXED + |name| + 1)
    requires (header + after)[FIXED..FIXED + |name| + 1] == name + [0]
    ensures ReadRest(header + after, Some(values)) == Taken(values, name, |header|, after)
  {
    var bytes, start, size := header + after, |header|, values[SIZE_FIELD];
    NamePart(bytes, FIXED, name);
    PaddingAfterAligned(start, size);
    if size + Padding(size) <= |after| {
      assert bytes[start..start + size] == after[..size];
    }
  }

  lemma ReadFixed(bytes: seq<byte>, values: seq<nat>)
    requires |bytes| >= FIXED && bytes[..|MAGIC|] == MAGIC && bytes[|MAGIC|..FIXED] == Join(values, Field)
             && AreWords(values)
    ensures ReadEntry(bytes) == ReadRest(bytes, Some(values))
  {
    FieldsReadBack(values);
  }

  /** What the reader sees of any header followed by enough bytes. */
  lemma ReadHeader(values: seq<nat>, name: seq<byte>, after: seq<byte>)
    requires Fitting(values, name)
    ensures ReadEntry(RawHeader(values, name) + after) == Taken(values, name, |RawHeader(values, name)|, after)
  {
    HeaderParts(values, name, after);
    ReadFixed(RawHeader(values, name) + after, values);
    HeaderSize(values, name);
    RestOfHeader(RawHeader(values, name), values, name, after);
  }

  type Reader = seq<byte> -> Option<(Entry, nat)>

  /** The reader takes any header apart. */
  ghost predicate TakesHeaders(read: Reader) {
    forall values, name, after :: Fitting(values, name) ==>
                                    read(RawHeader(values, name) + after)
                                         == Taken(values, name, |RawHeader(values, name)|, after)
  }

  lemma ReadEntryTakesHeaders()
    ensures TakesHeaders(ReadEntry)
  {
    forall values, name, after | Fitting(values, name)
      ensures ReadEntry(RawHeader(values, name) + after) == Taken(values, name, |RawHeader(values, name)|, after)
    {
      ReadHeader(values, name, after);
    }
  }

  ghost predicate IsName(name: seq<byte>) {
    !HasNul(name) && |name| + 1 < WORD
  }

  lemma FieldsFit(st: Stat, name: seq<byte>)
    requires IsStat(st) && IsName(name)
    ensures Fitting(Fields(st, |name| + 1), name)
  {
  }

  /** What is taken from behind a header is the body written there, if its length is the one announced. */
  lemma TakenIff(values: seq<nat>, name: seq<byte>, header: nat, body: seq<byte>, zeros: seq<byte>, after: seq<byte>)
    requires |values| == FIELDS && |zeros| == Padding(values[SIZE_FIELD])
    ensures Taken(values, name, header, body + zeros + after)
         == Some((Entry(values, name, body), header + |body| + |zeros|))
       <==> |body| == values[SIZE_FIELD]
  {
    if |body| == values[SIZE_FIELD] {
      assert (body + zeros + after)[..|body|] == body;
    }
  }

  lemma RegroupRecord<T>(header: seq<T>, body: seq<T>, zeros: seq<T>, after: seq<T>)
    ensures header + body + zeros + after == header + (body + zeros + after)
  {
  }

  lemma ValuesReadBackIff(read: Reader, values: seq<nat>, name: seq<byte>, body: seq<byte>, zeros: seq<byte>,
                          after: seq<byte>)
    requires TakesHeaders(read)
    requires Fitting(values, name) && |zeros| == Padding(values[SIZE_FIELD])
    ensures read(RawHeader(values, name) + body + zeros + after)
         == Some((Entry(values, name, body), |RawHeader(values, name)| + |body| + |zeros|))
       <==> |body| == values[SIZE_FIELD]
  {
    var header := RawHeader(values, name);
    assert read(header + (body + zeros + after)) == Taken(values, name, |header|, body + zeros + after);
    RegroupRecord(header, body, zeros, after);
    TakenIff(values, name, |header|, body, zeros, after);
  }

  /**
   * A record reads back as its header and the whole body, leaving the reader at its end, if and
   * only if the body written is as long as the 32-bit size in the header.
   */
  lemma RecordReadsBackIff(read: Reader, st: Stat, name: seq<byte>, body: seq<byte>, after: seq<byte>)
    requires TakesHeaders(read) && IsStat(st) && IsName(name)
    ensures read(Record(st, name, body) + after)
         == Some((Entry(Fields(st, |name| + 1), name, body), |Record(st, name, body)|))
       <==> |body| == st.size % WORD
  {
    FieldsFit(st, name);
    PaddingOfCut(st.size);
    ValuesReadBackIff(read, Fields(st, |name| + 1), name, body, Zeros(Padding(st.size)), after);
  }

  lemma RecordReadsOnce(read: Reader, st: Stat, name: seq<byte>, body: seq<byte>, after: seq<byte>)
    requires TakesHeaders(read) && IsStat(st) && IsName(name) && |body| == st.size < WORD
    ensures read(Record(st, name, body) + after)
         == Some((Entry(Fields(st, |name| + 1), name, body), |Record(st, name, body)|))
  {
    RecordReadsBackIff(read, st, name, body, after);
  }

  lemma RecordIsNotEmpty(st: Stat, name: seq<byte>, body: seq<byte>)
    ensures Record(st, name, body) != []
  {
    HeaderSize(Fields(st, |name| + 1), name);
  }

  lemma RecordReadsBack(read: Reader, st: Stat, name: seq<byte>, body: seq<byte>)
    requires TakesHeaders(read) && IsStat(st) && IsName(name) && |body| == st.size < WORD
    ensures ReadsBack(Record(st, name, body), read, Entry(Fields(st, |name| + 1), name, body))
  {
    RecordIsNotEmpty(st, name, body);
    var record, entry := Record(st, name, body), Entry(Fields(st, |name| + 1), name, body);
    forall after ensures read(record + after) == Some((entry, |record|)) {
      RecordReadsOnce(read, st, name, body, after);
    }
  }

  lemma RecordIsAligned(st: Stat, name: seq<byte>, body: seq<byte>)
    requires |body| == st.size
    ensures |Record(st, name, body)| % 4 == 0
  {
    HeaderSize(Fields(st, |name| + 1), name);
    AddAligned(|Header(st, name)|, st.size + Padding(st.size));
  }

  const TRAILER_FIELDS: seq<nat> := [0, 0, 0, 0, 1, 0, 0, 0, 0, 0, 0, 11, 0]

  lemma OneField(n: nat)
    ensures Join([n], Field) == Field(n)
  {
    var none: seq<nat> := [];
    assert [n][1..] == none && Join(none, Field) == [];
  }

  function NoNumbers(count: nat): (zeros: seq<nat>)
    ensures |zeros| == count
  {
    if count == 0 then [] else NoNumbers(count - 1) + [0]
  }

  lemma ZeroField()
    ensures Field(0) == [48, 48, 48, 48, 48, 48, 48, 48]
  {
  }

  lemma {:induction false} ZeroFields(count: nat)
    ensures Join(NoNumbers(count), Field) == seq(8 * count, _ => 48)
  {
    if count > 0 {
      ZeroFields(count - 1);
      JoinConcat(NoNumbers(count - 1), [0], Field);
      OneField(0);
      ZeroField();
    }
  }

  /** One wide number covers the field it ends in and zero fields before it. */
  lemma WideField(n: nat, count: nat)
    requires n < WORD
    ensures WideHex(n, 8 * count + 8) == Join(NoNumbers(count) + [n], Field)
  {
    JoinConcat(NoNumbers(count), [n], Field);
    OneField(n);
    ZeroFields(count);
  }

  lemma SomeZeros()
    ensures NoNumbers(0) == [] && NoNumbers(4) == [0, 0, 0, 0] && NoNumbers(6) == [0, 0, 0, 0, 0, 0]
  {
    assert NoNumbers(1) == [0] && NoNumbers(2) == [0, 0] && NoNumbers(3) == [0, 0, 0]
           && NoNumbers(5) == [0, 0, 0, 0, 0];
  }

  lemma Regroup<T>(m: seq<T>, a: seq<T>, b: seq<T>, c: seq<T>, n: seq<T>, z: T)
    ensures m + a + b + c + n + [z, z, z, z] == m + (a + (b + c)) + (n + [z]) + [z, z, z]
  {
  }

  /** The three numbers of the trailer's format string are thirteen fields. */
  lemma TrailerDigits()
    ensures Join(TRAILER_FIELDS, Field) == WideHex(1, 40) + (WideHex(11, 56) + WideHex(0, 8))
  {
    WideField(1, 4);
    WideField(11, 6);
    WideField(0, 0);
    SomeZeros();
    var a, b, c := NoNumbers(4) + [1], NoNumbers(6) + [11], NoNumbers(0) + [0];
    assert TRAILER_FIELDS == a + (b + c);
    JoinConcat(a, b + c, Field);
    JoinConcat(b, c, Field);
  }

  lemma HeaderOfDigits(a: seq<byte>, b: seq<byte>, c: seq<byte>, values: seq<nat>, name: seq<byte>)
    requires Join(values, Field) == a + (b + c) && |name| == 10
    ensures RawHeader(values, name) == MAGIC + a + b + c + name + [0, 0, 0, 0]
  {
    assert Padding(FIXED + |name| + 1) == 3 && Zeros(3) == [0, 0, 0];
    Regroup(MAGIC, a, b, c, name, 0);
  }

  lemma TrailerIsHeader()
    ensures Trailer() == RawHeader(TRAILER_FIELDS, TRAILER_NAME)
  {
    TrailerDigits();
    HeaderOfDigits(WideHex(1, 40), WideHex(11, 56), WideHex(0, 8), TRAILER_FIELDS, TRAILER_NAME);
  }

  const TRAILER := Entry(TRAILER_FIELDS, TRAILER_NAME, [])

  lemma TrailerFits()
    ensures Fitting(TRAILER_FIELDS, TRAILER_NAME) && TRAILER_FIELDS[SIZE_FIELD] == 0
  {
  }

  lemma EmptyFileReadsBack(read: Reader, values: seq<nat>, name: seq<byte>)
    requires TakesHeaders(read) && Fitting(values, name) && values[SIZE_FIELD] == 0
    ensures ReadsBack(RawHeader(values, name), read, Entry(values, name, []))
  {
    HeaderSize(values, name);
    forall after ensures read(RawHeader(values, name) + after)
                      == Some((Entry(values, name, []), |RawHeader(values, name)|)) {
      assert Taken(values, name, |RawHeader(values, name)|, after).value.0.body == after[..0];
    }
  }

  /** The fixed text that ends the archive is the well-formed record of an empty file of that name. */
  lemma TrailerReadsBack(read: Reader)
    requires TakesHeaders(read)
    ensures ReadsBack(Trailer(), read, TRAILER) && IsTrailer(TRAILER)
  {
    TrailerIsHeader();
    TrailerFits();
    EmptyFileReadsBack(read, TRAILER_FIELDS, TRAILER_NAME);
  }

  /** Names end in a digit of the modification time, so none is the trailer's. */
  lemma NameIsNotTrailer(f: File)
    ensures Name(f) != TRAILER_NAME
    ensures !HasNul(f.base) ==> !HasNul(Name(f))
  {
    HasNulIff(f.base);
    HasNulIff(Name(f));
    var time := Decimal(f.stat.mtime);
    assert Name(f)[|Name(f)| - 1] == time[|time| - 1];
  }

  /** A file whose record is sound: nothing cut, and a body of the length announced. */
  ghost predicate IsStorable(f: File) {
    IsStat(f.stat) && !HasNul(f.base) && |Name(f)| + 1 < WORD && |f.content| == f.stat.size < WORD
  }

  function EntryOf(f: File): Entry {
    Entry(Fields(f.stat, |Name(f)| + 1), Name(f), f.content)
  }

  lemma FileReadsBack(read: Reader, f: File)
    requires TakesHeaders(read) && IsStorable(f)
    ensures ReadsBack(FileRecord(f), read, EntryOf(f)) && !IsTrailer(EntryOf(f))
  {
    NameIsNotTrailer(f);
    RecordReadsBack(read, f.stat, Name(f), f.content);
  }

  lemma FilesReadBack(read: Reader, files: seq<File>)
    requires TakesHeaders(read) && forall f :: f in files ==> IsStorable(f)
    ensures ReadUntil(Archive(files), read, IsTrailer) == Some(Map(files, EntryOf))
  {
    forall i | 0 <= i < |files|
      ensures ReadsBack(FileRecord(files[i]), read, EntryOf(files[i])) && !IsTrailer(EntryOf(files[i]))
    {
      FileReadsBack(read, files[i]);
    }
    TrailerReadsBack(read);
    ReadUntilOfJoin(files, FileRecord, Trailer(), read, IsTrailer, EntryOf, TRAILER);
  }

  /** The archive of any list of files reads back as exactly that list. */
  lemma ArchiveReadsBack(files: seq<File>)
    requires forall f :: f in files ==> IsStorable(f)
    ensures ReadArchive(Archive(files)) == Some(Map(files, EntryOf))
  {
    ReadEntryTakesHeaders();
    FilesReadBack(ReadEntry, files);
  }
}
