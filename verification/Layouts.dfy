/** Variable-stride records in flat memory, and the walkers that copy them out. */
module Layouts {
  import opened Bytes
  import opened Options

  type Memory = seq<byte>

  /** A fixed header with a 32-bit count in it, then that many items of one size. */
  datatype Shape = Shape(headerSize: nat, countAt: nat, itemSize: nat)

  ghost predicate IsShape(shape: Shape) {
    shape.countAt + 4 <= shape.headerSize
  }

  /** The unsigned number in some bytes, least significant first. */
  function NumberAt(mem: Memory, at: nat, width: nat): nat
    requires at + width <= |mem|
    decreases width
  {
    if width == 0 then 0 else mem[at] as int + 0x100 * NumberAt(mem, at + 1, width - 1)
  }

  function Count(header: Memory, at: nat): nat
    requires at + 4 <= |header|
  {
    NumberAt(header, at, 4)
  }

  /** A 32-bit number in memory, least significant byte first. */
  function Encoded(n: nat): (bytes: Memory)
    requires n < 0x1_0000_0000
    ensures |bytes| == 4
  {
    [(n % 0x100) as byte, (n / 0x100 % 0x100) as byte, (n / 0x1_0000 % 0x100) as byte, (n / 0x100_0000) as byte]
  }

  lemma CountByBytes(mem: Memory, at: nat)
    requires at + 4 <= |mem|
    ensures Count(mem, at) == mem[at] as int + 0x100 * mem[at + 1] as int + 0x1_0000 * mem[at + 2] as int
                              + 0x100_0000 * mem[at + 3] as int
  {
    assert NumberAt(mem, at + 3, 1) == mem[at + 3] as int;
    assert NumberAt(mem, at + 2, 2) == mem[at + 2] as int + 0x100 * NumberAt(mem, at + 3, 1);
    assert NumberAt(mem, at + 1, 3) == mem[at + 1] as int + 0x100 * NumberAt(mem, at + 2, 2);
  }

  lemma DivideTwice(n: nat)
    ensures n / 0x1_0000 == n / 0x100 / 0x100 && n / 0x100_0000 == n / 0x1_0000 / 0x100
  {
  }

  /** A count reads back as the number that was stored. */
  lemma CountReadsBack(mem: Memory, at: nat, n: nat)
    requires n < 0x1_0000_0000 && at + 4 <= |mem| && mem[at..at + 4] == Encoded(n)
    ensures Count(mem, at) == n
  {
    CountByBytes(mem, at);
    DivideTwice(n);
    var bytes := mem[at..at + 4];
    assert mem[at] == bytes[0] && mem[at + 1] == bytes[1] && mem[at + 2] == bytes[2] && mem[at + 3] == bytes[3];
  }

  function ZeroedAt(mem: Memory, at: nat, width: nat): (zeroed: Memory)
    ensures |zeroed| == |mem|
    decreases width
  {
    if width == 0 || at >= |mem| then mem else ZeroedAt(mem[at := 0], at + 1, width - 1)
  }

  /** Header copies carry a count of zero; what was counted is copied beside them. */
  function Cleared(header: Memory, at: nat): Memory {
    ZeroedAt(header, at, 4)
  }

  lemma {:induction false} ZeroedFacts(mem: Memory, at: nat, width: nat)
    requires at + width <= |mem|
    ensures forall k :: 0 <= k < |mem| ==> ZeroedAt(mem, at, width)[k] == if at <= k < at + width then 0 else mem[k]
    decreases width
  {
    if width > 0 {
      ZeroedFacts(mem[at := 0], at + 1, width - 1);
    }
  }

  lemma {:induction false} NumberOfZeros(mem: Memory, at: nat, width: nat)
    requires at + width <= |mem| && forall k :: at <= k < at + width ==> mem[k] == 0
    ensures NumberAt(mem, at, width) == 0
    decreases width
  {
    if width > 0 {
      NumberOfZeros(mem, at + 1, width - 1);
    }
  }

  lemma ClearedFacts(header: Memory, at: nat)
    requires at + 4 <= |header|
    ensures Count(Cleared(header, at), at) == 0
    ensures Cleared(header, at) == header[..at] + [0, 0, 0, 0] + header[at + 4..]
  {
    ZeroedFacts(header, at, 4);
    NumberOfZeros(Cleared(header, at), at, 4);
  }

  ghost function Concat(parts: seq<Memory>): Memory {
    if parts == [] then [] else parts[0] + Concat(parts[1..])
  }

  ghost predicate AllOfSize(parts: seq<Memory>, size: nat) {
    forall p :: p in parts ==> |p| == size
  }

  lemma TimesStep(size: nat, n: nat)
    ensures size * (n + 1) == size + size * n
  {
  }

  lemma {:induction false} ConcatSize(parts: seq<Memory>, size: nat)
    requires AllOfSize(parts, size)
    ensures |Concat(parts)| == size * |parts|
  {
    if parts != [] {
      ConcatSize(parts[1..], size);
      TimesStep(size, |parts| - 1);
    }
  }

  /** The memory has these bytes at this address. */
  ghost predicate Holds(mem: Memory, at: nat, bytes: Memory) {
    at + |bytes| <= |mem| && mem[at..at + |bytes|] == bytes
  }

  lemma HoldsParts(mem: Memory, at: nat, a: Memory, b: Memory)
    requires Holds(mem, at, a + b)
    ensures Holds(mem, at, a) && Holds(mem, at + |a|, b)
  {
    assert (a + b)[..|a|] == a && (a + b)[|a|..] == b;
  }

  lemma {:induction false} ConcatConcat(a: seq<Memory>, b: seq<Memory>)
    ensures Concat(a + b) == Concat(a) + Concat(b)
  {
    if a == [] {
      assert a + b == b;
    } else {
      assert (a + b)[1..] == a[1..] + b;
      ConcatConcat(a[1..], b);
    }
  }

  /** Each part starts where the parts before it end. */
  lemma PartAt(mem: Memory, start: nat, parts: seq<Memory>, i: nat)
    requires Holds(mem, start, Concat(parts)) && i < |parts|
    ensures Holds(mem, start + |Concat(parts[..i])|, parts[i])
    ensures |Concat(parts[..i + 1])| == |Concat(parts[..i])| + |parts[i]|
  {
    assert parts[..i + 1] == parts[..i] + [parts[i]] && parts == parts[..i + 1] + parts[i + 1..];
    ConcatConcat(parts[..i], [parts[i]]);
    ConcatConcat(parts[..i + 1], parts[i + 1..]);
    assert Concat([parts[i]]) == parts[i] + Concat([]);
    HoldsParts(mem, start, Concat(parts[..i + 1]), Concat(parts[i + 1..]));
    HoldsParts(mem, start, Concat(parts[..i]), parts[i]);
  }

  /** One header with its items: a peer and its rates, or a radio combination and its configurations. */
  datatype Record = Record(header: Memory, items: seq<Memory>)
  datatype Link = Link(stat: Memory, peers: seq<Record>)

  ghost predicate IsRecord(shape: Shape, p: Record)
    requires IsShape(shape)
  {
    && |p.header| == shape.headerSize && Count(p.header, shape.countAt) == |p.items|
    && AllOfSize(p.items, shape.itemSize)
  }

  ghost function FlatRecord(p: Record): Memory {
    p.header + Concat(p.items)
  }

  ghost predicate AreRecords(shape: Shape, peers: seq<Record>)
    requires IsShape(shape)
  {
    peers == [] || (IsRecord(shape, peers[0]) && AreRecords(shape, peers[1..]))
  }

  ghost function FlatRecords(peers: seq<Record>): Memory {
    Concat(RecordParts(peers))
  }

  ghost function RecordParts(peers: seq<Record>): (parts: seq<Memory>)
    ensures |parts| == |peers|
  {
    if peers == [] then [] else [FlatRecord(peers[0])] + RecordParts(peers[1..])
  }

  ghost function RecordCopy(shape: Shape, p: Record): Record
  {
    Record(Cleared(p.header, shape.countAt), p.items)
  }

  ghost function RecordCopies(shape: Shape, peers: seq<Record>): (copies: seq<Record>)
    ensures |copies| == |peers|
  {
    if peers == [] then []
    else RecordCopies(shape, peers[..|peers| - 1]) + [RecordCopy(shape, peers[|peers| - 1])]
  }

  /** Links are headers of one size counting peers, whose size varies. */
  datatype LinkShape = LinkShape(statSize: nat, peersAt: nat, peer: Shape)

  ghost predicate IsLinkShape(shape: LinkShape) {
    shape.peersAt + 4 <= shape.statSize && IsShape(shape.peer)
  }

  ghost predicate IsLink(shape: LinkShape, l: Link)
    requires IsLinkShape(shape)
  {
    && |l.stat| == shape.statSize && Count(l.stat, shape.peersAt) == |l.peers|
    && AreRecords(shape.peer, l.peers)
  }

  ghost function FlatLink(l: Link): Memory {
    l.stat + FlatRecords(l.peers)
  }

  ghost predicate AreLinks(shape: LinkShape, links: seq<Link>)
    requires IsLinkShape(shape)
  {
    links == [] || (IsLink(shape, links[0]) && AreLinks(shape, links[1..]))
  }

  ghost function FlatLinks(links: seq<Link>): Memory {
    Concat(LinkParts(links))
  }

  ghost function LinkParts(links: seq<Link>): (parts: seq<Memory>)
    ensures |parts| == |links|
  {
    if links == [] then [] else [FlatLink(links[0])] + LinkParts(links[1..])
  }

  ghost function LinkCopy(shape: LinkShape, l: Link): Link
  {
    Link(Cleared(l.stat, shape.peersAt), RecordCopies(shape.peer, l.peers))
  }

  ghost function LinkCopies(shape: LinkShape, links: seq<Link>): (copies: seq<Link>)
    ensures |copies| == |links|
  {
    if links == [] then []
    else LinkCopies(shape, links[..|links| - 1]) + [LinkCopy(shape, links[|links| - 1])]
  }

  method CopyItems(mem: Memory, start: nat, count: nat, size: nat, ghost items: seq<Memory>) returns (copy: seq<Memory>)
    requires |items| == count && AllOfSize(items, size) && Holds(mem, start, Concat(items))
    ensures copy == items
  {
    copy := [];
    var at: nat := start;
    for k := 0 to count
      invariant copy == items[..k] && at == start + |Concat(items[..k])|
    {
      PartAt(mem, start, items, k);
      assert items[k] in items;
      copy := copy + [mem[at..at + size]];
      at := at + size;
    }
  }

  method CopyPeerInfo(shape: Shape, mem: Memory, at: nat, ghost peer: Record) returns (copy: Record, next: nat)
    requires IsShape(shape) && IsRecord(shape, peer) && Holds(mem, at, FlatRecord(peer))
    ensures copy == RecordCopy(shape, peer) && next == at + |FlatRecord(peer)|
  {
    HoldsParts(mem, at, peer.header, Concat(peer.items));
    ConcatSize(peer.items, shape.itemSize);
    var info := mem[at..at + shape.headerSize];
    var count := Count(info, shape.countAt);
    var rates := [];
    if count > 0 {
      rates := CopyItems(mem, at + shape.headerSize, count, shape.itemSize, peer.items);
    }
    copy := Record(Cleared(info, shape.countAt), rates);
    next := at + shape.headerSize + shape.itemSize * count;
  }

  /** Where the walk is after some of the peers. */
  ghost function RecordAddress(start: nat, peers: seq<Record>, i: nat): nat
    requires i <= |peers|
  {
    start + |Concat(RecordParts(peers)[..i])|
  }

  lemma {:induction false} EachIsRecord(shape: Shape, peers: seq<Record>, i: nat)
    requires IsShape(shape) && AreRecords(shape, peers) && i < |peers|
    ensures IsRecord(shape, peers[i])
  {
    if i > 0 {
      EachIsRecord(shape, peers[1..], i - 1);
    }
  }

  lemma {:induction false} EachIsLink(shape: LinkShape, links: seq<Link>, i: nat)
    requires IsLinkShape(shape) && AreLinks(shape, links) && i < |links|
    ensures IsLink(shape, links[i])
  {
    if i > 0 {
      EachIsLink(shape, links[1..], i - 1);
    }
  }

  lemma {:induction false} RecordPart(peers: seq<Record>, i: nat)
    requires i < |peers|
    ensures RecordParts(peers)[i] == FlatRecord(peers[i])
  {
    if i > 0 {
      RecordPart(peers[1..], i - 1);
    }
  }

  lemma RecordAt(mem: Memory, start: nat, peers: seq<Record>, i: nat)
    requires Holds(mem, start, FlatRecords(peers)) && i < |peers|
    ensures Holds(mem, RecordAddress(start, peers, i), FlatRecord(peers[i]))
    ensures RecordAddress(start, peers, i + 1) == RecordAddress(start, peers, i) + |FlatRecord(peers[i])|
  {
    PartAt(mem, start, RecordParts(peers), i);
    RecordPart(peers, i);
  }

  lemma RecordEnds(start: nat, peers: seq<Record>)
    ensures RecordAddress(start, peers, 0) == start
    ensures RecordAddress(start, peers, |peers|) == start + |FlatRecords(peers)|
  {
    assert RecordParts(peers)[..|peers|] == RecordParts(peers);
  }

  lemma RecordCopiesStep(shape: Shape, peers: seq<Record>, i: nat)
    requires i < |peers|
    ensures RecordCopies(shape, peers[..i + 1]) == RecordCopies(shape, peers[..i]) + [RecordCopy(shape, peers[i])]
  {
    assert peers[..i + 1][..i] == peers[..i];
  }

  lemma LinkCopiesStep(shape: LinkShape, links: seq<Link>, i: nat)
    requires i < |links|
    ensures LinkCopies(shape, links[..i + 1]) == LinkCopies(shape, links[..i]) + [LinkCopy(shape, links[i])]
  {
    assert links[..i + 1][..i] == links[..i];
  }

  /** The copy of one of several peers, and the address of the next. */
  method CopyPeerAt(shape: Shape, mem: Memory, at: nat, ghost start: nat, ghost peers: seq<Record>, ghost i: nat)
    returns (copy: Record, next: nat)
    requires IsShape(shape) && AreRecords(shape, peers) && i < |peers| && Holds(mem, start, FlatRecords(peers))
    requires at == RecordAddress(start, peers, i)
    ensures copy == RecordCopy(shape, peers[i]) && next == RecordAddress(start, peers, i + 1)
  {
    RecordAt(mem, start, peers, i);
    EachIsRecord(shape, peers, i);
    copy, next := CopyPeerInfo(shape, mem, at, peers[i]);
  }

  method CopyPeers(shape: Shape, mem: Memory, start: nat, count: nat, ghost peers: seq<Record>)
    returns (copy: seq<Record>, next: nat)
    requires IsShape(shape) && AreRecords(shape, peers) && |peers| == count && Holds(mem, start, FlatRecords(peers))
    ensures copy == RecordCopies(shape, peers) && next == start + |FlatRecords(peers)|
  {
    RecordEnds(start, peers);
    copy, next := [], start;
    for i := 0 to count
      invariant copy == RecordCopies(shape, peers[..i])
      invariant next == RecordAddress(start, peers, i)
    {
      var peer;
      peer, next := CopyPeerAt(shape, mem, next, start, peers, i);
      copy := copy + [peer];
      RecordCopiesStep(shape, peers, i);
    }
    assert peers[..count] == peers;
  }

  lemma LinkInMemory(shape: LinkShape, mem: Memory, at: nat, link: Link)
    requires IsLinkShape(shape) && IsLink(shape, link) && Holds(mem, at, FlatLink(link))
    ensures at + shape.statSize <= |mem| && mem[at..at + shape.statSize] == link.stat
    ensures Holds(mem, at + shape.statSize, FlatRecords(link.peers))
    ensures |FlatLink(link)| == shape.statSize + |FlatRecords(link.peers)|
  {
    HoldsParts(mem, at, link.stat, FlatRecords(link.peers));
  }

  method CopyLinkStat(shape: LinkShape, mem: Memory, at: nat, ghost link: Link) returns (copy: Link, next: nat)
    requires IsLinkShape(shape) && IsLink(shape, link) && Holds(mem, at, FlatLink(link))
    ensures copy == LinkCopy(shape, link) && next == at + |FlatLink(link)|
  {
    LinkInMemory(shape, mem, at, link);
    var stat := mem[at..at + shape.statSize];
    var peers;
    peers, next := CopyPeers(shape.peer, mem, at + shape.statSize, Count(stat, shape.peersAt), link.peers);
    copy := Link(Cleared(stat, shape.peersAt), peers);
  }

  ghost function LinkAddress(start: nat, links: seq<Link>, i: nat): nat
    requires i <= |links|
  {
    start + |Concat(LinkParts(links)[..i])|
  }

  lemma {:induction false} LinkPart(links: seq<Link>, i: nat)
    requires i < |links|
    ensures LinkParts(links)[i] == FlatLink(links[i])
  {
    if i > 0 {
      LinkPart(links[1..], i - 1);
    }
  }

  lemma LinkAt(mem: Memory, start: nat, links: seq<Link>, i: nat)
    requires Holds(mem, start, FlatLinks(links)) && i < |links|
    ensures Holds(mem, LinkAddress(start, links, i), FlatLink(links[i]))
    ensures LinkAddress(start, links, i + 1) == LinkAddress(start, links, i) + |FlatLink(links[i])|
  {
    PartAt(mem, start, LinkParts(links), i);
    LinkPart(links, i);
  }

  lemma LinkEnds(start: nat, links: seq<Link>)
    ensures LinkAddress(start, links, 0) == start
    ensures LinkAddress(start, links, |links|) == start + |FlatLinks(links)|
  {
    assert LinkParts(links)[..|links|] == LinkParts(links);
  }

  /** Walks the links of one interface and stops exactly behind the last. */
  method CopyLinks(shape: LinkShape, mem: Memory, start: nat, count: nat, ghost links: seq<Link>)
    returns (copy: seq<Link>, next: nat)
    requires IsLinkShape(shape) && AreLinks(shape, links) && |links| == count && Holds(mem, start, FlatLinks(links))
    ensures copy == LinkCopies(shape, links) && next == start + |FlatLinks(links)|
  {
    LinkEnds(start, links);
    copy, next := [], start;
    for i := 0 to count
      invariant copy == LinkCopies(shape, links[..i])
      invariant next == LinkAddress(start, links, i)
    {
      LinkAt(mem, start, links, i);
      EachIsLink(shape, links, i);
      var link;
      link, next := CopyLinkStat(shape, mem, next, links[i]);
      copy := copy + [link];
      LinkCopiesStep(shape, links, i);
    }
    assert links[..count] == links;
  }

  lemma {:induction false} NumberDetermines(a: Memory, b: Memory, at: nat, width: nat)
    requires at + width <= |a| == |b| && NumberAt(a, at, width) == NumberAt(b, at, width)
    ensures forall k :: at <= k < at + width ==> a[k] == b[k]
    decreases width
  {
    if width > 0 {
      assert a[at] == b[at] && NumberAt(a, at + 1, width - 1) == NumberAt(b, at + 1, width - 1);
      NumberDetermines(a, b, at + 1, width - 1);
    }
  }

  lemma ClearedDetermines(a: Memory, b: Memory, at: nat)
    requires at + 4 <= |a| == |b| && Cleared(a, at) == Cleared(b, at) && Count(a, at) == Count(b, at)
    ensures a == b
  {
    NumberDetermines(a, b, at, 4);
    ZeroedFacts(a, at, 4);
    ZeroedFacts(b, at, 4);
    forall k | 0 <= k < |a| ensures a[k] == b[k] {
      assert Cleared(a, at)[k] == Cleared(b, at)[k];
    }
  }

  lemma LastIsRecord(shape: Shape, records: seq<Record>)
    requires IsShape(shape) && AreRecords(shape, records) && records != []
    ensures IsRecord(shape, records[|records| - 1]) && AreRecords(shape, records[..|records| - 1])
  {
    EachIsRecord(shape, records, |records| - 1);
    FirstAreRecords(shape, records, |records| - 1);
  }

  lemma {:induction false} FirstAreRecords(shape: Shape, records: seq<Record>, n: nat)
    requires IsShape(shape) && AreRecords(shape, records) && n <= |records|
    ensures AreRecords(shape, records[..n])
  {
    if n > 0 {
      FirstAreRecords(shape, records[1..], n - 1);
      assert records[..n][1..] == records[1..][..n - 1];
    }
  }

  lemma {:induction false} FirstAreLinks(shape: LinkShape, links: seq<Link>, n: nat)
    requires IsLinkShape(shape) && AreLinks(shape, links) && n <= |links|
    ensures AreLinks(shape, links[..n])
  {
    if n > 0 {
      FirstAreLinks(shape, links[1..], n - 1);
      assert links[..n][1..] == links[1..][..n - 1];
    }
  }

  lemma LastsAgree<T>(a: seq<T>, x: T, b: seq<T>, y: T)
    requires a + [x] == b + [y]
    ensures a == b && x == y
  {
    assert |a| == |b| && (a + [x])[|a|] == x && (b + [y])[|b|] == y;
    assert (a + [x])[..|a|] == a && (b + [y])[..|b|] == b;
  }

  lemma RecordCopyDetermines(shape: Shape, a: Record, b: Record)
    requires IsShape(shape) && IsRecord(shape, a) && IsRecord(shape, b)
    requires RecordCopy(shape, a) == RecordCopy(shape, b)
    ensures a == b
  {
    ClearedDetermines(a.header, b.header, shape.countAt);
  }

  lemma RecordCopiesLast(shape: Shape, a: seq<Record>, b: seq<Record>)
    requires a != [] && RecordCopies(shape, a) == RecordCopies(shape, b)
    ensures |b| == |a| && RecordCopy(shape, a[|a| - 1]) == RecordCopy(shape, b[|a| - 1])
    ensures RecordCopies(shape, a[..|a| - 1]) == RecordCopies(shape, b[..|a| - 1])
  {
    var n := |a| - 1;
    LastsAgree(RecordCopies(shape, a[..n]), RecordCopy(shape, a[n]), RecordCopies(shape, b[..n]),
               RecordCopy(shape, b[n]));
  }

  lemma LinkCopiesLast(shape: LinkShape, a: seq<Link>, b: seq<Link>)
    requires a != [] && LinkCopies(shape, a) == LinkCopies(shape, b)
    ensures |b| == |a| && LinkCopy(shape, a[|a| - 1]) == LinkCopy(shape, b[|a| - 1])
    ensures LinkCopies(shape, a[..|a| - 1]) == LinkCopies(shape, b[..|a| - 1])
  {
    var n := |a| - 1;
    LastsAgree(LinkCopies(shape, a[..n]), LinkCopy(shape, a[n]), LinkCopies(shape, b[..n]), LinkCopy(shape, b[n]));
  }

  lemma EqualByLast<T>(a: seq<T>, b: seq<T>)
    requires |a| == |b| > 0 && a[..|a| - 1] == b[..|b| - 1] && a[|a| - 1] == b[|b| - 1]
    ensures a == b
  {
    assert a == a[..|a| - 1] + [a[|a| - 1]] && b == b[..|b| - 1] + [b[|b| - 1]];
  }

  /** Every record is copied in its place: the same items, and the header with its count cleared. */
  lemma {:induction false} RecordCopiesAt(shape: Shape, records: seq<Record>, i: nat)
    requires IsShape(shape) && AreRecords(shape, records) && i < |records|
    ensures |records[i].header| == shape.headerSize && RecordCopies(shape, records)[i].items == records[i].items
    ensures RecordCopies(shape, records)[i].header
         == records[i].header[..shape.countAt] + [0, 0, 0, 0] + records[i].header[shape.countAt + 4..]
    decreases |records|
  {
    var n := |records| - 1;
    if i < n {
      FirstAreRecords(shape, records, n);
      RecordCopiesAt(shape, records[..n], i);
    } else {
      EachIsRecord(shape, records, n);
      ClearedFacts(records[n].header, shape.countAt);
    }
  }

  /** Every link is copied in its place, with the copies of its peers. */
  lemma {:induction false} LinkCopiesAt(shape: LinkShape, links: seq<Link>, i: nat)
    requires IsLinkShape(shape) && AreLinks(shape, links) && i < |links|
    ensures |links[i].stat| == shape.statSize
    ensures LinkCopies(shape, links)[i].peers == RecordCopies(shape.peer, links[i].peers)
    ensures LinkCopies(shape, links)[i].stat
         == links[i].stat[..shape.peersAt] + [0, 0, 0, 0] + links[i].stat[shape.peersAt + 4..]
    decreases |links|
  {
    var n := |links| - 1;
    if i < n {
      FirstAreLinks(shape, links, n);
      LinkCopiesAt(shape, links[..n], i);
    } else {
      EachIsLink(shape, links, n);
      ClearedFacts(links[n].stat, shape.peersAt);
    }
  }

  /** The copies lose nothing: two lists of records with equal copies are equal. */
  lemma {:induction false} RecordCopiesDetermine(shape: Shape, a: seq<Record>, b: seq<Record>)
    requires IsShape(shape) && AreRecords(shape, a) && AreRecords(shape, b)
    requires RecordCopies(shape, a) == RecordCopies(shape, b)
    ensures a == b
  {
    if a != [] {
      RecordCopiesLast(shape, a, b);
      LastIsRecord(shape, a);
      LastIsRecord(shape, b);
      RecordCopiesDetermine(shape, a[..|a| - 1], b[..|a| - 1]);
      RecordCopyDetermines(shape, a[|a| - 1], b[|a| - 1]);
      EqualByLast(a, b);
    }
  }

  lemma LinkCopyDetermines(shape: LinkShape, a: Link, b: Link)
    requires IsLinkShape(shape) && IsLink(shape, a) && IsLink(shape, b)
    requires LinkCopy(shape, a) == LinkCopy(shape, b)
    ensures a == b
  {
    RecordCopiesDetermine(shape.peer, a.peers, b.peers);
    ClearedDetermines(a.stat, b.stat, shape.peersAt);
  }

  lemma LastIsLink(shape: LinkShape, links: seq<Link>)
    requires IsLinkShape(shape) && AreLinks(shape, links) && links != []
    ensures IsLink(shape, links[|links| - 1]) && AreLinks(shape, links[..|links| - 1])
  {
    EachIsLink(shape, links, |links| - 1);
    FirstAreLinks(shape, links, |links| - 1);
  }

  lemma {:induction false} LinkCopiesDetermine(shape: LinkShape, a: seq<Link>, b: seq<Link>)
    requires IsLinkShape(shape) && AreLinks(shape, a) && AreLinks(shape, b)
    requires LinkCopies(shape, a) == LinkCopies(shape, b)
    ensures a == b
  {
    if a != [] {
      LinkCopiesLast(shape, a, b);
      LastIsLink(shape, a);
      LastIsLink(shape, b);
      LinkCopiesDetermine(shape, a[..|a| - 1], b[..|a| - 1]);
      LinkCopyDetermines(shape, a[|a| - 1], b[|a| - 1]);
      EqualByLast(a, b);
    }
  }

  ghost predicate AllConvert<C>(items: seq<Memory>, convert: Memory -> Option<C>) {
    forall i :: i in items ==> convert(i).Some?
  }

  ghost function ConvertAll<C>(items: seq<Memory>, convert: Memory -> Option<C>): seq<C>
    requires AllConvert(items, convert)
  {
    if items == [] then [] else [convert(items[0]).value] + ConvertAll(items[1..], convert)
  }

  ghost function Converted<C>(radios: seq<Record>, convert: Memory -> Option<C>): seq<seq<C>>
    requires forall r :: r in radios ==> AllConvert(r.items, convert)
  {
    if radios == [] then [] else [ConvertAll(radios[0].items, convert)] + Converted(radios[1..], convert)
  }

  lemma {:induction false} ConvertAppend<C>(items: seq<Memory>, item: Memory, convert: Memory -> Option<C>)
    requires AllConvert(items, convert) && convert(item).Some?
    ensures AllConvert(items + [item], convert)
    ensures ConvertAll(items + [item], convert) == ConvertAll(items, convert) + [convert(item).value]
  {
    if items != [] {
      assert (items + [item])[1..] == items[1..] + [item];
      ConvertAppend(items[1..], item, convert);
    }
  }

  lemma {:induction false} ConvertedAppend<C>(radios: seq<Record>, r: Record, convert: Memory -> Option<C>)
    requires (forall q :: q in radios ==> AllConvert(q.items, convert)) && AllConvert(r.items, convert)
    ensures Converted(radios + [r], convert) == Converted(radios, convert) + [ConvertAll(r.items, convert)]
  {
    if radios != [] {
      assert (radios + [r])[1..] == radios[1..] + [r];
      ConvertedAppend(radios[1..], r, convert);
    }
  }

  lemma {:induction false} ConvertAllAt<C>(items: seq<Memory>, convert: Memory -> Option<C>)
    requires AllConvert(items, convert)
    ensures |ConvertAll(items, convert)| == |items|
    ensures forall j :: 0 <= j < |items| ==> convert(items[j]) == Some(ConvertAll(items, convert)[j])
  {
    if items != [] {
      ConvertAllAt(items[1..], convert);
    }
  }

  /** Every configuration of every combination is converted in its place. */
  lemma {:induction false} ConvertedAt<C>(radios: seq<Record>, convert: Memory -> Option<C>)
    requires forall r :: r in radios ==> AllConvert(r.items, convert)
    ensures |Converted(radios, convert)| == |radios|
    ensures forall i :: 0 <= i < |radios| ==>
              && |Converted(radios, convert)[i]| == |radios[i].items|
              && forall j :: 0 <= j < |radios[i].items| ==>
                   convert(radios[i].items[j]) == Some(Converted(radios, convert)[i][j])
  {
    if radios != [] {
      ConvertAllAt(radios[0].items, convert);
      ConvertedAt(radios[1..], convert);
    }
  }

  method ConvertItems<C>(mem: Memory, start: nat, count: nat, size: nat, convert: Memory -> Option<C>,
                         ghost items: seq<Memory>)
    returns (ok: bool, converted: seq<C>)
    requires |items| == count && AllOfSize(items, size) && Holds(mem, start, Concat(items))
    ensures ok <==> AllConvert(items, convert)
    ensures ok ==> converted == ConvertAll(items, convert)
  {
    converted := [];
    var at: nat := start;
    for j := 0 to count
      invariant at == start + |Concat(items[..j])|
      invariant AllConvert(items[..j], convert) && converted == ConvertAll(items[..j], convert)
    {
      PartAt(mem, start, items, j);
      assert items[j] in items && items[..j + 1] == items[..j] + [items[j]];
      var configuration := convert(mem[at..at + size]);
      if configuration.None? {
        return false, [];
      }
      ConvertAppend(items[..j], items[j], convert);
      converted := converted + [configuration.value];
      at := at + size;
    }
    assert items[..count] == items;
    ok := true;
  }

  method ConvertRadio<C>(shape: Shape, mem: Memory, at: nat, convert: Memory -> Option<C>, ghost radio: Record)
    returns (ok: bool, converted: seq<C>, next: nat)
    requires IsShape(shape) && IsRecord(shape, radio) && Holds(mem, at, FlatRecord(radio))
    ensures ok <==> radio.items != [] && AllConvert(radio.items, convert)
    ensures ok ==> converted == ConvertAll(radio.items, convert) && next == at + |FlatRecord(radio)|
  {
    next := at;
    HoldsParts(mem, at, radio.header, Concat(radio.items));
    ConcatSize(radio.items, shape.itemSize);
    var count := Count(mem[at..at + shape.headerSize], shape.countAt);
    if count == 0 {
      return false, [], at;
    }
    ok, converted := ConvertItems(mem, at + shape.headerSize, count, shape.itemSize, convert, radio.items);
    if ok {
      next := at + shape.headerSize + shape.itemSize * count;
    }
  }

  /** What the matrix walker accepts: no empty combination, and no unspecified configuration. */
  ghost predicate AllUsable<C>(radios: seq<Record>, convert: Memory -> Option<C>) {
    forall r :: r in radios ==> r.items != [] && AllConvert(r.items, convert)
  }

  lemma UsableStep<C>(radios: seq<Record>, i: nat, convert: Memory -> Option<C>)
    requires i < |radios| && AllUsable(radios[..i], convert)
    ensures AllUsable(radios[..i + 1], convert) <==> radios[i].items != [] && AllConvert(radios[i].items, convert)
    ensures AllUsable(radios[..i + 1], convert) ==>
              Converted(radios[..i + 1], convert)
                   == Converted(radios[..i], convert) + [ConvertAll(radios[i].items, convert)]
    ensures AllUsable(radios, convert) ==> AllUsable(radios[..i + 1], convert)
  {
    assert radios[..i + 1] == radios[..i] + [radios[i]];
    if AllUsable(radios[..i + 1], convert) {
      assert radios[i] in radios[..i + 1];
      ConvertedAppend(radios[..i], radios[i], convert);
    }
  }

  method ConvertRadioCombinations<C>(shape: Shape, mem: Memory, start: nat, count: nat, convert: Memory -> Option<C>,
                                     ghost radios: seq<Record>)
    returns (ok: bool, converted: seq<seq<C>>, next: nat)
    requires IsShape(shape) && AreRecords(shape, radios) && |radios| == count && Holds(mem, start, FlatRecords(radios))
    ensures ok <==> radios != [] && AllUsable(radios, convert)
    ensures ok ==> converted == Converted(radios, convert) && next == start + |FlatRecords(radios)|
  {
    converted, next := [], start;
    if count == 0 {
      return false, [], start;
    }
    RecordEnds(start, radios);
    for i := 0 to count
      invariant next == RecordAddress(start, radios, i)
      invariant AllUsable(radios[..i], convert) && converted == Converted(radios[..i], convert)
    {
      RecordAt(mem, start, radios, i);
      EachIsRecord(shape, radios, i);
      UsableStep(radios, i, convert);
      var combination;
      ok, combination, next := ConvertRadio(shape, mem, next, convert, radios[i]);
      if !ok {
        return false, [], next;
      }
      converted := converted + [combination];
    }
    assert radios[..count] == radios;
    ok := true;
  }
}
