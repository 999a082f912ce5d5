/**
 Every byte of an archive that ZipDirectory writes, field by field at its offset, as sections 4.3.7,
 4.3.12 and 4.3.16 of PKWARE APPNOTE lay them out. A number too wide for its field is cut to it.
 */
module ZipLayout {
  import opened Basics
  import opened LittleEndian
  import opened Zip
  import opened Unzip
  import Crc

  // ---- Where the pieces start ----

  /** Where the local header of entry `i` starts: behind what all entries before it take up. */
  function LocalAt(entries: seq<Entry>, i: nat): nat
    requires i <= |entries|
  {
    if i == 0 then 0 else LocalAt(entries, i - 1) + 30 + |entries[i - 1].name| + |entries[i - 1].data|
  }

  /** How far into the central directory the header of entry `i` starts. */
  function CentralAt(entries: seq<Entry>, i: nat): nat
    requires i <= |entries|
  {
    if i == 0 then 0 else CentralAt(entries, i - 1) + 46 + |entries[i - 1].name|
  }

  // ---- The three records ----

  /** Signature, version needed, flags, method, time and date. */
  predicate LocalFront(b: Bytes, at: nat) {
    at + 14 <= |b| && U32(b, at) == 0x04034B50 && U16(b, at + 4) == 20 && U16(b, at + 6) == 0 &&
    U16(b, at + 8) == 0 && U16(b, at + 10) == 0 && U16(b, at + 12) == 0
  }

  /** Signature, versions made by and needed, flags, method, time and date. */
  predicate CentralFront(b: Bytes, at: nat) {
    at + 16 <= |b| && U32(b, at) == 0x02014B50 && U16(b, at + 4) == 20 && U16(b, at + 6) == 20 &&
    U16(b, at + 8) == 0 && U16(b, at + 10) == 0 && U16(b, at + 12) == 0 && U16(b, at + 14) == 0
  }

  /** Checksum, both sizes and the length of the name: 14 bytes into a local header, 16 into a central one. */
  predicate Described(b: Bytes, at: nat, e: Entry, crc: nat) {
    at + 14 <= |b| && U32(b, at) == crc &&
    U32(b, at + 4) == |e.data| % WIDE && U32(b, at + 8) == |e.data| % WIDE && U16(b, at + 12) == |e.name| % 0x1_0000
  }

  /** No extra field, comment, disk or attributes; the offset of the local header. */
  predicate CentralBack(b: Bytes, at: nat, offset: nat) {
    at + 16 <= |b| && U16(b, at) == 0 && U16(b, at + 2) == 0 && U16(b, at + 4) == 0 && U16(b, at + 6) == 0 &&
    U32(b, at + 8) == 0 && U32(b, at + 12) == offset % WIDE
  }

  /** A whole local header. */
  predicate LocalRecord(b: Bytes, at: nat, e: Entry, crc: nat) {
    at + 30 <= |b| && LocalFront(b, at) && Described(b, at + 14, e, crc) && U16(b, at + 28) == 0
  }

  /** A whole header in the directory. */
  predicate CentralRecord(b: Bytes, at: nat, e: Entry, crc: nat, offset: nat) {
    at + 46 <= |b| && CentralFront(b, at) && Described(b, at + 16, e, crc) && CentralBack(b, at + 30, offset)
  }

  /** Signature, disks, both counts, size and offset of the directory, no comment. */
  predicate EndOfCentral(b: Bytes, at: nat, entries: nat, size: nat, offset: nat) {
    at + 22 == |b| &&
    U32(b, at) == 0x06054B50 &&
    U16(b, at + 4) == 0 && U16(b, at + 6) == 0 &&
    U16(b, at + 8) == entries % 0x1_0000 && U16(b, at + 10) == entries % 0x1_0000 &&
    U32(b, at + 12) == size % WIDE && U32(b, at + 16) == offset % WIDE &&
    U16(b, at + 20) == 0
  }

  /** An entry with its header, name and contents at one place, and its header and name at another. */
  predicate EntryLaidOut(b: Bytes, e: Entry, crc: nat, local: nat, central: nat) {
    LocalRecord(b, local, e, crc) && Stands(b, local + 30, e.name) && Stands(b, local + 30 + |e.name|, e.data) &&
    CentralRecord(b, central, e, crc, local) && Stands(b, central + 46, e.name)
  }

  /** Every entry, with the checksum of its contents, the bit-at-a-time one. */
  predicate EntriesLaidOut(b: Bytes, entries: seq<Entry>, first: nat) {
    forall i :: 0 <= i < |entries| ==>
      EntryLaidOut(b, entries[i], Crc.Reference(entries[i].data), LocalAt(entries, i), first + CentralAt(entries, i))
  }

  /** The whole archive, nothing in front, between or behind, with the directory at `first`. */
  predicate LaidOutFrom(b: Bytes, entries: seq<Entry>, first: nat, size: nat) {
    |b| == first + size + 22 && EndOfCentral(b, first + size, |entries|, size, first) &&
    EntriesLaidOut(b, entries, first)
  }

  /** The directory comes right behind the contents. */
  predicate LaidOut(b: Bytes, entries: seq<Entry>) {
    LaidOutFrom(b, entries, LocalAt(entries, |entries|), CentralAt(entries, |entries|))
  }

  // ---- The headers, by themselves ----

  lemma Field16(h: Bytes, k: nat, x: nat)
    requires k + 2 <= |h| && h[k..k + 2] == Put16(x)
    ensures U16(h, k) == x % 0x1_0000
  {
    Get16(h, k, x);
  }

  lemma Field32(h: Bytes, k: nat, x: nat)
    requires k + 4 <= |h| && h[k..k + 4] == Put32(x)
    ensures U32(h, k) == x % WIDE
  {
    Get32(h, k, x);
  }

  lemma LeadIs(h: Bytes)
    requires h == LocalLead()
    ensures LocalFront(h, 0)
  {
    Field32(h, 0, 0x04034B50);
    Field16(h, 4, 20);
    Field16(h, 6, 0);
    Field16(h, 8, 0);
    Field16(h, 10, 0);
    Field16(h, 12, 0);
  }

  lemma CentralLeadIs(h: Bytes)
    requires h == CentralLead()
    ensures CentralFront(h, 0)
  {
    assert h[4..6] == Put16(20) && h[6..8] == Put16(20);
    Field32(h, 0, 0x02014B50);
    Field16(h, 4, 20);
    Field16(h, 6, 20);
    Field16(h, 8, 0);
    Field16(h, 10, 0);
    Field16(h, 12, 0);
    Field16(h, 14, 0);
  }

  lemma FourStand(w: Bytes, x: Bytes, y: Bytes, z: Bytes, h: Bytes)
    requires h == w + x + y + z && |w| == 4 && |x| == 4 && |y| == 4 && |z| == 2
    ensures Stands(h, 0, w) && Stands(h, 4, x) && Stands(h, 8, y) && Stands(h, 12, z)
  {
  }

  lemma FieldsAre(h: Bytes, crc: nat, size: nat, name: nat)
    requires Stands(h, 0, Put32(crc)) && Stands(h, 4, Put32(size)) && Stands(h, 8, Put32(size))
    requires Stands(h, 12, Put16(name))
    ensures U32(h, 0) == crc % WIDE && U32(h, 4) == size % WIDE && U32(h, 8) == size % WIDE
    ensures U16(h, 12) == name % 0x1_0000
  {
    Get32(h, 0, crc);
    Get32(h, 4, size);
    Get32(h, 8, size);
    Get16(h, 12, name);
  }

  lemma SizesAre(e: Entry, crc: nat, h: Bytes)
    requires h == Sizes(e, crc) && crc < WIDE
    ensures Described(h, 0, e, crc)
  {
    var x, y, z := Put32(crc), Put32(|e.data|), Put16(|e.name|);
    FourStand(x, y, y, z, h);
    FieldsAre(h, crc, |e.data|, |e.name|);
  }

  lemma SixStand(zero: Bytes, wide: Bytes, last: Bytes, h: Bytes)
    requires h == zero + zero + zero + zero + wide + last && |zero| == 2 && |wide| == 4 && |last| == 4
    ensures Stands(h, 0, zero) && Stands(h, 2, zero) && Stands(h, 4, zero) && Stands(h, 6, zero)
    ensures Stands(h, 8, wide) && Stands(h, 12, last)
  {
  }

  lemma TailIs(offset: nat, h: Bytes)
    requires h == CentralTail(offset)
    ensures CentralBack(h, 0, offset)
  {
    SixStand(Put16(0), Put32(0), Put32(offset), h);
    Get16(h, 0, 0);
    Get16(h, 2, 0);
    Get16(h, 4, 0);
    Get16(h, 6, 0);
    Get32(h, 8, 0);
    Get32(h, 12, offset);
  }

  lemma EndIs(entries: nat, size: nat, offset: nat, h: Bytes)
    requires h == EndRecord(entries, size, offset)
    ensures EndOfCentral(h, 0, entries, size, offset)
  {
    var n := Put16(entries);
    assert h[8..10] == n && h[10..12] == n;
    Field32(h, 0, 0x06054B50);
    Field16(h, 4, 0);
    Field16(h, 6, 0);
    Field16(h, 8, entries);
    Field16(h, 10, entries);
    Field32(h, 12, size);
    Field32(h, 16, offset);
    assert h[20] == 0 && h[21] == 0;
    assert h[20..22] == Put16(0);
    Field16(h, 20, 0);
  }

  // ---- The headers, where they stand ----

  /** Numbers read at a place in a piece are those read at that place in the whole. */
  lemma Moved(b: Bytes, at: nat, h: Bytes)
    requires Stands(b, at, h)
    ensures forall k {:trigger U16(h, k)} :: 0 <= k <= |h| - 2 ==> U16(b, at + k) == U16(h, k)
    ensures forall k {:trigger U32(h, k)} :: 0 <= k <= |h| - 4 ==> U32(b, at + k) == U32(h, k)
  {
    forall k | 0 <= k <= |h| - 2 ensures U16(b, at + k) == U16(h, k) {
      Same16(b, at, h, k);
    }
    forall k | 0 <= k <= |h| - 4 ensures U32(b, at + k) == U32(h, k) {
      Same32(b, at, h, k);
    }
  }

  lemma LocalStandsAt(b: Bytes, at: nat, e: Entry, crc: nat, lead: Bytes, sizes: Bytes)
    requires lead == LocalLead() && sizes == Sizes(e, crc) && crc < WIDE
    requires Stands(b, at, lead + sizes + Put16(0))
    ensures LocalRecord(b, at, e, crc)
  {
    LeadIs(lead);
    SizesAre(e, crc, sizes);
    ThreeStand(b, at, lead, sizes, Put16(0));
    Moved(b, at, lead);
    Moved(b, at + 14, sizes);
    Get16(b, at + 28, 0);
  }

  lemma CentralStandsAt(b: Bytes, at: nat, e: Entry, crc: nat, offset: nat, lead: Bytes, sizes: Bytes, tail: Bytes)
    requires lead == CentralLead() && sizes == Sizes(e, crc) && tail == CentralTail(offset) && crc < WIDE
    requires Stands(b, at, lead + sizes + tail)
    ensures CentralRecord(b, at, e, crc, offset)
  {
    CentralLeadIs(lead);
    SizesAre(e, crc, sizes);
    TailIs(offset, tail);
    ThreeStand(b, at, lead, sizes, tail);
    Moved(b, at, lead);
    Moved(b, at + 16, sizes);
    Moved(b, at + 30, tail);
  }

  lemma EndMoved(b: Bytes, at: nat, h: Bytes, entries: nat, size: nat, offset: nat)
    requires Stands(b, at, h) && at + 22 == |b| && EndOfCentral(h, 0, entries, size, offset)
    ensures EndOfCentral(b, at, entries, size, offset)
  {
    Moved(b, at, h);
  }

  // ---- The archive ----

  lemma {:induction false} LocalAtIs(entries: seq<Entry>, i: nat)
    requires i <= |entries|
    ensures LocalAt(entries, i) == |Locals(entries[..i])| && CentralAt(entries, i) == |Centrals(entries[..i])|
  {
    if i > 0 {
      LocalAtIs(entries, i - 1);
      assert entries[..i][..i - 1] == entries[..i - 1];
    }
  }

  lemma LocalLaidOut(b: Bytes, at: nat, e: Entry, crc: nat, h: Bytes)
    requires h == LocalHeader(e, crc) && crc < WIDE && Stands(b, at, h + e.name + e.data)
    ensures LocalRecord(b, at, e, crc) && Stands(b, at + 30, e.name) && Stands(b, at + 30 + |e.name|, e.data)
  {
    ThreeStand(b, at, h, e.name, e.data);
    LocalStandsAt(b, at, e, crc, LocalLead(), Sizes(e, crc));
  }

  lemma CentralLaidOut(b: Bytes, at: nat, e: Entry, crc: nat, offset: nat, h: Bytes)
    requires h == CentralHeader(e, crc, offset) && crc < WIDE && Stands(b, at, h + e.name)
    ensures CentralRecord(b, at, e, crc, offset) && Stands(b, at + 46, e.name)
  {
    assert h + e.name + [] == h + e.name;
    ThreeStand(b, at, h, e.name, []);
    CentralStandsAt(b, at, e, crc, offset, CentralLead(), Sizes(e, crc), CentralTail(offset));
  }

  lemma ThreeStand(b: Bytes, at: nat, x: Bytes, y: Bytes, z: Bytes)
    requires Stands(b, at, x + y + z)
    ensures Stands(b, at, x) && Stands(b, at + |x|, y) && Stands(b, at + |x| + |y|, z)
  {
    var all := x + y + z;
    assert Stands(all, 0, x) && Stands(all, |x|, y) && Stands(all, |x| + |y|, z);
    Within(b, at, all, 0, x);
    Within(b, at, all, |x|, y);
    Within(b, at, all, |x| + |y|, z);
  }

  lemma WholeLength(entries: seq<Entry>, locals: Bytes, centrals: Bytes)
    requires locals == Locals(entries) && centrals == Centrals(entries)
    ensures LocalAt(entries, |entries|) == |locals| && CentralAt(entries, |entries|) == |centrals|
  {
    LocalAtIs(entries, |entries|);
    assert entries[..|entries|] == entries;
  }

  lemma EndOf(n: nat, b: Bytes, locals: Bytes, centrals: Bytes, end: Bytes)
    requires b == locals + centrals + end && end == EndRecord(n, |centrals|, |locals|)
    ensures EndOfCentral(b, |locals| + |centrals|, n, |centrals|, |locals|)
  {
    StandsLast(locals + centrals, end);
    EndIs(n, |centrals|, |locals|, end);
    EndMoved(b, |locals| + |centrals|, end, n, |centrals|, |locals|);
  }

  lemma EntryOf(b: Bytes, e: Entry, crc: nat, local: nat, central: nat)
    requires crc == Crc.Reference(e.data) && Stands(b, local, Local(e)) && Stands(b, central, Central(e, local))
    ensures EntryLaidOut(b, e, crc, local, central)
  {
    LocalLaidOut(b, local, e, crc, LocalHeader(e, crc));
    CentralLaidOut(b, central, e, crc, local, CentralHeader(e, crc, local));
  }

  lemma LocalPlaced(entries: seq<Entry>, i: nat, b: Bytes, rest: Bytes, at: nat)
    requires i < |entries| && b == Locals(entries) + rest && at == LocalAt(entries, i)
    ensures Stands(b, at, Local(entries[i]))
  {
    LocalAtIs(entries, i);
    LocalPiece(entries, i, b, Local(entries[i]), rest);
  }

  lemma CentralPlaced(entries: seq<Entry>, i: nat, b: Bytes, locals: Bytes, rest: Bytes, central: Bytes, at: nat)
    requires i < |entries| && b == locals + Centrals(entries) + rest && at == CentralAt(entries, i)
    requires central == Central(entries[i], LocalAt(entries, i))
    ensures Stands(b, |locals| + at, central)
  {
    LocalAtIs(entries, i);
    CentralPiece(entries, i, b, central, locals, rest);
  }

  lemma EntryPlaced(entries: seq<Entry>, i: nat, b: Bytes, locals: Bytes, end: Bytes, local: nat, central: nat)
    requires i < |entries| && locals == Locals(entries) && b == locals + Centrals(entries) + end
    requires local == LocalAt(entries, i) && central == |locals| + CentralAt(entries, i)
    ensures EntryLaidOut(b, entries[i], Crc.Reference(entries[i].data), local, central)
  {
    Assoc(locals, Centrals(entries), end);
    LocalPlaced(entries, i, b, Centrals(entries) + end, local);
    CentralPlaced(entries, i, b, locals, end, Central(entries[i], local), CentralAt(entries, i));
    EntryOf(b, entries[i], Crc.Reference(entries[i].data), local, central);
  }

  lemma AllPlaced(entries: seq<Entry>, b: Bytes, locals: Bytes, end: Bytes)
    requires locals == Locals(entries) && b == locals + Centrals(entries) + end
    ensures EntriesLaidOut(b, entries, |locals|)
  {
    forall i | 0 <= i < |entries|
      ensures EntryLaidOut(b, entries[i], Crc.Reference(entries[i].data), LocalAt(entries, i),
                           |locals| + CentralAt(entries, i))
    {
      EntryPlaced(entries, i, b, locals, end, LocalAt(entries, i), |locals| + CentralAt(entries, i));
    }
  }

  lemma PiecesLaidOut(entries: seq<Entry>, b: Bytes, locals: Bytes, centrals: Bytes, end: Bytes)
    requires locals == Locals(entries) && centrals == Centrals(entries) && b == locals + centrals + end
    requires end == EndRecord(|entries|, |centrals|, |locals|)
    ensures LaidOutFrom(b, entries, |locals|, |centrals|)
  {
    EndOf(|entries|, b, locals, centrals, end);
    AllPlaced(entries, b, locals, end);
  }

  /**
   An archive of any entries is laid out as the format has it: each entry's header with the checksum and
   the sizes of its contents, its name and its contents, then the directory with the offset of each, and
   the end record with their number.
   */
  lemma ArchiveIsLaidOut(entries: seq<Entry>)
    ensures LaidOut(Archive(entries), entries)
  {
    var locals, centrals := Locals(entries), Centrals(entries);
    WholeLength(entries, locals, centrals);
    PiecesLaidOut(entries, Archive(entries), locals, centrals, EndRecord(|entries|, |centrals|, |locals|));
  }
}
