/** Reading the archive back: SafePath and UnzipToDirectory of zip_store.cpp, and the round trip. */
module Unzip {
  import opened Basics
  import opened LittleEndian
  import opened Zip
  import Crc
  import Words

  // ---- Reading ----

  /** An end record stands there, its comment inside the archive. */
  predicate EndStands(zip: Bytes, at: nat) {
    at + 22 <= |zip| && U32(zip, at) == END_SIGNATURE && at + 22 + U16(zip, at + 20) <= |zip|
  }

  /** The last end record at or before a place. */
  function LastEnd(zip: Bytes, from: nat): (r: Option<nat>)
    ensures r.Some? ==> r.value <= from && EndStands(zip, r.value)
    ensures r.None? ==> forall at :: 0 <= at <= from ==> !EndStands(zip, at)
  {
    if EndStands(zip, from) then Some(from) else if from == 0 then None else LastEnd(zip, from - 1)
  }

  method FindEnd(zip: Bytes) returns (end: Option<nat>)
    requires |zip| >= 22
    ensures end == LastEnd(zip, |zip| - 22)
  {
    var first := |zip| - 22;
    var i := 0;
    while true
      invariant i <= first && LastEnd(zip, first) == LastEnd(zip, first - i)
      decreases first - i
    {
      var pos := first - i;
      if U32(zip, pos) == END_SIGNATURE {
        if pos + 22 + U16(zip, pos + 20) <= |zip| {
          return Some(pos);
        }
      }
      if pos == 0 {
        return None;
      }
      i := i + 1;
    }
  }

  method FindDirectory(zip: Bytes) returns (directory: Option<(nat, nat)>)
    ensures directory == DirectoryOf(zip)
  {
    if |zip| < 22 {
      return None;
    }
    var end := FindEnd(zip);
    if end.None? {
      return None;
    }
    if (U32(zip, end.value + 16) + U32(zip, end.value + 12)) % WIDE > end.value {
      return None;
    }
    return Some((U32(zip, end.value + 16), U16(zip, end.value + 10)));
  }

  /** What the reader takes from one directory entry, and where the next one starts. */
  datatype Listed = Listed(name: Name, kind: nat, packed: nat, plain: nat, local: nat, next: nat)

  function ListedAt(zip: Bytes, pos: nat): Option<Listed> {
    if pos + 46 > |zip| || U32(zip, pos) != CENTRAL_SIGNATURE then None
    else
      var name, extra, comment := U16(zip, pos + 28), U16(zip, pos + 30), U16(zip, pos + 32);
      if pos + 46 + name + extra + comment > |zip| then None
      else Some(Listed(zip[pos + 46..pos + 46 + name], U16(zip, pos + 10), U32(zip, pos + 20), U32(zip, pos + 24),
                       U32(zip, pos + 42), pos + 46 + name + extra + comment))
  }

  type Inflater = (Bytes, nat) -> Option<Bytes>

  function DataOf(inflate: Inflater, zip: Bytes, l: Listed): Option<Bytes> {
    if l.local + 30 > |zip| || U32(zip, l.local) != LOCAL_SIGNATURE then None
    else
      var start := l.local + 30 + U16(zip, l.local + 26) + U16(zip, l.local + 28);
      if start + l.packed > |zip| then None
      else if l.kind == DEFLATED then inflate(zip[start..start + l.packed], l.plain)
      else if l.kind == STORED then Some(zip[start..start + l.packed])
      else None
  }

  function Meaningful(parts: Path): Path {
    if parts == [] then []
    else if parts[0] == [] || parts[0] == [DOT] then Meaningful(parts[1..])
    else [parts[0]] + Meaningful(parts[1..])
  }

  /** Where a name lands below the folder; None when it is absolute or climbs. */
  function SafePath(name: Name): Option<Path> {
    var parts := Words.Split(name, SLASH);
    if (name != [] && name[0] == SLASH) || [DOT, DOT] in parts then None else Some(Meaningful(parts))
  }

  /** No name lands outside the folder: what is left goes down by one plain name at a time. */
  lemma SafePathStaysBelow(name: Name)
    ensures SafePath(name).Some? ==>
              forall w :: w in SafePath(name).value ==>
                w != [] && w != [DOT] && w != [DOT, DOT] && SLASH !in w
  {
    var parts := Words.Split(name, SLASH);
    Words.JoinSplit(name, SLASH);
    MeaningfulParts(parts);
  }

  lemma {:induction false} MeaningfulParts(parts: Path)
    ensures forall w :: w in Meaningful(parts) <==> w in parts && w != [] && w != [DOT]
    ensures [] !in parts && [DOT] !in parts ==> Meaningful(parts) == parts
  {
    if parts != [] {
      MeaningfulParts(parts[1..]);
      assert parts == [parts[0]] + parts[1..];
    }
  }

  function Extracted(inflate: Inflater, zip: Bytes, l: Listed, t: Tree): (bool, Tree) {
    if l.name == [] || SafePath(l.name).None? then (false, t)
    else if l.name[|l.name| - 1] == SLASH then (true, Mkdirs(t, SafePath(l.name).value))
    else
      match DataOf(inflate, zip, l)
      case None => (false, t)
      case Some(data) => Written(t, SafePath(l.name).value, data)
  }

  function ReaderOf(zip: Bytes): nat -> Option<Listed> {
    (pos: nat) => ListedAt(zip, pos)
  }

  function WriterOf(inflate: Inflater, zip: Bytes): (Listed, Tree) -> (bool, Tree) {
    (l: Listed, t: Tree) => Extracted(inflate, zip, l, t)
  }

  /** Reads one entry after another and writes each, until one fails. */
  function Walk<T>(read: nat -> Option<Listed>, write: (Listed, T) -> (bool, T), pos: nat, left: nat, t: T): (bool, T)
    decreases left
  {
    if left == 0 then (true, t)
    else
      match read(pos)
      case None => (false, t)
      case Some(l) =>
        var (ok, u) := write(l, t);
        if ok then Walk(read, write, l.next, left - 1, u) else (false, u)
  }

  lemma WalkStep<T>(read: nat -> Option<Listed>, write: (Listed, T) -> (bool, T), pos: nat, left: nat, l: Listed, t: T,
                    ok: bool, u: T)
    requires read(pos) == Some(l) && write(l, t) == (ok, u) && left > 0
    ensures Walk(read, write, pos, left, t) == if ok then Walk(read, write, l.next, left - 1, u) else (false, u)
  {
  }

  /** Where the directory starts and how many entries it says it has. */
  function DirectoryOf(zip: Bytes): Option<(nat, nat)> {
    if |zip| < 22 then None
    else
      match LastEnd(zip, |zip| - 22)
      case None => None
      case Some(end) =>
        if (U32(zip, end + 16) + U32(zip, end + 12)) % WIDE > end then None
        else Some((U32(zip, end + 16), U16(zip, end + 10)))
  }

  /** `creates` says whether the folder itself could be made. */
  function Unzipped(inflate: Inflater, zip: Bytes, creates: bool, t: Tree): (bool, Tree) {
    match DirectoryOf(zip)
    case None => (false, t)
    case Some((first, entries)) =>
      if creates then Walk(ReaderOf(zip), WriterOf(inflate, zip), first, entries, t) else (false, t)
  }

  class Directory {
    var tree: Tree

    constructor ()
      ensures tree == EMPTY_TREE
    {
      tree := EMPTY_TREE;
    }

    method CreateDirectories(path: Path)
      modifies this
      ensures tree == Mkdirs(old(tree), path)
    {
      for i := 0 to |path|
        invariant tree == Mkdirs(old(tree), path[..i])
      {
        assert path[..i + 1][..i] == path[..i];
        if path[..i + 1] !in tree.files && IsDir(tree, path[..i]) {
          tree := tree.(dirs := tree.dirs + {path[..i + 1]});
        }
      }
      assert path[..|path|] == path;
    }

    method WriteFile(path: Path, data: Bytes) returns (ok: bool)
      modifies this
      ensures (ok, tree) == Written(old(tree), path, data)
    {
      if path == [] {
        return false;
      }
      CreateDirectories(path[..|path| - 1]);
      if !IsDir(tree, path[..|path| - 1]) || path in tree.dirs {
        return false;
      }
      tree := tree.(files := tree.files[path := data]);
      return true;
    }

    method Extract(inflate: Inflater, zip: Bytes, l: Listed) returns (ok: bool)
      modifies this
      ensures (ok, tree) == Extracted(inflate, zip, l, old(tree))
    {
      if l.name == [] {
        return false;
      }
      var path := SafePath(l.name);
      if path.None? {
        return false;
      }
      if l.name[|l.name| - 1] == SLASH {
        CreateDirectories(path.value);
        return true;
      }
      var data := DataOf(inflate, zip, l);
      if data.None? {
        return false;
      }
      ok := WriteFile(path.value, data.value);
    }

    method UnzipToDirectory(inflate: Inflater, zip: Bytes, creates: bool) returns (ok: bool)
      modifies this
      ensures (ok, tree) == Unzipped(inflate, zip, creates, old(tree))
    {
      var directory := FindDirectory(zip);
      if directory.None? {
        return false;
      }
      if !creates {
        return false;
      }
      ok := ExtractAll(inflate, zip, directory.value.0, directory.value.1, ReaderOf(zip), WriterOf(inflate, zip));
    }

    method ExtractAll(inflate: Inflater, zip: Bytes, first: nat, entries: nat, ghost read: nat -> Option<Listed>,
                      ghost write: (Listed, Tree) -> (bool, Tree)) returns (ok: bool)
      requires forall pos: nat {:trigger ListedAt(zip, pos)} :: read(pos) == ListedAt(zip, pos)
      requires forall l: Listed, t: Tree {:trigger Extracted(inflate, zip, l, t)} ::
                 write(l, t) == Extracted(inflate, zip, l, t)
      modifies this
      ensures (ok, tree) == Walk(read, write, first, entries, old(tree))
    {
      var pos, left := first, entries;
      while left > 0
        invariant Walk(read, write, first, entries, old(tree)) == Walk(read, write, pos, left, tree)
      {
        var l := ListedAt(zip, pos);
        if l.None? {
          return false;
        }
        ghost var before := tree;
        var done := Extract(inflate, zip, l.value);
        WalkStep(read, write, pos, left, l.value, before, done, tree);
        if !done {
          return false;
        }
        pos, left := l.value.next, left - 1;
      }
      return true;
    }
  }

  // ---- The fields the reader takes are the ones written ----

  lemma Within(b: Bytes, at: nat, h: Bytes, k: nat, field: Bytes)
    requires Stands(b, at, h) && Stands(h, k, field)
    ensures Stands(b, at + k, field)
  {
    var n := |field|;
    assert b[at..at + |h|] == h && h[k..k + n] == field;
    forall i | 0 <= i < n ensures b[at + k..at + k + n][i] == field[i] {
      assert h[k..k + n][i] == h[k + i] == b[at..at + |h|][k + i];
    }
  }

  lemma Same16(b: Bytes, at: nat, h: Bytes, k: nat)
    requires Stands(b, at, h) && k + 2 <= |h|
    ensures U16(b, at + k) == U16(h, k)
  {
    var s := b[at..at + |h|];
    assert s[k] == b[at + k] && s[k + 1] == b[at + k + 1];
  }

  lemma Same32(b: Bytes, at: nat, h: Bytes, k: nat)
    requires Stands(b, at, h) && k + 4 <= |h|
    ensures U32(b, at + k) == U32(h, k)
  {
    Same16(b, at, h, k);
    Same16(b, at, h, k + 2);
  }

  ghost predicate LocalShape(h: Bytes, name: nat) {
    |h| == 30 && U32(h, 0) == LOCAL_SIGNATURE && U16(h, 26) == name && U16(h, 28) == 0
  }

  ghost predicate CentralShape(h: Bytes, name: nat, size: nat, offset: nat) {
    && |h| == 46
    && U32(h, 0) == CENTRAL_SIGNATURE && U16(h, 10) == STORED && U32(h, 20) == size && U32(h, 24) == size
    && U16(h, 28) == name && U16(h, 30) == 0 && U16(h, 32) == 0 && U32(h, 42) == offset
  }

  ghost predicate EndShape(h: Bytes, entries: nat, size: nat, offset: nat) {
    && |h| == 22
    && U32(h, 0) == END_SIGNATURE && U16(h, 10) == entries && U32(h, 12) == size && U32(h, 16) == offset
    && U16(h, 20) == 0
  }

  lemma LocalPieces(e: Entry, crc: nat, h: Bytes)
    requires h == LocalHeader(e, crc)
    ensures Stands(h, 0, Put32(LOCAL_SIGNATURE)) && Stands(h, 26, Put16(|e.name|)) && Stands(h, 28, Put16(0))
  {
    assert h[0..4] == Put32(LOCAL_SIGNATURE);
    assert h[26..28] == Put16(|e.name|) && h[28..30] == Put16(0);
  }

  lemma CentralPieces(e: Entry, crc: nat, offset: nat, h: Bytes)
    requires h == CentralHeader(e, crc, offset)
    ensures Stands(h, 0, Put32(CENTRAL_SIGNATURE)) && Stands(h, 10, Put16(STORED))
    ensures Stands(h, 20, Put32(|e.data|)) && Stands(h, 24, Put32(|e.data|))
    ensures Stands(h, 28, Put16(|e.name|)) && Stands(h, 30, Put16(0)) && Stands(h, 32, Put16(0))
    ensures Stands(h, 42, Put32(offset))
  {
    assert h[0..4] == Put32(CENTRAL_SIGNATURE);
    assert h[10..12] == Put16(STORED);
    assert h[20..24] == Put32(|e.data|) && h[24..28] == Put32(|e.data|);
    assert h[28..30] == Put16(|e.name|) && h[30..32] == Put16(0) && h[32..34] == Put16(0);
    assert h[42..46] == Put32(offset);
  }

  lemma EndPieces(entries: nat, size: nat, offset: nat, h: Bytes)
    requires h == EndRecord(entries, size, offset)
    ensures Stands(h, 0, Put32(END_SIGNATURE)) && Stands(h, 10, Put16(entries)) && Stands(h, 12, Put32(size))
    ensures Stands(h, 16, Put32(offset)) && Stands(h, 20, Put16(0))
  {
    assert h[0..4] == Put32(END_SIGNATURE);
    assert h[10..12] == Put16(entries);
    assert h[12..16] == Put32(size) && h[16..20] == Put32(offset);
    assert h[20] == 0 && h[21] == 0;
  }

  lemma LocalFields(e: Entry, crc: nat, h: Bytes)
    requires h == LocalHeader(e, crc) && |e.name| < 0x1_0000
    ensures LocalShape(h, |e.name|)
  {
    LocalPieces(e, crc, h);
    Put32Reads(h, 0, LOCAL_SIGNATURE);
    Put16Reads(h, 26, |e.name|);
    Put16Reads(h, 28, 0);
  }

  lemma CentralFields(e: Entry, crc: nat, offset: nat, h: Bytes)
    requires h == CentralHeader(e, crc, offset)
    requires |e.name| < 0x1_0000 && |e.data| < WIDE && offset < WIDE
    ensures CentralShape(h, |e.name|, |e.data|, offset)
  {
    CentralPieces(e, crc, offset, h);
    Put32Reads(h, 0, CENTRAL_SIGNATURE);
    Put16Reads(h, 10, STORED);
    Put32Reads(h, 20, |e.data|);
    Put32Reads(h, 24, |e.data|);
    Put16Reads(h, 28, |e.name|);
    Put16Reads(h, 30, 0);
    Put16Reads(h, 32, 0);
    Put32Reads(h, 42, offset);
  }

  lemma EndFields(entries: nat, size: nat, offset: nat, h: Bytes)
    requires h == EndRecord(entries, size, offset) && size < WIDE && offset < WIDE
    ensures EndShape(h, entries % 0x1_0000, size, offset)
  {
    EndPieces(entries, size, offset, h);
    Put32Reads(h, 0, END_SIGNATURE);
    Get16(h, 10, entries);
    Put32Reads(h, 12, size);
    Put32Reads(h, 16, offset);
    Put16Reads(h, 20, 0);
  }

  lemma LocalIsRead(inflate: Inflater, zip: Bytes, h: Bytes, name: Name, data: Bytes, l: Listed)
    requires Stands(zip, l.local, h + name + data) && LocalShape(h, |name|)
    requires l.kind == STORED && l.packed == |data|
    ensures DataOf(inflate, zip, l) == Some(data)
  {
    var at, all := l.local, h + name + data;
    assert Stands(all, 0, h) && Stands(all, 30 + |name|, data);
    Within(zip, at, all, 0, h);
    Within(zip, at, all, 30 + |name|, data);
    Same32(zip, at, h, 0);
    Same16(zip, at, h, 26);
    Same16(zip, at, h, 28);
  }

  lemma CentralIsRead(zip: Bytes, pos: nat, h: Bytes, name: Name, size: nat, offset: nat)
    requires Stands(zip, pos, h + name) && CentralShape(h, |name|, size, offset)
    ensures ListedAt(zip, pos) == Some(Listed(name, STORED, size, size, offset, pos + 46 + |name|))
  {
    var all := h + name;
    assert Stands(all, 0, h) && Stands(all, 46, name);
    Within(zip, pos, all, 0, h);
    Within(zip, pos, all, 46, name);
    Same32(zip, pos, h, 0);
    Same16(zip, pos, h, 10);
    Same32(zip, pos, h, 20);
    Same32(zip, pos, h, 24);
    Same16(zip, pos, h, 28);
    Same16(zip, pos, h, 30);
    Same16(zip, pos, h, 32);
    Same32(zip, pos, h, 42);
  }

  lemma EndIsRead(zip: Bytes, at: nat, h: Bytes, entries: nat, size: nat, offset: nat)
    requires at + 22 == |zip| && Stands(zip, at, h) && EndShape(h, entries, size, offset)
    ensures LastEnd(zip, at) == Some(at)
    ensures U32(zip, at + 12) == size && U32(zip, at + 16) == offset && U16(zip, at + 10) == entries
  {
    Same32(zip, at, h, 0);
    Same16(zip, at, h, 10);
    Same32(zip, at, h, 12);
    Same32(zip, at, h, 16);
    Same16(zip, at, h, 20);
  }

  // ---- Where each piece stands ----

  lemma StandsInFront(a: Bytes, b: Bytes, at: nat, piece: Bytes)
    requires Stands(a, at, piece)
    ensures Stands(a + b, at, piece)
  {
    assert (a + b)[at..at + |piece|] == a[at..at + |piece|];
  }

  lemma StandsBehind(a: Bytes, b: Bytes, at: nat, piece: Bytes)
    requires Stands(b, at, piece)
    ensures Stands(a + b, |a| + at, piece)
  {
    assert (a + b)[|a| + at..|a| + at + |piece|] == b[at..at + |piece|];
  }

  lemma {:induction false} LocalStands(entries: seq<Entry>, i: nat)
    requires i < |entries|
    ensures Stands(Locals(entries), |Locals(entries[..i])|, Local(entries[i]))
    decreases |entries|
  {
    var before, last := entries[..|entries| - 1], entries[|entries| - 1];
    if i == |entries| - 1 {
      StandsLast(Locals(before), Local(last));
    } else {
      LocalStands(before, i);
      assert before[..i] == entries[..i];
      StandsInFront(Locals(before), Local(last), |Locals(before[..i])|, Local(entries[i]));
    }
  }

  lemma StandsLast(a: Bytes, b: Bytes)
    ensures Stands(a + b, |a|, b)
  {
  }

  lemma {:induction false} CentralStands(entries: seq<Entry>, i: nat, central: Bytes)
    requires i < |entries| && central == Central(entries[i], |Locals(entries[..i])|)
    ensures Stands(Centrals(entries), |Centrals(entries[..i])|, central)
    decreases |entries|
  {
    var before, last := entries[..|entries| - 1], entries[|entries| - 1];
    var added := Central(last, |Locals(before)|);
    if i == |entries| - 1 {
      StandsLast(Centrals(before), central);
    } else {
      assert before[..i] == entries[..i];
      CentralStands(before, i, central);
      StandsInFront(Centrals(before), added, |Centrals(before[..i])|, central);
    }
  }

  lemma CentralsLength(entries: seq<Entry>, i: nat)
    requires i < |entries|
    ensures |Centrals(entries[..i + 1])| == |Centrals(entries[..i])| + 46 + |entries[i].name|
  {
    assert entries[..i + 1][..i] == entries[..i];
  }

  // ---- An archive is replayed ----

  /** Names fit 16 bits and everything before the end record fits 32. */
  predicate Fits(entries: seq<Entry>) {
    && |Locals(entries)| + |Centrals(entries)| < WIDE
    && forall i :: 0 <= i < |entries| ==> |entries[i].name| < 0x1_0000
  }

  function Placing(e: Entry, t: Tree): (bool, Tree) {
    if e.name == [] || SafePath(e.name).None? then (false, t)
    else if e.name[|e.name| - 1] == SLASH then (true, Mkdirs(t, SafePath(e.name).value))
    else Written(t, SafePath(e.name).value, e.data)
  }

  /** The entries written one after another, until one fails. */
  function Replay<T>(place: (Entry, T) -> (bool, T), entries: seq<Entry>, t: T): (bool, T) {
    if entries == [] then (true, t)
    else
      var (ok, u) := place(entries[0], t);
      if ok then Replay(place, entries[1..], u) else (false, u)
  }

  /** At a place, a reader finds these entries, and the writer does with each what placing it does. */
  ghost predicate Lists<T(!new)>(read: nat -> Option<Listed>, write: (Listed, T) -> (bool, T),
                                 place: (Entry, T) -> (bool, T), pos: nat, entries: seq<Entry>)
    decreases |entries|
  {
    entries == [] ||
    (read(pos).Some? &&
     (forall t: T :: write(read(pos).value, t) == place(entries[0], t)) &&
     Lists(read, write, place, read(pos).value.next, entries[1..]))
  }

  lemma {:induction false} ListsReplay<T(!new)>(read: nat -> Option<Listed>, write: (Listed, T) -> (bool, T),
                                          place: (Entry, T) -> (bool, T), pos: nat, entries: seq<Entry>, t: T)
    requires Lists(read, write, place, pos, entries)
    ensures Walk(read, write, pos, |entries|, t) == Replay(place, entries, t)
    decreases |entries|
  {
    if entries != [] {
      var l := read(pos).value;
      ListsReplay(read, write, place, l.next, entries[1..], write(l, t).1);
    }
  }

  function PosOf(entries: seq<Entry>, i: nat): nat
    requires i <= |entries|
  {
    |Locals(entries)| + |Centrals(entries[..i])|
  }

  lemma LocalPiece(entries: seq<Entry>, i: nat, b: Bytes, local: Bytes, rest: Bytes)
    requires i < |entries| && b == Locals(entries) + rest && local == Local(entries[i])
    ensures Stands(b, |Locals(entries[..i])|, local) && |Locals(entries[..i])| + |local| <= |Locals(entries)|
  {
    LocalStands(entries, i);
    StandsInFront(Locals(entries), rest, |Locals(entries[..i])|, local);
  }

  lemma StandsInMiddle(a: Bytes, b: Bytes, c: Bytes, at: nat, piece: Bytes)
    requires Stands(b, at, piece)
    ensures Stands(a + b + c, |a| + at, piece)
  {
    StandsBehind(a, b, at, piece);
    StandsInFront(a + b, c, |a| + at, piece);
  }

  lemma CentralPiece(entries: seq<Entry>, i: nat, b: Bytes, central: Bytes, locals: Bytes, rest: Bytes)
    requires i < |entries| && b == locals + Centrals(entries) + rest
    requires central == Central(entries[i], |Locals(entries[..i])|)
    ensures Stands(b, |locals| + |Centrals(entries[..i])|, central)
  {
    CentralStands(entries, i, central);
    StandsInMiddle(locals, Centrals(entries), rest, |Centrals(entries[..i])|, central);
  }

  lemma PiecesStand(entries: seq<Entry>, zip: Bytes, i: nat, central: Bytes)
    requires zip == Archive(entries) && i < |entries|
    requires central == Central(entries[i], |Locals(entries[..i])|)
    ensures Stands(zip, PosOf(entries, i), central)
    ensures Stands(zip, |Locals(entries[..i])|, Local(entries[i]))
    ensures |Locals(entries[..i])| + |entries[i].data| <= |Locals(entries)|
  {
    var end := EndRecord(|entries|, |Centrals(entries)|, |Locals(entries)|);
    Assoc(Locals(entries), Centrals(entries), end);
    LocalPiece(entries, i, zip, Local(entries[i]), Centrals(entries) + end);
    CentralPiece(entries, i, zip, central, Locals(entries), end);
  }

  lemma CentralEntryIsRead(zip: Bytes, pos: nat, e: Entry, offset: nat, central: Bytes)
    requires central == Central(e, offset) && Stands(zip, pos, central)
    requires |e.name| < 0x1_0000 && |e.data| < WIDE && offset < WIDE
    ensures ListedAt(zip, pos) == Some(Listed(e.name, STORED, |e.data|, |e.data|, offset, pos + 46 + |e.name|))
  {
    var h := CentralHeader(e, Crc.Reference(e.data), offset);
    CentralFields(e, Crc.Reference(e.data), offset, h);
    CentralIsRead(zip, pos, h, e.name, |e.data|, offset);
  }

  lemma LocalEntryIsRead(inflate: Inflater, zip: Bytes, e: Entry, local: Bytes, l: Listed)
    requires local == Local(e) && Stands(zip, l.local, local) && |e.name| < 0x1_0000
    requires l.kind == STORED && l.packed == |e.data|
    ensures DataOf(inflate, zip, l) == Some(e.data)
  {
    var h := LocalHeader(e, Crc.Reference(e.data));
    LocalFields(e, Crc.Reference(e.data), h);
    LocalIsRead(inflate, zip, h, e.name, e.data, l);
  }

  lemma EntryIsRead(inflate: Inflater, zip: Bytes, e: Entry, pos: nat, offset: nat, l: Listed, central: Bytes,
                    local: Bytes)
    requires central == Central(e, offset) && Stands(zip, pos, central)
    requires local == Local(e) && Stands(zip, offset, local)
    requires |e.name| < 0x1_0000 && |e.data| < WIDE && offset < WIDE
    requires l == Listed(e.name, STORED, |e.data|, |e.data|, offset, pos + 46 + |e.name|)
    ensures ListedAt(zip, pos) == Some(l) && DataOf(inflate, zip, l) == Some(e.data)
  {
    CentralEntryIsRead(zip, pos, e, offset, central);
    LocalEntryIsRead(inflate, zip, e, local, l);
  }

  lemma ArchiveEntryIsRead(inflate: Inflater, entries: seq<Entry>, zip: Bytes, i: nat, pos: nat, next: nat)
    returns (l: Listed)
    requires zip == Archive(entries) && Fits(entries) && i < |entries|
    requires pos == PosOf(entries, i) && next == PosOf(entries, i + 1)
    ensures ReadsAt(inflate, zip, entries[i], pos, l) && l.next == next
  {
    var e, offset := entries[i], |Locals(entries[..i])|;
    l := Listed(e.name, STORED, |e.data|, |e.data|, offset, next);
    PiecesStand(entries, zip, i, Central(e, offset));
    CentralsLength(entries, i);
    EntryIsRead(inflate, zip, e, pos, offset, l, Central(e, offset), Local(e));
  }

  ghost predicate ReadsAt(inflate: Inflater, zip: Bytes, e: Entry, pos: nat, l: Listed) {
    ListedAt(zip, pos) == Some(l) && l.name == e.name && DataOf(inflate, zip, l) == Some(e.data)
  }

  lemma ReadsAtPlaces(inflate: Inflater, zip: Bytes, e: Entry, pos: nat, l: Listed)
    requires ReadsAt(inflate, zip, e, pos, l)
    ensures ReaderOf(zip)(pos) == Some(l)
    ensures forall t: Tree :: WriterOf(inflate, zip)(l, t) == Placing(e, t)
  {
  }

  ghost predicate Ends(zip: Bytes, entries: nat, size: nat, offset: nat) {
    && |zip| >= 22 && |zip| - 22 == offset + size < WIDE
    && LastEnd(zip, |zip| - 22) == Some(|zip| - 22)
    && U32(zip, |zip| - 10) == size && U32(zip, |zip| - 6) == offset && U16(zip, |zip| - 12) == entries
  }

  lemma FoundEnd(front: Bytes, end: Bytes, zip: Bytes, entries: nat, size: nat, offset: nat)
    requires zip == front + end && EndShape(end, entries, size, offset) && |front| == offset + size < WIDE
    ensures Ends(zip, entries, size, offset)
  {
    StandsLast(front, end);
    EndIsRead(zip, |front|, end, entries, size, offset);
  }

  lemma {:induction false} ArchiveIsRead(inflate: Inflater, entries: seq<Entry>, zip: Bytes, i: nat, n: nat, pos: nat,
                                         read: nat -> Option<Listed>, write: (Listed, Tree) -> (bool, Tree))
    requires Fits(entries) && zip == Archive(entries) && i <= n <= |entries| && pos == PosOf(entries, i)
    requires read == ReaderOf(zip) && write == WriterOf(inflate, zip)
    ensures Lists(read, write, Placing, pos, entries[i..n])
    decreases n - i
  {
    if i < n {
      var next := PosOf(entries, i + 1);
      var l := ArchiveEntryIsRead(inflate, entries, zip, i, pos, next);
      ReadsAtPlaces(inflate, zip, entries[i], pos, l);
      ArchiveIsRead(inflate, entries, zip, i + 1, n, next, read, write);
      assert entries[i..n][1..] == entries[i + 1..n];
    }
  }

  lemma ArchiveEnds(entries: seq<Entry>, zip: Bytes)
    requires Fits(entries) && zip == Archive(entries)
    ensures Ends(zip, |entries| % 0x1_0000, |Centrals(entries)|, |Locals(entries)|)
  {
    var end := EndRecord(|entries|, |Centrals(entries)|, |Locals(entries)|);
    EndFields(|entries|, |Centrals(entries)|, |Locals(entries)|, end);
    FoundEnd(Locals(entries) + Centrals(entries), end, zip, |entries| % 0x1_0000, |Centrals(entries)|,
             |Locals(entries)|);
  }

  lemma SumFits(size: nat, offset: nat)
    requires offset + size < WIDE
    ensures (offset + size) % WIDE == offset + size
  {
  }

  lemma EndsAreFollowed(zip: Bytes, entries: nat, size: nat, offset: nat)
    requires Ends(zip, entries, size, offset)
    ensures DirectoryOf(zip) == Some((offset, entries))
  {
    SumFits(size, offset);
    var end := |zip| - 22;
    assert U32(zip, end + 16) == offset && U32(zip, end + 12) == size && U16(zip, end + 10) == entries;
  }

  /**
   Unzipping an archive of any entries that fit is writing them in order -- but only the `n` that a
   16-bit count says.
   */
  lemma ArchiveIsReplayed(inflate: Inflater, entries: seq<Entry>, zip: Bytes, n: nat, t: Tree)
    requires Fits(entries) && zip == Archive(entries) && n <= |entries| && n == |entries| % 0x1_0000
    ensures Unzipped(inflate, zip, true, t) == Replay(Placing, entries[..n], t)
  {
    var read, write := ReaderOf(zip), WriterOf(inflate, zip);
    assert entries[..0] == [] && entries[0..n] == entries[..n];
    ArchiveIsRead(inflate, entries, zip, 0, n, |Locals(entries)|, read, write);
    ArchiveEnds(entries, zip);
    EndsAreFollowed(zip, n, |Centrals(entries)|, |Locals(entries)|);
    ListsReplay(read, write, Placing, |Locals(entries)|, entries[..n], t);
  }
}
