/**
 The save archive of zip_store.cpp: ZipDirectory, UnzipToDirectory and SafePath, laid out as sections
 4.3.7, 4.3.12 and 4.3.16 of PKWARE APPNOTE have it. Inflating is foreign: any function, None where
 it fails. Files are written whole.
 */
module Zip {
  import opened Basics
  import opened LittleEndian
  import Crc
  import Sorting
  import Words

  type Name = Bytes
  type Path = seq<Name>

  const SLASH: Byte := 0x2F
  const DOT: Byte := 0x2E

  const LOCAL_SIGNATURE := 0x04034B50
  const CENTRAL_SIGNATURE := 0x02014B50
  const END_SIGNATURE := 0x06054B50
  const STORED := 0
  const DEFLATED := 8
  const WIDE := 0x1_0000_0000

  // ---- Folders ----

  /** What is under a folder: files by their path, and the folders between. */
  datatype Tree = Tree(files: map<Path, Bytes>, dirs: set<Path>)

  const EMPTY_TREE := Tree(map[], {})

  predicate IsDir(t: Tree, path: Path) {
    path == [] || path in t.dirs
  }

  /** Makes each folder on the way down; stops where a file is in the way. */
  function Mkdirs(t: Tree, path: Path): (r: Tree)
    ensures r.files == t.files
    decreases |path|
  {
    if path == [] then t
    else
      var u := Mkdirs(t, path[..|path| - 1]);
      if path in u.files || !IsDir(u, path[..|path| - 1]) then u else u.(dirs := u.dirs + {path})
  }

  /** A file written in place of what its path held; false when a folder is there or a file on the way. */
  function Written(t: Tree, path: Path, data: Bytes): (bool, Tree) {
    if path == [] then (false, t)
    else
      var u := Mkdirs(t, path[..|path| - 1]);
      if !IsDir(u, path[..|path| - 1]) || path in u.dirs then (false, u)
      else (true, u.(files := u.files[path := data]))
  }

  // ---- Writing ----

  datatype Entry = Entry(name: Name, data: Bytes)

  /** Signature, version needed, flags, method, time and date. */
  function LocalLead(): (r: Bytes)
    ensures |r| == 14
  {
    Put32(LOCAL_SIGNATURE) + Put16(20) + Put16(0) + Put16(STORED) + Put16(0) + Put16(0)
  }

  /** Signature, versions made by and needed, flags, method, time and date. */
  function CentralLead(): (r: Bytes)
    ensures |r| == 16
  {
    Put32(CENTRAL_SIGNATURE) + Put16(20) + Put16(20) + Put16(0) + Put16(STORED) + Put16(0) + Put16(0)
  }

  /** Checksum, both sizes and the length of the name, the same in both headers. */
  function Sizes(e: Entry, crc: nat): (r: Bytes)
    ensures |r| == 14
  {
    Put32(crc) + Put32(|e.data|) + Put32(|e.data|) + Put16(|e.name|)
  }

  /** No extra field, comment, disk or attributes; where the local header is. */
  function CentralTail(offset: nat): (r: Bytes)
    ensures |r| == 16
  {
    Put16(0) + Put16(0) + Put16(0) + Put16(0) + Put32(0) + Put32(offset)
  }

  function LocalHeader(e: Entry, crc: nat): (r: Bytes)
    ensures |r| == 30
  {
    LocalLead() + Sizes(e, crc) + Put16(0)
  }

  function CentralHeader(e: Entry, crc: nat, offset: nat): (r: Bytes)
    ensures |r| == 46
  {
    CentralLead() + Sizes(e, crc) + CentralTail(offset)
  }

  function EndRecord(entries: nat, size: nat, offset: nat): (r: Bytes)
    ensures |r| == 22
  {
    Put32(END_SIGNATURE) + Put16(0) + Put16(0) + Put16(entries) + Put16(entries) + Put32(size) + Put32(offset) +
    Put16(0)
  }

  function Local(e: Entry): Bytes {
    LocalHeader(e, Crc.Reference(e.data)) + e.name + e.data
  }

  function Central(e: Entry, offset: nat): Bytes {
    CentralHeader(e, Crc.Reference(e.data), offset) + e.name
  }

  function Locals(entries: seq<Entry>): Bytes {
    if entries == [] then [] else Locals(entries[..|entries| - 1]) + Local(entries[|entries| - 1])
  }

  function Centrals(entries: seq<Entry>): Bytes {
    if entries == [] then []
    else
      var before := entries[..|entries| - 1];
      Centrals(before) + Central(entries[|entries| - 1], |Locals(before)|)
  }

  function Archive(entries: seq<Entry>): Bytes {
    Locals(entries) + Centrals(entries) + EndRecord(|entries|, |Centrals(entries)|, |Locals(entries)|)
  }

  /** The files of a folder, None for one that cannot be read. */
  type Folder = map<Path, Option<Bytes>>

  /** The name of a path inside an archive. */
  function NameOf(path: Path): Name {
    if path == [] then [] else Words.Join(path, SLASH)
  }

  /** The readable files on a list of paths, in its order. */
  function EntriesOf(folder: Folder, paths: seq<Path>): seq<Entry> {
    if paths == [] then []
    else
      var before, last := EntriesOf(folder, paths[..|paths| - 1]), paths[|paths| - 1];
      if NameOf(last) == [] || last !in folder || folder[last].None? then before
      else before + [Entry(NameOf(last), folder[last].value)]
  }

  lemma Regroup(out: Bytes, header: Bytes, name: Bytes, data: Bytes)
    ensures out + header + name + data == out + (header + name + data)
    ensures out + header + name == out + (header + name)
  {
    Assoc(out, header, name);
    Assoc(out, header + name, data);
  }

  lemma LocalsGrow(entries: seq<Entry>, e: Entry, crc: nat)
    requires crc == Crc.Reference(e.data)
    ensures Locals(entries + [e]) == Locals(entries) + LocalHeader(e, crc) + e.name + e.data
  {
    assert (entries + [e])[..|entries|] == entries;
    Regroup(Locals(entries), LocalHeader(e, crc), e.name, e.data);
  }

  lemma CentralsGrow(locals: Bytes, entries: seq<Entry>, i: nat, p: Placed)
    requires i < |entries| && p == Placed(entries[i], Crc.Reference(entries[i].data), |Locals(entries[..i])|)
    ensures locals + Centrals(entries[..i + 1]) ==
            locals + Centrals(entries[..i]) + CentralHeader(p.e, p.crc, p.offset) + p.e.name
  {
    var before := entries[..i];
    assert entries[..i + 1][..i] == before;
    Assoc(locals, Centrals(before), CentralHeader(p.e, p.crc, p.offset) + p.e.name);
    Regroup(locals + Centrals(before), CentralHeader(p.e, p.crc, p.offset), p.e.name, []);
  }

  /** The header as the code fills it: the checksum already computed. */
  method AppendLocal(out: Bytes, ghost entries: seq<Entry>, e: Entry) returns (grown: Bytes, crc: nat)
    requires out == Locals(entries)
    ensures grown == Locals(entries + [e]) && crc == Crc.Reference(e.data)
  {
    crc := Crc.Crc32(e.data);
    LocalsGrow(entries, e, crc);
    grown := out + LocalHeader(e, crc) + e.name + e.data;
  }

  /** An entry with the checksum and the offset kept for the directory. */
  datatype Placed = Placed(e: Entry, crc: nat, offset: nat)

  ghost predicate Remembered(placed: seq<Placed>, written: seq<Entry>) {
    |placed| == |written| &&
    forall j :: 0 <= j < |placed| ==>
      placed[j] == Placed(written[j], Crc.Reference(written[j].data), |Locals(written[..j])|)
  }

  lemma RememberOne(placed: seq<Placed>, written: seq<Entry>, e: Entry)
    requires Remembered(placed, written)
    ensures Remembered(placed + [Placed(e, Crc.Reference(e.data), |Locals(written)|)], written + [e])
  {
    var now := written + [e];
    assert now[..|written|] == written;
    forall j | 0 <= j < |written| ensures now[..j] == written[..j] {
    }
  }

  lemma EntriesStep(folder: Folder, paths: seq<Path>, i: nat)
    requires i < |paths|
    ensures EntriesOf(folder, paths[..i + 1]) ==
            EntriesOf(folder, paths[..i]) +
            if NameOf(paths[i]) == [] || paths[i] !in folder || folder[paths[i]].None? then []
            else [Entry(NameOf(paths[i]), folder[paths[i]].value)]
  {
    assert paths[..i + 1][..i] == paths[..i];
  }

  /** `listing` is the order in which the folder's files happen to be listed. */
  method ZipDirectory(folder: Folder, listing: seq<Path>) returns (out: Bytes)
    ensures out == Archive(EntriesOf(folder, Sorting.Sort(Sorting.PathLess, listing)))
  {
    var paths := Sorting.Sort(Sorting.PathLess, listing);
    out := [];
    var placed: seq<Placed> := [];
    ghost var written: seq<Entry> := [];
    for i := 0 to |paths|
      invariant written == EntriesOf(folder, paths[..i]) && out == Locals(written)
      invariant Remembered(placed, written)
    {
      EntriesStep(folder, paths, i);
      var rel := NameOf(paths[i]);
      if rel == [] {
        continue;
      }
      if paths[i] !in folder || folder[paths[i]].None? {
        continue;
      }
      var e := Entry(rel, folder[paths[i]].value);
      var offset := |out|;
      var crc;
      out, crc := AppendLocal(out, written, e);
      RememberOne(placed, written, e);
      placed := placed + [Placed(e, crc, offset)];
      written := written + [e];
    }
    assert paths[..|paths|] == paths;
    out := AppendDirectory(out, placed, written);
  }

  method AppendDirectory(locals: Bytes, placed: seq<Placed>, ghost written: seq<Entry>) returns (out: Bytes)
    requires locals == Locals(written) && Remembered(placed, written)
    ensures out == Archive(written)
  {
    out := locals;
    for i := 0 to |placed|
      invariant out == locals + Centrals(written[..i])
    {
      var p := placed[i];
      CentralsGrow(locals, written, i, p);
      out := out + CentralHeader(p.e, p.crc, p.offset) + p.e.name;
    }
    assert written[..|written|] == written;
    out := out + EndRecord(|placed|, |out| - |locals|, |locals|);
  }
}
