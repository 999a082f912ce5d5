/** A folder zipped by ZipDirectory and unzipped by UnzipToDirectory: what comes back. */
module RoundTrip {
  import opened Basics
  import opened Zip
  import opened Unzip
  import Sorting
  import Words

  // ---- Folders as a file system can hold them ----

  predicate PlainName(w: Name) {
    w != [] && w != [DOT] && w != [DOT, DOT] && SLASH !in w
  }

  predicate PlainPath(path: Path) {
    path != [] && forall i :: 0 <= i < |path| ==> PlainName(path[i])
  }

  /** Plain names, and no file where a folder must be. */
  ghost predicate Tidy(folder: Folder) {
    && (forall p :: p in folder ==> PlainPath(p))
    && (forall p, q :: p in folder && q in folder ==> !(p < q))
  }

  /** A listing names every file of the folder once, in any order. */
  ghost predicate IsListing(folder: Folder, listing: seq<Path>) {
    Sorting.NoRepeats(listing) && forall p :: p in listing <==> p in folder
  }

  function Readable(folder: Folder): map<Path, Bytes> {
    map p | p in folder && folder[p].Some? :: folder[p].value
  }

  // ---- Names come back as paths ----

  lemma {:induction false} JoinEnds(path: Path)
    requires PlainPath(path)
    ensures NameOf(path) != [] && NameOf(path)[0] != SLASH && NameOf(path)[|NameOf(path)| - 1] != SLASH
  {
    assert PlainName(path[0]) && path[0][0] in path[0];
    if |path| == 1 {
      assert path[0][|path[0]| - 1] in path[0];
    } else {
      assert forall i :: 0 <= i < |path| - 1 ==> path[1..][i] == path[i + 1];
      JoinEnds(path[1..]);
    }
  }

  lemma NameIsPath(path: Path)
    requires PlainPath(path)
    ensures NameOf(path) != [] && NameOf(path)[|NameOf(path)| - 1] != SLASH
    ensures SafePath(NameOf(path)) == Some(path)
  {
    JoinEnds(path);
    assert forall i :: 0 <= i < |path| ==> PlainName(path[i]);
    Words.SplitJoin(path, SLASH);
    MeaningfulParts(path);
  }

  // ---- Writing inside a tidy folder always works ----

  /** A partly written copy: only files of the folder, and folders above them. */
  ghost predicate PartOf(t: Tree, folder: Folder) {
    && (forall p :: p in t.files ==> p in folder)
    && (forall d :: d in t.dirs ==> exists p :: p in folder && d < p)
  }

  lemma {:induction false} MkdirsInside(t: Tree, folder: Folder, path: Path, p: Path)
    requires Tidy(folder) && PartOf(t, folder) && p in folder && path < p
    ensures IsDir(Mkdirs(t, path), path) && PartOf(Mkdirs(t, path), folder)
    decreases |path|
  {
    if path != [] {
      var above := path[..|path| - 1];
      assert above < p;
      MkdirsInside(t, folder, above, p);
    }
  }

  lemma WrittenInside(t: Tree, folder: Folder, p: Path, data: Bytes)
    requires Tidy(folder) && PartOf(t, folder) && p in folder
    ensures Written(t, p, data).0 && PartOf(Written(t, p, data).1, folder)
    ensures Written(t, p, data).1.files == t.files[p := data]
  {
    assert PlainPath(p);
    MkdirsInside(t, folder, p[..|p| - 1], p);
  }

  lemma PlacedInside(t: Tree, folder: Folder, p: Path, e: Entry)
    requires Tidy(folder) && PartOf(t, folder) && p in folder && e.name == NameOf(p)
    ensures Placing(e, t).0 && PartOf(Placing(e, t).1, folder)
    ensures Placing(e, t).1.files == t.files[p := e.data]
  {
    NameIsPath(p);
    WrittenInside(t, folder, p, e.data);
  }

  // ---- Replaying the entries of some paths ----

  lemma {:induction false} ReplayAppend<T>(place: (Entry, T) -> (bool, T), entries: seq<Entry>, e: Entry, t: T)
    ensures Replay(place, entries + [e], t) ==
            if Replay(place, entries, t).0 then place(e, Replay(place, entries, t).1) else Replay(place, entries, t)
  {
    if entries == [] {
      var (ok, u) := place(e, t);
      assert Replay(place, [e][1..], u) == (true, u);
    } else {
      assert (entries + [e])[1..] == entries[1..] + [e];
      ReplayAppend(place, entries[1..], e, place(entries[0], t).1);
    }
  }

  /** The readable files among some paths. */
  function Chosen(folder: Folder, paths: seq<Path>): map<Path, Bytes> {
    map p | p in folder && folder[p].Some? && p in paths :: folder[p].value
  }

  /** The entries of these paths, replayed from nothing, are exactly the readable files among them. */
  ghost predicate ReplaysTo(folder: Folder, paths: seq<Path>) {
    var (ok, t) := Replay(Placing, EntriesOf(folder, paths), EMPTY_TREE);
    ok && t.files == Chosen(folder, paths) && PartOf(t, folder)
  }

  lemma ReplayOneMore(folder: Folder, before: seq<Path>, last: Path, data: Bytes)
    requires Tidy(folder) && last in folder && folder[last] == Some(data) && ReplaysTo(folder, before)
    requires NameOf(last) != []
    ensures ReplaysTo(folder, before + [last])
  {
    var paths, e := before + [last], Entry(NameOf(last), data);
    assert paths[..|paths| - 1] == before;
    var t := Replay(Placing, EntriesOf(folder, before), EMPTY_TREE).1;
    ReplayAppend(Placing, EntriesOf(folder, before), e, EMPTY_TREE);
    PlacedInside(t, folder, last, e);
    assert Chosen(folder, paths) == Chosen(folder, before)[last := data];
  }

  lemma ReplayNoMore(folder: Folder, before: seq<Path>, last: Path)
    requires last in folder && folder[last].None? && ReplaysTo(folder, before)
    ensures ReplaysTo(folder, before + [last])
  {
    var paths := before + [last];
    assert paths[..|paths| - 1] == before;
    assert Chosen(folder, paths) == Chosen(folder, before);
  }

  lemma {:induction false} ReplayChosen(folder: Folder, paths: seq<Path>, k: nat)
    requires Tidy(folder) && k <= |paths| && forall p :: p in paths ==> p in folder
    ensures ReplaysTo(folder, paths[..k])
    decreases k
  {
    if k > 0 {
      var before, last := paths[..k - 1], paths[k - 1];
      ReplayChosen(folder, paths, k - 1);
      assert paths[..k] == before + [last];
      ReplayOne(folder, before, last);
    }
  }

  lemma ReplayOne(folder: Folder, before: seq<Path>, last: Path)
    requires Tidy(folder) && last in folder && ReplaysTo(folder, before)
    ensures ReplaysTo(folder, before + [last])
  {
    NameIsPath(last);
    match folder[last]
    case Some(data) => ReplayOneMore(folder, before, last, data);
    case None => ReplayNoMore(folder, before, last);
  }

  /** Any number of the first entries are the entries of some first paths. */
  lemma {:induction false} FirstEntries(folder: Folder, paths: seq<Path>, n: nat) returns (j: nat)
    requires n <= |EntriesOf(folder, paths)|
    ensures j <= |paths| && EntriesOf(folder, paths[..j]) == EntriesOf(folder, paths)[..n]
    ensures n < |EntriesOf(folder, paths)| ==> exists k :: j <= k < |paths| && paths[k] in Readable(folder)
  {
    var entries := EntriesOf(folder, paths);
    if n == |entries| {
      assert paths[..|paths|] == paths && entries[..n] == entries;
      j := |paths|;
    } else {
      var before := paths[..|paths| - 1];
      var shorter := EntriesOf(folder, before);
      j := FirstEntries(folder, before, n);
      assert before[..j] == paths[..j];
      assert entries[..n] == shorter[..n];
      if n < |shorter| {
        var k :| j <= k < |before| && before[k] in Readable(folder);
        assert paths[k] in Readable(folder);
      } else {
        assert paths[|paths| - 1] in Readable(folder);
      }
    }
  }

  // ---- The round trip ----

  lemma PathsOfListing(folder: Folder, listing: seq<Path>, paths: seq<Path>)
    requires Tidy(folder) && IsListing(folder, listing) && paths == Sorting.Sort(Sorting.PathLess, listing)
    ensures Sorting.NoRepeats(paths) && forall p :: p in paths <==> p in folder
  {
    Sorting.SortNoRepeats(Sorting.PathLess, listing);
  }

  /**
   Zipping a tidy folder and unzipping into an empty one succeeds, and gives back exactly the readable
   files when there are fewer than 65536 of them -- and only then, for the count is a 16-bit field.
   */
  lemma RoundTripExactly(inflate: Inflater, folder: Folder, listing: seq<Path>, entries: seq<Entry>, zip: Bytes)
    requires Tidy(folder) && IsListing(folder, listing)
    requires entries == EntriesOf(folder, Sorting.Sort(Sorting.PathLess, listing))
    requires Fits(entries) && zip == Archive(entries)
    ensures Unzipped(inflate, zip, true, EMPTY_TREE).0
    ensures Unzipped(inflate, zip, true, EMPTY_TREE).1.files == Readable(folder) <==> |entries| < 0x1_0000
  {
    var paths := Sorting.Sort(Sorting.PathLess, listing);
    PathsOfListing(folder, listing, paths);
    var n := |entries| % 0x1_0000;
    CountWraps(|entries|, n);
    ArchiveIsReplayed(inflate, entries, zip, n, EMPTY_TREE);
    FirstReplayed(folder, paths, n);
  }

  lemma CountWraps(count: nat, n: nat)
    requires n == count % 0x1_0000
    ensures n <= count && (n == count <==> count < 0x1_0000)
  {
  }

  lemma FirstReplayed(folder: Folder, paths: seq<Path>, n: nat)
    requires Tidy(folder) && Sorting.NoRepeats(paths) && forall p :: p in paths <==> p in folder
    requires n <= |EntriesOf(folder, paths)|
    ensures var (ok, t) := Replay(Placing, EntriesOf(folder, paths)[..n], EMPTY_TREE);
            ok && (t.files == Readable(folder) <==> n == |EntriesOf(folder, paths)|)
  {
    var j := FirstEntries(folder, paths, n);
    ReplayChosen(folder, paths, j);
    if n == |EntriesOf(folder, paths)| {
      ReplayChosen(folder, paths, |paths|);
      assert paths[..|paths|] == paths && EntriesOf(folder, paths)[..n] == EntriesOf(folder, paths);
      assert Chosen(folder, paths) == Readable(folder);
    } else {
      var k :| j <= k < |paths| && paths[k] in Readable(folder);
      NotAmongFirst(paths, j, k);
      assert paths[k] !in Chosen(folder, paths[..j]);
    }
  }

  lemma NotAmongFirst(paths: seq<Path>, j: nat, k: nat)
    requires Sorting.NoRepeats(paths) && j <= k < |paths|
    ensures paths[k] !in paths[..j]
  {
    forall i | 0 <= i < j ensures paths[..j][i] != paths[k] {
      assert paths[i] != paths[k];
    }
  }

  /** The order in which the file system lists a folder does not change the archive. */
  lemma ListingOrderIsForgotten(folder: Folder, listing: seq<Path>, other: seq<Path>)
    requires IsListing(folder, listing) && IsListing(folder, other)
    ensures Archive(EntriesOf(folder, Sorting.Sort(Sorting.PathLess, listing))) ==
            Archive(EntriesOf(folder, Sorting.Sort(Sorting.PathLess, other)))
  {
    Sorting.PathLessIsStrict();
    Sorting.SortForgetsOrder(Sorting.PathLess, listing, other);
  }

  // ---- What a refusal leaves ----

  predicate FolderName(name: Name) {
    name != [] && name[|name| - 1] == SLASH
  }

  /** A refused entry and a folder leave the files as they were; any other entry leaves one at least. */
  lemma PlacingLeaves(e: Entry, t: Tree)
    ensures !Placing(e, t).0 || FolderName(e.name) ==> Placing(e, t).1.files == t.files
    ensures Placing(e, t).0 && !FolderName(e.name) ==> Placing(e, t).1.files != map[]
  {
    if Placing(e, t).0 && !FolderName(e.name) {
      assert SafePath(e.name).value in Placing(e, t).1.files;
    }
  }

  lemma ExtractedLeaves(inflate: Inflater, zip: Bytes, l: Listed, t: Tree)
    ensures !Extracted(inflate, zip, l, t).0 || FolderName(l.name) ==> Extracted(inflate, zip, l, t).1.files == t.files
    ensures Extracted(inflate, zip, l, t).0 && !FolderName(l.name) ==> Extracted(inflate, zip, l, t).1.files != map[]
    ensures t.files != map[] ==> Extracted(inflate, zip, l, t).1.files != map[]
  {
    if t.files != map[] {
      var p :| p in t.files;
      assert p in Extracted(inflate, zip, l, t).1.files;
    }
    if Extracted(inflate, zip, l, t).0 && !FolderName(l.name) {
      assert SafePath(l.name).value in Extracted(inflate, zip, l, t).1.files;
    }
  }

  /** The names of the entries written before the first refusal. */
  function Accepted<T>(read: nat -> Option<Listed>, write: (Listed, T) -> (bool, T), pos: nat, left: nat, t: T)
    : seq<Name>
    decreases left
  {
    if left == 0 || read(pos).None? || !write(read(pos).value, t).0 then []
    else
      var l := read(pos).value;
      [l.name] + Accepted(read, write, l.next, left - 1, write(l, t).1)
  }

  predicate OnlyFolders(names: seq<Name>) {
    forall i :: 0 <= i < |names| ==> FolderName(names[i])
  }

  lemma OneNameMore(name: Name, names: seq<Name>)
    ensures OnlyFolders([name] + names) <==> FolderName(name) && OnlyFolders(names)
  {
    assert ([name] + names)[0] == name;
    assert forall i :: 0 <= i < |names| ==> ([name] + names)[i + 1] == names[i];
  }

  lemma {:induction false} WalkLeaves(read: nat -> Option<Listed>, write: (Listed, Tree) -> (bool, Tree), pos: nat,
                                      left: nat, t: Tree)
    requires forall l: Listed, u: Tree ::
               (!write(l, u).0 || FolderName(l.name) ==> write(l, u).1.files == u.files) &&
               (write(l, u).0 && !FolderName(l.name) ==> write(l, u).1.files != map[]) &&
               (u.files != map[] ==> write(l, u).1.files != map[])
    ensures Walk(read, write, pos, left, t).1.files == map[] <==>
            t.files == map[] && OnlyFolders(Accepted(read, write, pos, left, t))
    decreases left
  {
    if left > 0 && read(pos).Some? && write(read(pos).value, t).0 {
      var l := read(pos).value;
      var u := write(l, t).1;
      WalkLeaves(read, write, l.next, left - 1, u);
      OneNameMore(l.name, Accepted(read, write, l.next, left - 1, u));
    }
  }

  /** The names an archive, of any bytes at all, has written before it is refused or done. */
  function AcceptedNames(inflate: Inflater, zip: Bytes): seq<Name> {
    match DirectoryOf(zip)
    case None => []
    case Some((first, entries)) => Accepted(ReaderOf(zip), WriterOf(inflate, zip), first, entries, EMPTY_TREE)
  }

  /**
   "All or nothing": unzipping any bytes into an empty folder leaves no file exactly when nothing but
   folders stood before the first entry refused.
   */
  lemma NothingIsLeftExactly(inflate: Inflater, zip: Bytes)
    ensures Unzipped(inflate, zip, true, EMPTY_TREE).1.files == map[] <==> OnlyFolders(AcceptedNames(inflate, zip))
  {
    var write := WriterOf(inflate, zip);
    forall l: Listed, u: Tree
      ensures !write(l, u).0 || FolderName(l.name) ==> write(l, u).1.files == u.files
      ensures write(l, u).0 && !FolderName(l.name) ==> write(l, u).1.files != map[]
      ensures u.files != map[] ==> write(l, u).1.files != map[]
    {
      ExtractedLeaves(inflate, zip, l, u);
    }
    match DirectoryOf(zip)
    case None =>
    case Some((first, entries)) => WalkLeaves(ReaderOf(zip), write, first, entries, EMPTY_TREE);
  }

  /** Replaying stops at the first entry refused. */
  lemma {:induction false} ReplayStops<T>(place: (Entry, T) -> (bool, T), entries: seq<Entry>, k: nat, t: T)
    requires k < |entries| && Replay(place, entries[..k], t).0
    requires !place(entries[k], Replay(place, entries[..k], t).1).0
    ensures Replay(place, entries, t) == place(entries[k], Replay(place, entries[..k], t).1)
    decreases |entries|
  {
    if k == 0 {
      assert entries[..0] == [];
    } else {
      assert entries[..k][0] == entries[0] && entries[..k][1..] == entries[1..][..k - 1];
      ReplayStops(place, entries[1..], k - 1, place(entries[0], t).1);
    }
  }

  predicate FoldersBefore(entries: seq<Entry>, k: nat)
    requires k <= |entries|
  {
    forall i :: 0 <= i < k ==> FolderName(entries[i].name)
  }

  lemma {:induction false} ReplayLeaves(entries: seq<Entry>, k: nat)
    requires k <= |entries| && Replay(Placing, entries[..k], EMPTY_TREE).0
    ensures Replay(Placing, entries[..k], EMPTY_TREE).1.files == map[] <==> FoldersBefore(entries, k)
    decreases k
  {
    if k > 0 {
      var e := entries[k - 1];
      assert entries[..k] == entries[..k - 1] + [e];
      ReplayAppend(Placing, entries[..k - 1], e, EMPTY_TREE);
      ReplayLeaves(entries, k - 1);
      var t := Replay(Placing, entries[..k - 1], EMPTY_TREE).1;
      PlacingLeaves(e, t);
    }
  }

  /**
   The same for an archive of known entries: refused at entry `k`, it answers false, keeps the files of
   the entries before, and so leaves nothing exactly when those are all folders.
   */
  lemma RefusalLeavesExactly(inflate: Inflater, entries: seq<Entry>, zip: Bytes, n: nat, k: nat)
    requires Fits(entries) && zip == Archive(entries) && k < n <= |entries| && n == |entries| % 0x1_0000
    requires var (ok, t) := Replay(Placing, entries[..k], EMPTY_TREE); ok && !Placing(entries[k], t).0
    ensures var (ok, t) := Unzipped(inflate, zip, true, EMPTY_TREE);
            !ok && t.files == Replay(Placing, entries[..k], EMPTY_TREE).1.files &&
            (t.files == map[] <==> FoldersBefore(entries, k))
  {
    ArchiveIsReplayed(inflate, entries, zip, n, EMPTY_TREE);
    assert entries[..n][..k] == entries[..k] && entries[..n][k] == entries[k];
    ReplayStops(Placing, entries[..n], k, EMPTY_TREE);
    PlacingLeaves(entries[k], Replay(Placing, entries[..k], EMPTY_TREE).1);
    ReplayLeaves(entries, k);
  }

  /** "All or nothing" is the caller's doing: here a refused entry leaves the file before it written. */
  lemma RefusedMidway(inflate: Inflater, data: Bytes, entries: seq<Entry>)
    requires |data| < 1000 && entries == [Entry([0x61], data), Entry([DOT, DOT], data)]
    ensures var (ok, t) := Unzipped(inflate, Archive(entries), true, EMPTY_TREE);
            !ok && t.files == map[[[0x61]] := data]
  {
    var first, second := entries[0], entries[1];
    assert entries[..1] == [first] && entries[..1][..0] == [] && entries[..2] == entries;
    assert Fits(entries) by {
      assert Locals([first]) == Locals([]) + Local(first);
      assert Centrals([first]) == Centrals([]) + Central(first, 0);
    }
    FirstPlaced(first, data);
    Words.SplitWord([DOT, DOT], SLASH);
    assert !Placing(second, Replay(Placing, [first], EMPTY_TREE).1).0;
    RefusalLeavesExactly(inflate, entries, Archive(entries), 2, 1);
  }

  lemma FirstPlaced(first: Entry, data: Bytes)
    requires first == Entry([0x61], data)
    ensures Replay(Placing, [first], EMPTY_TREE) == (true, Tree(map[[[0x61]] := data], {}))
  {
    var a: Path := [[0x61]];
    assert PlainPath(a) && NameOf(a) == [0x61];
    NameIsPath(a);
    assert [first][1..] == [];
  }
}
