/**
 What UnzipToDirectory accepts of any archive, whoever wrote it: each record it reads in terms of the
 pieces the format puts there, each refusal in terms of what is missing.
 */
module ZipReading {
  import opened Basics
  import opened LittleEndian
  import opened Zip
  import opened Unzip
  import Words

  // ---- Numbers in fields ----

  lemma Puts16(b: Bytes, at: nat, x: nat)
    requires at + 2 <= |b| && x < 0x1_0000
    ensures U16(b, at) == x <==> Stands(b, at, Put16(x))
  {
    var s := b[at..at + 2];
    assert s == [b[at], b[at + 1]];
    if Stands(b, at, Put16(x)) {
      Get16(b, at, x);
    }
  }

  lemma Puts32(b: Bytes, at: nat, x: nat)
    requires at + 4 <= |b| && x < WIDE
    ensures U32(b, at) == x <==> Stands(b, at, Put32(x))
  {
    if U32(b, at) == x {
      ReadStands(b, at, x);
    } else if Stands(b, at, Put32(x)) {
      Get32(b, at, x);
    }
  }

  lemma TwoHalves(b: Bytes, at: nat)
    requires at + 4 <= |b|
    ensures b[at..at + 4] == b[at..at + 2] + b[at + 2..at + 4]
  {
  }

  lemma ReadStands(b: Bytes, at: nat, x: nat)
    requires at + 4 <= |b| && U32(b, at) == x
    ensures Stands(b, at, Put32(x))
  {
    var low, high := U16(b, at), U16(b, at + 2);
    assert x % 0x1_0000 == low && x / 0x1_0000 == high;
    LowHalf(x, low);
    Puts16(b, at, low);
    Puts16(b, at + 2, high);
    TwoHalves(b, at);
  }

  lemma LowHalf(x: nat, low: nat)
    requires low == x % 0x1_0000
    ensures Put16(x) == Put16(low)
  {
    var high := x / 0x1_0000;
    assert x == high * 0x1_0000 + low;
    assert x / 0x100 == high * 0x100 + low / 0x100;
  }

  // ---- One entry of the directory ----

  /** The name, and behind it an extra field and a comment, all inside the archive. */
  predicate Trailed(zip: Bytes, pos: nat, l: Listed, extra: nat, comment: nat) {
    |l.name| < 0x1_0000 && extra < 0x1_0000 && comment < 0x1_0000 &&
    Stands(zip, pos + 28, Put16(|l.name|)) && Stands(zip, pos + 30, Put16(extra)) &&
    Stands(zip, pos + 32, Put16(comment)) && Stands(zip, pos + 46, l.name) &&
    l.next == pos + 46 + |l.name| + extra + comment <= |zip|
  }

  /** Signature, method, sizes and offset, whatever stands in the other fields. */
  predicate Listing(zip: Bytes, pos: nat, l: Listed) {
    l.kind < 0x1_0000 && l.packed < WIDE && l.plain < WIDE && l.local < WIDE && pos + 46 <= |zip| &&
    Stands(zip, pos, Put32(0x02014B50)) && Stands(zip, pos + 10, Put16(l.kind)) &&
    Stands(zip, pos + 20, Put32(l.packed)) && Stands(zip, pos + 24, Put32(l.plain)) &&
    Stands(zip, pos + 42, Put32(l.local))
  }

  ghost predicate ListedThere(zip: Bytes, pos: nat, l: Listed) {
    Listing(zip, pos, l) && exists extra: nat, comment: nat :: Trailed(zip, pos, l, extra, comment)
  }

  lemma ListingReads(zip: Bytes, pos: nat, l: Listed)
    requires l.kind < 0x1_0000 && l.packed < WIDE && l.plain < WIDE && l.local < WIDE && pos + 46 <= |zip|
    ensures Listing(zip, pos, l) <==>
            U32(zip, pos) == CENTRAL_SIGNATURE && U16(zip, pos + 10) == l.kind && U32(zip, pos + 20) == l.packed &&
            U32(zip, pos + 24) == l.plain && U32(zip, pos + 42) == l.local
  {
    Puts32(zip, pos, CENTRAL_SIGNATURE);
    Puts16(zip, pos + 10, l.kind);
    Puts32(zip, pos + 20, l.packed);
    Puts32(zip, pos + 24, l.plain);
    Puts32(zip, pos + 42, l.local);
  }

  lemma TrailedReads(zip: Bytes, pos: nat, l: Listed, extra: nat, comment: nat)
    requires |l.name| < 0x1_0000 && extra < 0x1_0000 && comment < 0x1_0000 && pos + 46 <= |zip|
    ensures Trailed(zip, pos, l, extra, comment) <==>
            U16(zip, pos + 28) == |l.name| && U16(zip, pos + 30) == extra && U16(zip, pos + 32) == comment &&
            l.next == pos + 46 + |l.name| + extra + comment <= |zip| && zip[pos + 46..pos + 46 + |l.name|] == l.name
  {
    Puts16(zip, pos + 28, |l.name|);
    Puts16(zip, pos + 30, extra);
    Puts16(zip, pos + 32, comment);
  }

  lemma ListedIsThere(zip: Bytes, pos: nat, l: Listed)
    requires ListedAt(zip, pos) == Some(l)
    ensures Listing(zip, pos, l) && Trailed(zip, pos, l, U16(zip, pos + 30), U16(zip, pos + 32))
  {
    ListingReads(zip, pos, l);
    TrailedReads(zip, pos, l, U16(zip, pos + 30), U16(zip, pos + 32));
  }

  lemma ThereIsListed(zip: Bytes, pos: nat, l: Listed, extra: nat, comment: nat)
    requires Listing(zip, pos, l) && Trailed(zip, pos, l, extra, comment)
    ensures ListedAt(zip, pos) == Some(l)
  {
    ListingReads(zip, pos, l);
    TrailedReads(zip, pos, l, extra, comment);
  }

  /** An entry is read exactly when a directory header with its name, extra field and comment stands there. */
  lemma ListedExactly(zip: Bytes, pos: nat, l: Listed)
    ensures ListedAt(zip, pos) == Some(l) <==> ListedThere(zip, pos, l)
  {
    if ListedAt(zip, pos) == Some(l) {
      ListedIsThere(zip, pos, l);
    }
    if ListedThere(zip, pos, l) {
      var extra: nat, comment: nat :| Trailed(zip, pos, l, extra, comment);
      ThereIsListed(zip, pos, l, extra, comment);
    }
  }

  // ---- The contents of an entry ----

  /** A local header with a name and an extra field of these lengths, and the packed bytes behind them. */
  predicate Packed(zip: Bytes, l: Listed, name: nat, extra: nat, packed: Bytes) {
    name < 0x1_0000 && extra < 0x1_0000 && l.local + 30 <= |zip| &&
    Stands(zip, l.local, Put32(0x04034B50)) && Stands(zip, l.local + 26, Put16(name)) &&
    Stands(zip, l.local + 28, Put16(extra)) && |packed| == l.packed && Stands(zip, l.local + 30 + name + extra, packed)
  }

  ghost predicate PackedThere(zip: Bytes, l: Listed, packed: Bytes) {
    exists name: nat, extra: nat :: Packed(zip, l, name, extra, packed)
  }

  lemma PackedReads(zip: Bytes, l: Listed, name: nat, extra: nat, packed: Bytes)
    requires name < 0x1_0000 && extra < 0x1_0000 && l.local + 30 <= |zip|
    ensures Packed(zip, l, name, extra, packed) <==>
            U32(zip, l.local) == LOCAL_SIGNATURE && U16(zip, l.local + 26) == name && U16(zip, l.local + 28) == extra &&
            |packed| == l.packed && Stands(zip, l.local + 30 + name + extra, packed)
  {
    Puts32(zip, l.local, LOCAL_SIGNATURE);
    Puts16(zip, l.local + 26, name);
    Puts16(zip, l.local + 28, extra);
  }

  /** The packed bytes are stored as they are (method 0) or inflate to the data (method 8). */
  predicate Unpacks(inflate: Inflater, l: Listed, packed: Bytes, data: Bytes) {
    (l.kind == 0 && packed == data) || (l.kind == 8 && inflate(packed, l.plain) == Some(data))
  }

  lemma DataIsThere(inflate: Inflater, zip: Bytes, l: Listed, data: Bytes)
    requires DataOf(inflate, zip, l) == Some(data)
    ensures exists packed: Bytes :: PackedThere(zip, l, packed) && Unpacks(inflate, l, packed, data)
  {
    var name, extra := U16(zip, l.local + 26), U16(zip, l.local + 28);
    var start := l.local + 30 + name + extra;
    var packed := zip[start..start + l.packed];
    PackedReads(zip, l, name, extra, packed);
    assert PackedThere(zip, l, packed) && Unpacks(inflate, l, packed, data);
  }

  lemma PackedIsRead(inflate: Inflater, zip: Bytes, l: Listed, packed: Bytes, data: Bytes)
    requires PackedThere(zip, l, packed) && Unpacks(inflate, l, packed, data)
    ensures DataOf(inflate, zip, l) == Some(data)
  {
    var name: nat, extra: nat :| Packed(zip, l, name, extra, packed);
    PackedReads(zip, l, name, extra, packed);
  }

  /**
   An entry's contents are read exactly when its packed bytes stand behind a local header and unpack to
   them; a method that is neither of the two is refused.
   */
  lemma DataExactly(inflate: Inflater, zip: Bytes, l: Listed, data: Bytes)
    ensures DataOf(inflate, zip, l) == Some(data) <==>
            exists packed: Bytes :: PackedThere(zip, l, packed) && Unpacks(inflate, l, packed, data)
  {
    if DataOf(inflate, zip, l) == Some(data) {
      DataIsThere(inflate, zip, l, data);
    }
    if packed: Bytes :| PackedThere(zip, l, packed) && Unpacks(inflate, l, packed, data) {
      PackedIsRead(inflate, zip, l, packed, data);
    }
  }

  // ---- The end record ----

  /** An end record with a comment of this length, inside the archive. */
  predicate Ends(zip: Bytes, at: nat, comment: nat) {
    comment < 0x1_0000 && at + 22 + comment <= |zip| && Stands(zip, at, Put32(0x06054B50)) &&
    Stands(zip, at + 20, Put16(comment))
  }

  ghost predicate EndsThere(zip: Bytes, at: nat) {
    exists comment: nat :: Ends(zip, at, comment)
  }

  lemma EndsExactly(zip: Bytes, at: nat)
    ensures EndStands(zip, at) <==> EndsThere(zip, at)
  {
    if at + 22 <= |zip| {
      Puts32(zip, at, END_SIGNATURE);
      Puts16(zip, at + 20, U16(zip, at + 20));
      if EndStands(zip, at) {
        assert Ends(zip, at, U16(zip, at + 20));
      }
      if comment: nat :| Ends(zip, at, comment) {
        Puts16(zip, at + 20, comment);
      }
    }
  }

  /** The directory an end record names: its offset and size end before the record -- their sum in 32 bits. */
  predicate NamesDirectory(zip: Bytes, end: nat, first: nat, entries: nat) {
    end + 22 <= |zip| && first < WIDE && entries < 0x1_0000 &&
    Stands(zip, end + 16, Put32(first)) && Stands(zip, end + 10, Put16(entries)) &&
    (first + U32(zip, end + 12)) % WIDE <= end
  }

  ghost predicate LastThere(zip: Bytes, end: nat) {
    EndsThere(zip, end) && forall later :: end < later ==> !EndsThere(zip, later)
  }

  lemma {:induction false} LastIsLast(zip: Bytes, from: nat, end: nat)
    ensures LastEnd(zip, from) == Some(end) <==>
            end <= from && EndStands(zip, end) && forall later :: end < later <= from ==> !EndStands(zip, later)
  {
    if !EndStands(zip, from) && from > 0 {
      LastIsLast(zip, from - 1, end);
    }
  }

  lemma LastExactly(zip: Bytes, end: nat)
    requires |zip| >= 22
    ensures LastEnd(zip, |zip| - 22) == Some(end) <==> LastThere(zip, end)
  {
    forall at ensures EndStands(zip, at) <==> EndsThere(zip, at) {
      EndsExactly(zip, at);
    }
    LastIsLast(zip, |zip| - 22, end);
  }

  lemma DirectoryReads(zip: Bytes, end: nat, first: nat, entries: nat)
    requires |zip| >= 22 && LastEnd(zip, |zip| - 22) == Some(end)
    ensures DirectoryOf(zip) == Some((first, entries)) <==> NamesDirectory(zip, end, first, entries)
  {
    if first < WIDE && entries < 0x1_0000 {
      Puts32(zip, end + 16, first);
      Puts16(zip, end + 10, entries);
    }
  }

  /** The last end record of an archive is the one that counts. */
  lemma DirectoryExactly(zip: Bytes, first: nat, entries: nat)
    ensures DirectoryOf(zip) == Some((first, entries)) <==>
            exists end: nat :: LastThere(zip, end) && NamesDirectory(zip, end, first, entries)
  {
    if |zip| >= 22 {
      var last := LastEnd(zip, |zip| - 22);
      if last.Some? {
        LastExactly(zip, last.value);
        DirectoryReads(zip, last.value, first, entries);
      }
      if end: nat :| LastThere(zip, end) && NamesDirectory(zip, end, first, entries) {
        LastExactly(zip, end);
      }
    }
  }

  // ---- Where a name lands ----

  lemma {:induction false} MeaningfulAppend(a: Path, b: Path)
    ensures Meaningful(a + b) == Meaningful(a) + Meaningful(b)
  {
    if a == [] {
      assert a + b == b;
    } else {
      assert (a + b)[1..] == a[1..] + b;
      MeaningfulAppend(a[1..], b);
    }
  }

  lemma OneMeaningful(word: Name)
    ensures Meaningful([word]) == if word == [] || word == [DOT] then [] else [word]
  {
    assert [word][1..] == [];
  }

  lemma JoinStarts(parts: Path)
    requires parts != [] && forall i :: 0 <= i < |parts| ==> SLASH !in parts[i]
    ensures var name := Words.Join(parts, SLASH);
            (name != [] && name[0] == SLASH) <==> |parts| > 1 && parts[0] == []
  {
    var name := Words.Join(parts, SLASH);
    if parts[0] != [] {
      assert name[0] == parts[0][0];
    }
  }

  /**
   Of a name made of these components: refused exactly when it starts with a slash or climbs; otherwise it
   lands at them in order, without the empty ones and the single dots.
   */
  lemma SafePathExactly(parts: Path, name: Name)
    requires parts != [] && (forall i :: 0 <= i < |parts| ==> SLASH !in parts[i]) && name == Words.Join(parts, SLASH)
    ensures SafePath(name).None? <==> (|parts| > 1 && parts[0] == []) || [DOT, DOT] in parts
    ensures SafePath(name).Some? ==> SafePath(name).value == Meaningful(parts)
  {
    Words.SplitJoin(parts, SLASH);
    JoinStarts(parts);
  }

  // ---- What is made on the way ----

  /** No path is both a file and a folder, and a folder's own folder is one. */
  predicate Rooted(t: Tree) {
    t.files.Keys !! t.dirs && forall d :: d in t.dirs ==> d != [] && IsDir(t, d[..|d| - 1])
  }

  /** A path down to one of its components. */
  predicate OnTheWay(q: Path, path: Path) {
    q != [] && q <= path
  }

  lemma {:induction false} MkdirsExactly(t: Tree, path: Path)
    requires Rooted(t)
    ensures Rooted(Mkdirs(t, path)) && Mkdirs(t, path).files == t.files
    ensures forall q :: q in Mkdirs(t, path).dirs <==>
              q in t.dirs || (OnTheWay(q, path) && forall f :: OnTheWay(f, q) ==> f !in t.files)
    decreases |path|
  {
    if path != [] {
      var parent := path[..|path| - 1];
      var u := Mkdirs(t, parent);
      MkdirsExactly(t, parent);
      forall q ensures OnTheWay(q, path) <==> OnTheWay(q, parent) || q == path {
        WayDown(q, path);
      }
      forall f ensures OnTheWay(f, parent) ==> OnTheWay(f, path) {
        WayDown(f, path);
      }
      if IsDir(t, parent) {
        DirsHaveNoFiles(t, parent);
      }
    }
  }

  lemma WayDown(q: Path, path: Path)
    requires path != []
    ensures OnTheWay(q, path) <==> OnTheWay(q, path[..|path| - 1]) || q == path
  {
    var parent := path[..|path| - 1];
    if OnTheWay(q, path) && q != path {
      assert q == path[..|q|] && |q| < |path|;
      assert parent[..|q|] == q;
    }
    if OnTheWay(q, parent) {
      assert path[..|q|] == parent[..|q|];
    }
  }

  lemma {:induction false} DirsHaveNoFiles(t: Tree, d: Path)
    requires Rooted(t) && IsDir(t, d)
    ensures forall f :: OnTheWay(f, d) ==> f !in t.files
    decreases |d|
  {
    if d != [] {
      DirsHaveNoFiles(t, d[..|d| - 1]);
      forall f | OnTheWay(f, d) ensures f !in t.files {
        WayDown(f, d);
      }
    }
  }

  /**
   A file is written exactly when its path is not empty, no file is on the way and no folder in its place;
   then it is there, with every folder above it, and nothing else has changed.
   */
  lemma WrittenExactly(t: Tree, path: Path, data: Bytes)
    requires Rooted(t)
    ensures var (ok, u) := Written(t, path, data);
            (ok <==> path != [] && path !in t.dirs && forall f :: OnTheWay(f, path) && f != path ==> f !in t.files) &&
            (ok ==> u.files == t.files[path := data] &&
                    forall q :: q in u.dirs <==> q in t.dirs || (OnTheWay(q, path) && q != path)) &&
            (!ok ==> u.files == t.files)
  {
    if path != [] {
      var parent := path[..|path| - 1];
      MkdirsExactly(t, parent);
      forall q ensures OnTheWay(q, path) && q != path <==> OnTheWay(q, parent) {
        WayDown(q, path);
      }
      if IsDir(Mkdirs(t, parent), parent) {
        DirsHaveNoFiles(Mkdirs(t, parent), parent);
      }
    }
  }

  // ---- An entry, and all of them ----

  /** A file with the contents the entry packs, at its place, and every folder above it. */
  ghost predicate FilePlaced(inflate: Inflater, zip: Bytes, l: Listed, path: Path, t: Tree, u: Tree) {
    path != [] && path !in t.dirs && (forall f :: OnTheWay(f, path) && f != path ==> f !in t.files) &&
    (exists packed: Bytes, data: Bytes ::
       PackedThere(zip, l, packed) && Unpacks(inflate, l, packed, data) && u.files == t.files[path := data]) &&
    forall q :: q in u.dirs <==> q in t.dirs || (OnTheWay(q, path) && q != path)
  }

  /** The folders down to a path, as far as no file is in the way. */
  ghost predicate FoldersPlaced(path: Path, t: Tree, u: Tree) {
    u.files == t.files &&
    forall q :: q in u.dirs <==> q in t.dirs || (OnTheWay(q, path) && forall f :: OnTheWay(f, q) ==> f !in t.files)
  }

  /** What an entry that is accepted makes of a folder. */
  ghost predicate Placed(inflate: Inflater, zip: Bytes, l: Listed, t: Tree, u: Tree) {
    l.name != [] && SafePath(l.name).Some? &&
    if l.name[|l.name| - 1] == SLASH then FoldersPlaced(SafePath(l.name).value, t, u)
    else FilePlaced(inflate, zip, l, SafePath(l.name).value, t, u)
  }

  lemma FolderExactly(path: Path, t: Tree, u: Tree)
    requires Rooted(t)
    ensures Mkdirs(t, path) == u <==> FoldersPlaced(path, t, u)
    ensures Mkdirs(t, path) == u ==> Rooted(u)
  {
    MkdirsExactly(t, path);
    if FoldersPlaced(path, t, u) {
      assert u.dirs == Mkdirs(t, path).dirs;
    }
  }

  lemma FileExactly(inflate: Inflater, zip: Bytes, l: Listed, path: Path, t: Tree, u: Tree, data: Bytes)
    requires Rooted(t) && DataOf(inflate, zip, l) == Some(data)
    ensures Written(t, path, data) == (true, u) <==> FilePlaced(inflate, zip, l, path, t, u)
  {
    WrittenExactly(t, path, data);
    DataExactly(inflate, zip, l, data);
    if FilePlaced(inflate, zip, l, path, t, u) {
      var packed: Bytes, other: Bytes :|
        PackedThere(zip, l, packed) && Unpacks(inflate, l, packed, other) && u.files == t.files[path := other];
      PackedIsRead(inflate, zip, l, packed, other);
      assert u.dirs == Written(t, path, data).1.dirs;
    }
  }

  lemma FileIsRooted(t: Tree, path: Path, data: Bytes)
    requires Rooted(t) && Written(t, path, data).0
    ensures Rooted(Written(t, path, data).1)
  {
    MkdirsExactly(t, path[..|path| - 1]);
  }

  /** An entry is accepted, and does just this, exactly when it is described so. */
  lemma PlacedExactly(inflate: Inflater, zip: Bytes, l: Listed, t: Tree, u: Tree)
    requires Rooted(t)
    ensures Extracted(inflate, zip, l, t) == (true, u) <==> Placed(inflate, zip, l, t, u)
    ensures Extracted(inflate, zip, l, t) == (true, u) ==> Rooted(u)
  {
    if l.name != [] && SafePath(l.name).Some? {
      var path := SafePath(l.name).value;
      FolderExactly(path, t, u);
      if DataOf(inflate, zip, l).Some? {
        FileExactly(inflate, zip, l, path, t, u, DataOf(inflate, zip, l).value);
        if Written(t, path, DataOf(inflate, zip, l).value).0 {
          FileIsRooted(t, path, DataOf(inflate, zip, l).value);
        }
      } else if l.name[|l.name| - 1] != SLASH && FilePlaced(inflate, zip, l, path, t, u) {
        var packed: Bytes, data: Bytes :| PackedThere(zip, l, packed) && Unpacks(inflate, l, packed, data);
        PackedIsRead(inflate, zip, l, packed, data);
      }
    }
  }

  /** An entry is listed there, and leads from one folder to the other. */
  ghost predicate OnePlaced(inflate: Inflater, zip: Bytes, pos: nat, l: Listed, t: Tree, v: Tree) {
    ListedThere(zip, pos, l) && Placed(inflate, zip, l, t, v)
  }

  lemma OneExactly(inflate: Inflater, zip: Bytes, pos: nat, l: Listed, t: Tree, v: Tree)
    requires Rooted(t)
    ensures ReaderOf(zip)(pos) == Some(l) && WriterOf(inflate, zip)(l, t) == (true, v) <==>
            OnePlaced(inflate, zip, pos, l, t, v)
    ensures OnePlaced(inflate, zip, pos, l, t, v) ==> Rooted(v)
  {
    ListedExactly(zip, pos, l);
    PlacedExactly(inflate, zip, l, t, v);
  }

  ghost function Placer(inflate: Inflater, zip: Bytes): (nat, Listed, Tree, Tree) -> bool {
    (pos: nat, l: Listed, t: Tree, v: Tree) => OnePlaced(inflate, zip, pos, l, t, v)
  }

  /** So many steps, each from where the one before ended. */
  ghost predicate Chain(one: (nat, Listed, Tree, Tree) -> bool, pos: nat, left: nat, t: Tree, u: Tree)
    decreases left
  {
    if left == 0 then t == u
    else exists l: Listed, v: Tree :: one(pos, l, t, v) && Chain(one, l.next, left - 1, v, u)
  }

  /** Entries listed one after another, each of which is accepted. */
  ghost predicate AllPlaced(inflate: Inflater, zip: Bytes, pos: nat, left: nat, t: Tree, u: Tree) {
    Chain(Placer(inflate, zip), pos, left, t, u)
  }

  lemma {:induction false} WalkIsChain(read: nat -> Option<Listed>, write: (Listed, Tree) -> (bool, Tree),
                                       one: (nat, Listed, Tree, Tree) -> bool, good: Tree -> bool,
                                       pos: nat, left: nat, t: Tree, u: Tree)
    requires good(t)
    requires forall p: nat, l: Listed, a: Tree, b: Tree {:trigger one(p, l, a, b)} :: good(a) ==>
               (one(p, l, a, b) <==> read(p) == Some(l) && write(l, a) == (true, b)) && (one(p, l, a, b) ==> good(b))
    ensures Walk(read, write, pos, left, t) == (true, u) <==> Chain(one, pos, left, t, u)
    decreases left
  {
    if left > 0 {
      if read(pos).Some? && write(read(pos).value, t).0 {
        var l := read(pos).value;
        var v := write(l, t).1;
        assert one(pos, l, t, v);
        WalkIsChain(read, write, one, good, l.next, left - 1, v, u);
      }
    }
  }

  lemma WalkExactly(inflate: Inflater, zip: Bytes, pos: nat, left: nat, t: Tree, u: Tree)
    requires Rooted(t)
    ensures Walk(ReaderOf(zip), WriterOf(inflate, zip), pos, left, t) == (true, u) <==>
            AllPlaced(inflate, zip, pos, left, t, u)
  {
    forall p: nat, l: Listed, a: Tree, b: Tree | Rooted(a)
      ensures OnePlaced(inflate, zip, p, l, a, b) <==>
              ReaderOf(zip)(p) == Some(l) && WriterOf(inflate, zip)(l, a) == (true, b)
      ensures OnePlaced(inflate, zip, p, l, a, b) ==> Rooted(b)
    {
      OneExactly(inflate, zip, p, l, a, b);
    }
    WalkIsChain(ReaderOf(zip), WriterOf(inflate, zip), Placer(inflate, zip), (a: Tree) => Rooted(a), pos, left, t, u);
  }

  /**
   Any bytes at all: unzipping them succeeds with this result exactly when they end in an end record that
   names a directory, and every entry there, one after another, is accepted and leads from the folder as it
   was to the result.
   */
  lemma UnzipsExactly(inflate: Inflater, zip: Bytes, creates: bool, t: Tree, u: Tree)
    requires Rooted(t)
    ensures Unzipped(inflate, zip, creates, t) == (true, u) <==>
            creates &&
            exists end: nat, first: nat, entries: nat ::
              LastThere(zip, end) && NamesDirectory(zip, end, first, entries) &&
              AllPlaced(inflate, zip, first, entries, t, u)
  {
    var directory := DirectoryOf(zip);
    if directory.Some? {
      var (first, entries) := directory.value;
      DirectoryExactly(zip, first, entries);
      WalkExactly(inflate, zip, first, entries, t, u);
    }
    if end: nat, first: nat, entries: nat :|
      LastThere(zip, end) && NamesDirectory(zip, end, first, entries) && AllPlaced(inflate, zip, first, entries, t, u)
    {
      DirectoryExactly(zip, first, entries);
    }
  }
}
