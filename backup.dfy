/** BackupUtil: backup writes every collection of a database into a fresh
    snapshot directory <root>/<db>-YYMMDD-HHmmss/<collection>/<id>.bson,
    restore drops and rebuilds one collection per entry of a snapshot
    directory, and printBackups lists the snapshots under the root. */
module Backup {
  import opened Wrappers
  import opened Calendar
  import opened Naming
  import opened FileSystem
  import opened Database

  /** JavaScript's a || b on an optional string: an absent or empty a gives b. */
  function Or(a: Option<string>, b: string): (r: string)
    ensures r == "" ==> b == ""
  {
    if a.Some? && a.value != "" then a.value else b
  }

  // ---- the snapshot layout ------------------------------------------------------

  /** A collection as backup reads it: its name and its documents in the order
      the cursor streams them. */
  datatype Collection = Collection(name: string, docs: seq<Doc>)

  /** The file a document is written to: String(_id) followed by ".bson". */
  function FileName(d: Doc): string {
    d.id + ".bson"
  }

  function Names(colls: seq<Collection>): (r: seq<string>)
    ensures |r| == |colls| && forall k :: 0 <= k < |colls| ==> r[k] == colls[k].name
  {
    seq(|colls|, k requires 0 <= k < |colls| => colls[k].name)
  }

  function FileNames(docs: seq<Doc>): (r: seq<string>)
    ensures |r| == |docs| && forall i :: 0 <= i < |docs| ==> r[i] == FileName(docs[i])
  {
    seq(|docs|, i requires 0 <= i < |docs| => FileName(docs[i]))
  }

  /** What the documents leave in their collection's directory: for each file
      name, the serialisation of the last document, in stream order, written
      to it. */
  function Files(docs: seq<Doc>, ser: Doc -> Bytes): map<string, Bytes>
    decreases |docs|
  {
    if docs == [] then map[]
    else
      var d := docs[|docs| - 1];
      Files(docs[..|docs| - 1], ser)[FileName(d) := ser(d)]
  }

  /** A file name has a file exactly when some document is written to it. */
  lemma {:induction false} FilesNamed(docs: seq<Doc>, ser: Doc -> Bytes)
    ensures forall n :: n in Files(docs, ser) <==> n in FileNames(docs)
    decreases |docs|
  {
    if docs != [] {
      var prefix := docs[..|docs| - 1];
      FilesNamed(prefix, ser);
      assert FileNames(docs) == FileNames(prefix) + [FileName(docs[|docs| - 1])];
    }
  }

  /** The names a collection directory records: each file name once, in the
      order its first document was written. readdirSync returns them sorted
      (SortedNames). */
  function Listed(docs: seq<Doc>): seq<string>
    decreases |docs|
  {
    if docs == [] then []
    else
      var prev := Listed(docs[..|docs| - 1]);
      var f := FileName(docs[|docs| - 1]);
      if f in prev then prev else prev + [f]
  }

  /** The listing names exactly the files. */
  lemma {:induction false} ListedFiles(docs: seq<Doc>, ser: Doc -> Bytes)
    ensures forall n :: n in Listed(docs) <==> n in Files(docs, ser)
    decreases |docs|
  {
    if docs != [] {
      ListedFiles(docs[..|docs| - 1], ser);
    }
  }

  /** With distinct ids the directory records the file names of the
      documents, one per document, in stream order. */
  lemma {:induction false} ListedDistinctIds(docs: seq<Doc>)
    requires forall j, k :: 0 <= j < k < |docs| ==> docs[j].id != docs[k].id
    ensures Listed(docs) == FileNames(docs)
    decreases |docs|
  {
    if docs != [] {
      var prefix := docs[..|docs| - 1];
      var d := docs[|docs| - 1];
      ListedDistinctIds(prefix);
      assert FileNames(docs) == FileNames(prefix) + [FileName(d)];
      if FileName(d) in FileNames(prefix) {
        var j :| 0 <= j < |prefix| && FileNames(prefix)[j] == FileName(d);
        assert docs[j] == prefix[j];
        FileNameInjective(prefix[j], d);
      }
    }
  }

  /** Ordering documents by file name orders their file names. */
  lemma {:induction false} InsertByFileName(x: Doc, s: seq<Doc>)
    ensures FileNames(InsertBy(x, s, FileName)) == InsertBy(FileName(x), FileNames(s), Self)
    decreases |s|
  {
    if s != [] {
      assert FileNames(s)[1..] == FileNames(s[1..]);
      if NameLe(FileName(x), FileName(s[0])) {
        assert FileNames([x] + s) == [FileName(x)] + FileNames(s);
      } else {
        InsertByFileName(x, s[1..]);
        var r := InsertBy(x, s[1..], FileName);
        assert FileNames([s[0]] + r) == [FileName(s[0])] + FileNames(r);
      }
    } else {
      assert FileNames([x]) == [FileName(x)];
    }
  }

  lemma {:induction false} SortByFileName(docs: seq<Doc>)
    ensures FileNames(SortBy(docs, FileName)) == SortedNames(FileNames(docs))
    decreases |docs|
  {
    if docs != [] {
      var prefix := docs[..|docs| - 1];
      SortByFileName(prefix);
      InsertByFileName(docs[|docs| - 1], SortBy(prefix, FileName));
      assert FileNames(docs)[..|docs| - 1] == FileNames(prefix);
    }
  }

  /** Ordered by file name, documents with distinct ids still have distinct
      ids and the ordered file names are strictly increasing. */
  lemma SortedIdsDistinct(docs: seq<Doc>)
    requires forall j, k :: 0 <= j < k < |docs| ==> docs[j].id != docs[k].id
    ensures var sorted := SortBy(docs, FileName);
      (forall j, k :: 0 <= j < k < |sorted| ==> sorted[j].id != sorted[k].id) &&
      (forall j :: 0 <= j < |sorted| - 1 ==> NameLe(FileName(sorted[j]), FileName(sorted[j + 1])) && FileName(sorted[j]) != FileName(sorted[j + 1]))
  {
    var sorted := SortBy(docs, FileName);
    assert Distinct(FileNames(docs)) by {
      forall j, k | 0 <= j < k < |docs|
        ensures FileName(docs[j]) != FileName(docs[k])
      {
        if FileName(docs[j]) == FileName(docs[k]) {
          FileNameInjective(docs[j], docs[k]);
        }
      }
    }
    SortDistinct(FileNames(docs), Self);
    SortByFileName(docs);
    SortOrdered(docs, FileName);
    assert FileNames(sorted) == SortedNames(FileNames(docs));
    forall j, k | 0 <= j < k < |sorted|
      ensures sorted[j].id != sorted[k].id
    {
      assert FileNames(sorted)[j] != FileNames(sorted)[k];
    }
  }

  /** Documents whose ids print alike overwrite one another: the file holds
      the last of them. */
  lemma {:induction false} LastWriteWins(docs: seq<Doc>, j: int, ser: Doc -> Bytes)
    requires 0 <= j < |docs|
    requires forall k :: j < k < |docs| ==> FileName(docs[k]) != FileName(docs[j])
    ensures FileName(docs[j]) in Files(docs, ser)
    ensures Files(docs, ser)[FileName(docs[j])] == ser(docs[j])
    decreases |docs|
  {
    if j < |docs| - 1 {
      LastWriteWins(docs[..|docs| - 1], j, ser);
    }
  }

  /** Documents with different ids are written to different files. */
  lemma FileNameInjective(d: Doc, e: Doc)
    requires FileName(d) == FileName(e)
    ensures d.id == e.id
  {
    assert FileName(d)[..|d.id|] == d.id;
    assert FileName(e)[..|e.id|] == e.id;
  }

  /** When no two ids print alike, every document keeps a file of its own. */
  lemma DistinctIdsKeepAll(docs: seq<Doc>, i: int, ser: Doc -> Bytes)
    requires forall j, k :: 0 <= j < k < |docs| ==> docs[j].id != docs[k].id
    requires 0 <= i < |docs|
    ensures FileName(docs[i]) in Files(docs, ser) && Files(docs, ser)[FileName(docs[i])] == ser(docs[i])
  {
    forall k | i < k < |docs|
      ensures FileName(docs[k]) != FileName(docs[i])
    {
      if FileName(docs[k]) == FileName(docs[i]) {
        FileNameInjective(docs[k], docs[i]);
      }
    }
    LastWriteWins(docs, i, ser);
  }

  /** The id 1 and the id "1" both print as 1: of two such documents only the
      later reaches the snapshot, in a single file. */
  lemma EqualIdStringsCollide(ser: Doc -> Bytes)
    ensures var docs := [Doc("1", "{ _id: 1 }"), Doc("1", "{ _id: '1' }")];
      Files(docs, ser) == map["1.bson" := ser(docs[1])]
  {
    var docs := [Doc("1", "{ _id: 1 }"), Doc("1", "{ _id: '1' }")];
    assert docs[..1][..0] == [];
    assert FileName(docs[0]) == "1.bson" && FileName(docs[1]) == "1.bson";
    assert Files(docs[..1], ser) == map["1.bson" := ser(docs[0])];
  }

  /** dir is a directory and everything directly in it is a file. */
  ghost predicate FilesOnlyIn(t: Tree, dir: Path) {
    && dir in t && t[dir].Dir?
    && forall n :: Join(dir, n) in t ==> t[Join(dir, n)].File?
  }

  /** Nothing lies directly in dir. */
  ghost predicate EmptyIn(t: Tree, dir: Path) {
    forall n :: Join(dir, n) !in t
  }

  /** The directory dir holds exactly the files of m, with their contents. */
  ghost predicate HoldsFiles(t: Tree, dir: Path, m: map<string, Bytes>) {
    forall n :: (Join(dir, n) in t <==> n in m) && (n in m ==> t[Join(dir, n)] == File(m[n]))
  }

  /** b keeps every entry of a, and all but the node at x as they were. */
  ghost predicate KeepsAllBut(a: Tree, b: Tree, x: Path) {
    forall p :: p in a ==> p in b && (p != x ==> b[p] == a[p])
  }

  /** b keeps every entry of a, and every file's contents. */
  ghost predicate KeepsFiles(a: Tree, b: Tree) {
    forall p :: p in a ==> p in b && (a[p].File? ==> b[p] == a[p])
  }

  lemma KeepsFilesOf(a: Tree, b: Tree, x: Path)
    requires KeepsAllBut(a, b, x) && (x in a ==> a[x].Dir?)
    ensures KeepsFiles(a, b)
  {
  }

  lemma KeepsFilesTrans(a: Tree, b: Tree, c: Tree)
    requires KeepsFiles(a, b) && KeepsFiles(b, c)
    ensures KeepsFiles(a, c)
  {
  }

  /** Additions under y, itself under x, are additions under x. */
  lemma AddsUnderTrans(a: Tree, b: Tree, c: Tree, x: Path, y: Path)
    requires AddsUnder(a, b, x) && AddsUnder(b, c, y)
    requires |x| <= |y| && y[..|x|] == x
    ensures AddsUnder(a, c, x)
  {
    forall p | p in c && p !in a
      ensures |x| <= |p| && p[..|x|] == x
    {
      if p !in b {
        assert p[..|x|] == p[..|y|][..|x|];
      }
    }
  }

  /** The root can hold the snapshot: it is a directory, or mkdirSync can
      make it one. */
  predicate RootUsable(t: Tree, root: Path) {
    CanMkdir(t, root) || (root in t && t[root].Dir?)
  }

  /** Every entry b adds to a is x or lies below x. */
  ghost predicate AddsUnder(a: Tree, b: Tree, x: Path) {
    forall p :: p in b && p !in a ==> |x| <= |p| && p[..|x|] == x
  }

  /** b keeps every entry of a, and every node but the root's and, when the
      root is made, its parent's: no other listing is rewritten. */
  ghost predicate ChangesOnlyAt(a: Tree, b: Tree, root: Path) {
    forall p :: p in a ==> p in b && (p != root && (root == [] || p != Parent(root)) ==> b[p] == a[p])
  }

  /** Every entry b adds to a is the root or lies below bak. */
  ghost predicate NewOnlyAt(a: Tree, b: Tree, root: Path, bak: Path) {
    forall p :: p in b && p !in a ==> p == root || (|bak| <= |p| && p[..|bak|] == bak)
  }

  /** A step that keeps all but x, where x is the root or new, and adds only
      below bak, extends both frames of backup. */
  lemma FrameStep(a: Tree, b: Tree, c: Tree, root: Path, bak: Path, x: Path)
    requires ChangesOnlyAt(a, b, root) && NewOnlyAt(a, b, root, bak)
    requires KeepsAllBut(b, c, x) && AddsUnder(b, c, bak)
    requires x == root || x !in a
    ensures ChangesOnlyAt(a, c, root) && NewOnlyAt(a, c, root, bak)
  {
  }

  /** The tree after writeFileSync(<dir>/<String(_id)>.bson, serialize(doc))
      for each document in turn. */
  function WriteDocs(t: Tree, dir: Path, docs: seq<Doc>, ser: Doc -> Bytes): (r: Tree)
    requires FilesOnlyIn(t, dir)
    ensures FilesOnlyIn(r, dir)
    decreases |docs|
  {
    if docs == [] then t
    else
      var prev := WriteDocs(t, dir, docs[..|docs| - 1], ser);
      var d := docs[|docs| - 1];
      AfterWrite(prev, Join(dir, FileName(d)), ser(d))
  }

  lemma {:induction false} WriteDocsValid(t: Tree, dir: Path, docs: seq<Doc>, ser: Doc -> Bytes)
    requires ValidTree(t) && FilesOnlyIn(t, dir)
    ensures ValidTree(WriteDocs(t, dir, docs, ser))
    decreases |docs|
  {
    if docs != [] {
      var prev := WriteDocs(t, dir, docs[..|docs| - 1], ser);
      WriteDocsValid(t, dir, docs[..|docs| - 1], ser);
      var d := docs[|docs| - 1];
      WriteKeepsValid(prev, Join(dir, FileName(d)), ser(d));
    }
  }

  /** Writing documents into an empty directory leaves there exactly the
      files of Files, and changes nothing outside the directory. */
  lemma {:induction false} WriteDocsContents(t: Tree, dir: Path, docs: seq<Doc>, ser: Doc -> Bytes)
    requires FilesOnlyIn(t, dir) && EmptyIn(t, dir)
    ensures var r := WriteDocs(t, dir, docs, ser);
      KeepsAllBut(t, r, dir) && AddsUnder(t, r, dir) && HoldsFiles(r, dir, Files(docs, ser))
    decreases |docs|
  {
    if docs != [] {
      var prefix := docs[..|docs| - 1];
      var d := docs[|docs| - 1];
      WriteDocsContents(t, dir, prefix, ser);
      WriteStep(t, WriteDocs(t, dir, prefix, ser), dir, Files(prefix, ser), FileName(d), ser(d));
    }
  }

  lemma WriteStep(t: Tree, prev: Tree, dir: Path, m: map<string, Bytes>, f: string, data: Bytes)
    requires EmptyIn(t, dir) && FilesOnlyIn(prev, dir)
    requires KeepsAllBut(t, prev, dir) && AddsUnder(t, prev, dir) && HoldsFiles(prev, dir, m)
    ensures var r := AfterWrite(prev, Join(dir, f), data);
      KeepsAllBut(t, r, dir) && AddsUnder(t, r, dir) && HoldsFiles(r, dir, m[f := data])
  {
    WriteStepFrame(t, prev, dir, f, data);
    WriteStepFiles(prev, dir, m, f, data);
  }

  /** A write into dir keeps every entry outside dir and adds only below it. */
  lemma WriteStepFrame(t: Tree, prev: Tree, dir: Path, f: string, data: Bytes)
    requires EmptyIn(t, dir) && FilesOnlyIn(prev, dir)
    requires KeepsAllBut(t, prev, dir) && AddsUnder(t, prev, dir)
    ensures var r := AfterWrite(prev, Join(dir, f), data);
      KeepsAllBut(t, r, dir) && AddsUnder(t, r, dir)
  {
    var p := Join(dir, f);
    assert p !in t;
    assert p[..|dir|] == dir;
  }

  /** A write into dir adds or replaces one file of it. */
  lemma WriteStepFiles(prev: Tree, dir: Path, m: map<string, Bytes>, f: string, data: Bytes)
    requires FilesOnlyIn(prev, dir) && HoldsFiles(prev, dir, m)
    ensures HoldsFiles(AfterWrite(prev, Join(dir, f), data), dir, m[f := data])
  {
    var p := Join(dir, f);
    var r := AfterWrite(prev, p, data);
    forall n
      ensures (Join(dir, n) in r <==> n in m[f := data])
      ensures n in m[f := data] ==> r[Join(dir, n)] == File(m[f := data][n])
    {
      if n != f {
        assert Join(dir, n) != p;
      }
    }
  }

  /** Writing documents into an empty directory makes it record their file
      names in the order of first writes. */
  lemma {:induction false} WriteDocsListing(t: Tree, dir: Path, docs: seq<Doc>, ser: Doc -> Bytes)
    requires FilesOnlyIn(t, dir) && EmptyIn(t, dir) && t[dir] == Dir([])
    ensures WriteDocs(t, dir, docs, ser)[dir] == Dir(Listed(docs))
    decreases |docs|
  {
    if docs != [] {
      var prefix := docs[..|docs| - 1];
      var d := docs[|docs| - 1];
      WriteDocsListing(t, dir, prefix, ser);
      WriteDocsContents(t, dir, prefix, ser);
      ListedFiles(prefix, ser);
      ListingStep(WriteDocs(t, dir, prefix, ser), dir, Files(prefix, ser), Listed(prefix), FileName(d), ser(d));
    }
  }

  /** A write into a directory that records exactly its files adds the name
      when the file is new and keeps the names otherwise. */
  lemma ListingStep(prev: Tree, dir: Path, m: map<string, Bytes>, names: seq<string>, f: string, data: Bytes)
    requires FilesOnlyIn(prev, dir) && HoldsFiles(prev, dir, m) && prev[dir] == Dir(names)
    requires forall n :: n in names <==> n in m
    ensures AfterWrite(prev, Join(dir, f), data)[dir] == Dir(if f in names then names else names + [f])
  {
    assert Join(dir, f) != dir;
  }

  /** A directory just made holds nothing. */
  lemma NewDirEmpty(t: Tree, dir: Path)
    requires ValidTree(t) && CanMkdir(t, dir)
    ensures FilesOnlyIn(AfterMkdir(t, dir), dir) && EmptyIn(AfterMkdir(t, dir), dir)
  {
    forall n
      ensures Join(dir, n) !in AfterMkdir(t, dir)
    {
      NothingBelow(t, dir, Join(dir, n));
    }
  }

  /** A directory listing nothing holds nothing. */
  lemma EmptyDirHoldsNothing(t: Tree, dir: Path, n: string)
    requires ValidTree(t) && dir in t && t[dir] == Dir([])
    ensures Join(dir, n) !in t
  {
    assert Join(dir, n) in t ==> ListedByParent(t, Join(dir, n));
  }

  /** One collection of backup's forEach: mkdirSync of its directory, then
      its documents written into it. */
  function NewCollection(t: Tree, dir: Path, docs: seq<Doc>, ser: Doc -> Bytes): (r: Tree)
    requires ValidTree(t) && CanMkdir(t, dir)
    ensures ValidTree(r)
  {
    MkdirKeepsValid(t, dir);
    NewDirEmpty(t, dir);
    WriteDocsValid(AfterMkdir(t, dir), dir, docs, ser);
    WriteDocs(AfterMkdir(t, dir), dir, docs, ser)
  }

  /** The directory of one backed-up collection holds one file per distinct
      file name of its documents, with the last such document in it, and
      nothing else. */
  ghost predicate CollectionLayout(t: Tree, dir: Path, docs: seq<Doc>, ser: Doc -> Bytes) {
    dir in t && t[dir] == Dir(Listed(docs)) && HoldsFiles(t, dir, Files(docs, ser))
  }

  /** A new collection directory gets its layout and its parent records its
      name; nothing else changes, and everything new lies in it. */
  lemma NewCollectionContents(t: Tree, dir: Path, docs: seq<Doc>, ser: Doc -> Bytes)
    requires ValidTree(t) && CanMkdir(t, dir)
    ensures var r := NewCollection(t, dir, docs, ser);
      && KeepsAllBut(t, r, Parent(dir)) && AddsUnder(t, r, dir)
      && CollectionLayout(r, dir, docs, ser)
      && r[Parent(dir)] == Dir(t[Parent(dir)].names + [Base(dir)])
  {
    var m := AfterMkdir(t, dir);
    MkdirKeepsValid(t, dir);
    NewDirEmpty(t, dir);
    WriteDocsContents(m, dir, docs, ser);
    WriteDocsListing(m, dir, docs, ser);
    var r := WriteDocs(m, dir, docs, ser);
    assert Parent(dir) in m && Parent(dir) != dir;
  }

  /** The snapshot directory records the collection names, in backup's
      order, and each collection directory has its layout. */
  ghost predicate SnapshotLayout(t: Tree, bak: Path, colls: seq<Collection>, ser: Doc -> Bytes) {
    && bak in t && t[bak] == Dir(Names(colls))
    && forall k :: 0 <= k < |colls| ==> CollectionLayout(t, Join(bak, colls[k].name), colls[k].docs, ser)
  }

  /** backup's forEach over the collections in the snapshot directory bak,
      ending where a mkdirSync throws; the flag says whether none did. */
  function Snapshot(t: Tree, bak: Path, colls: seq<Collection>, ser: Doc -> Bytes): (r: (bool, Tree))
    requires ValidTree(t)
    ensures ValidTree(r.1)
    decreases |colls|
  {
    if colls == [] then (true, t)
    else
      var prev := Snapshot(t, bak, colls[..|colls| - 1], ser);
      var c := colls[|colls| - 1];
      var dir := Join(bak, c.name);
      if !prev.0 || !CanMkdir(prev.1, dir) then (false, prev.1)
      else (true, NewCollection(prev.1, dir, c.docs, ser))
  }

  lemma DistinctSnoc<T>(s: seq<T>, x: T)
    ensures Distinct(s + [x]) <==> Distinct(s) && x !in s
  {
    var t := s + [x];
    assert forall i :: 0 <= i < |s| ==> t[i] == s[i];
    if x in s {
      var i :| 0 <= i < |s| && s[i] == x;
      assert t[i] == t[|s|];
    }
  }

  /** A collection's layout survives a change that keeps everything but x
      and adds only under y, a sibling of the collection's directory. */
  lemma LayoutKept(a: Tree, b: Tree, dir: Path, docs: seq<Doc>, ser: Doc -> Bytes, x: Path, y: Path)
    requires CollectionLayout(a, dir, docs, ser)
    requires KeepsAllBut(a, b, x) && AddsUnder(a, b, y)
    requires |x| < |dir| && |y| == |dir| && y != dir
    ensures CollectionLayout(b, dir, docs, ser)
  {
    forall n
      ensures Join(dir, n) in b ==> Join(dir, n) in a
    {
      assert Join(dir, n)[..|dir|] == dir;
    }
  }

  /** Backing up into an empty snapshot directory succeeds exactly when no
      two collections share a name; then the snapshot directory records the
      collection names and each directory has its layout. Everything that
      existed, but the snapshot directory's own node, is left as it was, and
      everything new lies below it. */
  lemma {:induction false} SnapshotContents(t: Tree, bak: Path, colls: seq<Collection>, ser: Doc -> Bytes)
    requires ValidTree(t) && bak in t && t[bak] == Dir([])
    ensures var r := Snapshot(t, bak, colls, ser);
      && (r.0 <==> Distinct(Names(colls)))
      && (r.0 ==> SnapshotLayout(r.1, bak, colls, ser))
      && KeepsAllBut(t, r.1, bak) && AddsUnder(t, r.1, bak)
    decreases |colls|
  {
    if colls != [] {
      var prefix := colls[..|colls| - 1];
      var c := colls[|colls| - 1];
      assert colls == prefix + [c];
      SnapshotContents(t, bak, prefix, ser);
      assert Names(colls) == Names(prefix) + [c.name];
      DistinctSnoc(Names(prefix), c.name);
      var prev := Snapshot(t, bak, prefix, ser);
      if prev.0 {
        if c.name in Names(prefix) {
          CollectionNameTaken(prev.1, bak, prefix, c.name, ser);
        } else {
          AddCollection(t, prev.1, bak, prefix, c, ser);
        }
      }
    }
  }

  /** A second collection of the same name finds its directory made. */
  lemma CollectionNameTaken(t: Tree, bak: Path, prefix: seq<Collection>, name: string, ser: Doc -> Bytes)
    requires ValidTree(t) && SnapshotLayout(t, bak, prefix, ser) && name in Names(prefix)
    ensures !CanMkdir(t, Join(bak, name))
  {
    assert ListsOnce(t, bak);
  }

  /** One more collection, of a new name, on top of a snapshot in progress. */
  lemma AddCollection(t: Tree, prev: Tree, bak: Path, prefix: seq<Collection>, c: Collection, ser: Doc -> Bytes)
    requires ValidTree(prev) && SnapshotLayout(prev, bak, prefix, ser) && c.name !in Names(prefix)
    requires KeepsAllBut(t, prev, bak) && AddsUnder(t, prev, bak)
    ensures CanMkdir(prev, Join(bak, c.name))
    ensures var r := NewCollection(prev, Join(bak, c.name), c.docs, ser);
      && SnapshotLayout(r, bak, prefix + [c], ser)
      && KeepsAllBut(t, r, bak) && AddsUnder(t, r, bak)
  {
    var dir := Join(bak, c.name);
    assert dir in prev ==> ListedByParent(prev, dir);
    NewCollectionContents(prev, dir, c.docs, ser);
    var r := NewCollection(prev, dir, c.docs, ser);
    assert Names(prefix + [c]) == Names(prefix) + [c.name];
    LayoutsKept(prev, r, bak, prefix, c, ser);
    AddsUnderTrans(t, prev, r, bak, dir);
  }

  /** The collections already written keep their layout when another one is
      added beside them. */
  lemma LayoutsKept(prev: Tree, r: Tree, bak: Path, prefix: seq<Collection>, c: Collection, ser: Doc -> Bytes)
    requires SnapshotLayout(prev, bak, prefix, ser) && c.name !in Names(prefix)
    requires KeepsAllBut(prev, r, bak) && AddsUnder(prev, r, Join(bak, c.name))
    requires CollectionLayout(r, Join(bak, c.name), c.docs, ser)
    ensures forall k :: 0 <= k < |prefix + [c]| ==>
      CollectionLayout(r, Join(bak, (prefix + [c])[k].name), (prefix + [c])[k].docs, ser)
  {
    forall k | 0 <= k < |prefix + [c]|
      ensures CollectionLayout(r, Join(bak, (prefix + [c])[k].name), (prefix + [c])[k].docs, ser)
    {
      if k < |prefix| {
        assert Names(prefix)[k] != c.name;
        LayoutKept(prev, r, Join(bak, prefix[k].name), prefix[k].docs, ser, bak, Join(bak, c.name));
      }
    }
  }

  // ---- restore --------------------------------------------------------------------

  /** readFileSync then BSON.deserialize inside restore's try block: None
      where either throws. */
  function ReadDoc(t: Tree, p: Path, des: Bytes -> Option<Doc>): Option<Doc> {
    if p in t && t[p].File? then des(t[p].data) else None
  }

  /** The batch restore builds for a collection directory: one document for
      each listed file that deserialises, in listing order. */
  function Batch(t: Tree, dir: Path, names: seq<string>, des: Bytes -> Option<Doc>): (r: seq<Doc>)
    ensures |r| <= |names|
    decreases |names|
  {
    if names == [] then []
    else
      var prev := Batch(t, dir, names[..|names| - 1], des);
      match ReadDoc(t, Join(dir, names[|names| - 1]), des)
      case Some(d) => prev + [d]
      case None => prev
  }

  /** The batch of a listing split in two is the two batches in order: a file
      that fails to deserialise drops out without disturbing the others. */
  lemma {:induction false} BatchAppend(t: Tree, dir: Path, a: seq<string>, b: seq<string>, des: Bytes -> Option<Doc>)
    ensures Batch(t, dir, a + b, des) == Batch(t, dir, a, des) + Batch(t, dir, b, des)
    decreases |b|
  {
    if b == [] {
      assert a + b == a;
    } else {
      var b' := b[..|b| - 1];
      assert (a + b)[..|a + b| - 1] == a + b';
      assert (a + b)[|a + b| - 1] == b[|b| - 1];
      BatchAppend(t, dir, a, b', des);
    }
  }

  /** When every listed file deserialises, the batch holds them all, each at
      its own position. */
  lemma {:induction false} BatchAllRead(t: Tree, dir: Path, names: seq<string>, des: Bytes -> Option<Doc>)
    requires forall i :: 0 <= i < |names| ==> ReadDoc(t, Join(dir, names[i]), des).Some?
    ensures |Batch(t, dir, names, des)| == |names|
    ensures forall i :: 0 <= i < |names| ==> Batch(t, dir, names, des)[i] == ReadDoc(t, Join(dir, names[i]), des).value
    decreases |names|
  {
    if names != [] {
      var prefix := names[..|names| - 1];
      BatchAllRead(t, dir, prefix, des);
      var last := ReadDoc(t, Join(dir, names[|names| - 1]), des);
      assert Batch(t, dir, names, des) == Batch(t, dir, prefix, des) + [last.value];
      forall i | 0 <= i < |prefix|
        ensures Batch(t, dir, names, des)[i] == ReadDoc(t, Join(dir, names[i]), des).value
      {
        assert prefix[i] == names[i];
      }
    }
  }

  /** Every document in the batch comes from a listed file. */
  lemma {:induction false} BatchFromFiles(t: Tree, dir: Path, names: seq<string>, des: Bytes -> Option<Doc>, d: Doc)
    requires d in Batch(t, dir, names, des)
    ensures exists i :: 0 <= i < |names| && ReadDoc(t, Join(dir, names[i]), des) == Some(d)
    decreases |names|
  {
    var prefix := names[..|names| - 1];
    var last := ReadDoc(t, Join(dir, names[|names| - 1]), des);
    if last != Some(d) {
      BatchFromFiles(t, dir, prefix, des, d);
      var i :| 0 <= i < |prefix| && ReadDoc(t, Join(dir, prefix[i]), des) == Some(d);
      assert names[i] == prefix[i];
    }
  }

  /** What restore does with one entry of the snapshot directory. */
  datatype Restored =
    | DropFailed        // dropCollection resolved false: nothing is inserted
    | Unreadable        // the entry is not a directory: readdirSync throws after the drop
    | Rebuilt(count: nat)  // bulkWrite of count documents, or createCollection when count is 0

  /** The state one entry leaves its collection in: unchanged after a refused
      drop; as the drop left it when the entry cannot be listed, which is
      gone unless the server rejected the drop (rejects); and otherwise
      holding what the drop left followed by what the ordered bulkWrite of
      the batch, read from the entry's files in readdirSync's order, inserts
      into it: the whole batch when the drop went through and no two of its
      ids are equal. */
  ghost predicate RestoredAs(after: map<string, seq<Doc>>, before: map<string, seq<Doc>>, rejects: set<string>,
                             t: Tree, root: Path, name: string, r: Restored, des: Bytes -> Option<Doc>)
  {
    var dropped := AfterDrop(before, name, rejects);
    match r
    case DropFailed => SameAt(after, before, name)
    case Unreadable => SameAt(after, dropped, name)
    case Rebuilt(count) =>
      var dir := Join(root, name);
      && dir in t && t[dir].Dir?
      && var batch := Batch(t, dir, SortedNames(t[dir].names), des);
        && var held := Existing(dropped, name);
        && name in after && after[name] == held + Inserted(held, batch)
        && count == |batch|
  }

  /** With a deserialiser that inverts the serialiser, the batch restore
      reads from a collection directory that backup wrote is the collection's
      documents ordered by file name, when no two of their ids print alike. */
  lemma RestoreReadsBack(t: Tree, dir: Path, docs: seq<Doc>, ser: Doc -> Bytes, des: Bytes -> Option<Doc>)
    requires CollectionLayout(t, dir, docs, ser)
    requires forall j, k :: 0 <= j < k < |docs| ==> docs[j].id != docs[k].id
    requires forall d :: des(ser(d)) == Some(d)
    ensures Batch(t, dir, SortedNames(t[dir].names), des) == SortBy(docs, FileName)
  {
    ListedDistinctIds(docs);
    SortByFileName(docs);
    var sorted := SortBy(docs, FileName);
    var names := SortedNames(t[dir].names);
    assert names == FileNames(sorted);
    SortMembers(docs, FileName);
    forall i | 0 <= i < |names|
      ensures ReadDoc(t, Join(dir, names[i]), des) == Some(sorted[i])
    {
      assert sorted[i] in sorted;
      var j :| 0 <= j < |docs| && docs[j] == sorted[i];
      DistinctIdsKeepAll(docs, j, ser);
    }
    BatchAllRead(t, dir, names, des);
  }

  /** An entry rebuilt from a collection directory backup wrote receives the
      collection's documents ordered by file name. */
  lemma RebuiltFromSnapshot(t: Tree, bak: Path, colls: seq<Collection>, ser: Doc -> Bytes, des: Bytes -> Option<Doc>,
                            after: map<string, seq<Doc>>, before: map<string, seq<Doc>>, rejects: set<string>,
                            k: int, count: nat)
    requires SnapshotLayout(t, bak, colls, ser) && 0 <= k < |colls|
    requires forall i, j :: 0 <= i < j < |colls[k].docs| ==> colls[k].docs[i].id != colls[k].docs[j].id
    requires forall d :: des(ser(d)) == Some(d)
    requires RestoredAs(after, before, rejects, t, bak, colls[k].name, Rebuilt(count), des)
    ensures var name := colls[k].name; var held := Existing(AfterDrop(before, name, rejects), name);
      && name in after && count == |colls[k].docs|
      && after[name] == held + Inserted(held, SortBy(colls[k].docs, FileName))
  {
    RestoreReadsBack(t, Join(bak, colls[k].name), colls[k].docs, ser, des);
  }

  /** Restoring a snapshot backup made: the snapshot directory records the
      collection names, and each collection rebuilt from its entry receives
      the documents it was backed up with, ordered by file name. When the
      drop went through, or found nothing, it holds exactly those; after a
      rejected drop they follow what was there, as far as the first id the
      collection already holds, so a survivor holding every backed-up id is
      left as it was and one holding none of them gains them all. */
  lemma BackupThenRestore(t: Tree, bak: Path, colls: seq<Collection>, ser: Doc -> Bytes, des: Bytes -> Option<Doc>,
                          after: map<string, seq<Doc>>, before: map<string, seq<Doc>>, rejects: set<string>,
                          k: int, count: nat)
    requires SnapshotLayout(t, bak, colls, ser) && 0 <= k < |colls|
    requires forall i, j :: 0 <= i < j < |colls[k].docs| ==> colls[k].docs[i].id != colls[k].docs[j].id
    requires forall d :: des(ser(d)) == Some(d)
    requires RestoredAs(after, before, rejects, t, bak, colls[k].name, Rebuilt(count), des)
    ensures t[bak].names == Names(colls)
    ensures var name := colls[k].name; var sorted := SortBy(colls[k].docs, FileName);
      && name in after
      && count == |colls[k].docs|
      && (name !in rejects || name !in before ==> after[name] == sorted)
      && (name in rejects && name in before ==> after[name] == before[name] + Inserted(before[name], sorted))
      && (name in rejects && name in before && (forall i :: 0 <= i < |sorted| ==> sorted[i].id in Ids(before[name])) ==>
            after[name] == before[name])
      && (name in rejects && name in before && (forall i :: 0 <= i < |sorted| ==> sorted[i].id !in Ids(before[name])) ==>
            after[name] == before[name] + sorted)
  {
    var name := colls[k].name;
    var sorted := SortBy(colls[k].docs, FileName);
    RebuiltFromSnapshot(t, bak, colls, ser, des, after, before, rejects, k, count);
    SortedIdsDistinct(colls[k].docs);
    if name !in rejects || name !in before {
      InsertedAll([], sorted);
      assert [] + sorted == sorted;
    } else {
      if forall i :: 0 <= i < |sorted| ==> sorted[i].id in Ids(before[name]) {
        NoneInserted(before[name], sorted);
      }
      if forall i :: 0 <= i < |sorted| ==> sorted[i].id !in Ids(before[name]) {
        InsertedAll(before[name], sorted);
      }
    }
  }

  /** Once a mkdirSync has thrown, later collections change nothing. */
  lemma {:induction false} SnapshotStops(t: Tree, bak: Path, colls: seq<Collection>, i: int, ser: Doc -> Bytes)
    requires ValidTree(t)
    requires 0 <= i <= |colls| && !Snapshot(t, bak, colls[..i], ser).0
    ensures Snapshot(t, bak, colls, ser) == Snapshot(t, bak, colls[..i], ser)
    decreases |colls|
  {
    if i < |colls| {
      var prefix := colls[..|colls| - 1];
      assert prefix[..i] == colls[..i];
      SnapshotStops(t, bak, prefix, i, ser);
    } else {
      assert colls[..i] == colls;
    }
  }

  /** An entry restored against an intermediate state is restored against
      an earlier one that agrees with it on the entry's collection. */
  lemma RestoredAsRebase(after: map<string, seq<Doc>>, mid: map<string, seq<Doc>>, before: map<string, seq<Doc>>,
                         rejects: set<string>, t: Tree, root: Path, name: string, r: Restored, des: Bytes -> Option<Doc>)
    requires RestoredAs(after, mid, rejects, t, root, name, r, des) && SameAt(mid, before, name)
    ensures RestoredAs(after, before, rejects, t, root, name, r, des)
  {
  }

  /** A later step that leaves an entry's collection alone keeps what the
      entry was restored to. */
  lemma RestoredAsKept(after: map<string, seq<Doc>>, mid: map<string, seq<Doc>>, before: map<string, seq<Doc>>,
                       rejects: set<string>, t: Tree, root: Path, name: string, r: Restored, des: Bytes -> Option<Doc>)
    requires RestoredAs(mid, before, rejects, t, root, name, r, des) && SameAt(after, mid, name)
    ensures RestoredAs(after, before, rejects, t, root, name, r, des)
  {
  }

  // ---- the utility ----------------------------------------------------------------

  datatype BackupOutcome =
    | NoPath               // neither the flag nor the configuration names a path
    | Failed               // a mkdirSync threw
    | Collision(path: Path)  // the snapshot directory already exists
    | Created(path: Path)

  datatype BackupList =
    | Unset                // no path: a warning, then exit
    | Unlistable           // readdirSync threw
    | Backups(paths: seq<Path>)

  datatype RestoreOutcome =
    | Listed(list: BackupList)   // the second argument was "ls"
    | NoRestorePath
    | NotFound
    | NotListable
    | Restored(names: seq<string>, results: seq<Restored>)

  /** Making the snapshot directory and filling it changes only its
      parent's listing, which gains its name, and adds only below it. */
  lemma MkdirThenFill(a: Tree, c: Tree, bak: Path)
    requires ValidTree(a) && CanMkdir(a, bak)
    requires var b := AfterMkdir(a, bak); KeepsFiles(b, c) && KeepsAllBut(b, c, bak) && AddsUnder(b, c, bak)
    ensures KeepsFiles(a, c) && KeepsAllBut(a, c, Parent(bak)) && AddsUnder(a, c, bak)
    ensures Parent(bak) in c && c[Parent(bak)] == Dir(a[Parent(bak)].names + [Base(bak)])
  {
    var b := AfterMkdir(a, bak);
    MkdirKeepsValid(a, bak);
    assert Parent(bak) != bak && bak[..|bak|] == bak;
    KeepsFilesOf(a, b, Parent(bak));
    KeepsFilesTrans(a, b, c);
    AddsUnderTrans(a, b, c, bak, bak);
  }

  /** What the root listed before backup: nothing when backup makes it. */
  function RootNames(t: Tree, root: Path): seq<string> {
    if root in t && t[root].Dir? then t[root].names else []
  }

  class BackupUtil {
    /** The directory the current command works on. */
    var targetDir: string
    const fs: Fs
    const db: Db
    /** config.path and os.homedir(). */
    const configPath: string
    const home: string
    /** path.resolve against the working directory of the process. */
    const resolve: string -> Path
    /** BSON.serialize, and BSON.deserialize with None where it throws. */
    const serialize: Doc -> Bytes
    const deserialize: Bytes -> Option<Doc>

    constructor(fs: Fs, db: Db, configPath: string, home: string, resolve: string -> Path,
                serialize: Doc -> Bytes, deserialize: Bytes -> Option<Doc>)
      ensures this.fs == fs && this.db == db && this.configPath == configPath && this.home == home
      ensures this.resolve == resolve && this.serialize == serialize && this.deserialize == deserialize
      ensures targetDir == ""
    {
      this.fs := fs;
      this.db := db;
      this.configPath := configPath;
      this.home := home;
      this.resolve := resolve;
      this.serialize := serialize;
      this.deserialize := deserialize;
      targetDir := "";
    }

    /** backup: the target comes from the flag, else from the configuration;
        with neither, nothing happens. Otherwise ~ is expanded, the path is
        resolved, and the snapshot named after the database and the local
        time is written under it. */
    method Backup(flagPath: Option<string>, dbName: string, colls: seq<Collection>, now: Instant)
      returns (outcome: BackupOutcome)
      requires ValidTree(fs.entries) && Valid(now)
      modifies this, fs
      ensures ValidTree(fs.entries)
      ensures var raw := Or(flagPath, configPath);
        && (outcome == NoPath <==> raw == "")
        && (outcome == NoPath ==> targetDir == "" && fs.entries == old(fs.entries))
        && (outcome != NoPath ==> targetDir == ExpandTilde(raw, home))
      ensures outcome.Collision? ==> outcome.path in old(fs.entries) && fs.entries == old(fs.entries)
      ensures outcome.Created? ==>
        && outcome.path == Join(resolve(targetDir), SnapshotName(dbName, now))
        && outcome.path !in old(fs.entries)
        && SnapshotLayout(fs.entries, outcome.path, colls, serialize)
      ensures outcome != NoPath ==>
        var root := resolve(targetDir);
        var bak := Join(root, SnapshotName(dbName, now));
        && (outcome.Collision? <==> bak in old(fs.entries))
        && (outcome == Failed <==> bak !in old(fs.entries) && !(Distinct(Names(colls)) && RootUsable(old(fs.entries), root)))
      ensures KeepsFiles(old(fs.entries), fs.entries)
      ensures AddsUnder(old(fs.entries), fs.entries, resolve(targetDir))
      ensures outcome != NoPath ==>
        var root := resolve(targetDir);
        && ChangesOnlyAt(old(fs.entries), fs.entries, root)
        && NewOnlyAt(old(fs.entries), fs.entries, root, Join(root, SnapshotName(dbName, now)))
      ensures outcome.Created? ==>
        var root := resolve(targetDir);
        root in fs.entries && fs.entries[root] == Dir(RootNames(old(fs.entries), root) + [SnapshotName(dbName, now)])
    {
      var raw := Or(flagPath, configPath);
      targetDir := raw;
      if raw == "" {
        outcome := NoPath;
        return;
      }
      targetDir := ExpandTilde(raw, home);
      outcome := MakeSnapshot(resolve(targetDir), SnapshotName(dbName, now), colls);
    }

    /** From the root on: the collision check on the snapshot path, mkdirSync
        of the snapshot directory, then the collections. */
    method MakeSnapshot(root: Path, name: string, colls: seq<Collection>) returns (outcome: BackupOutcome)
      requires ValidTree(fs.entries)
      modifies fs
      ensures ValidTree(fs.entries)
      ensures outcome != NoPath
      ensures outcome.Collision? ==> outcome.path in old(fs.entries) && fs.entries == old(fs.entries)
      ensures outcome.Created? ==>
        && outcome.path == Join(root, name)
        && outcome.path !in old(fs.entries)
        && SnapshotLayout(fs.entries, outcome.path, colls, serialize)
      ensures outcome.Collision? <==> Join(root, name) in old(fs.entries)
      ensures outcome == Failed <==>
        Join(root, name) !in old(fs.entries) && !(Distinct(Names(colls)) && RootUsable(old(fs.entries), root))
      ensures KeepsFiles(old(fs.entries), fs.entries)
      ensures AddsUnder(old(fs.entries), fs.entries, root)
      ensures ChangesOnlyAt(old(fs.entries), fs.entries, root)
      ensures NewOnlyAt(old(fs.entries), fs.entries, root, Join(root, name))
      ensures outcome.Created? ==>
        root in fs.entries && fs.entries[root] == Dir(RootNames(old(fs.entries), root) + [name])
    {
      ghost var e0 := fs.entries;
      var bak := Join(root, name);
      assert bak in e0 ==> ListedByParent(e0, bak);
      var ok := MakeRoot(root);
      assert NewOnlyAt(e0, fs.entries, root, bak);
      if !ok {
        outcome := Failed;
        return;
      }
      if root !in e0 {
        EmptyDirHoldsNothing(fs.entries, root, name);
      }
      if fs.Exists(bak) {
        outcome := Collision(bak);
        return;
      }
      ghost var e1 := fs.entries;
      assert root in e1 && (e1[root].Dir? ==> e1[root].names == RootNames(e0, root));
      outcome := CreateSnapshot(bak, colls);
      assert bak[..|root|] == root;
      FrameStep(e0, e1, fs.entries, root, bak, root);
      KeepsFilesTrans(e0, e1, fs.entries);
      AddsUnderTrans(e0, e1, fs.entries, root, bak);
    }

    /** mkdirSync of the snapshot directory bak, then the collections in it. */
    method CreateSnapshot(bak: Path, colls: seq<Collection>) returns (outcome: BackupOutcome)
      requires ValidTree(fs.entries) && |bak| > 0 && bak !in fs.entries
      modifies fs
      ensures ValidTree(fs.entries)
      ensures outcome == Failed || outcome == Created(bak)
      ensures outcome == Created(bak) <==> CanMkdir(old(fs.entries), bak) && Distinct(Names(colls))
      ensures outcome == Created(bak) ==> SnapshotLayout(fs.entries, bak, colls, serialize)
      ensures CanMkdir(old(fs.entries), bak) ==>
        Parent(bak) in fs.entries && fs.entries[Parent(bak)] == Dir(old(fs.entries)[Parent(bak)].names + [Base(bak)])
      ensures KeepsFiles(old(fs.entries), fs.entries)
      ensures KeepsAllBut(old(fs.entries), fs.entries, Parent(bak))
      ensures AddsUnder(old(fs.entries), fs.entries, bak)
    {
      ghost var e1 := fs.entries;
      var ok := fs.Mkdir(bak);
      if !ok {
        outcome := Failed;
        return;
      }
      MkdirKeepsValid(e1, bak);
      outcome := FillSnapshot(bak, colls);
      MkdirThenFill(e1, fs.entries, bak);
    }

    /** existsSync of the root, and mkdirSync of it when it is absent. */
    method MakeRoot(root: Path) returns (ok: bool)
      requires ValidTree(fs.entries)
      modifies fs
      ensures ValidTree(fs.entries)
      ensures ok <==> root in old(fs.entries) || CanMkdir(old(fs.entries), root)
      ensures root in old(fs.entries) || !ok ==> fs.entries == old(fs.entries)
      ensures ok ==> root in fs.entries
      ensures ok && root !in old(fs.entries) ==> fs.entries[root] == Dir([])
      ensures KeepsFiles(old(fs.entries), fs.entries)
      ensures AddsUnder(old(fs.entries), fs.entries, root)
      ensures ChangesOnlyAt(old(fs.entries), fs.entries, root)
      ensures forall p :: p in fs.entries && p !in old(fs.entries) ==> p == root
    {
      ghost var e0 := fs.entries;
      ok := true;
      if !fs.Exists(root) {
        ok := fs.Mkdir(root);
        if ok {
          MkdirKeepsValid(e0, root);
          assert KeepsAllBut(e0, fs.entries, Parent(root));
          KeepsFilesOf(e0, fs.entries, Parent(root));
          assert root[..|root|] == root;
        }
      }
    }

    /** The collections written into the empty snapshot directory bak. */
    method FillSnapshot(bak: Path, colls: seq<Collection>) returns (outcome: BackupOutcome)
      requires ValidTree(fs.entries) && bak in fs.entries && fs.entries[bak] == Dir([])
      modifies fs
      ensures ValidTree(fs.entries)
      ensures outcome == Failed || outcome == Created(bak)
      ensures outcome == Created(bak) <==> Distinct(Names(colls))
      ensures outcome == Created(bak) ==> SnapshotLayout(fs.entries, bak, colls, serialize)
      ensures KeepsFiles(old(fs.entries), fs.entries)
      ensures KeepsAllBut(old(fs.entries), fs.entries, bak)
      ensures AddsUnder(old(fs.entries), fs.entries, bak)
    {
      ghost var e := fs.entries;
      outcome := BackupCollections(bak, colls);
      SnapshotContents(e, bak, colls, serialize);
      KeepsFilesOf(e, fs.entries, bak);
    }

    /** The forEach over the collections once the snapshot directory bak is
        made; a mkdirSync that throws ends it. */
    method BackupCollections(bak: Path, colls: seq<Collection>) returns (outcome: BackupOutcome)
      requires ValidTree(fs.entries)
      modifies fs
      ensures outcome == Failed || outcome == Created(bak)
      ensures outcome == Created(bak) <==> Snapshot(old(fs.entries), bak, colls, serialize).0
      ensures fs.entries == Snapshot(old(fs.entries), bak, colls, serialize).1
    {
      ghost var e := fs.entries;
      var i := 0;
      while i < |colls|
        invariant 0 <= i <= |colls|
        invariant Snapshot(e, bak, colls[..i], serialize) == (true, fs.entries)
      {
        var ok := BackupCollection(Join(bak, colls[i].name), colls[i].docs);
        assert colls[..i + 1][..i] == colls[..i];
        if !ok {
          SnapshotStops(e, bak, colls, i + 1, serialize);
          outcome := Failed;
          return;
        }
        i := i + 1;
      }
      assert colls[..i] == colls;
      outcome := Created(bak);
    }

    /** One collection: mkdirSync of its directory, then writeFileSync of each
        streamed document, in stream order. */
    method BackupCollection(dir: Path, docs: seq<Doc>) returns (ok: bool)
      requires ValidTree(fs.entries)
      modifies fs
      ensures ok <==> CanMkdir(old(fs.entries), dir)
      ensures ok ==> fs.entries == NewCollection(old(fs.entries), dir, docs, serialize)
      ensures !ok ==> fs.entries == old(fs.entries)
    {
      ghost var e := fs.entries;
      ok := fs.Mkdir(dir);
      if !ok {
        return;
      }
      NewDirEmpty(e, dir);
      ghost var m := fs.entries;
      for i := 0 to |docs|
        invariant fs.entries == WriteDocs(m, dir, docs[..i], serialize)
      {
        var d := docs[i];
        assert docs[..i + 1][..i] == docs[..i];
        var written := fs.WriteFile(Join(dir, FileName(d)), serialize(d));
        assert written;
      }
      assert docs[..|docs|] == docs;
    }

    /** printBackups: the entries of the resolved target, each joined to it. */
    method PrintBackups(flagPath: Option<string>) returns (list: BackupList)
      requires ValidTree(fs.entries)
      modifies this
      ensures var raw := Or(flagPath, configPath);
        && (list == Unset <==> raw == "")
        && (raw == "" ==> targetDir == "")
        && (raw != "" ==> targetDir == ExpandTilde(raw, home))
      ensures list == Unlistable <==> list != Unset && fs.Listing(resolve(targetDir)).None?
      ensures list.Backups? ==>
        var root := resolve(targetDir);
        && root in fs.entries && fs.entries[root].Dir?
        && |list.paths| == |fs.entries[root].names|
        && Distinct(list.paths)
        && (forall i :: 0 <= i < |list.paths| ==>
              list.paths[i] == Join(root, SortedNames(fs.entries[root].names)[i]) && list.paths[i] in fs.entries)
        && (forall n :: Join(root, n) in fs.entries ==> Join(root, n) in list.paths)
    {
      var raw := Or(flagPath, configPath);
      targetDir := raw;
      if raw == "" {
        list := Unset;
        return;
      }
      targetDir := ExpandTilde(raw, home);
      var root := resolve(targetDir);
      var listing := fs.Listing(root);
      if listing.None? {
        list := Unlistable;
        return;
      }
      var names := listing.value;
      var paths := seq(|names|, i requires 0 <= i < |names| => Join(root, names[i]));
      assert ListsOnce(fs.entries, root);
      SortDistinct(fs.entries[root].names, Self);
      SortMembers(fs.entries[root].names, Self);
      assert forall i :: 0 <= i < |names| ==> paths[i] in fs.entries by {
        forall i | 0 <= i < |names|
          ensures paths[i] in fs.entries
        {
          assert names[i] in names;
        }
      }
      assert Distinct(paths) by {
        forall i, j | 0 <= i < j < |paths|
          ensures paths[i] != paths[j]
        {
          assert Base(paths[i]) == names[i] && Base(paths[j]) == names[j];
        }
      }
      forall n | Join(root, n) in fs.entries
        ensures Join(root, n) in paths
      {
        assert ListedByParent(fs.entries, Join(root, n));
        var i :| 0 <= i < |names| && names[i] == n;
        assert paths[i] == Join(root, n);
      }
      list := Backups(paths);
    }

    /** restore: "ls" lists instead; otherwise the path must be given and must
        exist as written, before ~ is expanded; then every entry of the
        expanded directory is restored as a collection. */
    method Restore(flagPath: Option<string>, arg: Option<string>) returns (outcome: RestoreOutcome)
      requires ValidTree(fs.entries)
      modifies this, db
      ensures arg == Some("ls") <==> outcome.Listed?
      ensures !outcome.Restored? ==> db.collections == old(db.collections)
      ensures var raw := Or(flagPath, Or(arg, ""));
        && (outcome == NoRestorePath <==> arg != Some("ls") && raw == "")
        && (outcome == NotFound <==> arg != Some("ls") && raw != "" && resolve(raw) !in fs.entries)
        && (outcome == NotListable || outcome.Restored? ==> targetDir == ExpandTilde(raw, home))
      ensures outcome == NotListable ==> fs.Listing(resolve(targetDir)).None?
      ensures outcome.Restored? ==>
        var root := resolve(targetDir);
        && fs.Listing(root) == Some(outcome.names)
        && |outcome.results| == |outcome.names|
        && (forall j :: 0 <= j < |outcome.names| ==>
              && (outcome.results[j] == DropFailed <==> outcome.names[j] in db.refusesDrop)
              && RestoredAs(db.collections, old(db.collections), db.rejectsDrop, fs.entries, root,
                            outcome.names[j], outcome.results[j], deserialize))
        && (forall n :: n !in outcome.names ==> SameAt(db.collections, old(db.collections), n))
    {
      var raw := Or(flagPath, Or(arg, ""));
      targetDir := raw;
      if arg == Some("ls") {
        var list := PrintBackups(flagPath);
        outcome := Listed(list);
        return;
      }
      if raw == "" {
        outcome := NoRestorePath;
        return;
      }
      if !fs.Exists(resolve(raw)) {
        outcome := NotFound;
        return;
      }
      targetDir := ExpandTilde(raw, home);
      var root := resolve(targetDir);
      var listing := fs.Listing(root);
      if listing.None? {
        outcome := NotListable;
        return;
      }
      var names := listing.value;
      assert ListsOnce(fs.entries, root);
      SortDistinct(fs.entries[root].names, Self);
      var results := RestoreAll(root, names);
      outcome := Restored(names, results);
    }

    /** The forEach over the entries of the snapshot directory root, which
        lists each name once. */
    method RestoreAll(root: Path, names: seq<string>) returns (results: seq<Restored>)
      requires Distinct(names)
      modifies db
      ensures |results| == |names|
      ensures forall j :: 0 <= j < |names| ==>
        && (results[j] == DropFailed <==> names[j] in db.refusesDrop)
        && RestoredAs(db.collections, old(db.collections), db.rejectsDrop, fs.entries, root, names[j], results[j], deserialize)
      ensures forall n :: n !in names ==> SameAt(db.collections, old(db.collections), n)
    {
      ghost var before := db.collections;
      results := [];
      for i := 0 to |names|
        invariant |results| == i
        invariant forall j :: 0 <= j < i ==>
          && (results[j] == DropFailed <==> names[j] in db.refusesDrop)
          && RestoredAs(db.collections, before, db.rejectsDrop, fs.entries, root, names[j], results[j], deserialize)
        invariant forall n :: n !in names[..i] ==> SameAt(db.collections, before, n)
      {
        ghost var mid := db.collections;
        assert names[i] !in names[..i];
        assert names[..i + 1] == names[..i] + [names[i]];
        var r := RestoreCollection(root, names[i]);
        RestoredAsRebase(db.collections, mid, before, db.rejectsDrop, fs.entries, root, names[i], r, deserialize);
        forall j | 0 <= j < i
          ensures RestoredAs(db.collections, before, db.rejectsDrop, fs.entries, root, names[j], results[j], deserialize)
        {
          assert names[j] != names[i];
          RestoredAsKept(db.collections, mid, before, db.rejectsDrop, fs.entries, root, names[j], results[j], deserialize);
        }
        forall n | n !in names[..i + 1]
          ensures SameAt(db.collections, before, n)
        {
          assert n != names[i] && n !in names[..i];
          assert SameAt(db.collections, mid, n);
          assert SameAt(mid, before, n);
        }
        results := results + [r];
      }
      assert names[..|names|] == names;
    }

    /** One entry: drop the collection, treat a rejected drop as done, give up
        on a drop that resolves false, then insert the batch read from the
        entry's files, or create the collection empty. */
    method RestoreCollection(root: Path, name: string) returns (r: Restored)
      modifies db
      ensures r == DropFailed <==> name in db.refusesDrop
      ensures r == Unreadable <==> name !in db.refusesDrop && fs.Listing(Join(root, name)).None?
      ensures RestoredAs(db.collections, old(db.collections), db.rejectsDrop, fs.entries, root, name, r, deserialize)
      ensures forall n :: n != name ==> SameAt(db.collections, old(db.collections), n)
    {
      ghost var before := db.collections;
      var dropped := db.Drop(name);
      if dropped == NotDropped {
        r := DropFailed;
        return;
      }
      ghost var mid := db.collections;
      assert mid == AfterDrop(before, name, db.rejectsDrop);
      r := Rebuild(Join(root, name), name);
      forall n | n != name
        ensures SameAt(db.collections, before, n)
      {
        assert SameAt(db.collections, mid, n) && SameAt(mid, before, n);
      }
    }

    /** After the drop: readdirSync of the entry, then bulkWrite of the batch
        read from its files, which appends to whatever the drop left up to
        the first duplicate _id, or createCollection when the batch is empty,
        which fails on a collection the drop left in place. */
    method Rebuild(dir: Path, name: string) returns (r: Restored)
      modifies db
      ensures r.Unreadable? <==> fs.Listing(dir).None?
      ensures r.Unreadable? ==> db.collections == old(db.collections)
      ensures r.Rebuilt? ==>
        && dir in fs.entries && fs.entries[dir].Dir?
        && var batch := Batch(fs.entries, dir, SortedNames(fs.entries[dir].names), deserialize);
          && var held := Existing(old(db.collections), name);
          && db.collections == old(db.collections)[name := held + Inserted(held, batch)]
          && r.count == |batch|
      ensures !r.DropFailed?
    {
      var listing := fs.Listing(dir);
      if listing.None? {
        r := Unreadable;
        return;
      }
      var docBulk := ReadBatch(dir, listing.value);
      if |docBulk| > 0 {
        db.BulkWrite(name, docBulk);
      } else {
        ghost var held := Existing(db.collections, name);
        assert Inserted(held, docBulk) == [] && held + [] == held;
        var created := db.CreateCollection(name);
        if created {
          assert held == [];
        }
      }
      r := Rebuilt(|docBulk|);
    }

    /** The inner forEach: each listed file that reads and deserialises is
        pushed onto the batch; one that throws adds nothing. */
    method ReadBatch(dir: Path, names: seq<string>) returns (docBulk: seq<Doc>)
      ensures docBulk == Batch(fs.entries, dir, names, deserialize)
    {
      docBulk := [];
      for i := 0 to |names|
        invariant docBulk == Batch(fs.entries, dir, names[..i], deserialize)
      {
        assert names[..i + 1][..i] == names[..i];
        var bytes := fs.ReadFile(Join(dir, names[i]));
        var doc := if bytes.Some? then deserialize(bytes.value) else None;
        if doc.Some? {
          docBulk := docBulk + [doc.value];
        }
      }
      assert names[..|names|] == names;
    }
  }
}
