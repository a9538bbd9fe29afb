/** The part of the filesystem BackupUtil touches: a tree of directories and
    files keyed by their paths. A path is the list of its components, so
    joining a directory and a name appends the name; a directory records the
    names it holds in the order they were created in, and readdirSync returns
    them sorted (SortedNames). */
module FileSystem {
  import opened Wrappers

  type Path = seq<string>
  type Bytes = seq<bv8>

  datatype Node = Dir(names: seq<string>) | File(data: Bytes)

  type Tree = map<Path, Node>

  function Parent(p: Path): Path
    requires |p| > 0
  {
    p[..|p| - 1]
  }

  function Base(p: Path): string
    requires |p| > 0
  {
    p[|p| - 1]
  }

  /** path.join of a directory and one name. */
  function Join(dir: Path, name: string): (p: Path)
    ensures |p| == |dir| + 1 && Parent(p) == dir && Base(p) == name
  {
    dir + [name]
  }

  ghost predicate Distinct<T>(s: seq<T>) {
    forall i, j :: 0 <= i < j < |s| ==> s[i] != s[j]
  }

  /** p's parent is a directory that lists p's last component. */
  ghost predicate ListedByParent(t: Tree, p: Path)
    requires |p| > 0
  {
    Parent(p) in t && t[Parent(p)].Dir? && Base(p) in t[Parent(p)].names
  }

  /** The directory at p lists each name once, and each name it lists exists. */
  ghost predicate ListsOnce(t: Tree, p: Path)
    requires p in t && t[p].Dir?
  {
    && Distinct(t[p].names)
    && forall n :: n in t[p].names ==> Join(p, n) in t
  }

  /** A well-formed tree: the root is a directory, every other entry is listed
      by its parent directory, and a directory lists each of its entries once.
      Both clauses are instantiated only where a proof names them, since an
      entry's parent is again an entry. */
  ghost predicate ValidTree(t: Tree) {
    && [] in t && t[[]].Dir?
    && (forall p {:trigger ListedByParent(t, p)} :: p in t && p != [] ==> ListedByParent(t, p))
    && (forall p {:trigger ListsOnce(t, p)} :: p in t && t[p].Dir? ==> ListsOnce(t, p))
  }

  /** Nothing lies below a path that is absent from a well-formed tree. */
  lemma {:induction false} NothingBelow(t: Tree, p: Path, q: Path)
    requires ValidTree(t) && p !in t
    requires |p| <= |q| && q[..|p|] == p
    ensures q !in t
    decreases |q|
  {
    assert |q| == |p| ==> q == q[..|p|];
    if q in t && |q| > |p| {
      assert ListedByParent(t, q);
      assert Parent(q)[..|p|] == p;
      NothingBelow(t, p, Parent(q));
    }
  }

  /** mkdirSync succeeds on an absent path whose parent is a directory. */
  predicate CanMkdir(t: Tree, p: Path) {
    |p| > 0 && p !in t && Parent(p) in t && t[Parent(p)].Dir?
  }

  /** The tree after mkdirSync: an empty directory, whose name its parent
      records last. */
  function AfterMkdir(t: Tree, p: Path): (r: Tree)
    requires CanMkdir(t, p)
    ensures r.Keys == t.Keys + {p}
  {
    t[Parent(p) := Dir(t[Parent(p)].names + [Base(p)])][p := Dir([])]
  }

  lemma MkdirKeepsValid(t: Tree, p: Path)
    requires ValidTree(t) && CanMkdir(t, p)
    ensures ValidTree(AfterMkdir(t, p))
    ensures AfterMkdir(t, p)[p] == Dir([])
    ensures forall q :: q in t && q != Parent(p) ==> AfterMkdir(t, p)[q] == t[q]
  {
    var r, d := AfterMkdir(t, p), Parent(p);
    assert Join(d, Base(p)) == p;
    assert ListsOnce(t, d);
    forall q | q in r && q != []
      ensures ListedByParent(r, q)
    {
      if q != p {
        assert ListedByParent(t, q);
      }
    }
    forall q | q in r && r[q].Dir?
      ensures ListsOnce(r, q)
    {
      if q != p && q != d {
        assert ListsOnce(t, q);
      }
    }
  }

  /** writeFileSync succeeds when the parent is a directory and the path is not
      one; it creates the file or replaces the contents of an existing one. */
  predicate CanWrite(t: Tree, p: Path) {
    |p| > 0 && Parent(p) in t && t[Parent(p)].Dir? && !(p in t && t[p].Dir?)
  }

  function AfterWrite(t: Tree, p: Path, data: Bytes): (r: Tree)
    requires CanWrite(t, p)
    ensures r.Keys == t.Keys + {p}
  {
    if p in t then t[p := File(data)]
    else t[Parent(p) := Dir(t[Parent(p)].names + [Base(p)])][p := File(data)]
  }

  lemma WriteKeepsValid(t: Tree, p: Path, data: Bytes)
    requires ValidTree(t) && CanWrite(t, p)
    ensures ValidTree(AfterWrite(t, p, data))
    ensures AfterWrite(t, p, data)[p] == File(data)
    ensures forall q :: q in t && q != Parent(p) && q != p ==> AfterWrite(t, p, data)[q] == t[q]
  {
    if p in t {
      ReplaceKeepsValid(t, p, data);
    } else {
      CreateKeepsValid(t, p, data);
    }
  }

  /** Overwriting a file changes no directory. */
  lemma ReplaceKeepsValid(t: Tree, p: Path, data: Bytes)
    requires ValidTree(t) && p in t && t[p].File?
    ensures ValidTree(t[p := File(data)])
  {
    var r := t[p := File(data)];
    forall q | q in r && q != []
      ensures ListedByParent(r, q)
    {
      assert ListedByParent(t, q);
    }
    forall q | q in r && r[q].Dir?
      ensures ListsOnce(r, q)
    {
      assert ListsOnce(t, q);
    }
  }

  /** A new file, whose name its parent records last, keeps the tree well
      formed. */
  lemma CreateKeepsValid(t: Tree, p: Path, data: Bytes)
    requires ValidTree(t) && CanWrite(t, p) && p !in t
    ensures ValidTree(AfterWrite(t, p, data))
  {
    var r, d := AfterWrite(t, p, data), Parent(p);
    assert Join(d, Base(p)) == p;
    assert ListsOnce(t, d);
    forall q | q in r && q != []
      ensures ListedByParent(r, q)
    {
      if q != p {
        assert ListedByParent(t, q);
      }
    }
    forall q | q in r && r[q].Dir?
      ensures ListsOnce(r, q)
    {
      if q != d {
        assert ListsOnce(t, q);
      }
    }
  }

  // ---- the order readdirSync returns names in -----------------------------------

  /** a sorts no later than b: compared character by character on code
      points, which is the byte order of their UTF-8 encodings, a proper
      prefix first. */
  predicate NameLe(a: string, b: string)
    decreases |a|
  {
    |a| == 0 || (|b| > 0 && (a[0] < b[0] || (a[0] == b[0] && NameLe(a[1..], b[1..]))))
  }

  lemma {:induction false} NameLeTotal(a: string, b: string)
    ensures NameLe(a, b) || NameLe(b, a)
    decreases |a|
  {
    if |a| > 0 && |b| > 0 && a[0] == b[0] {
      NameLeTotal(a[1..], b[1..]);
    }
  }

  lemma {:induction false} NameLeAntisymmetric(a: string, b: string)
    requires NameLe(a, b) && NameLe(b, a)
    ensures a == b
    decreases |a|
  {
    if |a| > 0 {
      NameLeAntisymmetric(a[1..], b[1..]);
      assert a == [a[0]] + a[1..] && b == [b[0]] + b[1..];
    }
  }

  /** Consecutive elements are in order of their keys. */
  ghost predicate OrderedBy<T>(s: seq<T>, key: T -> string) {
    forall i :: 0 <= i < |s| - 1 ==> NameLe(key(s[i]), key(s[i + 1]))
  }

  /** x put into s before the first element whose key it sorts no later than. */
  function InsertBy<T>(x: T, s: seq<T>, key: T -> string): (r: seq<T>)
    ensures |r| == |s| + 1
    decreases |s|
  {
    if s == [] then [x]
    else if NameLe(key(x), key(s[0])) then [x] + s
    else [s[0]] + InsertBy(x, s[1..], key)
  }

  /** Insertion sort by key, taking the elements in the order given. */
  function SortBy<T>(s: seq<T>, key: T -> string): (r: seq<T>)
    ensures |r| == |s|
    decreases |s|
  {
    if s == [] then []
    else InsertBy(s[|s| - 1], SortBy(s[..|s| - 1], key), key)
  }

  lemma {:induction false} InsertPermutes<T>(x: T, s: seq<T>, key: T -> string)
    ensures multiset(InsertBy(x, s, key)) == multiset(s) + multiset{x}
    decreases |s|
  {
    if s != [] && !NameLe(key(x), key(s[0])) {
      InsertPermutes(x, s[1..], key);
      assert s == [s[0]] + s[1..];
    }
  }

  /** The sort is a permutation. */
  lemma {:induction false} SortPermutes<T>(s: seq<T>, key: T -> string)
    ensures multiset(SortBy(s, key)) == multiset(s)
    decreases |s|
  {
    if s != [] {
      SortPermutes(s[..|s| - 1], key);
      InsertPermutes(s[|s| - 1], SortBy(s[..|s| - 1], key), key);
      assert s == s[..|s| - 1] + [s[|s| - 1]];
    }
  }

  /** The sort holds exactly the elements it was given. */
  lemma SortMembers<T>(s: seq<T>, key: T -> string)
    ensures forall x :: x in SortBy(s, key) <==> x in s
  {
    SortPermutes(s, key);
    assert forall x :: x in SortBy(s, key) <==> x in multiset(SortBy(s, key));
  }

  lemma {:induction false} InsertOrdered<T>(x: T, s: seq<T>, key: T -> string)
    requires OrderedBy(s, key)
    ensures OrderedBy(InsertBy(x, s, key), key)
    decreases |s|
  {
    if s != [] && !NameLe(key(x), key(s[0])) {
      NameLeTotal(key(x), key(s[0]));
      var tail := s[1..];
      assert OrderedBy(tail, key) by {
        forall i | 0 <= i < |tail| - 1
          ensures NameLe(key(tail[i]), key(tail[i + 1]))
        {
          assert tail[i] == s[i + 1] && tail[i + 1] == s[i + 2];
        }
      }
      InsertOrdered(x, tail, key);
      var r := InsertBy(x, tail, key);
      assert r[0] == x || r[0] == s[1];
      var q := [s[0]] + r;
      forall i | 0 <= i < |q| - 1
        ensures NameLe(key(q[i]), key(q[i + 1]))
      {
        if i > 0 {
          assert q[i] == r[i - 1] && q[i + 1] == r[i];
        }
      }
    }
  }

  /** The sort is ordered by key. */
  lemma {:induction false} SortOrdered<T>(s: seq<T>, key: T -> string)
    ensures OrderedBy(SortBy(s, key), key)
    decreases |s|
  {
    if s != [] {
      SortOrdered(s[..|s| - 1], key);
      InsertOrdered(s[|s| - 1], SortBy(s[..|s| - 1], key), key);
    }
  }

  lemma DistinctCons<T>(y: T, s: seq<T>)
    requires Distinct(s) && y !in s
    ensures Distinct([y] + s)
  {
    var q := [y] + s;
    forall i, j | 0 <= i < j < |q|
      ensures q[i] != q[j]
    {
      assert q[j] == s[j - 1];
      if i > 0 {
        assert q[i] == s[i - 1];
      }
    }
  }

  lemma {:induction false} InsertDistinct<T>(x: T, s: seq<T>, key: T -> string)
    requires Distinct(s) && x !in s
    ensures Distinct(InsertBy(x, s, key))
    decreases |s|
  {
    if s == [] || NameLe(key(x), key(s[0])) {
      DistinctCons(x, s);
    } else {
      var tail := s[1..];
      assert s == [s[0]] + tail;
      InsertDistinct(x, tail, key);
      InsertPermutes(x, tail, key);
      assert s[0] !in multiset(InsertBy(x, tail, key));
      DistinctCons(s[0], InsertBy(x, tail, key));
    }
  }

  /** Sorting keeps the elements distinct. */
  lemma {:induction false} SortDistinct<T>(s: seq<T>, key: T -> string)
    requires Distinct(s)
    ensures Distinct(SortBy(s, key))
    decreases |s|
  {
    if s != [] {
      var prefix := s[..|s| - 1];
      var x := s[|s| - 1];
      assert Distinct(prefix) by {
        forall i, j | 0 <= i < j < |prefix|
          ensures prefix[i] != prefix[j]
        {
          assert prefix[i] == s[i] && prefix[j] == s[j];
        }
      }
      forall i | 0 <= i < |prefix|
        ensures prefix[i] != x
      {
        assert prefix[i] == s[i];
      }
      SortDistinct(prefix, key);
      SortPermutes(prefix, key);
      assert x !in multiset(SortBy(prefix, key));
      InsertDistinct(x, SortBy(prefix, key), key);
    }
  }

  function Self(n: string): string {
    n
  }

  /** readdirSync returns a directory's names sorted: libuv's scandir
      orders them with strcmp on their UTF-8 bytes. */
  function SortedNames(names: seq<string>): (r: seq<string>)
    ensures |r| == |names|
  {
    SortBy(names, Self)
  }

  /** The filesystem as the process sees it. existsSync, readdirSync and
      readFileSync read it; mkdirSync and writeFileSync change it. A call that
      would throw reports failure and leaves the tree as it was. */
  class Fs {
    var entries: Tree

    constructor(t: Tree)
      ensures entries == t
    {
      entries := t;
    }

    predicate Exists(p: Path)
      reads this
    {
      p in entries
    }

    /** readdirSync: the names a directory holds, sorted, or None where it
        throws. */
    function Listing(p: Path): (r: Option<seq<string>>)
      reads this
      ensures r.Some? <==> p in entries && entries[p].Dir?
      ensures r.Some? ==> r.value == SortedNames(entries[p].names)
    {
      if p in entries && entries[p].Dir? then Some(SortedNames(entries[p].names)) else None
    }

    /** readFileSync: a file's contents, or None where it throws (no such
        entry, or a directory). */
    function ReadFile(p: Path): (r: Option<Bytes>)
      reads this
      ensures r.Some? <==> p in entries && entries[p].File?
      ensures r.Some? ==> r.value == entries[p].data
    {
      if p in entries && entries[p].File? then Some(entries[p].data) else None
    }

    method Mkdir(p: Path) returns (ok: bool)
      modifies this
      ensures ok <==> CanMkdir(old(entries), p)
      ensures ok ==> entries == AfterMkdir(old(entries), p)
      ensures !ok ==> entries == old(entries)
    {
      ok := CanMkdir(entries, p);
      if ok {
        entries := AfterMkdir(entries, p);
      }
    }

    method WriteFile(p: Path, data: Bytes) returns (ok: bool)
      modifies this
      ensures ok <==> CanWrite(old(entries), p)
      ensures ok ==> entries == AfterWrite(old(entries), p, data)
      ensures !ok ==> entries == old(entries)
    {
      ok := CanWrite(entries, p);
      if ok {
        entries := AfterWrite(entries, p, data);
      }
    }
  }
}
