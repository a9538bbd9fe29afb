/** The MongoDB database BackupUtil restores into: a map from collection
    names to their documents, changed by dropCollection, bulkWrite and
    createCollection. */
module Database {

  /** A stored document. id is String(_id), the only part of a document the
      backup layout depends on; body stands for the rest of it. */
  datatype Doc = Doc(id: string, body: string)

  /** How the promise of dropCollection settles: resolved true, resolved
      false, or rejected (the collection does not exist, or the server
      fails to drop it). */
  datatype DropResult = Dropped | NotDropped | Rejected

  /** Two maps agree on one key: both lack it, or both hold the same value. */
  predicate SameAt<K, V(==)>(a: map<K, V>, b: map<K, V>, k: K) {
    (k in a <==> k in b) && (k in a ==> a[k] == b[k])
  }

  /** The collections after a drop of name that the server carries out
      unless name is in kept. */
  function AfterDrop(m: map<string, seq<Doc>>, name: string, kept: set<string>): (r: map<string, seq<Doc>>)
    ensures name in kept ==> r == m
    ensures name !in kept ==> name !in r && forall n :: n != name ==> SameAt(r, m, n)
  {
    if name in kept then m else m - {name}
  }

  /** The documents a collection holds, none when it is missing. */
  function Existing(m: map<string, seq<Doc>>, name: string): seq<Doc> {
    if name in m then m[name] else []
  }

  /** The ids of a sequence of documents. */
  function Ids(s: seq<Doc>): (r: set<string>)
    ensures |r| <= |s|
    decreases |s|
  {
    if s == [] then {} else Ids(s[..|s| - 1]) + {s[|s| - 1].id}
  }

  lemma {:induction false} IdsMembers(s: seq<Doc>, i: nat)
    requires i < |s|
    ensures s[i].id in Ids(s)
    decreases |s|
  {
    if i < |s| - 1 {
      IdsMembers(s[..|s| - 1], i);
    }
  }

  /** What an ordered bulkWrite of one insertOne per document adds to a
      collection holding held: the documents in order up to the first whose
      _id is already taken, by the collection or by an earlier document of
      the bulk; the server stops there with a duplicate key error and writes
      nothing after it. */
  function Inserted(held: seq<Doc>, docs: seq<Doc>): (r: seq<Doc>)
    ensures |r| <= |docs|
    decreases |docs|
  {
    if docs == [] || docs[0].id in Ids(held) then []
    else [docs[0]] + Inserted(held + [docs[0]], docs[1..])
  }

  /** What is inserted is a prefix of the bulk. */
  lemma {:induction false} InsertedPrefix(held: seq<Doc>, docs: seq<Doc>)
    ensures Inserted(held, docs) == docs[..|Inserted(held, docs)|]
    decreases |docs|
  {
    if docs != [] && docs[0].id !in Ids(held) {
      var tail := docs[1..];
      var r := Inserted(held + [docs[0]], tail);
      InsertedPrefix(held + [docs[0]], tail);
      assert docs[..|r| + 1] == [docs[0]] + tail[..|r|];
    }
  }

  lemma IdsSnoc(held: seq<Doc>, d: Doc)
    ensures Ids(held + [d]) == Ids(held) + {d.id}
  {
    assert (held + [d])[..|held|] == held;
  }

  /** Every inserted document has an id that is new at its turn. */
  lemma {:induction false} InsertedNew(held: seq<Doc>, docs: seq<Doc>, i: nat)
    requires i < |Inserted(held, docs)|
    ensures docs[i].id !in Ids(held + docs[..i])
    decreases |docs|
  {
    if i == 0 {
      assert held + docs[..0] == held;
    } else {
      var held' := held + [docs[0]];
      var tail := docs[1..];
      assert Inserted(held, docs) == [docs[0]] + Inserted(held', tail);
      InsertedNew(held', tail, i - 1);
      SnocPrefix(held, docs, i);
    }
  }

  /** A bulk cut short stops at a document whose id is taken. */
  lemma {:induction false} InsertedStops(held: seq<Doc>, docs: seq<Doc>)
    requires |Inserted(held, docs)| < |docs|
    ensures docs[|Inserted(held, docs)|].id in Ids(held + docs[..|Inserted(held, docs)|])
    decreases |docs|
  {
    if docs[0].id in Ids(held) {
      assert held + docs[..0] == held;
    } else {
      var held' := held + [docs[0]];
      var tail := docs[1..];
      var k := |Inserted(held', tail)|;
      assert Inserted(held, docs) == [docs[0]] + Inserted(held', tail);
      InsertedStops(held', tail);
      SnocPrefix(held, docs, k + 1);
    }
  }

  /** Taking the first document onto the held ones shifts the bulk by one. */
  lemma SnocPrefix(held: seq<Doc>, docs: seq<Doc>, i: nat)
    requires 0 < i <= |docs|
    ensures held + docs[..i] == (held + [docs[0]]) + docs[1..][..i - 1]
  {
    assert docs[..i] == [docs[0]] + docs[1..][..i - 1];
  }

  /** A bulk whose ids are distinct and new is written in full. */
  lemma {:induction false} InsertedAll(held: seq<Doc>, docs: seq<Doc>)
    requires forall i, j :: 0 <= i < j < |docs| ==> docs[i].id != docs[j].id
    requires forall i :: 0 <= i < |docs| ==> docs[i].id !in Ids(held)
    ensures Inserted(held, docs) == docs
    decreases |docs|
  {
    if docs != [] {
      var tail := docs[1..];
      IdsSnoc(held, docs[0]);
      forall i | 0 <= i < |tail|
        ensures tail[i].id !in Ids(held + [docs[0]])
      {
        assert tail[i] == docs[i + 1];
      }
      InsertedAll(held + [docs[0]], tail);
    }
  }

  /** A bulk every id of which the collection already holds adds nothing. */
  lemma NoneInserted(held: seq<Doc>, docs: seq<Doc>)
    requires forall i :: 0 <= i < |docs| ==> docs[i].id in Ids(held)
    ensures Inserted(held, docs) == []
  {
  }

  class Db {
    var collections: map<string, seq<Doc>>
    /** The collections whose drop the server answers with false. */
    const refusesDrop: set<string>
    /** The collections whose drop the server rejects although they exist
        (a permission or connection error); they are left in place. */
    const rejectsDrop: set<string>

    constructor(collections: map<string, seq<Doc>>, refusesDrop: set<string>, rejectsDrop: set<string>)
      ensures this.collections == collections
      ensures this.refusesDrop == refusesDrop && this.rejectsDrop == rejectsDrop
    {
      this.collections := collections;
      this.refusesDrop := refusesDrop;
      this.rejectsDrop := rejectsDrop;
    }

    /** dropCollection: an existing collection is removed and the promise
        resolves true; a missing one makes it reject, and so does one whose
        drop the server rejects, which stays; a refused one resolves false
        and stays. */
    method Drop(name: string) returns (r: DropResult)
      modifies this
      ensures name in refusesDrop ==> r == NotDropped && collections == old(collections)
      ensures name !in refusesDrop && name in old(collections) && name !in rejectsDrop ==>
        r == Dropped && collections == old(collections) - {name}
      ensures name !in refusesDrop && (name !in old(collections) || name in rejectsDrop) ==>
        r == Rejected && collections == old(collections)
      ensures collections == AfterDrop(old(collections), name, refusesDrop + rejectsDrop)
    {
      if name in refusesDrop {
        r := NotDropped;
      } else if name in collections && name !in rejectsDrop {
        collections := collections - {name};
        r := Dropped;
      } else {
        r := Rejected;
      }
    }

    /** bulkWrite of one insertOne per document, ordered: the collection is
        created by the first insert when it is missing, and the writes stop
        at the first duplicate _id. */
    method BulkWrite(name: string, docs: seq<Doc>)
      modifies this
      ensures collections == old(collections)[name := Existing(old(collections), name) + Inserted(Existing(old(collections), name), docs)]
    {
      var held := Existing(collections, name);
      collections := collections[name := held + Inserted(held, docs)];
    }

    /** createCollection: an empty collection, or an error when the name is
        taken. */
    method CreateCollection(name: string) returns (ok: bool)
      modifies this
      ensures ok <==> name !in old(collections)
      ensures ok ==> collections == old(collections)[name := []]
      ensures !ok ==> collections == old(collections)
    {
      ok := name !in collections;
      if ok {
        collections := collections[name := []];
      }
    }
  }
}
