/** An in-memory stand-in for the document store: every document lives at a
    path users/<uid>/<collection>/<key>. The store records every write it
    is asked to perform, and refuses writes to a fixed set of paths (what
    security rules or a lost connection would reject), so that callers'
    error paths can be modelled. */
module Firestore {
  import opened Catalog

  /** The two per-user collections the client uses. */
  datatype CollectionName = MyList | History

  datatype DocPath = DocPath(uid: string, coll: CollectionName, key: string)

  /** A write request as the client issues it (`setDoc` or `deleteDoc`). */
  datatype Request = SetRequest(path: DocPath, data: Video) | DeleteRequest(path: DocPath)

  /** One document of a query snapshot: its id and its data. */
  datatype DocSnapshot = DocSnapshot(id: string, data: Video)

  /** The keys of one user's collection. */
  ghost function Keys(docs: map<DocPath, Video>, uid: string, coll: CollectionName): set<string> {
    set p | p in docs && p.uid == uid && p.coll == coll :: p.key
  }

  /** `snap` lists every document of the collection exactly once, with its data. */
  ghost predicate IsSnapshotOf(snap: seq<DocSnapshot>, docs: map<DocPath, Video>, uid: string, coll: CollectionName) {
    (forall i, j :: 0 <= i < j < |snap| ==> snap[i].id != snap[j].id) &&
    (forall i :: 0 <= i < |snap| ==>
      DocPath(uid, coll, snap[i].id) in docs && docs[DocPath(uid, coll, snap[i].id)] == snap[i].data) &&
    (forall k :: k in Keys(docs, uid, coll) ==> exists i :: 0 <= i < |snap| && snap[i].id == k)
  }

  class Database {
    /** The documents currently stored. */
    var docs: map<DocPath, Video>
    /** Every write request issued so far, oldest first. */
    var requests: seq<Request>
    /** The paths on which the backend rejects writes. */
    const rejects: set<DocPath>

    constructor (initial: map<DocPath, Video>, rejects: set<DocPath>)
      ensures docs == initial && requests == [] && this.rejects == rejects
    {
      docs := initial;
      requests := [];
      this.rejects := rejects;
    }

    /** `setDoc(ref, data)`: creates or overwrites the document, unless the
        path is rejected, in which case the promise rejects (`ok` false). */
    method SetDoc(path: DocPath, data: Video) returns (ok: bool)
      modifies this
      ensures requests == old(requests) + [SetRequest(path, data)]
      ensures ok <==> path !in rejects
      ensures docs == if ok then old(docs)[path := data] else old(docs)
    {
      requests := requests + [SetRequest(path, data)];
      ok := path !in rejects;
      if ok {
        docs := docs[path := data];
      }
    }

    /** `deleteDoc(ref)`: removes the document if there is one; deleting a
        missing document succeeds. */
    method DeleteDoc(path: DocPath) returns (ok: bool)
      modifies this
      ensures requests == old(requests) + [DeleteRequest(path)]
      ensures ok <==> path !in rejects
      ensures docs == if ok then old(docs) - {path} else old(docs)
    {
      requests := requests + [DeleteRequest(path)];
      ok := path !in rejects;
      if ok {
        docs := docs - {path};
      }
    }

    /** `getDocs(collection(...))`: every document of one user's collection,
        each once; the order is the store's and not specified. */
    method GetDocs(uid: string, coll: CollectionName) returns (snap: seq<DocSnapshot>)
      ensures IsSnapshotOf(snap, docs, uid, coll)
      ensures |snap| == |Keys(docs, uid, coll)|
    {
      var all := set p | p in docs && p.uid == uid && p.coll == coll :: p.key;
      var remaining := all;
      snap := [];
      while remaining != {}
        invariant remaining <= all
        invariant forall i, j :: 0 <= i < j < |snap| ==> snap[i].id != snap[j].id
        invariant forall i :: 0 <= i < |snap| ==>
          snap[i].id in all && snap[i].id !in remaining &&
          docs[DocPath(uid, coll, snap[i].id)] == snap[i].data
        invariant forall k :: k in all && k !in remaining ==> exists i :: 0 <= i < |snap| && snap[i].id == k
        invariant |snap| + |remaining| == |all|
        decreases |remaining|
      {
        var k :| k in remaining;
        var p := DocPath(uid, coll, k);
        assert p in docs by {
          var q :| q in docs && q.uid == uid && q.coll == coll && q.key == k;
          assert q == p;
        }
        ghost var before := snap;
        snap := snap + [DocSnapshot(k, docs[p])];
        remaining := remaining - {k};
        forall k' | k' in all && k' !in remaining
          ensures exists i :: 0 <= i < |snap| && snap[i].id == k'
        {
          if k' == k {
            assert snap[|snap| - 1].id == k';
          } else {
            var i :| 0 <= i < |before| && before[i].id == k';
            assert snap[i].id == k';
          }
        }
      }
      assert all == Keys(docs, uid, coll);
      forall i | 0 <= i < |snap|
        ensures DocPath(uid, coll, snap[i].id) in docs
      {
        var q :| q in docs && q.uid == uid && q.coll == coll && q.key == snap[i].id;
        assert q == DocPath(uid, coll, snap[i].id);
      }
    }
  }
}
