/** The my-list / history adapter over the document store: keyed upserts,
    listings and bulk deletion, all scoped to the signed-in user and all
    doing nothing without one. */
module Store {
  import opened Js
  import opened Catalog
  import opened Firestore

  /** A signed-in principal, as the identity provider reports it. */
  datatype User = User(uid: string, email: Option<string>, displayName: Option<string>)

  /** Where a video's document lives in one of the user's collections. */
  function PathOf(u: User, coll: CollectionName, v: Video): DocPath {
    DocPath(u.uid, coll, VideoId(v))
  }

  /** The document a history write stores: the video, with `viewedAt` set to
      the time of the play (any `viewedAt` it had is overwritten). */
  function Stamped(v: Video, now: nat): Video {
    v.(viewedAt := Some(now))
  }

  /** `addToMyList(video, user)`: one `setDoc` of the video at its key in the
      user's my-list; `ok` is false when the write is rejected. */
  method AddToMyList(db: Database, video: Video, user: Option<User>) returns (ok: bool)
    modifies db
    ensures user.None? ==> ok && db.docs == old(db.docs) && db.requests == old(db.requests)
    ensures user.Some? ==>
      var p := PathOf(user.value, MyList, video);
      db.requests == old(db.requests) + [SetRequest(p, video)] &&
      (ok <==> p !in db.rejects) &&
      db.docs == if ok then old(db.docs)[p := video] else old(db.docs)
  {
    if user.None? {
      return true;
    }
    ok := db.SetDoc(PathOf(user.value, MyList, video), video);
  }

  /** `addToHistory(video, user)`: one `setDoc` of the time-stamped video at
      its key in the user's history, replacing an earlier entry for it. */
  method AddToHistory(db: Database, video: Video, user: Option<User>, now: nat) returns (ok: bool)
    modifies db
    ensures user.None? ==> ok && db.docs == old(db.docs) && db.requests == old(db.requests)
    ensures user.Some? ==>
      var p := PathOf(user.value, History, video);
      db.requests == old(db.requests) + [SetRequest(p, Stamped(video, now))] &&
      (ok <==> p !in db.rejects) &&
      db.docs == if ok then old(db.docs)[p := Stamped(video, now)] else old(db.docs)
  {
    if user.None? {
      return true;
    }
    ok := db.SetDoc(PathOf(user.value, History, video), Stamped(video, now));
  }

  /** An upsert touches exactly one path: every other user's documents, the
      other collection and the other keys stay as they were. */
  lemma UpsertTouchesOnlyItsKey(docs: map<DocPath, Video>, u: User, coll: CollectionName, v: Video, doc: Video, q: DocPath)
    requires q != PathOf(u, coll, v)
    ensures q in docs[PathOf(u, coll, v) := doc] <==> q in docs
    ensures q in docs ==> docs[PathOf(u, coll, v) := doc][q] == docs[q]
  {
  }

  /** Adding the same video twice leaves one entry, holding the second write. */
  lemma {:induction false} RepeatedAddKeepsOneEntry(docs: map<DocPath, Video>, u: User, coll: CollectionName, v: Video, first: Video, second: Video)
    ensures docs[PathOf(u, coll, v) := first][PathOf(u, coll, v) := second] == docs[PathOf(u, coll, v) := second]
    ensures Keys(docs[PathOf(u, coll, v) := first][PathOf(u, coll, v) := second], u.uid, coll) == Keys(docs, u.uid, coll) + {VideoId(v)}
    ensures |Keys(docs[PathOf(u, coll, v) := second], u.uid, coll)| ==
            |Keys(docs[PathOf(u, coll, v) := first][PathOf(u, coll, v) := second], u.uid, coll)|
  {
    var p := PathOf(u, coll, v);
    var d := docs[p := first][p := second];
    assert d == docs[p := second];
    forall k | k in Keys(d, u.uid, coll)
      ensures k in Keys(docs, u.uid, coll) + {VideoId(v)}
    {
      var q :| q in d && q.uid == u.uid && q.coll == coll && q.key == k;
      if q != p {
        assert q in docs;
      }
    }
    forall k | k in Keys(docs, u.uid, coll) + {VideoId(v)}
      ensures k in Keys(d, u.uid, coll)
    {
      if k == VideoId(v) {
        assert p in d;
      } else {
        var q :| q in docs && q.uid == u.uid && q.coll == coll && q.key == k;
        assert q in d;
      }
    }
  }

  /** Replaying a video keeps a single history entry, stamped with the later time. */
  lemma ReplayKeepsLatestView(docs: map<DocPath, Video>, u: User, v: Video, t1: nat, t2: nat)
    ensures var p := PathOf(u, History, v);
      var d := docs[p := Stamped(v, t1)][p := Stamped(v, t2)];
      d[p].viewedAt == Some(t2) && Keys(d, u.uid, History) == Keys(docs, u.uid, History) + {VideoId(v)}
  {
    RepeatedAddKeepsOneEntry(docs, u, History, v, Stamped(v, t1), Stamped(v, t2));
  }

  /** The data of a snapshot, in snapshot order. */
  function Data(snap: seq<DocSnapshot>): (r: seq<Video>)
    ensures |r| == |snap| && forall i :: 0 <= i < |snap| ==> r[i] == snap[i].data
  {
    seq(|snap|, i requires 0 <= i < |snap| => snap[i].data)
  }

  /** `list` holds the documents of the user's collection, each once, in the
      order of some snapshot of it. */
  ghost predicate IsListingOf(list: seq<Video>, docs: map<DocPath, Video>, uid: string, coll: CollectionName) {
    exists snap :: IsSnapshotOf(snap, docs, uid, coll) && Data(snap) == list
  }

  /** `fetchMyList(user)`: every entry of the user's my-list; `[]` without a user. */
  method FetchMyList(db: Database, user: Option<User>) returns (list: seq<Video>)
    ensures user.None? ==> list == []
    ensures user.Some? ==> IsListingOf(list, db.docs, user.value.uid, MyList)
    ensures user.Some? ==> |list| == |Keys(db.docs, user.value.uid, MyList)|
  {
    if user.None? {
      return [];
    }
    var snap := db.GetDocs(user.value.uid, MyList);
    list := Data(snap);
  }

  /** `viewedAt?.seconds || 0`: the sort key of a history entry. */
  function Seconds(v: Video): nat {
    if v.viewedAt.Some? then v.viewedAt.value else 0
  }

  /** Most recent first. */
  ghost predicate ViewedDescending(s: seq<Video>) {
    forall i, j :: 0 <= i < j < |s| ==> Seconds(s[i]) >= Seconds(s[j])
  }

  /** Each entry is at least as recent as the next one. */
  ghost predicate StepwiseDescending(s: seq<Video>) {
    forall i :: 0 <= i < |s| - 1 ==> Seconds(s[i]) >= Seconds(s[i + 1])
  }

  lemma {:induction false} StepwiseIsDescending(s: seq<Video>)
    requires StepwiseDescending(s)
    ensures ViewedDescending(s)
  {
    if |s| > 1 {
      StepwiseTail(s);
      StepwiseIsDescending(s[1..]);
      forall i, j | 0 <= i < j < |s| ensures Seconds(s[i]) >= Seconds(s[j]) {
        if i == 0 {
          assert Seconds(s[0]) >= Seconds(s[1]);
          if j > 1 {
            assert s[1..][0] == s[1] && s[1..][j - 1] == s[j];
          }
        } else {
          assert s[1..][i - 1] == s[i] && s[1..][j - 1] == s[j];
        }
      }
    }
  }

  /** Places `x` before the first entry that is not more recent than it. */
  function InsertByViewed(x: Video, s: seq<Video>): (r: seq<Video>)
    requires StepwiseDescending(s)
    ensures |r| == |s| + 1
    ensures multiset(r) == multiset(s) + multiset{x}
    ensures r[0] == x || (s != [] && r[0] == s[0])
    ensures StepwiseDescending(r)
  {
    if s == [] || Seconds(x) >= Seconds(s[0]) then
      [x] + s
    else
      assert s == [s[0]] + s[1..];
      StepwiseTail(s);
      var rest := InsertByViewed(x, s[1..]);
      var r := [s[0]] + rest;
      assert StepwiseDescending(r) by {
        forall i | 0 <= i < |r| - 1 ensures Seconds(r[i]) >= Seconds(r[i + 1]) {
          if i == 0 {
            assert |s| > 1 ==> s[1..][0] == s[1];
          } else {
            assert r[i] == rest[i - 1] && r[i + 1] == rest[i];
          }
        }
      }
      r
  }

  lemma StepwiseTail(s: seq<Video>)
    requires s != [] && StepwiseDescending(s)
    ensures StepwiseDescending(s[1..])
  {
    forall i | 0 <= i < |s[1..]| - 1 ensures Seconds(s[1..][i]) >= Seconds(s[1..][i + 1]) {
      assert s[1..][i] == s[i + 1] && s[1..][i + 1] == s[i + 2];
    }
  }

  /** The comparator sort of `fetchHistory`: most recent view first, an entry
      without a timestamp counted as time 0. */
  function SortByViewedDesc(s: seq<Video>): (r: seq<Video>)
    ensures multiset(r) == multiset(s)
    ensures StepwiseDescending(r) && ViewedDescending(r)
  {
    if s == [] then []
    else
      assert s == [s[0]] + s[1..];
      var r := InsertByViewed(s[0], SortByViewedDesc(s[1..]));
      StepwiseIsDescending(r);
      r
  }

  /** `fetchHistory(user)`: the user's history entries, most recent first;
      `[]` without a user. */
  method FetchHistory(db: Database, user: Option<User>) returns (list: seq<Video>)
    ensures user.None? ==> list == []
    ensures user.Some? ==> ViewedDescending(list)
    ensures user.Some? ==>
      exists snap :: IsSnapshotOf(snap, db.docs, user.value.uid, History) && multiset(list) == multiset(Data(snap))
  {
    if user.None? {
      return [];
    }
    var snap := db.GetDocs(user.value.uid, History);
    list := SortByViewedDesc(Data(snap));
  }

  /** The history paths of a user that a delete would actually remove. */
  ghost function DeletableHistory(docs: map<DocPath, Video>, uid: string, rejects: set<DocPath>): set<DocPath> {
    set p | p in docs && p.uid == uid && p.coll == History && p !in rejects
  }

  /** `deleteAllHistory(user, onDeleted)`: lists the user's history and
      issues one `deleteDoc` per entry, all of them even if some fail; only
      when every delete succeeds does it call `onDeleted` (`notified`).
      `ok` is false when the combined promise rejects. */
  method DeleteAllHistory(db: Database, user: Option<User>) returns (ok: bool, notified: bool)
    modifies db
    ensures user.None? ==> ok && !notified && db.docs == old(db.docs) && db.requests == old(db.requests)
    ensures user.Some? ==>
      db.docs == old(db.docs) - DeletableHistory(old(db.docs), user.value.uid, db.rejects)
    ensures user.Some? ==>
      |db.requests| == |old(db.requests)| + |Keys(old(db.docs), user.value.uid, History)| &&
      db.requests[..|old(db.requests)|] == old(db.requests) &&
      forall i :: |old(db.requests)| <= i < |db.requests| ==>
        db.requests[i].DeleteRequest? && db.requests[i].path.uid == user.value.uid &&
        db.requests[i].path.coll == History
    ensures user.Some? ==>
      (set i | |old(db.requests)| <= i < |db.requests| :: db.requests[i].path.key) == Keys(old(db.docs), user.value.uid, History)
    ensures user.Some? ==>
      (ok <==> forall k :: k in Keys(old(db.docs), user.value.uid, History) ==> DocPath(user.value.uid, History, k) !in db.rejects)
    ensures notified <==> user.Some? && ok
  {
    if user.None? {
      return true, false;
    }
    var uid := user.value.uid;
    var snap := db.GetDocs(uid, History);
    ghost var docs0 := db.docs;
    var i := 0;
    ok := true;
    while i < |snap|
      invariant 0 <= i <= |snap|
      invariant db.docs == docs0 - (set j | 0 <= j < i && DocPath(uid, History, snap[j].id) !in db.rejects :: DocPath(uid, History, snap[j].id))
      invariant |db.requests| == |old(db.requests)| + i
      invariant db.requests[..|old(db.requests)|] == old(db.requests)
      invariant forall j :: |old(db.requests)| <= j < |db.requests| ==>
        db.requests[j] == DeleteRequest(DocPath(uid, History, snap[j - |old(db.requests)|].id))
      invariant ok <==> forall j :: 0 <= j < i ==> DocPath(uid, History, snap[j].id) !in db.rejects
    {
      var deleted := db.DeleteDoc(DocPath(uid, History, snap[i].id));
      ok := ok && deleted;
      i := i + 1;
    }
    notified := ok;
    ghost var o := |old(db.requests)|;
    assert (set i | o <= i < |db.requests| :: db.requests[i].path.key) == Keys(docs0, uid, History) by {
      forall k | k in Keys(docs0, uid, History)
        ensures k in (set i | o <= i < |db.requests| :: db.requests[i].path.key)
      {
        var j :| 0 <= j < |snap| && snap[j].id == k;
        assert db.requests[o + j].path.key == k;
      }
      forall k | k in (set i | o <= i < |db.requests| :: db.requests[i].path.key)
        ensures k in Keys(docs0, uid, History)
      {
        var i :| o <= i < |db.requests| && db.requests[i].path.key == k;
        assert DocPath(uid, History, snap[i - o].id) in docs0;
      }
    }
    var removed := set j | 0 <= j < |snap| && DocPath(uid, History, snap[j].id) !in db.rejects :: DocPath(uid, History, snap[j].id);
    assert removed == DeletableHistory(docs0, uid, db.rejects) by {
      forall p | p in DeletableHistory(docs0, uid, db.rejects) ensures p in removed {
        assert p.key in Keys(docs0, uid, History);
        var j :| 0 <= j < |snap| && snap[j].id == p.key;
        assert p == DocPath(uid, History, snap[j].id);
      }
    }
    forall k | k in Keys(docs0, uid, History) && DocPath(uid, History, k) in db.rejects
      ensures !ok
    {
      var j :| 0 <= j < |snap| && snap[j].id == k;
    }
  }

  /** Every document of the collection sits at its own video's key, as the
      writes above place them. */
  ghost predicate WellKeyed(docs: map<DocPath, Video>, uid: string, coll: CollectionName) {
    forall p :: p in docs && p.uid == uid && p.coll == coll ==> VideoId(docs[p]) == p.key
  }

  /** Both writes keep the collection well keyed: the stamped history entry
      has the key of the video it stamps. */
  lemma WritesKeepWellKeyed(docs: map<DocPath, Video>, u: User, v: Video, now: nat)
    ensures WellKeyed(docs, u.uid, MyList) ==> WellKeyed(docs[PathOf(u, MyList, v) := v], u.uid, MyList)
    ensures WellKeyed(docs, u.uid, History) ==> WellKeyed(docs[PathOf(u, History, v) := Stamped(v, now)], u.uid, History)
  {
    assert VideoId(Stamped(v, now)) == VideoId(v);
  }

  /** The data held in one user's collection. */
  ghost function Contents(docs: map<DocPath, Video>, uid: string, coll: CollectionName): set<Video> {
    set p | p in docs && p.uid == uid && p.coll == coll :: docs[p]
  }

  /** A listing holds exactly the collection's data. */
  lemma ListingHoldsContents(list: seq<Video>, docs: map<DocPath, Video>, uid: string, coll: CollectionName)
    requires IsListingOf(list, docs, uid, coll)
    ensures (set v | v in list) == Contents(docs, uid, coll)
  {
    var snap: seq<DocSnapshot> :| IsSnapshotOf(snap, docs, uid, coll) && Data(snap) == list;
    forall v | v in list
      ensures v in Contents(docs, uid, coll)
    {
      var i :| 0 <= i < |list| && list[i] == v;
      assert DocPath(uid, coll, snap[i].id) in docs;
    }
    forall v | v in Contents(docs, uid, coll)
      ensures v in list
    {
      var p :| p in docs && p.uid == uid && p.coll == coll && docs[p] == v;
      assert p.key in Keys(docs, uid, coll);
      var i :| 0 <= i < |snap| && snap[i].id == p.key;
      assert DocPath(uid, coll, snap[i].id) == p;
      assert list[i] == v;
    }
  }
}
