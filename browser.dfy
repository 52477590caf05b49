/** The my-list / history overlay (`VideoModalList`): its selection mode, the
    set of selected keys, the nested detail modal, and the bulk delete. */
module Browser {
  import opened Js
  import opened Catalog
  import opened Firestore
  import opened Store
  import opened Application

  const MyListTitle: string := "マイリスト"
  const HistoryTitle: string := "視聴履歴"

  /** The collection an overlay deletes from: history for the history title,
      my-list for any other. */
  function TargetFor(title: string): (c: CollectionName)
    ensures c == History <==> title == HistoryTitle
  {
    if title == HistoryTitle then History else MyList
  }

  /** `toggleSelect`: a selected key is dropped (every occurrence of it), an
      unselected one is appended. */
  function Toggled(ids: seq<string>, id: string): (r: seq<string>)
    ensures forall x :: x in r <==> if x == id then id !in ids else x in ids
    ensures id in ids ==> IsSubsequence(r, ids)
    ensures id in ids ==> forall x :: multiset(r)[x] == if x == id then 0 else multiset(ids)[x]
    ensures id !in ids ==> |r| == |ids| + 1 && r[..|ids|] == ids && r[|ids|] == id
    ensures NoDuplicates(ids) ==> NoDuplicates(r)
  {
    if id in ids then Filter(ids, x => x != id)
    else
      var r := ids + [id];
      assert r[..|ids|] == ids;
      r
  }

  /** Toggling the same key twice restores the selection as a set, and
      restores the sequence itself when the key was not selected. */
  lemma ToggleTwice(ids: seq<string>, id: string)
    ensures forall x :: x in Toggled(Toggled(ids, id), id) <==> x in ids
    ensures id !in ids ==> Toggled(Toggled(ids, id), id) == ids
  {
    if id !in ids {
      var p := x => x != id;
      FilterAppend(ids, [id], p);
      FilterKeepsAll(ids, p);
      assert Filter([id], p) == [];
    }
  }

  /** Dropping every copy of a key and appending it once gives back the
      sequence exactly when the key occurs once, as the last element. */
  lemma DropThenAppend(ids: seq<string>, id: string)
    requires id in ids
    ensures Filter(ids, x => x != id) + [id] == ids <==> ids[|ids| - 1] == id && id !in ids[..|ids| - 1]
  {
    var n := |ids|;
    var front := ids[..n - 1];
    if ids[n - 1] == id && id !in front {
      assert ids == front + [id];
      DropLast(front, id);
      assert Filter(ids, x => x != id) + [id] == front + [id];
    } else {
      DropNotLast(ids, id);
    }
  }

  lemma DropLast(front: seq<string>, id: string)
    requires id !in front
    ensures Filter(front + [id], x => x != id) == front
  {
    var p := x => x != id;
    FilterAppend(front, [id], p);
    FilterKeepsAll(front, p);
    assert Filter([id], p) == [];
  }

  lemma DropNotLast(ids: seq<string>, id: string)
    requires id in ids && !(ids[|ids| - 1] == id && id !in ids[..|ids| - 1])
    ensures Filter(ids, x => x != id) + [id] != ids
  {
    assert id !in Filter(ids, x => x != id);
  }

  /** Toggling twice gives back the very sequence exactly when the key was
      not selected, or was selected once and last: a selected key is dropped
      and then appended at the end. */
  lemma ToggleTwiceExact(ids: seq<string>, id: string)
    ensures Toggled(Toggled(ids, id), id) == ids <==>
      id !in ids || (ids[|ids| - 1] == id && id !in ids[..|ids| - 1])
  {
    if id !in ids {
      ToggleTwice(ids, id);
    } else {
      var f := Filter(ids, x => x != id);
      assert Toggled(ids, id) == f;
      assert id !in f;
      assert Toggled(f, id) == f + [id];
      DropThenAppend(ids, id);
    }
  }

  /** The list patch after a delete: the entries whose key is not selected,
      in their order. */
  function KeepUnselected(videos: seq<Video>, ids: seq<string>): (r: seq<Video>)
    ensures forall v :: v in r <==> v in videos && VideoId(v) !in ids
    ensures forall v :: multiset(r)[v] == if VideoId(v) !in ids then multiset(videos)[v] else 0
    ensures IsSubsequence(r, videos)
    ensures ids == [] ==> r == videos
  {
    var p := v => VideoId(v) !in ids;
    if ids == [] then
      FilterKeepsAll(videos, p);
      Filter(videos, p)
    else Filter(videos, p)
  }

  /** The document path of a selected key. */
  function PathFor(uid: string, coll: CollectionName, id: string): DocPath {
    DocPath(uid, coll, id)
  }

  /** The paths of a list of keys. */
  ghost function PathSet(uid: string, coll: CollectionName, ids: seq<string>): set<DocPath> {
    set id | id in ids :: PathFor(uid, coll, id)
  }

  /** The delete requests for a list of keys, in order. */
  function DeleteRequests(uid: string, coll: CollectionName, ids: seq<string>): seq<Request> {
    seq(|ids|, i requires 0 <= i < |ids| => DeleteRequest(PathFor(uid, coll, ids[i])))
  }

  /** The requests for two runs of keys are the requests for the first run
      followed by those for the second. */
  lemma DeleteRequestsAppend(uid: string, coll: CollectionName, a: seq<string>, b: seq<string>)
    ensures DeleteRequests(uid, coll, a + b) == DeleteRequests(uid, coll, a) + DeleteRequests(uid, coll, b)
  {
    var l, r := DeleteRequests(uid, coll, a + b), DeleteRequests(uid, coll, a) + DeleteRequests(uid, coll, b);
    assert |l| == |r|;
    forall i | 0 <= i < |l|
      ensures l[i] == r[i]
    {
      if i >= |a| {
        assert (a + b)[i] == b[i - |a|];
      }
    }
  }

  /** How many of the keys, from the first, the store accepts before the
      first rejected delete. */
  function AcceptedPrefix(uid: string, coll: CollectionName, ids: seq<string>, rejects: set<DocPath>): (n: nat)
    ensures n <= |ids|
    ensures forall i :: 0 <= i < n ==> PathFor(uid, coll, ids[i]) !in rejects
    ensures n < |ids| ==> PathFor(uid, coll, ids[n]) in rejects
  {
    if ids == [] || PathFor(uid, coll, ids[0]) in rejects then 0
    else 1 + AcceptedPrefix(uid, coll, ids[1..], rejects)
  }

  /** The patch and the deletes agree: when the list held the collection's
      data and every delete succeeded, the patched list holds what the
      collection holds afterwards. */
  lemma PatchMatchesStore(list: seq<Video>, docs: map<DocPath, Video>, uid: string, coll: CollectionName, ids: seq<string>)
    requires IsListingOf(list, docs, uid, coll) && WellKeyed(docs, uid, coll)
    ensures (set v | v in KeepUnselected(list, ids)) == Contents(docs - PathSet(uid, coll, ids), uid, coll)
  {
    ListingHoldsContents(list, docs, uid, coll);
    var after := docs - PathSet(uid, coll, ids);
    forall v | v in KeepUnselected(list, ids)
      ensures v in Contents(after, uid, coll)
    {
      assert v in Contents(docs, uid, coll);
      var p :| p in docs && p.uid == uid && p.coll == coll && docs[p] == v;
      assert p !in PathSet(uid, coll, ids);
      assert p in after;
    }
    forall v | v in Contents(after, uid, coll)
      ensures v in KeepUnselected(list, ids)
    {
      var p :| p in after && p.uid == uid && p.coll == coll && after[p] == v;
      assert p.key !in ids by {
        assert p == PathFor(uid, coll, p.key);
      }
      assert v in Contents(docs, uid, coll);
    }
  }

  class VideoModalList {
    /** The overlay's title, which also decides its collection. */
    const title: string
    var selectMode: bool
    var selectedIds: seq<string>
    /** The entry open in the nested detail modal. */
    var selectedVideo: Option<Video>

    constructor (title: string)
      ensures this.title == title && !selectMode && selectedIds == [] && selectedVideo.None?
    {
      this.title := title;
      selectMode := false;
      selectedIds := [];
      selectedVideo := None;
    }

    /** The mode button flips the mode and leaves the selection alone. */
    method ToggleSelectMode()
      modifies this`selectMode
      ensures selectMode == !old(selectMode)
    {
      selectMode := !selectMode;
    }

    method ToggleSelect(video: Video)
      modifies this`selectedIds
      ensures selectedIds == Toggled(old(selectedIds), VideoId(video))
    {
      selectedIds := Toggled(selectedIds, VideoId(video));
    }

    /** A click on an entry: toggles it in select mode, opens it otherwise. */
    method ClickItem(video: Video)
      modifies this`selectedIds, this`selectedVideo
      ensures selectMode ==> selectedIds == Toggled(old(selectedIds), VideoId(video)) && selectedVideo == old(selectedVideo)
      ensures !selectMode ==> selectedIds == old(selectedIds) && selectedVideo == Some(video)
    {
      if selectMode {
        ToggleSelect(video);
      } else {
        selectedVideo := Some(video);
      }
    }

    method CloseVideo()
      modifies this`selectedVideo
      ensures selectedVideo.None?
    {
      selectedVideo := None;
    }

    /** `handleDeleteSelected`: nothing without a user or a selection;
        otherwise one `deleteDoc` per selected key, in order, each awaited.
        The first rejected delete ends the handler (`ok` false) with nothing
        after it issued and the overlay and lists untouched. When all
        succeed, the list the title names is patched, the selection cleared
        and select mode left. */
    method HandleDeleteSelected(app: App, db: Database) returns (ok: bool)
      modifies this`selectedIds, this`selectMode, app`myList, app`history, db
      ensures app.user.None? || old(selectedIds) == [] ==>
        ok && db.docs == old(db.docs) && db.requests == old(db.requests) &&
        selectedIds == old(selectedIds) && selectMode == old(selectMode) &&
        app.myList == old(app.myList) && app.history == old(app.history)
      ensures app.user.Some? && old(selectedIds) != [] ==>
        var uid := app.user.value.uid;
        var coll := TargetFor(title);
        var ids := old(selectedIds);
        var n := AcceptedPrefix(uid, coll, ids, db.rejects);
        (ok <==> n == |ids|) &&
        db.docs == old(db.docs) - PathSet(uid, coll, ids[..n]) &&
        db.requests == old(db.requests) + DeleteRequests(uid, coll, if ok then ids else ids[..n + 1]) &&
        (ok ==> selectedIds == [] && !selectMode) &&
        (!ok ==> selectedIds == ids && selectMode == old(selectMode)) &&
        app.history == (if ok && title == HistoryTitle then KeepUnselected(old(app.history), ids) else old(app.history)) &&
        app.myList == (if ok && title == MyListTitle then KeepUnselected(old(app.myList), ids) else old(app.myList))
    {
      if app.user.None? || selectedIds == [] {
        return true;
      }
      var uid := app.user.value.uid;
      var coll := TargetFor(title);
      var ids := selectedIds;
      ghost var n := AcceptedPrefix(uid, coll, ids, db.rejects);
      var i := 0;
      while i < |ids|
        invariant 0 <= i <= n
        invariant db.docs == old(db.docs) - PathSet(uid, coll, ids[..i])
        invariant db.requests == old(db.requests) + DeleteRequests(uid, coll, ids[..i])
        invariant selectedIds == ids && selectMode == old(selectMode)
        invariant app.myList == old(app.myList) && app.history == old(app.history) && app.user == old(app.user)
      {
        assert ids[..i + 1] == ids[..i] + [ids[i]];
        DeleteRequestsAppend(uid, coll, ids[..i], [ids[i]]);
        assert PathSet(uid, coll, ids[..i + 1]) == PathSet(uid, coll, ids[..i]) + {PathFor(uid, coll, ids[i])};
        var deleted := db.DeleteDoc(PathFor(uid, coll, ids[i]));
        if !deleted {
          assert i == n;
          return false;
        }
        i := i + 1;
      }
      assert ids[..i] == ids;
      if title == HistoryTitle {
        app.history := KeepUnselected(app.history, ids);
      }
      if title == MyListTitle {
        app.myList := KeepUnselected(app.myList, ids);
      }
      selectedIds := [];
      selectMode := false;
      ok := true;
    }
  }
}
