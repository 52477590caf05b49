/** The video detail modal (`VideoModal`): its play state and its two
    actions, play and add to my-list. */
module Player {
  import opened Js
  import opened Catalog
  import opened Firestore
  import opened Store

  /** What the modal's video area shows. */
  datatype Stage = Hidden | PlayButton | Frame(src: Nullable)

  class VideoModal {
    /** The `video` prop; the modal renders nothing without one. */
    var video: Option<Video>
    var isPlaying: bool
    var isAdding: bool

    constructor (video: Option<Video>)
      ensures this.video == video && !isPlaying && !isAdding
    {
      this.video := video;
      isPlaying := false;
      isAdding := false;
    }

    /** The modal's video area: nothing without a video, the play button
        until play is pressed, then a frame over the video's Drive link. */
    function CurrentStage(): (s: Stage)
      reads this
      ensures s == Hidden <==> video.None?
      ensures s == PlayButton <==> video.Some? && !isPlaying
      ensures s.Frame? ==> video.Some? && isPlaying && s.src == video.value.driveLink
    {
      if video.None? then Hidden
      else if !isPlaying then PlayButton
      else Frame(video.value.driveLink)
    }

    /** A new `video` prop; the effect keyed on it puts the play button back
        whenever it changes. */
    method SetVideo(v: Option<Video>)
      modifies this`video, this`isPlaying
      ensures video == v
      ensures v != old(video) ==> !isPlaying
      ensures v == old(video) ==> isPlaying == old(isPlaying)
    {
      if v != video {
        isPlaying := false;
      }
      video := v;
    }

    /** `handlePlay`: with a user, the play is written to history first and
        the player starts only once that write has succeeded; a rejected
        write leaves the state as it was. */
    method HandlePlay(db: Database, user: Option<User>, now: nat) returns (ok: bool)
      requires video.Some?
      modifies this`isPlaying, db
      ensures user.None? ==> ok && db.docs == old(db.docs) && db.requests == old(db.requests)
      ensures user.Some? ==>
        var p := PathOf(user.value, History, video.value);
        db.requests == old(db.requests) + [SetRequest(p, Stamped(video.value, now))] &&
        (ok <==> p !in db.rejects) &&
        db.docs == if ok then old(db.docs)[p := Stamped(video.value, now)] else old(db.docs)
      ensures isPlaying == (ok || old(isPlaying))
    {
      ok := AddToHistory(db, video.value, user, now);
      if ok {
        isPlaying := true;
      }
    }

    /** `handleAddToMyList`: nothing without a user; otherwise the busy flag
        is raised for the write and lowered when it succeeds, which is also
        when the confirmation is shown (`ok`). A rejected write leaves the
        flag raised. */
    method HandleAddToMyList(db: Database, user: Option<User>) returns (ok: bool)
      requires video.Some?
      modifies this`isAdding, db
      ensures user.None? ==> !ok && isAdding == old(isAdding) && db.docs == old(db.docs) && db.requests == old(db.requests)
      ensures user.Some? ==>
        var p := PathOf(user.value, MyList, video.value);
        db.requests == old(db.requests) + [SetRequest(p, video.value)] &&
        (ok <==> p !in db.rejects) &&
        db.docs == (if ok then old(db.docs)[p := video.value] else old(db.docs)) &&
        isAdding == !ok
    {
      if user.None? {
        return false;
      }
      isAdding := true;
      ok := AddToMyList(db, video.value, user);
      if ok {
        isAdding := false;
      }
    }
  }

  /** Opening a second video after playing the first shows the play button
      again, and a signed-in play of it records exactly one history entry. */
  method ReopenScenario(a: Video, b: Video, u: User, now: nat) returns (first: Stage, reopened: Stage, entries: map<DocPath, Video>)
    requires a != b
    ensures first == Frame(a.driveLink) && reopened == PlayButton
    ensures entries == map[PathOf(u, History, b) := Stamped(b, now)]
  {
    var db := new Database(map[], {});
    var modal := new VideoModal(Some(a));
    var ok := modal.HandlePlay(db, None, now);
    first := modal.CurrentStage();
    modal.SetVideo(Some(b));
    reopened := modal.CurrentStage();
    ok := modal.HandlePlay(db, Some(u), now);
    entries := db.docs;
  }
}
