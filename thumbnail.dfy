/** Thumbnail resolution: the image URL a card, the list overlay and the hero
    banner show for a video. */
module Thumbnail {
  import opened Js
  import opened Catalog

  const DriveThumbnailPrefix: string := "https://drive.google.com/thumbnail?id="
  const DriveThumbnailSuffix: string := "&sz=w300"
  const FallbackThumbnail: string := "https://placehold.co/300x168/20232a/E50914?text=E-FLIX+THUMBNAIL"
  const PlaceholderHost: string := "placehold.co"

  /** The regular expression `/\/d\/([^/]+)/` can match at index `i`: "/d/"
      starts there and is followed by at least one character other than '/'. */
  predicate MarkerAt(s: string, i: int) {
    0 <= i && i + 3 < |s| && s[i..i + 3] == "/d/" && s[i + 3] != '/'
  }

  /** `i` is where the (leftmost-first) regular expression matches. */
  ghost predicate LeftmostMarker(s: string, i: int) {
    MarkerAt(s, i) && forall j :: 0 <= j < i ==> !MarkerAt(s, j)
  }

  /** `id` is the group captured by a match at `i`: the longest run of
      characters other than '/' after the marker. */
  ghost predicate CapturedAt(s: string, i: int, id: string) {
    var k := i + 3;
    0 <= i && k + |id| <= |s| && s[k..k + |id|] == id &&
    id != "" && '/' !in id && (k + |id| == |s| || s[k + |id|] == '/')
  }

  /** The first index at or after `i` where the pattern matches. */
  function FindMarker(s: string, i: nat): (r: Option<nat>)
    requires i <= |s|
    ensures r.None? ==> forall j :: i <= j ==> !MarkerAt(s, j)
    ensures r.Some? ==> i <= r.value && MarkerAt(s, r.value) && forall j :: i <= j < r.value ==> !MarkerAt(s, j)
    decreases |s| - i
  {
    if i + 3 >= |s| then None
    else if MarkerAt(s, i) then Some(i)
    else FindMarker(s, i + 1)
  }

  /** Where the run of characters other than '/' that starts at `k` ends. */
  function RunEnd(s: string, k: nat): (e: nat)
    requires k <= |s|
    ensures k <= e <= |s| && (e == |s| || s[e] == '/')
    ensures forall j :: k <= j < e ==> s[j] != '/'
    decreases |s| - k
  {
    if k == |s| || s[k] == '/' then k else RunEnd(s, k + 1)
  }

  /** `extractDriveId(driveLink)`: the Drive file id of a link, or null. */
  function ExtractDriveId(link: Option<string>): (r: Option<string>)
    ensures r.None? <==> !Truthy(link) || forall i :: !MarkerAt(link.value, i)
    ensures r.Some? ==> exists i :: LeftmostMarker(link.value, i) && CapturedAt(link.value, i, r.value)
    ensures r.Some? ==> r.value != "" && '/' !in r.value
  {
    if !Truthy(link) then None
    else
      var s := link.value;
      match FindMarker(s, 0)
      case None => None
      case Some(i) =>
        var e := RunEnd(s, i + 3);
        var id := s[i + 3..e];
        assert forall t :: 0 <= t < |id| ==> id[t] == s[i + 3 + t];
        assert LeftmostMarker(s, i) && CapturedAt(s, i, id);
        Some(id)
  }

  /** The match the pattern finds is unique: the capture is determined by the link. */
  lemma CaptureUnique(s: string, i: int, id: string, i': int, id': string)
    requires LeftmostMarker(s, i) && CapturedAt(s, i, id)
    requires LeftmostMarker(s, i') && CapturedAt(s, i', id')
    ensures i == i' && id == id'
  {
    assert i == i';
  }

  /** `getDriveThumbnailUrl(fileId)`: a Drive thumbnail URL 300 pixels wide,
      or null when there is no id. */
  function DriveThumbnailUrl(fileId: Option<string>): (r: Option<string>)
    ensures r.Some? <==> Truthy(fileId)
    ensures r.Some? ==>
      |r.value| == |DriveThumbnailPrefix| + |fileId.value| + |DriveThumbnailSuffix| &&
      StartsWith(r.value, DriveThumbnailPrefix) && EndsWith(r.value, DriveThumbnailSuffix) &&
      r.value[|DriveThumbnailPrefix|..|r.value| - |DriveThumbnailSuffix|] == fileId.value
  {
    if !Truthy(fileId) then None
    else
      var url := DriveThumbnailPrefix + fileId.value + DriveThumbnailSuffix;
      assert url[..|DriveThumbnailPrefix|] == DriveThumbnailPrefix;
      assert url[|url| - |DriveThumbnailSuffix|..] == DriveThumbnailSuffix;
      assert url[|DriveThumbnailPrefix|..|url| - |DriveThumbnailSuffix|] == fileId.value;
      Some(url)
  }

  /** `thumbnailFor(video)`: the supplied thumbnail unless it is missing or a
      placehold.co image, else the Drive thumbnail of the link, else the
      fixed fallback image. */
  function ThumbnailFor(video: Option<Video>): (r: Option<string>)
    ensures r.None? <==> video.None?
    ensures video.Some? && Truthy(video.value.thumbnail) && !HasSubstring(video.value.thumbnail.value, PlaceholderHost) ==>
      r == video.value.thumbnail
    ensures video.Some? && !(Truthy(video.value.thumbnail) && !HasSubstring(video.value.thumbnail.value, PlaceholderHost)) ==>
      if ExtractDriveId(Loose(video.value.driveLink)).Some?
      then r == Some(DriveThumbnailPrefix + ExtractDriveId(Loose(video.value.driveLink)).value + DriveThumbnailSuffix)
      else r == Some(FallbackThumbnail)
  {
    if video.None? then None
    else
      var v := video.value;
      if Truthy(v.thumbnail) && !Includes(v.thumbnail.value, PlaceholderHost) then v.thumbnail
      else
        var id := ExtractDriveId(Loose(v.driveLink));
        if id.Some? then DriveThumbnailUrl(id) else Some(FallbackThumbnail)
  }

  /** A shared Drive link of the usual form gives the thumbnail of its file id. */
  lemma ThumbnailOfSharedLink(v: Video, fileId: string)
    requires !Truthy(v.thumbnail)
    requires fileId != "" && '/' !in fileId
    requires v.driveLink == Str("https://drive.google.com/file/d/" + fileId + "/view")
    ensures ThumbnailFor(Some(v)) == Some(DriveThumbnailPrefix + fileId + DriveThumbnailSuffix)
  {
    var s := v.driveLink.value;
    var head := "https://drive.google.com/file";
    assert |head| == 29;
    assert s[..29] == head;
    assert s[29..32] == "/d/";
    assert s[32..32 + |fileId|] == fileId;
    assert s[32 + |fileId|] == '/';
    forall j | 0 <= j < 29
      ensures !MarkerAt(s, j)
    {
      assert s[j..j + 3][0] == s[j] && s[j..j + 3][1] == s[j + 1] && s[j..j + 3][2] == s[j + 2];
      assert s[j] == head[j];
      assert head[j] == '/' ==> j == 6 || j == 7 || j == 24;
      assert s[7] == '/' && s[9] == 'r' && s[25] == 'f';
    }
    assert fileId[0] == s[32];
    assert LeftmostMarker(s, 29);
    assert forall t :: 0 <= t < |fileId| ==> fileId[t] == s[32 + t];
    assert CapturedAt(s, 29, fileId);
    var id := ExtractDriveId(Loose(v.driveLink));
    var i :| LeftmostMarker(s, i) && CapturedAt(s, i, id.value);
    CaptureUnique(s, i, id.value, 29, fileId);
  }

  /** The hero banner's image rule: a thumbnail starting with "http" is used
      as it is (placehold.co or not), otherwise the Drive thumbnail or null. */
  function HeroBackground(v: Video): (r: Option<string>)
    ensures Truthy(v.thumbnail) && StartsWith(v.thumbnail.value, "http") ==> r == v.thumbnail
    ensures !(Truthy(v.thumbnail) && StartsWith(v.thumbnail.value, "http")) ==>
      r == if ExtractDriveId(Loose(v.driveLink)).Some?
           then Some(DriveThumbnailPrefix + ExtractDriveId(Loose(v.driveLink)).value + DriveThumbnailSuffix)
           else None
  {
    if Truthy(v.thumbnail) && StartsWith(v.thumbnail.value, "http") then v.thumbnail
    else
      DriveThumbnailUrl(ExtractDriveId(Loose(v.driveLink)))
  }

  /** Where the hero banner and the card agree, and where they part: the
      hero shows a placehold.co thumbnail the card skips, shows nothing
      where the card falls back to the fixed image, and skips a thumbnail
      not starting with "http" that the card keeps. */
  lemma HeroVersusCard(v: Video)
    ensures Truthy(v.thumbnail) && StartsWith(v.thumbnail.value, "http") && !HasSubstring(v.thumbnail.value, PlaceholderHost) ==>
      HeroBackground(v) == ThumbnailFor(Some(v))
    ensures !Truthy(v.thumbnail) ==>
      if ExtractDriveId(Loose(v.driveLink)).Some? then HeroBackground(v) == ThumbnailFor(Some(v))
      else HeroBackground(v).None? && ThumbnailFor(Some(v)) == Some(FallbackThumbnail)
    ensures Truthy(v.thumbnail) && StartsWith(v.thumbnail.value, "http") && HasSubstring(v.thumbnail.value, PlaceholderHost) ==>
      HeroBackground(v) == v.thumbnail
    ensures Truthy(v.thumbnail) && !StartsWith(v.thumbnail.value, "http") && !HasSubstring(v.thumbnail.value, PlaceholderHost) ==>
      ThumbnailFor(Some(v)) == v.thumbnail &&
      HeroBackground(v) == DriveThumbnailUrl(ExtractDriveId(Loose(v.driveLink)))
  {
  }
}
