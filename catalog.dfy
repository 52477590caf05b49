/** The catalog's unit, the video record, with the identity used for my-list
    and history documents, and the category filter of the main screen. */
module Catalog {
  import opened Js
  import Uri

  /** A video record as the catalog endpoint and the document store hold it.
      `viewedAt` is the `seconds` part of the timestamp a history entry
      carries; catalog records normally have none. */
  datatype Video = Video(
    id: Option<string>,
    title: string,
    summary: string,
    description: Option<string>,
    category: Option<string>,
    driveLink: Nullable,
    thumbnail: Option<string>,
    viewedAt: Option<nat>)

  /** `video.id || encodeURIComponent(video.driveLink)`: the document id of a
      video in my-list and history, and the key the list overlay selects by. */
  function VideoId(v: Video): (key: string)
    ensures !Truthy(v.id) ==> key == Uri.EncodeURIComponent(NullableToString(v.driveLink))
    ensures !Truthy(v.id) ==> '/' !in key
    ensures Truthy(v.id) ==> key == v.id.value && key != ""
  {
    if Truthy(v.id) then v.id.value else Uri.EncodeURIComponent(NullableToString(v.driveLink))
  }

  /** Two videos without an id share a key only when their Drive links agree
      as strings; a missing link reads "undefined" and a null one "null". */
  lemma VideoIdFromLinkInjective(v: Video, w: Video)
    requires !Truthy(v.id) && !Truthy(w.id)
    requires VideoId(v) == VideoId(w)
    ensures NullableToString(v.driveLink) == NullableToString(w.driveLink)
  {
    Uri.EncodeInjective(NullableToString(v.driveLink), NullableToString(w.driveLink));
  }

  /** Without an id, a video whose link is missing and one whose link is
      null get different keys, while a null link and the literal link "null"
      share one. */
  lemma NullLinkKeys(v: Video, w: Video, x: Video)
    requires !Truthy(v.id) && !Truthy(w.id) && !Truthy(x.id)
    requires v.driveLink == Undefined && w.driveLink == Null && x.driveLink == Str("null")
    ensures VideoId(v) == "undefined" && VideoId(w) == "null"
    ensures VideoId(v) != VideoId(w) && VideoId(w) == VideoId(x)
  {
    var u, n := "undefined", "null";
    assert forall i :: 0 <= i < |u| ==> 'a' <= u[i] <= 'z';
    assert forall i :: 0 <= i < |n| ==> 'a' <= n[i] <= 'z';
    Uri.EncodeUnreservedIsIdentity(u);
    Uri.EncodeUnreservedIsIdentity(n);
    assert u != n;
  }

  /** The sentinel of the category menu that selects every video. */
  const AllCategories: string := "すべて"

  /** `video.category || ''` */
  function CategoryOf(v: Video): string {
    if Truthy(v.category) then v.category.value else ""
  }

  /** The videos the main screen shows for the selected category: all of them
      for the sentinel, otherwise those whose category equals the selector, in
      catalog order. */
  function FilterByCategory(videos: seq<Video>, selected: string): (r: seq<Video>)
    ensures selected == AllCategories ==> r == videos
    ensures selected != AllCategories ==> IsSubsequence(r, videos)
    ensures selected != AllCategories ==>
      forall v :: multiset(r)[v] == if CategoryOf(v) == selected then multiset(videos)[v] else 0
    ensures selected != AllCategories && selected != "" ==>
      forall i :: 0 <= i < |r| ==> Truthy(r[i].category) && r[i].category.value == selected
  {
    if selected == AllCategories then videos
    else
      var r := Filter(videos, v => CategoryOf(v) == selected);
      assert forall i :: 0 <= i < |r| ==> r[i] in r;
      r
  }

  /** Whether the menu's selection shows a video. */
  predicate InCategory(v: Video, selected: string) {
    selected == AllCategories || CategoryOf(v) == selected
  }

  /** The filter shows something exactly when some video is in the category,
      and then it starts with the first such video. */
  lemma FirstsOfFilter(videos: seq<Video>, selected: string)
    ensures FilterByCategory(videos, selected) != [] <==>
      exists i :: 0 <= i < |videos| && InCategory(videos[i], selected)
    ensures forall k ::
      (0 <= k < |videos| && InCategory(videos[k], selected) &&
       forall j :: 0 <= j < k ==> !InCategory(videos[j], selected)) ==>
      FilterByCategory(videos, selected) != [] && FilterByCategory(videos, selected)[0] == videos[k]
  {
    var r := FilterByCategory(videos, selected);
    forall k | 0 <= k < |videos| && InCategory(videos[k], selected) &&
      (forall j :: 0 <= j < k ==> !InCategory(videos[j], selected))
      ensures r != [] && r[0] == videos[k]
    {
      if selected != AllCategories {
        FilterHead(videos, v => CategoryOf(v) == selected, k);
      }
    }
    if r != [] {
      if selected == AllCategories {
        assert InCategory(videos[0], selected);
      } else {
        assert multiset(r)[r[0]] > 0;
        assert r[0] in videos;
        var i :| 0 <= i < |videos| && videos[i] == r[0];
        assert InCategory(videos[i], selected);
      }
    }
  }

  /** Filtering an already filtered list by the same category changes nothing. */
  lemma FilterByCategoryIdempotent(videos: seq<Video>, selected: string)
    ensures FilterByCategory(FilterByCategory(videos, selected), selected) == FilterByCategory(videos, selected)
  {
    if selected != AllCategories {
      FilterIdempotent(videos, v => CategoryOf(v) == selected);
    }
  }

  /** A video whose category is missing or empty is shown only under the
      sentinel (or the empty selector, which the menu never offers). */
  lemma UncategorisedOnlyUnderAll(videos: seq<Video>, selected: string, v: Video)
    requires !Truthy(v.category) && selected != AllCategories && selected != ""
    ensures v !in FilterByCategory(videos, selected)
  {
    assert multiset(FilterByCategory(videos, selected))[v] == 0;
  }

  /** The two-video example: selecting "ML" keeps only the second video. */
  lemma FilterExample(a: Video, b: Video)
    requires a.category == Some("LLM") && b.category == Some("ML")
    ensures FilterByCategory([a, b], "ML") == [b]
  {
    assert [a, b][1..] == [b];
    assert [b][1..] == [];
  }
}
