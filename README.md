# E-FLIX client logic in Dafny

E-FLIX is a React single-page client: a signed-in user from one allowed
e-mail domain browses a catalog of lecture videos stored on Google Drive.
They can filter the catalog by category, open a video in a modal and play
it, keep a personal "my list", and look back at a viewing history. Both
lists live in a per-user document store. This project models the rules
inside the client's single component file, `src/App.jsx`, and proves
properties of them:

- **Thumbnail resolution** (`Thumbnail`). A card shows one of three things, in
  order:
  - the video's own thumbnail, unless it is missing or a placehold.co image;
  - the Drive thumbnail of the file id in its share link;
  - a fixed placeholder.

  The Drive-id regular expression is modelled as a leftmost-first scan. The
  hero banner uses a different rule, modelled separately.
- **The category filter** (`Catalog.FilterByCategory`) and the **document key**
  of a video (`Catalog.VideoId`). The key is `id` when it is truthy, otherwise
  `encodeURIComponent` of the Drive link. `encodeURIComponent` is modelled in
  full in `Uri`: UTF-8, then percent-encoding everything outside the unreserved
  set of section 18.2.6.5 of ECMA-262.
- **The per-user store adapter** (`Store`) over an in-memory document store
  (`Firestore.Database`):
  - the store maps (uid, collection, key) to a video;
  - it logs every write request;
  - it rejects writes to a fixed set of paths, so that the callers' failure
    paths exist.
- **The application controller** (`Application.App`):
  - the auth listener, the user effect, and `fetchVideos` over an abstract
    response;
  - the sign-in domain/error rule, sign-out, and screen routing;
  - the filtered catalog and the hero image;
  - the handlers that open the two list overlays.
- **The video modal** (`Player.VideoModal`): play/reset and add to my-list.
- **The list overlay** (`Browser.VideoModalList`): select mode, the
  toggle-selection rule, and the bulk delete with its abort-at-first-failure
  loop and list patch.

JavaScript conventions are explicit in `Js`:
- a member that is `undefined` or `null` is `None` wherever the client only
  tests it for truthiness;
- the Drive link, which the client also converts to a string, keeps the two
  apart (`Nullable`): `String(undefined)` is `"undefined"` and `String(null)`
  is `"null"`;
- the empty string is falsy.

Integers are unbounded. Time is an input natural number: the `seconds` of a
Firestore timestamp.

Four facts about the code are easy to misread; the model keeps each as written:
- The select-mode button (src/App.jsx:871) does not clear the selection.
- `handleDeleteSelected` awaits each delete in turn. A rejected delete ends
  the handler, so the later ids are never deleted and no local state
  changes.
- `handlePlay` awaits the history write without a `try`. A rejected write
  leaves `isPlaying` as it was.
- `deleteAllHistory` is defined but never called from the UI; it is modelled
  anyway.

## Model

| member | source | states |
|---|---|---|
| Js.Includes | src/App.jsx:58 | `s.includes(sub)` is true exactly when `sub` occurs in `s` at some index |
| Js.FilterHead | src/App.jsx:636 | the first element of a filtered sequence is the first element that passes |
| Js.Filter | src/App.jsx:636 | `Array.prototype.filter`: each element kept as often as in the input exactly when it passes the predicate, in the input's order (a subsequence), never longer |
| Uri.Utf8 | src/App.jsx:770 | the UTF-8 encoding of a character has 1 to 4 octets, as many as its first octet announces |
| Uri.Utf8RoundTrip | src/App.jsx:770 | decoding the UTF-8 octets of a character gives back its scalar value |
| Uri.Utf8Injective | src/App.jsx:770 | distinct characters have distinct UTF-8 encodings |
| Uri.PercentBytes | src/App.jsx:770 | percent-encoding octets gives three characters per octet, each `%` or an unreserved character |
| Uri.PercentBytesInjective | src/App.jsx:770 | distinct octet sequences have distinct percent-encodings |
| Uri.EncodeChar | src/App.jsx:770 | an unreserved character stands for itself; any other is replaced by text beginning with `%`, made only of `%` and unreserved characters |
| Uri.EncodeCharPrefixFree | src/App.jsx:770 | no character's encoding is a prefix of another's: equal concatenations determine the character and the rest |
| Uri.EncodeURIComponent | src/App.jsx:769-770 | the encoding is at least as long as its input and contains only unreserved characters and `%`, hence no `/` |
| Uri.EncodeInjective | src/App.jsx:769-770 | distinct strings have distinct encodings, so the encoding can serve as a document key |
| Uri.EncodeUnreservedIsIdentity | src/App.jsx:770 | a string of unreserved characters is its own encoding |
| Uri.EncodeAppend | src/App.jsx:770 | the encoding of a concatenation is the concatenation of the encodings |
| Uri.EncodeSlashExample | src/App.jsx:769-770 | the separators of a Drive link are escaped: `/d/` encodes to `%2Fd%2F` |
| Catalog.VideoId | src/App.jsx:770 | the key is the id when it is truthy (then non-empty); otherwise it is the encoding of the link as a string (a missing link reads "undefined", a null one "null") and has no `/` |
| Catalog.VideoIdFromLinkInjective | src/App.jsx:824 | two videos without an id share a key only when their links agree as strings |
| Catalog.NullLinkKeys | src/App.jsx:770 | without an id, a missing link is keyed "undefined" and a null link "null", so the two differ, while a null link and the literal link "null" share a key |
| Catalog.FirstsOfFilter | src/App.jsx:633-636 | the filtered catalog is non-empty exactly when some video is in the category, and then it starts with the first such video |
| Catalog.FilterByCategory | src/App.jsx:633-636 | the sentinel "すべて" returns the catalog unchanged; any other selector yields a subsequence holding each video exactly as often as the catalog when its `category \|\| ''` equals the selector, and none otherwise; for a non-empty selector every kept video has that category |
| Catalog.FilterByCategoryIdempotent | src/App.jsx:633-636 | filtering the filtered catalog by the same category changes nothing |
| Catalog.UncategorisedOnlyUnderAll | src/App.jsx:636 | a video with a missing or empty category is not shown under any non-empty selector but the sentinel |
| Catalog.FilterExample | src/App.jsx:633-636 | with categories LLM and ML, selecting ML keeps only the second video |
| Thumbnail.FindMarker | src/App.jsx:44 | the first index from `i` where `/d/` followed by a character other than `/` starts, or none when there is no such index |
| Thumbnail.RunEnd | src/App.jsx:44 | the end of the longest run of characters other than `/`, which is the string's end or a `/` |
| Thumbnail.ExtractDriveId | src/App.jsx:42-46 | null exactly for a falsy link or a link where the pattern matches nowhere; otherwise the group captured at the leftmost match: non-empty, free of `/`, ended by `/` or the end of the link |
| Thumbnail.CaptureUnique | src/App.jsx:44 | the leftmost match and its capture are determined by the link |
| Thumbnail.DriveThumbnailUrl | src/App.jsx:48-52 | null exactly for a falsy id; otherwise the URL starts with the thumbnail endpoint, ends with `&sz=w300`, and the id can be read back between them |
| Thumbnail.ThumbnailFor | src/App.jsx:54-70 | null exactly for a null video; a truthy thumbnail without "placehold.co" is returned as it is; otherwise the Drive thumbnail of the extracted id, or the fixed fallback when there is none |
| Thumbnail.ThumbnailOfSharedLink | src/App.jsx:42-70 | a video without a thumbnail and a link `https://drive.google.com/file/d/<id>/view` gets the Drive thumbnail of that id |
| Thumbnail.HeroBackground | src/App.jsx:678-682 | the hero uses a thumbnail that starts with "http" as it is (placehold.co included); otherwise the Drive thumbnail URL of the link's id, or null when there is no id |
| Thumbnail.HeroVersusCard | src/App.jsx:58-66 | hero and card agree on a non-placeholder http thumbnail, and on a video without a thumbnail whose link has a Drive id; without a thumbnail or id the hero shows nothing where the card shows the fallback; the hero keeps a placehold.co http thumbnail the card skips; a truthy non-http, non-placeholder thumbnail is kept by the card while the hero shows the Drive image or null |
| Firestore.Database.SetDoc | src/App.jsx:772 | `setDoc` logs one set request; it succeeds exactly when the path is not rejected, and then (only then) the document at the path is replaced |
| Firestore.Database.DeleteDoc | src/App.jsx:839 | `deleteDoc` logs one delete request; it succeeds exactly when the path is not rejected, and then (only then) the path is removed |
| Firestore.Database.GetDocs | src/App.jsx:777-778 | `getDocs` lists every document of the user's collection once, with its data, in an unspecified order |
| Store.AddToMyList | src/App.jsx:767-773 | no write without a user; otherwise exactly one set of the video at its key in the user's my-list, which changes the store only when accepted |
| Store.AddToHistory | src/App.jsx:792-801 | no write without a user; otherwise exactly one set of the video stamped with the play time at its key in the user's history |
| Store.UpsertTouchesOnlyItsKey | src/App.jsx:770-772 | an upsert leaves every other path (other keys, the other collection, other users) as it was |
| Store.RepeatedAddKeepsOneEntry | src/App.jsx:767-773 | adding the same video twice is the second write alone, and leaves one entry for its key |
| Store.ReplayKeepsLatestView | src/App.jsx:792-801 | replaying a video leaves one history entry for it, stamped with the later time |
| Store.FetchMyList | src/App.jsx:775-780 | `[]` without a user; otherwise the data of a snapshot of the user's my-list, one entry per key |
| Store.StepwiseIsDescending | src/App.jsx:789 | a list where each entry is at least as recent as the next is most-recent-first throughout |
| Store.InsertByViewed | src/App.jsx:789 | inserting into a most-recent-first list adds exactly that entry and keeps the order |
| Store.SortByViewedDesc | src/App.jsx:787-789 | the sort is a permutation of its input, most recent first, a missing `viewedAt` counting as 0 |
| Store.FetchHistory | src/App.jsx:782-790 | `[]` without a user; otherwise a permutation of a snapshot of the user's history, most recent first |
| Store.DeleteAllHistory | src/App.jsx:803-813 | nothing without a user; otherwise as many delete requests as history keys, each in the user's history, whose keys are exactly the history keys; every accepted one removed and nothing else; success exactly when no history path is rejected; `onDeleted` runs exactly then |
| Store.WritesKeepWellKeyed | src/App.jsx:767-800 | both writes keep every document of the collection at its own video's key (a stamp does not change the key) |
| Store.ListingHoldsContents | src/App.jsx:778-779 | a fetched listing holds exactly the data of the user's collection |
| Application.DomainAllowed | src/App.jsx:550 | an e-mail passes exactly when it is truthy and is some local text followed by the configured domain (read as "undefined" when unset) |
| Application.LookalikeDomainPasses | src/App.jsx:550 | the suffix check has no `@`: `eve@evil-example.com` passes for `example.com`; a foreign domain fails; an empty e-mail fails |
| Application.ErrorForCode | src/App.jsx:560-571 | the three known provider codes map to their messages, every other code to the generic one |
| Application.FetchedVideos | src/App.jsx:521-533 | a catalog is delivered exactly for a response with status 200-299 whose body is a JSON array; that array is the catalog |
| Application.App.constructor | src/App.jsx:488-504 | every hook's initial value: no user, category "すべて", loading, intro shown, empty lists |
| Application.App.CurrentScreen | src/App.jsx:617-630 | loading while loading without a user, login without a user, then the intro while it is shown, else the main screen |
| Application.App.FilteredVideos | src/App.jsx:633-636 | the catalog under the selected category: all of it for "すべて", otherwise only videos of that category |
| Application.App.HeroImage | src/App.jsx:674-682 | a hero is shown exactly when some video of the catalog is in the selected category, and its image is the hero image of the first such video |
| Application.App.OnAuthStateChanged | src/App.jsx:507-514 | the listener stores the user, ends loading, and re-shows the intro when a user arrives |
| Application.App.UserEffect | src/App.jsx:589-598 | with a user the catalog request starts (loading, no error); without one the catalog is cleared |
| Application.App.StartFetch | src/App.jsx:517-519 | `fetchVideos` sets loading and clears the error before requesting |
| Application.App.FinishFetch | src/App.jsx:520-540 | on a delivered catalog it is stored; on any failure the error is raised and the old catalog kept; loading ends either way |
| Application.App.HandleLogin | src/App.jsx:545-574 | a user is kept exactly when the popup produced one whose e-mail passes the domain check; a rejected user gets the domain message (or the generic path when signing them out fails); a provider error gets its code's message; no user otherwise |
| Application.App.HandleLogout | src/App.jsx:576-585 | a successful sign-out clears the user and the error and re-arms the intro; a failed one changes nothing |
| Application.App.EndIntro | src/App.jsx:629 | the intro's end hides it |
| Application.App.SelectCategory | src/App.jsx:652 | the header menu sets the selected category |
| Application.App.OpenModal | src/App.jsx:639-641 | opening a video selects it for the modal |
| Application.App.CloseModal | src/App.jsx:643-645 | closing the modal clears the selection |
| Application.App.HandleShowMyList | src/App.jsx:601-606 | nothing without a user; otherwise the my-list is loaded and its overlay opened |
| Application.App.HandleShowHistory | src/App.jsx:608-613 | nothing without a user; otherwise the history is loaded most recent first and its overlay opened |
| Application.App.CloseMyList | src/App.jsx:745 | the my-list overlay's close button hides it |
| Application.App.CloseHistory | src/App.jsx:754 | the history overlay's close button hides it |
| Application.SignInScenario | src/App.jsx:545-559 | once the listener reports no session the login screen shows; signing in there with an e-mail that fails the domain check keeps the login screen with the domain message |
| Player.VideoModal.constructor | src/App.jsx:78-80 | a modal starts neither playing nor adding |
| Player.VideoModal.CurrentStage | src/App.jsx:102-133 | nothing without a video, the play button before play, then a frame over the video's Drive link |
| Player.VideoModal.SetVideo | src/App.jsx:83-85 | a different video puts the play button back; the same one keeps the state |
| Player.VideoModal.HandlePlay | src/App.jsx:87-92 | without a user it plays without writing; with one it issues exactly one history write and plays only once that write succeeds |
| Player.ReopenScenario | src/App.jsx:83-92 | playing a video without a user shows its frame; switching to another video shows the play button; a signed-in play leaves exactly one stamped history entry |
| Player.VideoModal.HandleAddToMyList | src/App.jsx:94-100 | nothing without a user; otherwise one my-list write, with the busy flag lowered (and the confirmation shown) exactly when it succeeds |
| Browser.TargetFor | src/App.jsx:837 | the history title deletes from history, any other title from my-list |
| Browser.Toggled | src/App.jsx:827-832 | the toggled key's membership flips and every other key's is unchanged; a dropped key leaves a subsequence with every other key as often as before, an added one is appended; a duplicate-free selection stays duplicate-free |
| Browser.ToggleTwice | src/App.jsx:827-832 | toggling a key twice restores membership of every key, and restores the selection itself when the key was not selected |
| Browser.ToggleTwiceExact | src/App.jsx:827-832 | toggling twice gives back the very selection exactly when the key was not selected or was selected once as the last key, because a selected key is dropped and then appended at the end |
| Browser.KeepUnselected | src/App.jsx:842-847 | the patched list keeps, in order, exactly the entries whose key is not selected, each as often as before |
| Browser.DeleteRequestsAppend | src/App.jsx:838-840 | the requests for two runs of keys are those of the first run followed by those of the second |
| Browser.AcceptedPrefix | src/App.jsx:838-840 | the number of leading keys whose delete is accepted: all before it accepted, the one at it rejected |
| Browser.PatchMatchesStore | src/App.jsx:838-847 | after all deletes succeed, the patched list holds exactly the data left in the collection |
| Browser.VideoModalList.constructor | src/App.jsx:819-821 | an overlay starts outside select mode with nothing selected and no video open |
| Browser.VideoModalList.ToggleSelectMode | src/App.jsx:871 | the mode button flips select mode and leaves the selection as it is |
| Browser.VideoModalList.ToggleSelect | src/App.jsx:827-832 | the checkbox toggles the entry's key |
| Browser.VideoModalList.ClickItem | src/App.jsx:895 | a click toggles the entry in select mode and opens it otherwise |
| Browser.VideoModalList.CloseVideo | src/App.jsx:929 | closing the nested modal clears the open entry |
| Browser.VideoModalList.HandleDeleteSelected | src/App.jsx:835-850 | nothing without a user or a selection; otherwise deletes are issued in order up to and including the first rejected one; exactly the accepted keys are removed; only when all succeed is the titled list patched, the selection cleared and select mode left |

## Left out

- Rendering (JSX, styles, keyframes), the hidden debug block, card keys and `alert` are presentation. `Player.VideoModal.HandleAddToMyList` returns `ok` where the confirmation would be shown.
- Firebase initialisation and environment configuration are left out. The allowed domain is the constructor parameter of `Application.App`. Sign-in, sign-out and auth-state events become method parameters. The document store is the in-memory `Firestore.Database`.
- `fetch` and `response.json()` are network I/O. Their outcome is the `FetchResult` parameter of `Application.App.FinishFetch`.
- Application.App.FinishFetch: a body that is neither an array nor an object with a truthy `error` is not represented. The source would store such a body as the catalog.
- The intro's timer and the sign-in sound are timers and side effects. `Application.App.EndIntro` stands for the timer firing.
- `new Date()` and the formatting of the viewing time are wall-clock I/O. The time is the `now` parameter.
- Asynchronous interleaving is not modelled. Every handler runs to completion in one step. `Promise.all` in `Store.DeleteAllHistory` is modelled as issuing every delete and failing if any fails.
- A failing `getDocs` is left out: `Store.FetchMyList`, `Store.FetchHistory` and `Store.DeleteAllHistory` assume the listing succeeds. A failed `signOut` is modelled, by `Application.App.HandleLogout` with `signedOut` false and by `Application.App.HandleLogin`'s `signOutError`; only its console logging is dropped.
- `VideoCard`'s own "add to my list" button (src/App.jsx:175-182) follows the same rule as `Player.VideoModal.HandleAddToMyList`. It is not modelled separately.
- The unused search term (src/App.jsx:492) has no effect on any rule.
- An empty document key makes the store throw. This case is not modelled.
- Catalog.VideoId: a truthy `id` becomes the document id unchecked. An id containing `/`, or equal to `.` or `..`, addresses another path in the real store: an error for an odd number of segments, or a document in a sub-collection that `getDocs` on the collection does not list. The model stores every key as one flat key of the collection, so `Store.FetchMyList` and `Store.FetchHistory` list such a document.
- The delete button is shown only in select mode with a non-empty selection (src/App.jsx:876). That visibility is presentation. `Browser.VideoModalList.HandleDeleteSelected` models the handler the button calls, which itself checks only the user and the selection.
- Uri.EncodeURIComponent: lone surrogates, which make JavaScript throw a URIError, cannot occur, because Dafny characters are Unicode scalar values.
- Player.VideoModal.SetVideo: React compares the `video` prop by object identity. The model compares by value, so passing an equal copy of the same video does not reset the player here.
- Store.SortByViewedDesc: the contract states order and permutation only, not that ties keep snapshot order.
- The hero's second argument to `getDriveThumbnailUrl` (800) is ignored by that function, so the hero also uses `w300`.
