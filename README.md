# Video player model

A Dafny model of the command-line video player: the `VideoPlayer`
controller and its `VideoPlaylist` list type. The player holds:

- a fixed library of videos;
- the current video, if any, and a paused flag;
- a flag table from video id to reason;
- a name-ordered set of playlists.

Every command becomes a method on the `VideoPlayer` class. It returns an
`Outcome` (`Ok`, `NotFound`, `AlreadyExists`, `InvalidState`, `Flagged`,
`OutOfRange`) instead of printing a message. `OutOfRange` stands for the
`IndexOutOfBoundsException` that ends a search command with nothing changed. Each method changes only the fields its
`modifies` clause names and states the new state completely. The
invariant `Valid()` is set up by the constructor and kept by every
command. It says:

- library ids are distinct;
- the current video is an unflagged library video;
- only library ids are flagged;
- playlist names are strictly ascending and pairwise distinct ignoring case;
- every playlist holds library videos with distinct ids.

Modules:

- `Collections`: `Option` and `RemoveFirst`, the model of `List.remove(Object)`.
- `Text`: ASCII lower-casing, `equalsIgnoreCase`, `contains`, the space
  replacement of flag reasons, and `compareTo` as the strict order `Less`.
- `Videos`: the `Video` value and lookup by id. It also holds the title
  sort, specified as sorted and a permutation, and `Exclude`, the library
  without the flagged videos.
- `Playlist`: the `VideoPlaylist` class, whose list is a field changed in place.
- `Search`: what the title search and tag search collect, and how an
  answer selects a result.
- `Player`: the `VideoPlayer` class and the lemmas its commands use.
- `Session`: client scenarios that rely only on the commands'
  contracts. They play, pause and resume; create a playlist and reject a
  duplicate name and a duplicate video; flag a video and then fail to
  play it; answer 0 to a search prompt as written and end out of range; and
  allow a flagged video as written and still find it flagged.

## Model

| member | source | states |
|---|---|---|
| Collections.RemoveFirst | java/src/main/java/com/google/VideoPlaylist.java:27-29 | List.remove(Object): one element fewer when present; the same list when absent; the multiset loses exactly one copy |
| Collections.RemoveFirstAt | java/src/main/java/com/google/VideoPlaylist.java:27-29 | when the first occurrence is at index i, the result is the prefix before i followed by the suffix after it, so the order of the rest is kept |
| Text.LowerChar | java/src/main/java/com/google/VideoPlayer.java:242 | maps 'A'..'Z' to 'a'..'z' and leaves every other character alone |
| Text.Lower | java/src/main/java/com/google/VideoPlayer.java:242 | keeps the length; the result has no upper-case letter; each upper-case letter becomes its lower-case letter (code + 32); every other character is unchanged |
| Text.EqualsIgnoreCase | java/src/main/java/com/google/VideoPlayer.java:360 | holds exactly when both names have the same length and agree at every index once each character is lower-cased |
| Text.Contains | java/src/main/java/com/google/VideoPlayer.java:242 | String.contains, as used by both searches: the empty term is in every string, and a contained term is no longer than the string; ContainsIff gives the full meaning |
| Text.ContainsIff | java/src/main/java/com/google/VideoPlayer.java:242 | the recursive substring test holds exactly when the term occurs at some index |
| Text.ReplaceSpaces | java/src/main/java/com/google/VideoPlayer.java:337 | same length; no space is left; each space becomes '_'; every other character is kept |
| Text.Less | java/src/main/java/com/google/VideoPlayer.java:20 | compareTo(a, b) < 0, the order of the playlist TreeSet: it never holds of equal strings; LessIff, LessIrreflexive, LessTransitive, LessTotal and LessAsymmetric make it a strict total order of compareTo's definition |
| Text.LessIff | java/src/main/java/com/google/VideoPlayer.java:20 | compareTo's definition: `a` comes first exactly when it is a proper prefix of `b`, or when its character is the smaller at the first index where the two differ |
| Text.LessIrreflexive | java/src/main/java/com/google/VideoPlayer.java:20 | no name is before itself in the compareTo order |
| Text.LessTransitive | java/src/main/java/com/google/VideoPlayer.java:20 | the compareTo order is transitive |
| Text.LessTotal | java/src/main/java/com/google/VideoPlayer.java:20 | any two different names are ordered one way or the other |
| Text.LessAsymmetric | java/src/main/java/com/google/VideoPlayer.java:20 | a before b rules out b before a |
| Text.NotLessTransitive | java/src/main/java/com/google/VideoPlayer.java:33 | "not after" is transitive, the order the title sort relies on |
| Videos.LookupVideo | java/src/main/java/com/google/VideoPlayer.java:378-387 | a found video is in the list with that id; nothing is found exactly when no video has the id |
| Videos.LookupVideoFirst | java/src/main/java/com/google/VideoPlayer.java:378-387 | the lookup returns the first video with the id, as the early-return loop does |
| Videos.LookupVideoUnique | java/src/main/java/com/google/VideoPlayer.java:378-387 | with distinct ids, looking a listed video up by its id finds that video |
| Videos.DistinctWithout | java/src/main/java/com/google/VideoPlaylist.java:27-29 | dropping one element of a list with distinct ids keeps the ids distinct |
| Videos.DistinctAfterRemove | java/src/main/java/com/google/VideoPlayer.java:209 | removing a video from a playlist keeps its ids distinct |
| Videos.TitleLe | java/src/main/java/com/google/VideoPlayer.java:33 | the order of Comparator.comparing(Video::getTitle): `a` may precede `b` unless b's title is smaller; equal titles may come in either order |
| Videos.InsertByTitle | java/src/main/java/com/google/VideoPlayer.java:33 | inserting adds exactly the one video to the multiset |
| Videos.InsertByTitleSorted | java/src/main/java/com/google/VideoPlayer.java:33 | inserting into a title-sorted list keeps it sorted |
| Videos.SortByTitle | java/src/main/java/com/google/VideoPlayer.java:33 | the sorted list is a permutation of the input |
| Videos.SortByTitleSorted | java/src/main/java/com/google/VideoPlayer.java:33 | the sorted list is in non-decreasing title order |
| Videos.ExcludeMembers | java/src/main/java/com/google/VideoPlayer.java:77-80 | the candidates are exactly the videos whose id is not flagged |
| Videos.ExcludeUnaffected | java/src/main/java/com/google/VideoPlayer.java:79 | excluding an id no video carries changes nothing, as remove(null) does |
| Videos.ExcludeHead | java/src/main/java/com/google/VideoPlayer.java:79 | excluding the first video's id drops that video and nothing else |
| Videos.ExcludeStepPast | java/src/main/java/com/google/VideoPlayer.java:79 | a first video with another id stays in front when a later one is removed |
| Videos.ExcludeStep | java/src/main/java/com/google/VideoPlayer.java:77-80 | removing the video of one more flagged id equals excluding that id as well |
| Videos.ExcludeEmpty | java/src/main/java/com/google/VideoPlayer.java:81-84 | no candidate is left exactly when every library video is flagged |
| Search.TitleMatchesMembers | java/src/main/java/com/google/VideoPlayer.java:240-247 | the title results are exactly the unflagged videos whose lower-cased title contains the lower-cased term |
| Search.TitleMatchesCount | java/src/main/java/com/google/VideoPlayer.java:240-247 | a matching video is listed as often as it occurs in the input, any other video never |
| Search.TitleMatchesSorted | java/src/main/java/com/google/VideoPlayer.java:237-247 | a sorted input gives results in non-decreasing title order |
| Search.TitleMatchesPlayable | java/src/main/java/com/google/VideoPlayer.java:240-247 | every title result is an unflagged library video |
| Search.TagCountPositive | java/src/main/java/com/google/VideoPlayer.java:278-284 | a video has a positive count exactly when one of its tags matches |
| Search.RepeatCount | java/src/main/java/com/google/VideoPlayer.java:278-284 | n copies of one video hold that video n times and no other |
| Search.TagMatchesMembers | java/src/main/java/com/google/VideoPlayer.java:276-285 | the tag results are exactly the unflagged videos with a tag containing the term |
| Search.TagMatchesCountStep | java/src/main/java/com/google/VideoPlayer.java:276-285 | one more video in the input adds its matching-tag count to its number of results |
| Search.TagMatchesCount | java/src/main/java/com/google/VideoPlayer.java:276-285 | each video is listed once per matching tag for every time it occurs, so a video with several matching tags repeats |
| Search.TagMatchesSorted | java/src/main/java/com/google/VideoPlayer.java:272-285 | a sorted input gives tag results in non-decreasing title order |
| Search.TagMatchesPlayable | java/src/main/java/com/google/VideoPlayer.java:276-285 | every tag result is an unflagged library video |
| Search.TagMatchesRepeatsVideo | java/src/main/java/com/google/VideoPlayer.java:278-284 | a video tagged "#cat" and "#cats" is listed twice for the term "#cat" |
| Search.SelectionIndex | java/src/main/java/com/google/VideoPlayer.java:260-264 | corrected guard: an answer n picks result n-1 exactly when 1 <= n <= count |
| Search.SelectionIndexAsWritten | java/src/main/java/com/google/VideoPlayer.java:260-264 | the guard as written: no place unless the answer is a 32-bit int; answer n > -2^31 selects n-1 exactly when n-1 < count, negative places included; -2^31 wraps to 2^31-1 |
| Search.AsWrittenSelectsOutOfRange | java/src/main/java/com/google/VideoPlayer.java:261-263 | the written guard turns every answer n with -2^31 < n <= 0 into the negative place n-1, whatever the count; the corrected guard selects nothing for it |
| Search.SelectionAgreesInRange | java/src/main/java/com/google/VideoPlayer.java:261-263 | for answers from 1 to the count, both guards select result n-1 |
| Playlist.VideoPlaylist.constructor | java/src/main/java/com/google/VideoPlaylist.java:9-17 | a new playlist has the given name, a constant, and no videos |
| Playlist.VideoPlaylist.GetVideos | java/src/main/java/com/google/VideoPlaylist.java:19-21 | the playlist's current list itself, in its order |
| Playlist.VideoPlaylist.AddVideo | java/src/main/java/com/google/VideoPlaylist.java:19-25 | the live list gains the video at the end; its earlier elements are unchanged; no duplicate check |
| Playlist.VideoPlaylist.RemoveVideo | java/src/main/java/com/google/VideoPlaylist.java:27-29 | the live list loses its first element equal to the video, or stays as it is |
| Playlist.VideoPlaylist.RemoveAllVideos | java/src/main/java/com/google/VideoPlaylist.java:31-33 | the live list is left empty |
| Player.PlaylistIndex | java/src/main/java/com/google/VideoPlayer.java:356-365 | the first position whose name equals the name ignoring case; none exactly when no name matches |
| Player.PlaylistIndexUnique | java/src/main/java/com/google/VideoPlayer.java:356-365 | with names distinct ignoring case, the matching name is the one found |
| Player.InsertAscending | java/src/main/java/com/google/VideoPlayer.java:20 | a name put after the names not greater than it and before the first greater one keeps the set ascending |
| Player.InsertKeepsNamesValid | java/src/main/java/com/google/VideoPlayer.java:128-137 | a new name that matches none ignoring case keeps the names ascending and distinct ignoring case |
| Player.FlagOf | java/src/main/java/com/google/VideoPlayer.java:389-391 | the reason is present exactly when the id is flagged, and is the stored reason |
| Player.WellFormedAfterRemove | java/src/main/java/com/google/VideoPlayer.java:195-213 | removing a video keeps a playlist to library videos with distinct ids |
| Player.WellFormedAfterAppend | java/src/main/java/com/google/VideoPlayer.java:139-162 | appending a library video whose id the playlist lacks keeps the playlist well formed |
| Player.AllWellFormedInsert | java/src/main/java/com/google/VideoPlayer.java:128-137 | adding an empty playlist keeps every playlist well formed |
| Player.AllWellFormedRemove | java/src/main/java/com/google/VideoPlayer.java:225-233 | deleting a playlist keeps the others well formed |
| Player.RemoveKeepsOrder | java/src/main/java/com/google/VideoPlayer.java:225-233 | deleting one name keeps the names ascending and distinct ignoring case |
| Player.ExcludeOne | java/src/main/java/com/google/VideoPlayer.java:77-80 | handling one more flagged id removes the library video with that id, if there is one |
| Player.ExcludeNone | java/src/main/java/com/google/VideoPlayer.java:74 | before any id is handled the candidates are the whole library |
| Player.VideoPlayer.constructor | java/src/main/java/com/google/VideoPlayer.java:16-24 | nothing playing, not paused, no flags, no playlists; the invariant holds |
| Player.VideoPlayer.FindVideo | java/src/main/java/com/google/VideoPlayer.java:378-387 | the loop returns the library lookup of the id |
| Player.VideoPlayer.FindVideoInPlaylist | java/src/main/java/com/google/VideoPlayer.java:367-376 | the loop returns the lookup of the id in the playlist's live list |
| Player.VideoPlayer.FindPlayList | java/src/main/java/com/google/VideoPlayer.java:356-365 | the loop returns the first playlist whose name equals the name ignoring case |
| Player.VideoPlayer.VideoFlagged | java/src/main/java/com/google/VideoPlayer.java:389-391 | a reason exactly when the id is flagged, and it is the stored one |
| Player.VideoPlayer.NumberOfVideos | java/src/main/java/com/google/VideoPlayer.java:26-28 | the number of library videos |
| Player.VideoPlayer.ShowAllVideos | java/src/main/java/com/google/VideoPlayer.java:30-41 | the library sorted by title, a permutation of it, each entry with its flag reason when flagged |
| Player.VideoPlayer.ShowPlaying | java/src/main/java/com/google/VideoPlayer.java:116-126 | the current video with its paused state, or nothing when no video is current |
| Player.VideoPlayer.ShowAllPlaylists | java/src/main/java/com/google/VideoPlayer.java:164-173 | the playlist names in strictly ascending order, distinct ignoring case |
| Player.VideoPlayer.ShowPlaylist | java/src/main/java/com/google/VideoPlayer.java:175-193 | NotFound for an unknown name; else the playlist's videos in order, each with its flag reason |
| Player.VideoPlayer.PlayVideo | java/src/main/java/com/google/VideoPlayer.java:43-62 | an unknown id or a flagged id leaves current and paused unchanged; any other id becomes current and unpaused |
| Player.VideoPlayer.StopVideo | java/src/main/java/com/google/VideoPlayer.java:64-71 | clears the current video and keeps paused; NotFound when nothing plays |
| Player.VideoPlayer.UnflaggedVideos | java/src/main/java/com/google/VideoPlayer.java:74-80 | the removal loop over the flagged ids, in any order, yields the library without its flagged videos |
| Player.VideoPlayer.PlayRandomVideo | java/src/main/java/com/google/VideoPlayer.java:73-88 | NotFound and no change when every video is flagged; else plays the unflagged candidate the draw selects |
| Player.VideoPlayer.PauseVideo | java/src/main/java/com/google/VideoPlayer.java:90-101 | pauses only a current, unpaused video; every other case changes nothing |
| Player.VideoPlayer.ContinueVideo | java/src/main/java/com/google/VideoPlayer.java:103-114 | resumes only a current, paused video; every other case changes nothing |
| Player.VideoPlayer.CreatePlaylist | java/src/main/java/com/google/VideoPlayer.java:128-137 | AlreadyExists and no change when a name matches ignoring case; else exactly one fresh empty playlist with the name, inserted at its place |
| Player.VideoPlayer.InsertPosition | java/src/main/java/com/google/VideoPlayer.java:133 | the TreeSet position of a new name: after every name not greater than it, before a greater one |
| Player.VideoPlayer.AddVideoToPlaylist | java/src/main/java/com/google/VideoPlayer.java:139-162 | appends only when the playlist exists and the id is an unflagged library video not already in it; every rejection leaves all playlists unchanged |
| Player.VideoPlayer.RemoveFromPlaylist | java/src/main/java/com/google/VideoPlayer.java:195-213 | shortens the named playlist by its one copy of the video only when the video is in the library and in the playlist; the other playlists are untouched |
| Player.VideoPlayer.ClearPlaylist | java/src/main/java/com/google/VideoPlayer.java:215-223 | empties the named playlist only; NotFound and no change for an unknown name |
| Player.VideoPlayer.DeletePlaylist | java/src/main/java/com/google/VideoPlayer.java:225-233 | removes exactly the matching playlist and keeps the others in order; NotFound and no change otherwise |
| Player.VideoPlayer.TitleResults | java/src/main/java/com/google/VideoPlayer.java:236-247 | the collection loop equals the title matches over the title-sorted library |
| Player.VideoPlayer.TagResults | java/src/main/java/com/google/VideoPlayer.java:271-285 | the nested collection loops equal the tag matches over the title-sorted library |
| Player.VideoPlayer.TagCopies | java/src/main/java/com/google/VideoPlayer.java:278-284 | the loop over one video's tags yields the video once per matching tag, none when it is flagged |
| Player.VideoPlayer.PlayChoice | java/src/main/java/com/google/VideoPlayer.java:260-264 | a place inside the results plays that result, unpaused; a negative place is OutOfRange with nothing changed; no place changes nothing |
| Player.VideoPlayer.SearchVideos | java/src/main/java/com/google/VideoPlayer.java:235-268 | results are the matching unflagged videos in title order; no results reads no answer; otherwise the written guard's place either plays that result, or is negative and ends OutOfRange with nothing changed, or is absent and changes nothing |
| Player.VideoPlayer.SearchVideosIntended | java/src/main/java/com/google/VideoPlayer.java:235-268 | corrected: the same results; only an answer from 1 to the count plays result n-1, any other changes nothing, and the outcome is always Ok |
| Player.VideoPlayer.SearchVideosWithTag | java/src/main/java/com/google/VideoPlayer.java:270-312 | no results unless the term contains '#'; else the tag matches in title order; the answer is handled as in SearchVideos, with the written guard's negative place ending OutOfRange |
| Player.VideoPlayer.SearchVideosWithTagIntended | java/src/main/java/com/google/VideoPlayer.java:270-312 | corrected: the same results; only an answer from 1 to the count plays result n-1, and the outcome is always Ok |
| Player.VideoPlayer.FlagVideo | java/src/main/java/com/google/VideoPlayer.java:314-325 | stops the video if it is current; then stores "Not supplied", overwriting any reason; NotFound and no change for an unknown id |
| Player.VideoPlayer.FlagVideoWithReason | java/src/main/java/com/google/VideoPlayer.java:327-341 | stops the video if it is current; the table is unchanged for an unknown or already flagged id; else stores the reason with spaces replaced by '_' |
| Player.VideoPlayer.AllowVideo | java/src/main/java/com/google/VideoPlayer.java:343-354 | as written: Ok exactly for a flagged library video, and the flag table is never changed |
| Player.VideoPlayer.AllowVideoIntended | java/src/main/java/com/google/VideoPlayer.java:343-354 | corrected: a flagged library video loses its flag; an unflagged one gives InvalidState with no change |

## Left out

- Console output is left out. Each message class becomes an `Outcome`. The exact message text and the video details format are not modelled; they live in `Video.java`, which is not part of this model.
- The message order quirks are not modelled, because they change no state:
  - "Stopping video" is printed before the flag check in play;
  - `flagVideo` calls `stopVideo` even when neither a video nor a current video exists;
  - the add-to-playlist flagged message names "my_playlist" whatever the playlist.
- The `Scanner` answer after a search is the parameter `answer: Option<int>`. `None` stands for "no integer was typed". A number outside 32-bit range also counts as no integer.
- The `IndexOutOfBoundsException` that a negative place raises in a search is the `OutOfRange` outcome, with the state as it was before the command. What the caller of the command does with the exception is not modelled.
- `java.util.Random` in random play is the parameter `draw`. The candidate at `draw % |pool|` is played. The uniform distribution is not modelled.
- `VideoLibrary` and `Video` are not part of this model. The library is a constructor parameter with distinct ids. `VideoLibrary.getVideos` is taken to return a fresh copy, since the player sorts it and removes from it.
- Case mapping is ASCII only, in `toLowerCase` and `equalsIgnoreCase`. Locale and Unicode case rules are not modelled.
- `Text.Less` compares Dafny characters, which are Unicode scalar values. `compareTo` compares UTF-16 code units. The two orders differ only for characters outside the Basic Multilingual Plane.
- Java collection internals are not modelled:
  - the flag table is a `map` whose key set is walked in an arbitrary order;
  - the playlist `TreeSet` is a sequence kept in ascending name order;
  - `List.sort` is a sort function.
- Videos.SortByTitle: the model proves that the result is sorted and a permutation. It does not prove that the sort is stable, although `List.sort` is.
- Videos.SortByTitle is a pure function: sorting the library copy in place is not modelled.
- Playlist.VideoPlaylist.GetVideos: Java returns the live list object, and a caller keeps an alias to it. The model returns the current value of the field, so aliasing is not modelled. A later change is visible by calling `GetVideos` again, as the commands' postconditions show.
- Collections.RemoveFirst compares videos by value. `Video.equals` is not part of this model. With distinct library ids, value equality and identity pick the same video.
- The `VideoPlayer` commands require `Valid()`. The source has no such precondition. `Valid()` is the invariant that the constructor establishes and every command keeps.
- Three behaviours of the code that a reader might not expect are modelled as written:
  - playing a flagged id prints "Stopping video" (java/src/main/java/com/google/VideoPlayer.java:47-49) but returns before `currentVideo` changes (java/src/main/java/com/google/VideoPlayer.java:51-54), so the old current video stays;
  - `stopVideo` clears `currentVideo` but never `paused` (java/src/main/java/com/google/VideoPlayer.java:64-71), so "paused implies a current video" does not hold; every reader checks the current video first;
  - `allowVideo` prints "Successfully removed flag" (java/src/main/java/com/google/VideoPlayer.java:350) but never removes the entry (see Findings).
- Several rejections are mapped onto the `Outcome` classes:
  - "Video is not in playlist" is `InvalidState`;
  - "already paused" and "not paused" are `InvalidState`;
  - "already flagged" is `AlreadyExists`.

## Findings

| source | as written | input that shows it | evidently intended | confidence | as-written member | corrected member |
|---|---|---|---|---|---|---|
| java/src/main/java/com/google/VideoPlayer.java:349-353 | `allowVideo` reports that the flag was removed but never deletes the flag table entry | flag a video, then allow it: it still cannot be played | the entry is removed, so the video can be played again | not executed | Player.VideoPlayer.AllowVideo | Player.VideoPlayer.AllowVideoIntended |
| java/src/main/java/com/google/VideoPlayer.java:261-263 | the selection `nextInt() - 1` is checked only with `place < videos.size()` | with one result, answer 0 gives place -1, and `videos.get(-1)` throws IndexOutOfBoundsException | only answers from 1 to the number of results select one | not executed | Search.SelectionIndexAsWritten | Search.SelectionIndex |

The same selection guard appears again at
java/src/main/java/com/google/VideoPlayer.java:305-307. The commands
`Player.VideoPlayer.SearchVideos` and `Player.VideoPlayer.SearchVideosWithTag`
use the written guard and end `OutOfRange` on such an answer;
`Player.VideoPlayer.SearchVideosIntended` and
`Player.VideoPlayer.SearchVideosWithTagIntended` use the corrected
`Search.SelectionIndex`, and `Search.AsWrittenSelectsOutOfRange` states the
difference for every answer from -2^31 + 1 to 0. The scenario
`Session.SearchSession` shows it on a concrete library, and
`Session.AllowSession` shows the first finding: after the video is flagged
and then allowed as written, playing it is still refused as flagged.
