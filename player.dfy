/** The video player: a fixed library, the current video and its paused
    flag, the moderation flags, and the playlists. Every command returns an
    Outcome naming its result instead of printing a message. */
module Player {
  import opened Collections
  import opened Text
  import opened Videos
  import opened Playlist
  import opened Search

  /** What a NotFound outcome is about. */
  datatype Subject = VideoSubject | PlaylistSubject | PlaybackSubject

  /** The result classes of the player's messages. */
  datatype Outcome =
    | Ok
    | NotFound(what: Subject)
    | AlreadyExists
    | InvalidState
    | Flagged(reason: string)
    /** An index outside the list: `List.get` throws IndexOutOfBoundsException
        and the command ends with nothing changed. */
    | OutOfRange

  /** One line of a listing: a video and, when it is flagged, the reason. */
  datatype Entry = Entry(video: Video, flag: Option<string>)

  /** The reason stored by the flag command given without a reason. */
  const NotSupplied: string := "Not supplied"

  /** The playlists' names, in list order. */
  function Names(ps: seq<VideoPlaylist>): seq<string>
  {
    seq(|ps|, i requires 0 <= i < |ps| => ps[i].name)
  }

  /** The iteration order of the playlist TreeSet: ascending by name, case-sensitively. */
  predicate StrictlyAscending(names: seq<string>)
  {
    forall i, j :: 0 <= i < j < |names| ==> Less(names[i], names[j])
  }

  /** No two names are equal ignoring case. */
  predicate DistinctIgnoringCase(names: seq<string>)
  {
    forall i, j :: 0 <= i < j < |names| ==> !EqualsIgnoreCase(names[i], names[j])
  }

  /** The position of the first name equal to `name` ignoring case. */
  function PlaylistIndex(names: seq<string>, name: string): (r: Option<nat>)
    ensures r.Some? ==> r.value < |names| && EqualsIgnoreCase(names[r.value], name)
    ensures r.Some? ==> forall j :: 0 <= j < r.value ==> !EqualsIgnoreCase(names[j], name)
    ensures r.None? <==> forall j :: 0 <= j < |names| ==> !EqualsIgnoreCase(names[j], name)
  {
    if names == [] then None
    else if EqualsIgnoreCase(names[0], name) then Some(0)
    else
      match PlaylistIndex(names[1..], name)
      case None => None
      case Some(j) => Some(j + 1)
  }

  /** With names distinct ignoring case, the one matching name is the one found. */
  lemma PlaylistIndexUnique(names: seq<string>, name: string, i: nat)
    requires DistinctIgnoringCase(names)
    requires i < |names| && EqualsIgnoreCase(names[i], name)
    ensures PlaylistIndex(names, name) == Some(i)
  {
  }

  /** Inserting a new name at the position where the names before it are
      smaller and the one after it is larger keeps the set ascending. */
  lemma InsertAscending(names: seq<string>, name: string, at: nat)
    requires StrictlyAscending(names) && at <= |names|
    requires forall j :: 0 <= j < at ==> !Less(name, names[j]) && names[j] != name
    requires at < |names| ==> Less(name, names[at])
    ensures StrictlyAscending(names[..at] + [name] + names[at..])
  {
    var r := names[..at] + [name] + names[at..];
    forall k | at <= k < |names| ensures Less(name, names[k]) {
      if k > at {
        LessTransitive(name, names[at], names[k]);
      }
    }
    forall k | 0 <= k < at ensures Less(names[k], name) {
      LessTotal(names[k], name);
    }
    forall i, j | 0 <= i < j < |r| ensures Less(r[i], r[j]) {
      if i < at && j > at {
        assert r[j] == names[j - 1];
        LessTransitive(names[i], name, names[j - 1]);
      } else if i > at {
        assert r[i] == names[i - 1] && r[j] == names[j - 1];
      } else if i == at {
        assert r[j] == names[j - 1];
      }
    }
  }

  /** A name that matches none of the set, inserted at its place, keeps the
      set ascending and distinct ignoring case. */
  lemma InsertKeepsNamesValid(names: seq<string>, name: string, at: nat)
    requires StrictlyAscending(names) && DistinctIgnoringCase(names) && at <= |names|
    requires forall j :: 0 <= j < |names| ==> !EqualsIgnoreCase(names[j], name)
    requires forall j :: 0 <= j < at ==> !Less(name, names[j])
    requires at < |names| ==> Less(name, names[at])
    ensures StrictlyAscending(names[..at] + [name] + names[at..])
    ensures DistinctIgnoringCase(names[..at] + [name] + names[at..])
  {
    forall j | 0 <= j < at ensures names[j] != name {
      assert !EqualsIgnoreCase(names[j], name);
    }
    InsertAscending(names, name, at);
    var r := names[..at] + [name] + names[at..];
    forall a, b | 0 <= a < b < |r| ensures !EqualsIgnoreCase(r[a], r[b]) {
      if a != at && b != at {
        assert r[a] == names[if a < at then a else a - 1];
        assert r[b] == names[if b < at then b else b - 1];
      }
    }
  }

  /** Inserting a playlist at `at` inserts its name there. */
  lemma NamesInsert(ps: seq<VideoPlaylist>, at: nat, p: VideoPlaylist)
    requires at <= |ps|
    ensures Names(ps[..at] + [p] + ps[at..]) == Names(ps)[..at] + [p.name] + Names(ps)[at..]
  {
  }

  /** Deleting the playlist at `at` deletes its name there. */
  lemma NamesRemove(ps: seq<VideoPlaylist>, at: nat)
    requires at < |ps|
    ensures Names(ps[..at] + ps[at + 1..]) == Names(ps)[..at] + Names(ps)[at + 1..]
  {
  }

  /** videoFlagged: the reason a video is flagged with, if any. */
  function FlagOf(flagged: map<string, string>, id: string): (r: Option<string>)
    ensures r.Some? <==> id in flagged
    ensures r.Some? ==> r.value == flagged[id]
  {
    if id in flagged then Some(flagged[id]) else None
  }

  function VideosOf(entries: seq<Entry>): seq<Video>
  {
    seq(|entries|, i requires 0 <= i < |entries| => entries[i].video)
  }

  /** A playlist holds only library videos, none twice. */
  predicate WellFormedList(videos: seq<Video>, library: seq<Video>)
  {
    DistinctIds(videos) && forall v :: v in videos ==> v in library
  }

  /** Removing a video keeps a playlist well formed. */
  lemma WellFormedAfterRemove(videos: seq<Video>, library: seq<Video>, v: Video)
    requires WellFormedList(videos, library)
    ensures WellFormedList(RemoveFirst(videos, v), library)
  {
    var r := RemoveFirst(videos, v);
    DistinctAfterRemove(videos, v);
    forall w | w in r ensures w in library {
      assert w in multiset(r);
    }
  }

  /** Appending a library video whose id the playlist lacks keeps it well formed. */
  lemma WellFormedAfterAppend(videos: seq<Video>, library: seq<Video>, v: Video)
    requires WellFormedList(videos, library) && v in library
    requires forall w :: w in videos ==> w.id != v.id
    ensures WellFormedList(videos + [v], library)
  {
    var r := videos + [v];
    forall a, b | 0 <= a < b < |r| ensures r[a].id != r[b].id {
      assert r[a] == videos[a];
      if b < |videos| {
        assert r[b] == videos[b];
      } else {
        assert videos[a] in videos;
      }
    }
  }

  /** Every playlist of `ps` is well formed. */
  ghost predicate AllWellFormed(ps: seq<VideoPlaylist>, library: seq<Video>)
    reads ps
  {
    forall i :: 0 <= i < |ps| ==> WellFormedList(ps[i].videos, library)
  }

  /** Inserting an empty playlist keeps every playlist well formed. */
  lemma AllWellFormedInsert(ps: seq<VideoPlaylist>, at: nat, p: VideoPlaylist, library: seq<Video>)
    requires at <= |ps| && AllWellFormed(ps, library) && p.videos == []
    ensures AllWellFormed(ps[..at] + [p] + ps[at..], library)
  {
    var r := ps[..at] + [p] + ps[at..];
    forall i | 0 <= i < |r| ensures WellFormedList(r[i].videos, library) {
      assert r[i] == if i < at then ps[i] else if i == at then p else ps[i - 1];
    }
  }

  /** Dropping a playlist keeps the others well formed. */
  lemma AllWellFormedRemove(ps: seq<VideoPlaylist>, at: nat, library: seq<Video>)
    requires at < |ps| && AllWellFormed(ps, library)
    ensures AllWellFormed(ps[..at] + ps[at + 1..], library)
  {
    var r := ps[..at] + ps[at + 1..];
    forall i | 0 <= i < |r| ensures WellFormedList(r[i].videos, library) {
      assert r[i] == if i < at then ps[i] else ps[i + 1];
    }
  }

  class VideoPlayer {
    const library: seq<Video>
    var current: Option<Video>
    var paused: bool
    var flagged: map<string, string>
    var playlists: seq<VideoPlaylist>

    /** The player invariant. The current video is a library video that is
        not flagged; only library ids are flagged; the playlists are in
        ascending name order with names distinct ignoring case, and each
        holds library videos without repetition. `paused` may stay set after
        a stop: every reader looks at `current` first. */
    ghost predicate Valid()
      reads this, playlists
    {
      && DistinctIds(library)
      && (current.Some? ==> current.value in library && current.value.id !in flagged)
      && (forall id :: id in flagged ==> LookupVideo(library, id).Some?)
      && StrictlyAscending(Names(playlists))
      && DistinctIgnoringCase(Names(playlists))
      && AllWellFormed(playlists, library)
    }

    /** Every playlist other than the one at `k` kept its videos. */
    twostate predicate OthersUnchanged(k: int)
      reads this, playlists
    {
      && playlists == old(playlists)
      && forall j :: 0 <= j < |playlists| && j != k ==> playlists[j].videos == old(playlists[j].videos)
    }

    /** The library is a parameter: loading it is not part of the model. */
    constructor (library: seq<Video>)
      requires DistinctIds(library)
      ensures Valid()
      ensures this.library == library
      ensures current == None && !paused && flagged == map[] && playlists == []
    {
      this.library := library;
      current := None;
      paused := false;
      flagged := map[];
      playlists := [];
    }

    // ---- lookups ----

    /** findVideo: the library video with this id. */
    method FindVideo(id: string) returns (r: Option<Video>)
      ensures r == LookupVideo(library, id)
    {
      var i := 0;
      while i < |library|
        invariant 0 <= i <= |library|
        invariant forall j :: 0 <= j < i ==> library[j].id != id
      {
        if library[i].id == id {
          LookupVideoFirst(library, id, i);
          return Some(library[i]);
        }
        i := i + 1;
      }
      return None;
    }

    /** findVideoInPlaylist: the video of the playlist with this id. */
    method FindVideoInPlaylist(id: string, playlist: VideoPlaylist) returns (r: Option<Video>)
      ensures r == LookupVideo(playlist.videos, id)
    {
      var videos := playlist.GetVideos();
      var i := 0;
      while i < |videos|
        invariant 0 <= i <= |videos|
        invariant forall j :: 0 <= j < i ==> videos[j].id != id
      {
        if videos[i].id == id {
          LookupVideoFirst(videos, id, i);
          return Some(videos[i]);
        }
        i := i + 1;
      }
      return None;
    }

    /** findPlayList: the position, in name order, of the playlist whose
        name equals `name` ignoring case. */
    method FindPlayList(name: string) returns (r: Option<nat>)
      ensures r == PlaylistIndex(Names(playlists), name)
    {
      var i := 0;
      while i < |playlists|
        invariant 0 <= i <= |playlists|
        invariant forall j :: 0 <= j < i ==> !EqualsIgnoreCase(Names(playlists)[j], name)
      {
        if EqualsIgnoreCase(playlists[i].name, name) {
          assert Names(playlists)[i] == playlists[i].name;
          return Some(i);
        }
        i := i + 1;
      }
      return None;
    }

    /** videoFlagged: the reason the video is flagged with, if any. */
    method VideoFlagged(id: string) returns (r: Option<string>)
      ensures r == FlagOf(flagged, id)
    {
      r := FlagOf(flagged, id);
    }

    // ---- listings ----

    method NumberOfVideos() returns (n: nat)
      ensures n == |library|
    {
      n := |library|;
    }

    /** showAllVideos: the library ordered by title, each video with its flag reason. */
    method ShowAllVideos() returns (entries: seq<Entry>)
      ensures VideosOf(entries) == SortByTitle(library)
      ensures SortedByTitle(VideosOf(entries)) && multiset(VideosOf(entries)) == multiset(library)
      ensures forall i :: 0 <= i < |entries| ==> entries[i].flag == FlagOf(flagged, entries[i].video.id)
    {
      var sorted := SortByTitle(library);
      SortByTitleSorted(library);
      var flags := flagged;
      entries := seq(|sorted|, i requires 0 <= i < |sorted| => Entry(sorted[i], FlagOf(flags, sorted[i].id)));
      assert VideosOf(entries) == sorted;
    }

    /** showPlaying: the current video and whether it is paused. */
    method ShowPlaying() returns (playing: Option<(Video, bool)>)
      ensures playing.None? <==> current.None?
      ensures playing.Some? ==> playing.value == (current.value, paused)
    {
      playing := if current.Some? then Some((current.value, paused)) else None;
    }

    /** showAllPlaylists: the names in ascending order. */
    method ShowAllPlaylists() returns (names: seq<string>)
      requires Valid()
      ensures names == Names(playlists)
      ensures StrictlyAscending(names) && DistinctIgnoringCase(names)
    {
      names := Names(playlists);
    }

    /** showPlaylist: the playlist's videos in order, each with its flag reason. */
    method ShowPlaylist(name: string) returns (o: Outcome, entries: seq<Entry>)
      ensures PlaylistIndex(Names(playlists), name).None? ==> o == NotFound(PlaylistSubject) && entries == []
      ensures PlaylistIndex(Names(playlists), name).Some? ==>
        var p := playlists[PlaylistIndex(Names(playlists), name).value];
        o == Ok && VideosOf(entries) == p.videos
        && forall i :: 0 <= i < |entries| ==> entries[i].flag == FlagOf(flagged, entries[i].video.id)
    {
      var at := FindPlayList(name);
      if at.None? {
        return NotFound(PlaylistSubject), [];
      }
      var videos := playlists[at.value].GetVideos();
      var flags := flagged;
      entries := seq(|videos|, i requires 0 <= i < |videos| => Entry(videos[i], FlagOf(flags, videos[i].id)));
      assert VideosOf(entries) == videos;
      o := Ok;
    }

    // ---- playback ----

    /** playVideo: an unknown id or a flagged one changes nothing (the old
        video keeps playing); otherwise the video becomes current, unpaused. */
    method PlayVideo(id: string) returns (o: Outcome)
      requires Valid()
      modifies this
      ensures Valid()
      ensures flagged == old(flagged) && playlists == old(playlists)
      ensures LookupVideo(library, id).None? ==>
        o == NotFound(VideoSubject) && current == old(current) && paused == old(paused)
      ensures LookupVideo(library, id).Some? && id in flagged ==>
        o == Flagged(flagged[id]) && current == old(current) && paused == old(paused)
      ensures LookupVideo(library, id).Some? && id !in flagged ==>
        o == Ok && current == LookupVideo(library, id) && !paused
    {
      var video := FindVideo(id);
      if video.None? {
        return NotFound(VideoSubject);
      }
      var reason := VideoFlagged(id);
      if reason.Some? {
        return Flagged(reason.value);
      }
      current := video;
      paused := false;
      o := Ok;
    }

    /** stopVideo: clears the current video and leaves `paused` as it was. */
    method StopVideo() returns (o: Outcome)
      requires Valid()
      modifies this
      ensures Valid()
      ensures current == None
      ensures paused == old(paused) && flagged == old(flagged) && playlists == old(playlists)
      ensures o == if old(current).None? then NotFound(PlaybackSubject) else Ok
    {
      if current.None? {
        return NotFound(PlaybackSubject);
      }
      current := None;
      o := Ok;
    }

    /** The candidates of playRandomVideo: a copy of the library from which
        the video of each flagged id is removed, one id at a time, in the
        arbitrary order of the flag table's key set. */
    method UnflaggedVideos() returns (pool: seq<Video>)
      requires DistinctIds(library)
      ensures pool == Exclude(library, flagged.Keys)
    {
      pool := library;
      var keys := flagged.Keys;
      ghost var removed: set<string> := {};
      ExcludeNone(library);
      while keys != {}
        invariant keys <= flagged.Keys && removed == flagged.Keys - keys
        invariant pool == Exclude(library, removed)
        decreases keys
      {
        var k :| k in keys;
        var video := FindVideo(k);
        ExcludeOne(library, removed, k);
        MoveKey(flagged.Keys, keys, removed, k);
        if video.Some? {
          pool := RemoveFirst(pool, video.value);
        }
        keys := keys - {k};
        removed := removed + {k};
      }
      assert removed == flagged.Keys;
    }

    /** playRandomVideo: plays the unflagged candidate at `draw` modulo
        their number (the model of Random.nextInt), or reports that none is
        available. */
    method PlayRandomVideo(draw: nat) returns (o: Outcome)
      requires Valid()
      modifies this
      ensures Valid()
      ensures flagged == old(flagged) && playlists == old(playlists)
      ensures var pool := Exclude(library, flagged.Keys);
        && (pool == [] ==> o == NotFound(VideoSubject) && current == old(current) && paused == old(paused))
        && (pool != [] ==> o == Ok && current == Some(pool[draw % |pool|]) && !paused)
    {
      var pool := UnflaggedVideos();
      if pool == [] {
        return NotFound(VideoSubject);
      }
      var pick := pool[draw % |pool|];
      ExcludeMembers(library, flagged.Keys);
      assert pick in pool;
      LookupVideoUnique(library, pick);
      o := PlayVideo(pick.id);
    }

    /** pauseVideo: pauses only a current, unpaused video. */
    method PauseVideo() returns (o: Outcome)
      requires Valid()
      modifies this
      ensures Valid()
      ensures current == old(current) && flagged == old(flagged) && playlists == old(playlists)
      ensures old(current).None? ==> o == NotFound(PlaybackSubject) && paused == old(paused)
      ensures old(current).Some? && old(paused) ==> o == InvalidState && paused
      ensures old(current).Some? && !old(paused) ==> o == Ok && paused
    {
      if current.None? {
        return NotFound(PlaybackSubject);
      }
      if paused {
        return InvalidState;
      }
      paused := true;
      o := Ok;
    }

    /** continueVideo: resumes only a current, paused video. */
    method ContinueVideo() returns (o: Outcome)
      requires Valid()
      modifies this
      ensures Valid()
      ensures current == old(current) && flagged == old(flagged) && playlists == old(playlists)
      ensures old(current).None? ==> o == NotFound(PlaybackSubject) && paused == old(paused)
      ensures old(current).Some? && !old(paused) ==> o == InvalidState && !paused
      ensures old(current).Some? && old(paused) ==> o == Ok && !paused
    {
      if current.None? {
        return NotFound(PlaybackSubject);
      }
      if !paused {
        return InvalidState;
      }
      paused := false;
      o := Ok;
    }

    // ---- playlists ----

    /** createPlaylist: adds one empty playlist, at its place in name order,
        when no playlist has the name ignoring case; otherwise changes nothing. */
    method CreatePlaylist(name: string) returns (o: Outcome)
      requires Valid()
      modifies this
      ensures Valid()
      ensures current == old(current) && paused == old(paused) && flagged == old(flagged)
      ensures PlaylistIndex(Names(old(playlists)), name).Some? ==>
        o == AlreadyExists && playlists == old(playlists)
      ensures PlaylistIndex(Names(old(playlists)), name).None? ==>
        o == Ok
        && |playlists| == |old(playlists)| + 1
        && exists at :: 0 <= at < |playlists|
             && playlists == old(playlists)[..at] + [playlists[at]] + old(playlists)[at..]
             && fresh(playlists[at]) && playlists[at].name == name && playlists[at].videos == []
    {
      var found := FindPlayList(name);
      if found.Some? {
        return AlreadyExists;
      }
      var at := InsertPosition(name);
      ghost var before := playlists;
      ghost var names := Names(playlists);
      InsertKeepsNamesValid(names, name, at);
      var playlist := new VideoPlaylist(name);
      playlists := playlists[..at] + [playlist] + playlists[at..];
      NamesInsert(before, at, playlist);
      AllWellFormedInsert(before, at, playlist, library);
      o := Ok;
    }

    /** Where TreeSet.add puts a new name: after every smaller name and before every larger one. */
    method InsertPosition(name: string) returns (at: nat)
      ensures at <= |playlists|
      ensures forall j :: 0 <= j < at ==> !Less(name, Names(playlists)[j])
      ensures at < |playlists| ==> Less(name, Names(playlists)[at])
    {
      at := 0;
      while at < |playlists| && !Less(name, playlists[at].name)
        invariant 0 <= at <= |playlists|
        invariant forall j :: 0 <= j < at ==> !Less(name, Names(playlists)[j])
      {
        at := at + 1;
      }
    }

    /** addVideoToPlaylist: appends the library video to the named playlist
        when the playlist exists and the video exists, is not flagged and is not
        already in it; every rejection leaves all playlists as they were. */
    method AddVideoToPlaylist(name: string, id: string) returns (o: Outcome)
      requires Valid()
      modifies playlists
      ensures Valid()
      ensures PlaylistIndex(Names(playlists), name).None? ==>
        o == NotFound(PlaylistSubject) && OthersUnchanged(-1)
      ensures PlaylistIndex(Names(playlists), name).Some? ==>
        var at := PlaylistIndex(Names(playlists), name).value;
        var video := LookupVideo(library, id);
        var before := old(playlists[at].videos);
        && (video.None? ==> o == NotFound(VideoSubject) && OthersUnchanged(-1))
        && (video.Some? && id in flagged ==> o == Flagged(flagged[id]) && OthersUnchanged(-1))
        && (video.Some? && id !in flagged && LookupVideo(before, id).Some? ==>
              o == AlreadyExists && OthersUnchanged(-1))
        && (video.Some? && id !in flagged && LookupVideo(before, id).None? ==>
              o == Ok && playlists[at].videos == before + [video.value] && OthersUnchanged(at))
    {
      var at := FindPlayList(name);
      if at.None? {
        return NotFound(PlaylistSubject);
      }
      var playlist := playlists[at.value];
      var video := FindVideo(id);
      var present := FindVideoInPlaylist(id, playlist);
      if video.None? {
        return NotFound(VideoSubject);
      }
      var reason := VideoFlagged(id);
      if reason.Some? {
        return Flagged(reason.value);
      }
      if present.Some? {
        return AlreadyExists;
      }
      ghost var names := Names(playlists);
      forall j | 0 <= j < |playlists| && j != at.value ensures playlists[j] != playlist {
        assert names[j] != names[at.value];
      }
      WellFormedAfterAppend(playlist.videos, library, video.value);
      playlist.AddVideo(video.value);
      assert Names(playlists) == names;
      o := Ok;
    }

    /** removeFromPlaylist: removes the video from the named playlist when the
        playlist exists, the id is a library video and it is in the playlist. */
    method RemoveFromPlaylist(name: string, id: string) returns (o: Outcome)
      requires Valid()
      modifies playlists
      ensures Valid()
      ensures PlaylistIndex(Names(playlists), name).None? ==>
        o == NotFound(PlaylistSubject) && OthersUnchanged(-1)
      ensures PlaylistIndex(Names(playlists), name).Some? ==>
        var at := PlaylistIndex(Names(playlists), name).value;
        var video := LookupVideo(library, id);
        var before := old(playlists[at].videos);
        && (video.None? ==> o == NotFound(VideoSubject) && OthersUnchanged(-1))
        && (video.Some? && LookupVideo(before, id).None? ==> o == InvalidState && OthersUnchanged(-1))
        && (video.Some? && LookupVideo(before, id).Some? ==>
              o == Ok && playlists[at].videos == RemoveFirst(before, video.value)
              && |playlists[at].videos| == |before| - 1 && OthersUnchanged(at))
    {
      var at := FindPlayList(name);
      if at.None? {
        return NotFound(PlaylistSubject);
      }
      var playlist := playlists[at.value];
      var video := FindVideo(id);
      var present := FindVideoInPlaylist(id, playlist);
      if video.None? {
        return NotFound(VideoSubject);
      }
      if present.None? {
        return InvalidState;
      }
      // the playlist holds library videos with distinct ids, so the one
      // found in it is the library video itself
      LookupVideoUnique(library, present.value);
      assert present.value == video.value;
      ghost var names := Names(playlists);
      forall j | 0 <= j < |playlists| && j != at.value ensures playlists[j] != playlist {
        assert names[j] != names[at.value];
      }
      WellFormedAfterRemove(playlist.videos, library, video.value);
      playlist.RemoveVideo(video.value);
      assert Names(playlists) == names;
      o := Ok;
    }

    /** clearPlaylist: empties the named playlist and no other. */
    method ClearPlaylist(name: string) returns (o: Outcome)
      requires Valid()
      modifies playlists
      ensures Valid()
      ensures PlaylistIndex(Names(playlists), name).None? ==>
        o == NotFound(PlaylistSubject) && OthersUnchanged(-1)
      ensures PlaylistIndex(Names(playlists), name).Some? ==>
        var at := PlaylistIndex(Names(playlists), name).value;
        o == Ok && playlists[at].videos == [] && OthersUnchanged(at)
    {
      var at := FindPlayList(name);
      if at.None? {
        return NotFound(PlaylistSubject);
      }
      var playlist := playlists[at.value];
      ghost var names := Names(playlists);
      forall j | 0 <= j < |playlists| && j != at.value ensures playlists[j] != playlist {
        assert names[j] != names[at.value];
      }
      playlist.RemoveAllVideos();
      assert Names(playlists) == names;
      o := Ok;
    }

    /** deletePlaylist: removes exactly the playlist whose name matches ignoring case. */
    method DeletePlaylist(name: string) returns (o: Outcome)
      requires Valid()
      modifies this
      ensures Valid()
      ensures current == old(current) && paused == old(paused) && flagged == old(flagged)
      ensures PlaylistIndex(Names(old(playlists)), name).None? ==>
        o == NotFound(PlaylistSubject) && playlists == old(playlists)
      ensures PlaylistIndex(Names(old(playlists)), name).Some? ==>
        var at := PlaylistIndex(Names(old(playlists)), name).value;
        o == Ok && playlists == old(playlists)[..at] + old(playlists)[at + 1..]
    {
      var at := FindPlayList(name);
      if at.None? {
        return NotFound(PlaylistSubject);
      }
      ghost var names := Names(playlists);
      ghost var before := playlists;
      playlists := playlists[..at.value] + playlists[at.value + 1..];
      NamesRemove(before, at.value);
      AllWellFormedRemove(before, at.value, library);
      RemoveKeepsOrder(names, at.value);
      o := Ok;
    }

    // ---- search ----

    /** The collection step of searchVideos over the title-sorted library. */
    method TitleResults(term: string) returns (results: seq<Video>)
      ensures results == TitleMatches(SortByTitle(library), term, flagged)
    {
      var sorted := SortByTitle(library);
      results := [];
      var i := 0;
      while i < |sorted|
        invariant 0 <= i <= |sorted|
        invariant results == TitleMatches(sorted[..i], term, flagged)
      {
        var video := sorted[i];
        if Contains(Lower(video.title), Lower(term)) && video.id !in flagged {
          results := results + [video];
        }
        assert sorted[..i + 1][..i] == sorted[..i];
        i := i + 1;
      }
      assert sorted[..i] == sorted;
    }

    /** The collection step of searchVideosWithTag: each video once per matching tag. */
    method TagResults(term: string) returns (results: seq<Video>)
      ensures results == TagMatches(SortByTitle(library), term, flagged)
    {
      var sorted := SortByTitle(library);
      results := [];
      var i := 0;
      while i < |sorted|
        invariant 0 <= i <= |sorted|
        invariant results == TagMatches(sorted[..i], term, flagged)
      {
        var copies := TagCopies(sorted[i], term);
        results := results + copies;
        assert sorted[..i + 1][..i] == sorted[..i];
        i := i + 1;
      }
      assert sorted[..i] == sorted;
    }

    /** The inner loop over one video's tags: the video once per matching tag. */
    method TagCopies(video: Video, term: string) returns (copies: seq<Video>)
      ensures copies == Repeat(video, TagHits(video, term, flagged))
    {
      copies := [];
      var j := 0;
      while j < |video.tags|
        invariant 0 <= j <= |video.tags|
        invariant copies == Repeat(video, if video.id in flagged then 0 else TagCount(video.tags[..j], term))
      {
        if Contains(Lower(video.tags[j]), Lower(term)) && video.id !in flagged {
          copies := copies + [video];
        }
        assert video.tags[..j + 1][..j] == video.tags[..j];
        j := j + 1;
      }
      assert video.tags[..j] == video.tags;
    }

    /** The prompt after a listing, given the place the answer selects, if
        any: a place inside the results plays that video, and a negative
        place makes `videos.get` throw before anything changes. */
    method PlayChoice(results: seq<Video>, place: Option<int>) returns (o: Outcome)
      requires Valid()
      requires forall v :: v in results ==> v in library && v.id !in flagged
      requires place.Some? ==> place.value < |results|
      modifies this
      ensures Valid()
      ensures flagged == old(flagged) && playlists == old(playlists)
      ensures place.Some? && 0 <= place.value ==>
        o == Ok && current == Some(results[place.value]) && !paused
      ensures place.Some? && place.value < 0 ==>
        o == OutOfRange && current == old(current) && paused == old(paused)
      ensures place.None? ==>
        o == Ok && current == old(current) && paused == old(paused)
    {
      if place.None? {
        return Ok;
      }
      if place.value < 0 {
        return OutOfRange;
      }
      var video := results[place.value];
      assert video in results;
      LookupVideoUnique(library, video);
      o := PlayVideo(video.id);
    }

    /** searchVideos as written: lists the matching unflagged videos by
        title; with at least one result the answer is read, and the place
        `nextInt() - 1` is checked only against the number of results. */
    method SearchVideos(term: string, answer: Option<int>) returns (results: seq<Video>, o: Outcome)
      requires Valid()
      modifies this
      ensures Valid()
      ensures results == TitleMatches(SortByTitle(library), term, flagged)
      ensures flagged == old(flagged) && playlists == old(playlists)
      ensures results == [] ==> o == Ok && current == old(current) && paused == old(paused)
      ensures results != [] ==>
        var place := SelectionIndexAsWritten(answer, |results|);
        && (place.Some? && 0 <= place.value ==>
              o == Ok && current == Some(results[place.value]) && !paused)
        && (place.Some? && place.value < 0 ==>
              o == OutOfRange && current == old(current) && paused == old(paused))
        && (place.None? ==> o == Ok && current == old(current) && paused == old(paused))
    {
      results := TitleResults(term);
      TitleMatchesPlayable(library, term, flagged);
      o := Ok;
      if results != [] {
        o := PlayChoice(results, SelectionIndexAsWritten(answer, |results|));
      }
    }

    /** searchVideos with the corrected guard: only an answer from 1 to the
        number of results selects one, and the command always completes. */
    method SearchVideosIntended(term: string, answer: Option<int>) returns (results: seq<Video>, o: Outcome)
      requires Valid()
      modifies this
      ensures Valid()
      ensures results == TitleMatches(SortByTitle(library), term, flagged)
      ensures o == Ok && flagged == old(flagged) && playlists == old(playlists)
      ensures SelectionIndex(answer, |results|).Some? ==>
        current == Some(results[SelectionIndex(answer, |results|).value]) && !paused
      ensures SelectionIndex(answer, |results|).None? ==>
        current == old(current) && paused == old(paused)
    {
      results := TitleResults(term);
      TitleMatchesPlayable(library, term, flagged);
      o := Ok;
      if results != [] {
        o := PlayChoice(results, SelectionIndex(answer, |results|));
      }
    }

    /** searchVideosWithTag as written: as searchVideos over tags, but a term
        without '#' reports no results, whatever matches. */
    method SearchVideosWithTag(tag: string, answer: Option<int>) returns (results: seq<Video>, o: Outcome)
      requires Valid()
      modifies this
      ensures Valid()
      ensures results == if '#' in tag then TagMatches(SortByTitle(library), tag, flagged) else []
      ensures flagged == old(flagged) && playlists == old(playlists)
      ensures results == [] ==> o == Ok && current == old(current) && paused == old(paused)
      ensures results != [] ==>
        var place := SelectionIndexAsWritten(answer, |results|);
        && (place.Some? && 0 <= place.value ==>
              o == Ok && current == Some(results[place.value]) && !paused)
        && (place.Some? && place.value < 0 ==>
              o == OutOfRange && current == old(current) && paused == old(paused))
        && (place.None? ==> o == Ok && current == old(current) && paused == old(paused))
    {
      results := TagResults(tag);
      o := Ok;
      if '#' !in tag {
        return [], Ok;
      }
      TagMatchesPlayable(library, tag, flagged);
      if results != [] {
        o := PlayChoice(results, SelectionIndexAsWritten(answer, |results|));
      }
    }

    /** searchVideosWithTag with the corrected guard. */
    method SearchVideosWithTagIntended(tag: string, answer: Option<int>) returns (results: seq<Video>, o: Outcome)
      requires Valid()
      modifies this
      ensures Valid()
      ensures results == if '#' in tag then TagMatches(SortByTitle(library), tag, flagged) else []
      ensures o == Ok && flagged == old(flagged) && playlists == old(playlists)
      ensures SelectionIndex(answer, |results|).Some? ==>
        current == Some(results[SelectionIndex(answer, |results|).value]) && !paused
      ensures SelectionIndex(answer, |results|).None? ==>
        current == old(current) && paused == old(paused)
    {
      results := TagResults(tag);
      o := Ok;
      if '#' !in tag {
        return [], Ok;
      }
      TagMatchesPlayable(library, tag, flagged);
      if results != [] {
        o := PlayChoice(results, SelectionIndex(answer, |results|));
      }
    }

    // ---- moderation ----

    /** flagVideo(id): stops the video if it is current, then flags it with
        "Not supplied", replacing any earlier reason. */
    method FlagVideo(id: string) returns (o: Outcome)
      requires Valid()
      modifies this
      ensures Valid()
      ensures paused == old(paused) && playlists == old(playlists)
      ensures LookupVideo(library, id).None? ==>
        o == NotFound(VideoSubject) && flagged == old(flagged) && current == old(current)
      ensures LookupVideo(library, id).Some? ==>
        o == Ok && flagged == old(flagged)[id := NotSupplied]
        && current == if old(current) == LookupVideo(library, id) then None else old(current)
    {
      var video := FindVideo(id);
      if current == video {
        var _ := StopVideo();
      }
      if video.None? {
        return NotFound(VideoSubject);
      }
      if current.Some? {
        LookupVideoUnique(library, current.value);
      }
      flagged := flagged[id := NotSupplied];
      o := Ok;
    }

    /** flagVideo(id, reason): stops the video if it is current; then flags
        it, with spaces in the reason replaced by '_', unless it is unknown or
        already flagged. */
    method FlagVideoWithReason(id: string, reason: string) returns (o: Outcome)
      requires Valid()
      modifies this
      ensures Valid()
      ensures paused == old(paused) && playlists == old(playlists)
      ensures LookupVideo(library, id).None? ==>
        o == NotFound(VideoSubject) && flagged == old(flagged) && current == old(current)
      ensures LookupVideo(library, id).Some? ==>
        current == if old(current) == LookupVideo(library, id) then None else old(current)
      ensures LookupVideo(library, id).Some? && id in old(flagged) ==>
        o == AlreadyExists && flagged == old(flagged)
      ensures LookupVideo(library, id).Some? && id !in old(flagged) ==>
        o == Ok && flagged == old(flagged)[id := ReplaceSpaces(reason)]
    {
      var video := FindVideo(id);
      if current == video {
        var _ := StopVideo();
      }
      if video.None? {
        return NotFound(VideoSubject);
      }
      if id in flagged {
        return AlreadyExists;
      }
      if current.Some? {
        LookupVideoUnique(library, current.value);
      }
      flagged := flagged[id := ReplaceSpaces(reason)];
      o := Ok;
    }

    /** allowVideo as written: reports success for a flagged video but keeps
        its flag, so no state changes at all. */
    method AllowVideo(id: string) returns (o: Outcome)
      ensures LookupVideo(library, id).None? ==> o == NotFound(VideoSubject)
      ensures LookupVideo(library, id).Some? && id in flagged ==> o == Ok
      ensures LookupVideo(library, id).Some? && id !in flagged ==> o == InvalidState
      ensures o == Ok ==> id in flagged
    {
      var video := FindVideo(id);
      if video.None? {
        return NotFound(VideoSubject);
      }
      if id in flagged {
        o := Ok;
      } else {
        o := InvalidState;
      }
    }

    /** allowVideo as its success message describes it: the flag is removed. */
    method AllowVideoIntended(id: string) returns (o: Outcome)
      requires Valid()
      modifies this
      ensures Valid()
      ensures current == old(current) && paused == old(paused) && playlists == old(playlists)
      ensures LookupVideo(library, id).None? ==> o == NotFound(VideoSubject) && flagged == old(flagged)
      ensures LookupVideo(library, id).Some? && id in old(flagged) ==>
        o == Ok && flagged == old(flagged) - {id} && id !in flagged
      ensures LookupVideo(library, id).Some? && id !in old(flagged) ==>
        o == InvalidState && flagged == old(flagged)
    {
      var video := FindVideo(id);
      if video.None? {
        return NotFound(VideoSubject);
      }
      if id in flagged {
        flagged := flagged - {id};
        o := Ok;
      } else {
        o := InvalidState;
      }
    }
  }

  /** Moving one key from the ids still to do to the ids done keeps the split. */
  lemma MoveKey(all: set<string>, keys: set<string>, removed: set<string>, k: string)
    requires k in keys && keys <= all && removed == all - keys
    ensures keys - {k} <= all && removed + {k} == all - (keys - {k})
  {
  }

  /** Excluding one more id removes the video that carries it, if any. */
  lemma ExcludeOne(library: seq<Video>, removed: set<string>, k: string)
    requires DistinctIds(library) && k !in removed
    ensures Exclude(library, removed + {k}) ==
      match LookupVideo(library, k)
      case Some(v) => RemoveFirst(Exclude(library, removed), v)
      case None => Exclude(library, removed)
  {
    match LookupVideo(library, k)
    case Some(v) => ExcludeStep(library, removed, v);
    case None => ExcludeUnaffected(library, removed, k);
  }

  /** Nothing excluded: the library itself. */
  lemma {:induction false} ExcludeNone(s: seq<Video>)
    ensures Exclude(s, {}) == s
  {
    if s != [] {
      ExcludeNone(s[1..]);
      assert s == [s[0]] + s[1..];
    }
  }

  /** Dropping one name keeps the set ascending and distinct ignoring case. */
  lemma RemoveKeepsOrder(names: seq<string>, at: nat)
    requires at < |names|
    requires StrictlyAscending(names) && DistinctIgnoringCase(names)
    ensures StrictlyAscending(names[..at] + names[at + 1..])
    ensures DistinctIgnoringCase(names[..at] + names[at + 1..])
  {
    var r := names[..at] + names[at + 1..];
    forall a, b | 0 <= a < b < |r|
      ensures Less(r[a], r[b]) && !EqualsIgnoreCase(r[a], r[b])
    {
      var a' := if a < at then a else a + 1;
      var b' := if b < at then b else b + 1;
      assert r[a] == names[a'] && r[b] == names[b'];
    }
  }
}
