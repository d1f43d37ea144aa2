/** Clients of the player that rely on the operations' contracts alone:
    command sequences with the outcomes they must give. */
module Session {
  import opened Collections
  import opened Text
  import opened Videos
  import opened Player

  function Cats(): Video
  {
    Video("amazing_cats_video_id", "Amazing Cats", ["#cat", "#animal"])
  }

  /** Playing the same video twice, then pausing and resuming twice each. */
  method PlaybackSession()
  {
    var player := new VideoPlayer([Cats()]);
    assert LookupVideo([Cats()], Cats().id) == Some(Cats());
    var o := player.PlayVideo(Cats().id);
    assert o == Ok && player.current == Some(Cats()) && !player.paused;
    o := player.PlayVideo(Cats().id);
    assert o == Ok && player.current == Some(Cats());
    o := player.PauseVideo();
    assert o == Ok && player.paused;
    o := player.PauseVideo();
    assert o == InvalidState && player.paused;
    o := player.ContinueVideo();
    assert o == Ok && !player.paused;
    o := player.ContinueVideo();
    assert o == InvalidState;
    o := player.StopVideo();
    assert o == Ok && player.current == None;
    o := player.StopVideo();
    assert o == NotFound(PlaybackSubject);
  }

  /** Names are unique ignoring case, and deletion forgets the name. */
  method PlaylistNamesSession()
  {
    var player := new VideoPlayer([Cats()]);
    var o := player.CreatePlaylist("fun");
    assert o == Ok && Names(player.playlists) == ["fun"];
    assert Lower("FUN") == Lower("fun");
    o := player.CreatePlaylist("FUN");
    assert o == AlreadyExists && Names(player.playlists) == ["fun"];
    o := player.DeletePlaylist("FUN");
    assert o == Ok && player.playlists == [];
    o := player.ClearPlaylist("fun");
    assert o == NotFound(PlaylistSubject);
  }

  /** A video is added once; adding it again is rejected. */
  method PlaylistVideosSession()
  {
    var player := new VideoPlayer([Cats()]);
    var o := player.CreatePlaylist("fun");
    assert o == Ok && Names(player.playlists) == ["fun"];
    assert LookupVideo([Cats()], Cats().id) == Some(Cats());
    o := player.AddVideoToPlaylist("fun", Cats().id);
    assert o == Ok && player.playlists[0].videos == [Cats()];
    o := player.AddVideoToPlaylist("fun", Cats().id);
    assert o == AlreadyExists && player.playlists[0].videos == [Cats()];
  }

  /** Flagging the current video stops it and blocks it from playing again. */
  method ModerationSession()
  {
    var player := new VideoPlayer([Cats()]);
    assert LookupVideo([Cats()], Cats().id) == Some(Cats());
    var o := player.PlayVideo(Cats().id);
    o := player.FlagVideoWithReason(Cats().id, "dont like cats");
    assert o == Ok && player.current == None;
    assert player.flagged[Cats().id] == ReplaceSpaces("dont like cats");
    o := player.PlayVideo(Cats().id);
    assert o.Flagged? && player.current == None;
    o := player.PlayRandomVideo(7);
    ExcludeEmpty([Cats()], player.flagged.Keys);
    assert o == NotFound(VideoSubject);
    var results, searched := player.SearchVideosWithTag("cat", Some(1));
    assert results == [] && searched == Ok;
  }

  /** The search prompt as written: answering 0 to a non-empty result list
      selects place -1, which ends the command out of range; the corrected
      guard treats the answer as a no. */
  method SearchSession()
  {
    var player := new VideoPlayer([Cats()]);
    assert "amazing cats"[8..11] == "cat";
    assert OccursAt(Lower("Amazing Cats"), Lower("cat"), 8);
    ContainsIff(Lower("Amazing Cats"), Lower("cat"));
    assert [Cats()][..0] == [];
    var results, o := player.SearchVideos("cat", Some(0));
    assert results == [Cats()];
    assert o == OutOfRange && player.current == None;
    results, o := player.SearchVideosIntended("cat", Some(0));
    assert o == Ok && player.current == None;
    results, o := player.SearchVideosIntended("cat", Some(1));
    assert o == Ok && player.current == Some(Cats());
  }

  /** allowVideo as written: the success outcome leaves the flag in place,
      so the video still cannot be played. The corrected command lifts it. */
  method AllowSession()
  {
    var player := new VideoPlayer([Cats()]);
    assert LookupVideo([Cats()], Cats().id) == Some(Cats());
    var o := player.FlagVideo(Cats().id);
    assert o == Ok && Cats().id in player.flagged;
    o := player.AllowVideo(Cats().id);
    assert o == Ok;
    o := player.PlayVideo(Cats().id);
    assert o == Flagged(NotSupplied) && player.current == None;
    o := player.AllowVideoIntended(Cats().id);
    assert o == Ok;
    o := player.PlayVideo(Cats().id);
    assert o == Ok && player.current == Some(Cats());
  }
}
