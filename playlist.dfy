/** A named, ordered list of videos whose list is changed in place. The
    playlist itself does not reject duplicates; the player does. */
module Playlist {
  import opened Collections
  import opened Videos

  class VideoPlaylist {
    /** The name given at creation; `const`, so no operation can change it
        and reading it (getName) needs no frame. */
    const name: string
    /** The live list behind getVideos. */
    var videos: seq<Video>

    constructor (name: string)
      ensures this.name == name && videos == []
    {
      this.name := name;
      videos := [];
    }

    /** getVideos: the list itself, so every later change is visible through it. */
    function GetVideos(): (r: seq<Video>)
      reads this
      ensures r == videos
    {
      videos
    }

    /** addVideo: appends at the end, without a duplicate check. */
    method AddVideo(video: Video)
      modifies this
      ensures GetVideos() == old(GetVideos()) + [video]
      ensures |videos| == |old(videos)| + 1
      ensures forall i :: 0 <= i < |old(videos)| ==> videos[i] == old(videos)[i]
    {
      videos := videos + [video];
    }

    /** removeVideo: drops the first equal element, keeps the order of the
        rest, and is a no-op when the video is absent. */
    method RemoveVideo(video: Video)
      modifies this
      ensures GetVideos() == RemoveFirst(old(GetVideos()), video)
    {
      videos := RemoveFirst(videos, video);
    }

    /** removeAllVideos: the list is left empty; the name is a constant. */
    method RemoveAllVideos()
      modifies this
      ensures GetVideos() == []
    {
      videos := [];
    }
  }
}
