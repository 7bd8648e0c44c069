/** Stream selection in `download_single_video`
    (python/scripts/yt2mp4.py:82-95): the first audio-only stream, or the
    first progressive mp4 stream at the requested resolution, falling back
    once to 720p. */
module Streams {
  import opened Wrappers

  const FallbackRes: string := "720p"

  /** The attributes of a stream the script filters on, and the URL it
      fetches the stream's bytes from. */
  datatype Stream = Stream(progressive: bool, ext: string, resolution: string, onlyAudio: bool, url: string)

  datatype SelectError = NoAudioStream | NoVideoStream

  /** The stream to download and the resolution the script reports for it. */
  datatype Selection = Selection(stream: Stream, res: string)

  /** `filter(only_audio=True)` */
  predicate IsAudio(s: Stream) {
    s.onlyAudio
  }

  /** `filter(progressive=True, file_extension="mp4", resolution=res)` */
  predicate IsVideoAt(s: Stream, res: string) {
    s.progressive && s.ext == "mp4" && s.resolution == res
  }

  /** `streams[i]` is the first stream satisfying `p`. */
  ghost predicate FirstAt(streams: seq<Stream>, p: Stream -> bool, i: int) {
    0 <= i < |streams| && p(streams[i]) && forall j :: 0 <= j < i ==> !p(streams[j])
  }

  ghost predicate Exists(streams: seq<Stream>, p: Stream -> bool) {
    exists i :: 0 <= i < |streams| && p(streams[i])
  }

  /** `.filter(...).first()`: the first stream satisfying `p`, or None. */
  function First(streams: seq<Stream>, p: Stream -> bool): (r: Option<Stream>)
    ensures r.None? <==> !Exists(streams, p)
    ensures r.Some? ==> exists i :: FirstAt(streams, p, i) && r.value == streams[i]
  {
    if streams == [] then None
    else if p(streams[0]) then
      assert FirstAt(streams, p, 0);
      Some(streams[0])
    else
      var r := First(streams[1..], p);
      assert Exists(streams, p) ==> Exists(streams[1..], p) by {
        if Exists(streams, p) {
          var i :| 0 <= i < |streams| && p(streams[i]);
          assert streams[1..][i - 1] == streams[i];
        }
      }
      assert r.Some? ==> exists i :: FirstAt(streams, p, i) && r.value == streams[i] by {
        if r.Some? {
          var i :| FirstAt(streams[1..], p, i) && r.value == streams[1..][i];
          assert FirstAt(streams, p, i + 1);
        }
      }
      r
  }

  /** The first audio-only stream in audio mode; otherwise the first
      progressive mp4 at `res`, else at 720p, with the reported resolution
      rebound to the one that matched. */
  function Select(streams: seq<Stream>, res: string, ripAudio: bool): (r: Result<Selection, SelectError>)
    // Audio mode: the first audio-only stream, reported at the requested resolution.
    ensures ripAudio ==> (r.Success? <==> Exists(streams, IsAudio))
    ensures ripAudio && r.Success? ==>
      r.value.res == res && exists i :: FirstAt(streams, IsAudio, i) && r.value.stream == streams[i]
    ensures ripAudio && r.Failure? ==> r.error == NoAudioStream
    // The requested resolution is available: its first stream wins, no fallback.
    ensures !ripAudio && Exists(streams, s => IsVideoAt(s, res)) ==>
      r.Success? && r.value.res == res &&
      exists i :: FirstAt(streams, s => IsVideoAt(s, res), i) && r.value.stream == streams[i]
    // Only the fallback is available: its first stream, reported as 720p.
    ensures !ripAudio && !Exists(streams, s => IsVideoAt(s, res)) && Exists(streams, s => IsVideoAt(s, FallbackRes)) ==>
      r.Success? && r.value.res == FallbackRes &&
      exists i :: FirstAt(streams, s => IsVideoAt(s, FallbackRes), i) && r.value.stream == streams[i]
    // Neither is available.
    ensures !ripAudio && !Exists(streams, s => IsVideoAt(s, res)) && !Exists(streams, s => IsVideoAt(s, FallbackRes)) ==>
      r == Failure(NoVideoStream)
  {
    if ripAudio then
      match First(streams, IsAudio)
      case None => Failure(NoAudioStream)
      case Some(s) => Success(Selection(s, res))
    else
      match First(streams, s => IsVideoAt(s, res))
      case Some(s) => Success(Selection(s, res))
      case None =>
        match First(streams, s => IsVideoAt(s, FallbackRes))
        case Some(s) => Success(Selection(s, FallbackRes))
        case None => Failure(NoVideoStream)
  }

  /** Whatever is selected is a stream of the list that passes the filter
      of the resolution it is reported at. */
  lemma SelectedStreamMatches(streams: seq<Stream>, res: string, ripAudio: bool)
    ensures var r := Select(streams, res, ripAudio);
      r.Success? ==>
        && r.value.stream in streams
        && (ripAudio ==> IsAudio(r.value.stream))
        && (!ripAudio ==> IsVideoAt(r.value.stream, r.value.res))
  {
    var r := Select(streams, res, ripAudio);
    if r.Success? {
      if ripAudio {
        var i :| FirstAt(streams, IsAudio, i) && r.value.stream == streams[i];
      } else if Exists(streams, s => IsVideoAt(s, res)) {
        var i :| FirstAt(streams, s => IsVideoAt(s, res), i) && r.value.stream == streams[i];
      } else {
        var i :| FirstAt(streams, s => IsVideoAt(s, FallbackRes), i) && r.value.stream == streams[i];
      }
    }
  }
}
