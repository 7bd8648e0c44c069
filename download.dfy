/** `download_single_video` (python/scripts/yt2mp4.py:79-127) as one
    pipeline: select a stream, build the output path from the sanitised
    title, fetch the stream's URL, open the file and copy the body into it.
    The stream list and the response are inputs: the client library and
    the network are not part of the model. */
module Download {
  import opened Wrappers
  import opened Sanitize
  import opened Streams
  import opened Paths
  import opened Transfer

  /** What `requests.get(url, stream=True)` yields: the declared
      content-length (absent: the script uses 0) and the body's chunks. */
  datatype Response = Response(contentLength: Option<nat>, chunks: seq<seq<byte>>)

  /** The script's final message: where the file went, at which resolution,
      and the bar's final count against its declared total; or the error
      that ended the item. */
  datatype Outcome =
    | Downloaded(path: string, res: string, progress: nat, total: nat)
    | Failed(error: SelectError)

  /** `int(response.headers.get('content-length', 0))`: the declared
      length, or 0 when the header is absent. */
  function DeclaredTotal(r: Response): (total: nat)
    ensures r.contentLength.None? ==> total == 0
    ensures r.contentLength.Some? ==> total == r.contentLength.value
  {
    match r.contentLength
    case Some(n) => n
    case None => 0
  }

  /** A failed selection leaves every file as it was; a successful one
      writes the fetched body, all of it, to the sanitised output path and
      reports the resolution actually selected. */
  method DownloadSingleVideo(disk: Disk, streams: seq<Stream>, title: string, folder: Option<string>,
                             res: string, ripAudio: bool, fetch: string -> Response)
    returns (outcome: Outcome)
    modifies disk
    ensures Select(streams, res, ripAudio).Failure? ==>
      outcome == Failed(Select(streams, res, ripAudio).error) && disk.files == old(disk.files)
    ensures Select(streams, res, ripAudio).Success? ==>
      var sel := Select(streams, res, ripAudio).value;
      var path := OutputPath(folder, Sanitized(title), ripAudio);
      var response := fetch(sel.stream.url);
      && outcome == Downloaded(path, sel.res, Progress(response.chunks), DeclaredTotal(response))
      && disk.files == old(disk.files)[path := Flatten(response.chunks)]
  {
    var selected := Select(streams, res, ripAudio);
    if selected.Failure? {
      return Failed(selected.error);
    }
    var sel := selected.value;
    var safeTitle := SanitizeFilename(title);
    var path := OutputPath(folder, safeTitle, ripAudio);
    var response := fetch(sel.stream.url);
    assert safeTitle == Sanitized(title);
    var bar := new ProgressBar(DeclaredTotal(response));
    disk.Open(path);
    ghost var afterOpen := disk.files;
    assert afterOpen == old(disk.files)[path := []];
    CopyChunks(response.chunks, bar, disk, path);
    assert disk.files == afterOpen[path := [] + Flatten(response.chunks)];
    assert [] + Flatten(response.chunks) == Flatten(response.chunks);
    outcome := Downloaded(path, sel.res, bar.n, bar.total);
  }

  /** A response that declares its true length and delivers the body in
      1024-byte chunks fills the file with exactly that body, and the bar
      ends at its declared total. */
  lemma FullResponseCompletesBar(body: seq<byte>)
    ensures var response := Response(Some(|body|), ChunksOf(body, BlockSize));
      && Flatten(response.chunks) == body
      && Progress(response.chunks) == DeclaredTotal(response)
  {
    CompleteBodyCopied(body);
  }
}
