/** The output path of `download_single_video`
    (python/scripts/yt2mp4.py:98-110): the sanitised title with an `.mp3`
    or `.mp4` extension, inside the folder when one is given. */
module Paths {
  import opened Wrappers
  import opened Sanitize
  import Urls

  const Sep: char := '/'

  /** The extension follows the audio flag alone: it names the container the
      script asks for, no transcoding happens. */
  function Extension(ripAudio: bool): (e: string)
    ensures ripAudio <==> e == ".mp3"
    ensures !ripAudio <==> e == ".mp4"
    ensures Sep !in e
  {
    if ripAudio then ".mp3" else ".mp4"
  }

  /** POSIX `os.path.join(a, b)`: an absolute `b` replaces `a`; otherwise a
      separator goes between them unless `a` is empty or already ends in one. */
  function Join(a: string, b: string): (p: string)
    ensures b != [] && b[0] == Sep ==> p == b
    ensures !(b != [] && b[0] == Sep) && (a == [] || a[|a| - 1] == Sep) ==> p == a + b
    ensures !(b != [] && b[0] == Sep) ==> |p| >= |a| + |b| && p[..|a|] == a && p[|p| - |b|..] == b
    ensures !(b != [] && b[0] == Sep) && a != [] && a[|a| - 1] != Sep ==> |p| == |a| + 1 + |b| && p[|a|] == Sep
  {
    if b != [] && b[0] == Sep then b
    else if a == [] || a[|a| - 1] == Sep then a + b
    else a + [Sep] + b
  }

  /** Index of the last separator in `p`, or -1 when there is none. */
  function LastSep(p: string): (k: int)
    ensures -1 <= k < |p|
    ensures k >= 0 ==> p[k] == Sep
    ensures forall j :: k < j < |p| ==> p[j] != Sep
  {
    if p == [] then -1
    else if p[|p| - 1] == Sep then |p| - 1
    else LastSep(p[..|p| - 1])
  }

  /** `os.path.basename`: what follows the last separator. */
  function Basename(p: string): string {
    p[LastSep(p) + 1..]
  }

  /** The path the script opens for writing. */
  function OutputPath(folder: Option<string>, title: string, ripAudio: bool): (p: string)
    ensures !Urls.FolderGiven(folder) ==> p == title + Extension(ripAudio)
    ensures Urls.FolderGiven(folder) && Sep !in title ==>
      |p| > |folder.value| && p[..|folder.value|] == folder.value
    ensures Urls.FolderGiven(folder) && Sep !in title ==>
      p == folder.value + (if folder.value[|folder.value| - 1] == Sep then [] else [Sep]) + title + Extension(ripAudio)
  {
    var name := title + Extension(ripAudio);
    assert name[0] == (if title == [] then '.' else title[0]);
    if Urls.FolderGiven(folder) then Join(folder.value, name) else name
  }

  /** With a separator-free title, the last component of the output path is
      exactly the title with its extension, whatever the folder; so the
      file lands in the folder and nowhere else. */
  lemma OutputPathBasename(folder: Option<string>, title: string, ripAudio: bool)
    requires Sep !in title
    ensures Basename(OutputPath(folder, title, ripAudio)) == title + Extension(ripAudio)
  {
    var name := title + Extension(ripAudio);
    var p := OutputPath(folder, title, ripAudio);
    assert Sep !in name;
    assert p[|p| - |name|..] == name;
    if Urls.FolderGiven(folder) {
      assert p[|p| - |name| - 1] == Sep;
    }
  }

  /** The title the script uses is sanitised, so the lemma above always
      applies: a title like "a/b" cannot escape the folder. */
  lemma SanitizedOutputPath(folder: Option<string>, title: string, ripAudio: bool)
    ensures Basename(OutputPath(folder, Sanitized(title), ripAudio)) == Sanitized(title) + Extension(ripAudio)
  {
    SanitizedClean(title);
    assert IsInvalid(Sep);
    OutputPathBasename(folder, Sanitized(title), ripAudio);
  }
}
