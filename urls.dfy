/** The text rules the driver applies to its input: the playlist test of
    `download_video` (python/scripts/yt2mp4.py:48) and the comma split of
    `main` (python/scripts/yt2mp4.py:138-147). */
module Urls {
  import opened Wrappers

  /** `str.lower` on the ASCII letters. */
  function LowerChar(c: char): (d: char)
    ensures 'A' <= c <= 'Z' ==> d as int == c as int + 32
    ensures !('A' <= c <= 'Z') ==> d == c
  {
    if 'A' <= c <= 'Z' then (c as int + 32) as char else c
  }

  function Lower(s: string): (r: string)
    ensures |r| == |s|
    ensures forall i :: 0 <= i < |s| ==> r[i] == LowerChar(s[i])
  {
    if s == [] then [] else [LowerChar(s[0])] + Lower(s[1..])
  }

  /** `t` occurs in `s` starting at position `i`. */
  ghost predicate OccursAt(s: string, t: string, i: int) {
    0 <= i && i + |t| <= |s| && s[i..i + |t|] == t
  }

  /** Python's `t in s` for strings: `t` is a substring of `s`. */
  function Contains(s: string, t: string): (b: bool)
    ensures b <==> exists i :: OccursAt(s, t, i)
    decreases |s|
  {
    if |t| > |s| then false
    else if s[..|t|] == t then
      assert OccursAt(s, t, 0);
      true
    else
      var b := Contains(s[1..], t);
      assert forall i :: OccursAt(s[1..], t, i) ==> OccursAt(s, t, i + 1) by {
        forall i | OccursAt(s[1..], t, i) ensures OccursAt(s, t, i + 1) {
          assert s[1..][i..i + |t|] == s[i + 1..i + 1 + |t|];
        }
      }
      assert forall i :: OccursAt(s, t, i) ==> i == 0 || OccursAt(s[1..], t, i - 1) by {
        forall i | OccursAt(s, t, i) && i != 0 ensures OccursAt(s[1..], t, i - 1) {
          assert s[1..][i - 1..i - 1 + |t|] == s[i..i + |t|];
        }
      }
      b
  }

  const PlaylistMarker: string := "playlist"

  /** The eight characters of `url` from position `i` lower-case to
      "playlist". */
  ghost predicate MarkerAt(url: string, i: int) {
    0 <= i && i + |PlaylistMarker| <= |url| && Lower(url[i..i + |PlaylistMarker|]) == PlaylistMarker
  }

  /** A URL names a playlist exactly when its lower-cased text contains
      "playlist"; so the test ignores case: it holds exactly when some
      eight-character window of the URL, lower-cased, reads "playlist". */
  function IsPlaylistUrl(url: string): (b: bool)
    ensures b <==> exists i :: MarkerAt(url, i)
  {
    var n := |PlaylistMarker|;
    assert forall i :: OccursAt(Lower(url), PlaylistMarker, i) <==> MarkerAt(url, i) by {
      forall i | 0 <= i && i + n <= |url|
        ensures OccursAt(Lower(url), PlaylistMarker, i) <==> MarkerAt(url, i)
      {
        assert Lower(url)[i..i + n] == Lower(url[i..i + n]);
      }
    }
    Contains(Lower(url), PlaylistMarker)
  }

  /** Lower-casing is idempotent, so lower-casing a URL first does not
      change how it is classified. */
  lemma {:induction false} LowerIdempotent(s: string)
    ensures Lower(Lower(s)) == Lower(s)
    ensures IsPlaylistUrl(Lower(s)) == IsPlaylistUrl(s)
  {
    var l := Lower(s);
    forall i | 0 <= i < |s| ensures Lower(l)[i] == l[i] {
      assert l[i] == LowerChar(s[i]);
    }
    assert Lower(l) == l;
  }

  /** The characters Python's `str.isspace` accepts, which `str.strip()`
      removes from both ends. */
  predicate IsSpace(c: char) {
    var n := c as int;
    (0x09 <= n <= 0x0D) || (0x1C <= n <= 0x20) || n == 0x85 || n == 0xA0 || n == 0x1680 ||
    (0x2000 <= n <= 0x200A) || n == 0x2028 || n == 0x2029 || n == 0x202F || n == 0x205F || n == 0x3000
  }

  /** Number of leading whitespace characters. */
  function LeadingSpaces(s: string): (k: nat)
    ensures k <= |s|
    ensures forall i :: 0 <= i < k ==> IsSpace(s[i])
    ensures k < |s| ==> !IsSpace(s[k])
  {
    if s == [] || !IsSpace(s[0]) then 0 else 1 + LeadingSpaces(s[1..])
  }

  /** Number of trailing whitespace characters. */
  function TrailingSpaces(s: string): (k: nat)
    ensures k <= |s|
    ensures forall i :: |s| - k <= i < |s| ==> IsSpace(s[i])
    ensures k < |s| ==> !IsSpace(s[|s| - 1 - k])
  {
    if s == [] || !IsSpace(s[|s| - 1]) then 0 else 1 + TrailingSpaces(s[..|s| - 1])
  }

  /** Python's `str.strip()`: the longest infix of `s` that neither starts
      nor ends with whitespace, once only whitespace has been cut away. */
  function Strip(s: string): (r: string)
    ensures |r| <= |s|
    ensures r == [] || (!IsSpace(r[0]) && !IsSpace(r[|r| - 1]))
    ensures r == [] ==> forall i :: 0 <= i < |s| ==> IsSpace(s[i])
    ensures r != [] ==>
      var lo := LeadingSpaces(s);
      lo + |r| <= |s| && s[lo..lo + |r|] == r &&
      (forall i :: lo + |r| <= i < |s| ==> IsSpace(s[i]))
  {
    var lo := LeadingSpaces(s);
    var t := s[lo..];
    t[..|t| - TrailingSpaces(t)]
  }

  /** Stripping twice is stripping once. */
  lemma StripIdempotent(s: string)
    ensures Strip(Strip(s)) == Strip(s)
  {
    var r := Strip(s);
    if r != [] {
      assert LeadingSpaces(r) == 0;
      assert TrailingSpaces(r) == 0;
    }
  }

  /** Python's `s.split(sep)` with an explicit separator: every separator
      ends one part and starts the next, so empty parts are kept. */
  function Split(s: string, sep: char): (parts: seq<string>)
    ensures |parts| >= 1
    ensures forall p :: p in parts ==> sep !in p
  {
    if s == [] then [[]]
    else
      var rest := Split(s[1..], sep);
      if s[0] == sep then [[]] + rest
      else [[s[0]] + rest[0]] + rest[1..]
  }

  /** `sep.join(parts)`, the inverse of `Split`. */
  function JoinWith(parts: seq<string>, sep: char): string
    requires |parts| >= 1
  {
    if |parts| == 1 then parts[0] else parts[0] + [sep] + JoinWith(parts[1..], sep)
  }

  function Count(s: string, c: char): nat {
    if s == [] then 0 else (if s[0] == c then 1 else 0) + Count(s[1..], c)
  }

  /** Splitting loses nothing: the parts joined back with the separator
      give the input, and there is one part more than separators. */
  lemma {:induction false} SplitJoinRoundTrip(s: string, sep: char)
    ensures JoinWith(Split(s, sep), sep) == s
    ensures |Split(s, sep)| == Count(s, sep) + 1
  {
    if s != [] {
      SplitJoinRoundTrip(s[1..], sep);
      var rest := Split(s[1..], sep);
      if s[0] == sep {
        assert Split(s, sep)[1..] == rest;
      } else {
        var parts := Split(s, sep);
        if |rest| == 1 {
          assert JoinWith(parts, sep) == [s[0]] + rest[0];
        } else {
          assert parts[1..] == rest[1..];
          assert JoinWith(parts, sep) == [s[0]] + rest[0] + [sep] + JoinWith(rest[1..], sep);
        }
        assert s == [s[0]] + s[1..];
      }
    }
  }

  /** The URLs `main` hands to `download_video`: a comma in the input makes
      it a list, split at every comma with each part stripped; otherwise
      the input is one URL, passed on unstripped. */
  function InputUrls(input: string): (urls: seq<string>)
    ensures ',' in input ==> |urls| == |Split(input, ',')| == Count(input, ',') + 1
    ensures ',' in input ==> forall i :: 0 <= i < |urls| ==> urls[i] == Strip(Split(input, ',')[i])
    ensures ',' !in input ==> urls == [input]
    ensures forall u :: u in urls ==> ',' !in u
  {
    if ',' in input then
      var parts := Split(input, ',');
      SplitJoinRoundTrip(input, ',');
      var urls := seq(|parts|, i requires 0 <= i < |parts| => Strip(parts[i]));
      assert forall u :: u in urls ==> ',' !in u by {
        forall u | u in urls ensures ',' !in u {
          var i :| 0 <= i < |urls| && urls[i] == u;
          assert ',' !in parts[i];
          StripIsInfix(parts[i]);
        }
      }
      urls
    else
      [input]
  }

  /** Everything in a stripped string was in the original. */
  lemma StripIsInfix(s: string)
    ensures forall c :: c in Strip(s) ==> c in s
  {
    var r := Strip(s);
    if r != [] {
      var lo := LeadingSpaces(s);
      forall c | c in r ensures c in s {
        var i :| 0 <= i < |r| && r[i] == c;
        assert s[lo + i] == c;
      }
    }
  }

  /** How `download_video` routes one URL: a playlist goes into the
      caller's folder, or else into a folder named after the playlist; a
      playlist whose title the metadata service cannot give is an error. */
  datatype Route = SingleVideo(folder: Option<string>) | PlaylistInto(dir: string) | NoPlaylistTitle

  /** Python truthiness of the folder argument: None and "" are both false. */
  predicate FolderGiven(folder: Option<string>): (b: bool)
    ensures b <==> folder != None && folder != Some("")
  {
    folder.Some? && folder.value != ""
  }

  /** `playlistTitle` is what the metadata lookup of lines 35-44 returns; it
      is consulted only for playlist URLs. */
  function RouteFor(url: string, folder: Option<string>, playlistTitle: Option<string>): (r: Route)
    ensures r.SingleVideo? <==> !IsPlaylistUrl(url)
    ensures r.SingleVideo? ==> r.folder == folder
    ensures r == NoPlaylistTitle <==> IsPlaylistUrl(url) && playlistTitle.None?
    ensures r.PlaylistInto? && FolderGiven(folder) ==> r.dir == folder.value
    ensures r.PlaylistInto? && !FolderGiven(folder) ==> playlistTitle == Some(r.dir)
  {
    if IsPlaylistUrl(url) then
      match playlistTitle
      case None => NoPlaylistTitle
      case Some(title) => PlaylistInto(if FolderGiven(folder) then folder.value else title)
    else
      SingleVideo(folder)
  }
}
