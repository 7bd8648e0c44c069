/** `sanitize_filename` (python/scripts/yt2mp4.py:20-25): every character a
    file name may not contain is replaced by an underscore, one invalid
    character at a time. */
module Sanitize {

  /** The nine characters the script refuses in a file name, in the order
      its loop visits them. */
  const InvalidChars: seq<char> := ['\\', '/', ':', '*', '?', '\"', '<', '>', '|']

  /** What every invalid character becomes. */
  const Replacement: char := '_'

  predicate IsInvalid(c: char) {
    c in InvalidChars
  }

  /** Python's `str.replace(old, new)` for one-character arguments:
      every occurrence of `from` becomes `to`, nothing else moves. */
  function Replace(s: string, from: char, to: char): (r: string)
    ensures |r| == |s|
    ensures forall i :: 0 <= i < |s| ==> r[i] == (if s[i] == from then to else s[i])
  {
    if s == [] then []
    else [if s[0] == from then to else s[0]] + Replace(s[1..], from, to)
  }

  /** The reference meaning of sanitising, one character at a time. */
  function SanitizeChar(c: char): (d: char)
    ensures !IsInvalid(d)
    ensures !IsInvalid(c) ==> d == c
  {
    if IsInvalid(c) then Replacement else c
  }

  /** Sanitising position by position: the specification the loop in
      `SanitizeFilename` is proved against. */
  function Sanitized(title: string): (r: string)
    ensures |r| == |title|
    ensures forall i :: 0 <= i < |title| ==> r[i] == SanitizeChar(title[i])
  {
    if title == [] then [] else [SanitizeChar(title[0])] + Sanitized(title[1..])
  }

  /** The script's loop: for each invalid character in turn, rebind the
      title to the title with that character replaced. */
  method SanitizeFilename(title: string) returns (r: string)
    ensures r == Sanitized(title)
  {
    r := title;
    for k := 0 to |InvalidChars|
      invariant |r| == |title|
      invariant forall i :: 0 <= i < |title| ==>
        r[i] == (if title[i] in InvalidChars[..k] then Replacement else title[i])
    {
      r := Replace(r, InvalidChars[k], Replacement);
      assert InvalidChars[..k + 1] == InvalidChars[..k] + [InvalidChars[k]];
    }
    assert InvalidChars[..|InvalidChars|] == InvalidChars;
  }

  /** Sanitising keeps every character outside the invalid set where it
      was and turns every invalid one into an underscore; so it leaves no
      invalid character behind. */
  lemma {:induction false} SanitizedClean(title: string)
    ensures forall c :: c in Sanitized(title) ==> !IsInvalid(c)
    ensures forall i :: 0 <= i < |title| && !IsInvalid(title[i]) ==> Sanitized(title)[i] == title[i]
    ensures forall i :: 0 <= i < |title| && IsInvalid(title[i]) ==> Sanitized(title)[i] == Replacement
  {
    var r := Sanitized(title);
    forall c | c in r ensures !IsInvalid(c) {
      var i :| 0 <= i < |r| && r[i] == c;
      assert r[i] == SanitizeChar(title[i]);
    }
  }

  /** A sanitised title is a fixed point: the underscore is itself valid. */
  lemma {:induction false} SanitizedIdempotent(title: string)
    ensures Sanitized(Sanitized(title)) == Sanitized(title)
  {
    var r := Sanitized(title);
    assert !IsInvalid(Replacement);
    forall i | 0 <= i < |r| ensures Sanitized(r)[i] == r[i] {
      assert r[i] == SanitizeChar(title[i]);
    }
  }
}
