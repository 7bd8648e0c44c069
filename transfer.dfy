/** The copy loop of `download_single_video` (python/scripts/yt2mp4.py:112-120):
    the response body arrives in chunks of at most 1024 bytes; every
    non-empty chunk advances the progress bar by its length and is then
    appended to the output file. */
module Transfer {

  type byte = bv8

  /** `block_size`, the chunk size asked of the response. */
  const BlockSize: nat := 1024

  /** The bytes of the chunks, in order. */
  function Flatten(chunks: seq<seq<byte>>): seq<byte> {
    if chunks == [] then [] else chunks[0] + Flatten(chunks[1..])
  }

  /** What the progress bar counts: the lengths of the non-empty chunks. */
  function Progress(chunks: seq<seq<byte>>): nat {
    if chunks == [] then 0
    else (if chunks[0] != [] then |chunks[0]| else 0) + Progress(chunks[1..])
  }

  lemma {:induction false} FlattenAppend(chunks: seq<seq<byte>>, c: seq<byte>)
    ensures Flatten(chunks + [c]) == Flatten(chunks) + c
    ensures Progress(chunks + [c]) == Progress(chunks) + (if c != [] then |c| else 0)
  {
    if chunks != [] {
      assert (chunks + [c])[1..] == chunks[1..] + [c];
      FlattenAppend(chunks[1..], c);
    } else {
      assert chunks + [c] == [c];
    }
  }

  /** The bar's final count is the number of bytes written: skipping empty
      chunks changes neither. */
  lemma {:induction false} ProgressIsBytesWritten(chunks: seq<seq<byte>>)
    ensures Progress(chunks) == |Flatten(chunks)|
  {
    if chunks != [] {
      ProgressIsBytesWritten(chunks[1..]);
    }
  }

  /** `iter_content(chunk_size=size)` over a body held in full: consecutive
      slices of `size` bytes, the last one possibly shorter. */
  function ChunksOf(body: seq<byte>, size: nat): (chunks: seq<seq<byte>>)
    requires size > 0
    ensures forall c :: c in chunks ==> 0 < |c| <= size
    ensures Flatten(chunks) == body
    decreases |body|
  {
    if body == [] then []
    else if |body| <= size then
      assert Flatten([body]) == body + Flatten([]);
      [body]
    else
      var rest := ChunksOf(body[size..], size);
      assert ([body[..size]] + rest)[1..] == rest;
      assert body[..size] + body[size..] == body;
      [body[..size]] + rest
  }

  /** The console progress indicator: a declared total and a running count. */
  class ProgressBar {
    var total: nat
    var n: nat

    constructor (total: nat)
      ensures this.total == total && n == 0
    {
      this.total := total;
      n := 0;
    }

    /** `bar.update(k)` */
    method Update(k: nat)
      modifies this
      ensures n == old(n) + k && total == old(total)
    {
      n := n + k;
    }
  }

  /** The files the script writes, by path. */
  class Disk {
    var files: map<string, seq<byte>>

    constructor ()
      ensures files == map[]
    {
      files := map[];
    }

    /** `open(path, 'wb')`: creates the file or truncates it. */
    method Open(path: string)
      modifies this
      ensures files == old(files)[path := []]
    {
      files := files[path := []];
    }

    /** `file.write(data)` on a file opened at `path`. */
    method Write(path: string, data: seq<byte>)
      requires path in files
      modifies this
      ensures files == old(files)[path := old(files)[path] + data]
    {
      files := files[path := files[path] + data];
    }
  }

  /** The loop at lines 117-120: the file at `path` grows by the chunks in
      order, the bar by the bytes of the non-empty ones, nothing else
      changes. */
  method CopyChunks(chunks: seq<seq<byte>>, bar: ProgressBar, disk: Disk, path: string)
    requires path in disk.files
    modifies bar, disk
    ensures disk.files == old(disk.files)[path := old(disk.files)[path] + Flatten(chunks)]
    ensures bar.n == old(bar.n) + Progress(chunks) && bar.total == old(bar.total)
  {
    ghost var before := disk.files[path];
    assert chunks[..0] == [] && before + [] == before;
    assert disk.files[path := before] == disk.files;
    for i := 0 to |chunks|
      invariant disk.files == old(disk.files)[path := before + Flatten(chunks[..i])]
      invariant bar.n == old(bar.n) + Progress(chunks[..i]) && bar.total == old(bar.total)
    {
      var data := chunks[i];
      FlattenAppend(chunks[..i], data);
      assert chunks[..i + 1] == chunks[..i] + [data];
      if data != [] {
        bar.Update(|data|);
        disk.Write(path, data);
        assert before + Flatten(chunks[..i]) + data == before + Flatten(chunks[..i + 1]);
      } else {
        assert Flatten(chunks[..i]) + data == Flatten(chunks[..i]);
      }
    }
    assert chunks[..|chunks|] == chunks;
  }

  /** A body delivered in 1024-byte chunks ends up in the file byte for
      byte, and the bar counts exactly its length. */
  lemma CompleteBodyCopied(body: seq<byte>)
    ensures Flatten(ChunksOf(body, BlockSize)) == body
    ensures Progress(ChunksOf(body, BlockSize)) == |body|
  {
    ProgressIsBytesWritten(ChunksOf(body, BlockSize));
  }
}
