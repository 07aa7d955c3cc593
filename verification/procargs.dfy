/**
  The macOS argument blob returned by the `KERN_PROCARGS2` kernel query:
  an `int` argument count, the executable path and its terminating NUL,
  a run of NUL padding, then the original argv strings, each NUL-terminated.
  The walk recovers the executable path and the first byte of argv[0].
 */
module ProcArgs {

  import opened Wrappers

  /** `sizeof(int)` on the platforms that provide the blob: the width of the leading count. */
  const IntSize: nat := 4

  /** What the walk recovers. */
  datatype Resolved = Resolved(execPath: seq<bv8>, argv0FirstChar: bv8)

  predicate NoNul(s: seq<bv8>)
  {
    forall k | 0 <= k < |s| :: s[k] != 0
  }

  /** From cursor `i`, the position of the next NUL byte, or the end of the buffer if there is none. */
  function SkipNonNul(buf: seq<bv8>, i: nat): (j: nat)
    requires i <= |buf|
    ensures i <= j <= |buf|
    ensures forall k | i <= k < j :: buf[k] != 0
    ensures j < |buf| ==> buf[j] == 0
    decreases |buf| - i
  {
    if i == |buf| || buf[i] == 0 then i else SkipNonNul(buf, i + 1)
  }

  /** From cursor `i`, the position of the next non-NUL byte, or the end of the buffer if there is none. */
  function SkipNul(buf: seq<bv8>, i: nat): (j: nat)
    requires i <= |buf|
    ensures i <= j <= |buf|
    ensures forall k | i <= k < j :: buf[k] == 0
    ensures j < |buf| ==> buf[j] != 0
    decreases |buf| - i
  {
    if i == |buf| || buf[i] != 0 then i else SkipNul(buf, i + 1)
  }

  /**
    The buffer holds what the walk needs: past the count there is a NUL
    (ending the path) and, somewhere after it, a non-NUL byte (starting
    argv[0]). Without both the source's cursor would run off the buffer.
   */
  predicate HasArgv0(buf: seq<bv8>)
  {
    exists i, j | IntSize <= i < j < |buf| :: buf[i] == 0 && buf[j] != 0
  }

  /**
    The walk: skip the count, take the path up to its NUL, skip the run of
    NULs, and read the byte there. `None` when the cursor would leave the
    buffer.
   */
  function Walk(buf: seq<bv8>): (r: Option<Resolved>)
    ensures r.Some? <==> HasArgv0(buf)
    ensures r.Some? ==>
      && NoNul(r.value.execPath)
      && IntSize + |r.value.execPath| < |buf|
      && buf[IntSize..IntSize + |r.value.execPath|] == r.value.execPath
      && buf[IntSize + |r.value.execPath|] == 0
      && r.value.argv0FirstChar != 0
      && exists a | IntSize + |r.value.execPath| < a < |buf| ::
           && buf[a] == r.value.argv0FirstChar
           && forall k | IntSize + |r.value.execPath| <= k < a :: buf[k] == 0
  {
    if |buf| < IntSize then None
    else
      var pathEnd := SkipNonNul(buf, IntSize);
      if pathEnd == |buf| then None
      else
        var argv0 := SkipNul(buf, pathEnd);
        if argv0 == |buf| then None
        else
          assert HasArgv0(buf) by {
            assert IntSize <= pathEnd < argv0 < |buf| && buf[pathEnd] == 0 && buf[argv0] != 0;
          }
          Some(Resolved(buf[IntSize..pathEnd], buf[argv0]))
  }

  /** The path ends at the first NUL after the count. */
  lemma SkipNonNulFindsFirstNul(buf: seq<bv8>, i: nat, j: nat)
    requires i <= j < |buf|
    requires forall k | i <= k < j :: buf[k] != 0
    requires buf[j] == 0
    ensures SkipNonNul(buf, i) == j
  {
  }

  /** The padding ends at the first non-NUL byte after the path. */
  lemma SkipNulFindsFirstNonNul(buf: seq<bv8>, i: nat, j: nat)
    requires i <= j < |buf|
    requires forall k | i <= k < j :: buf[k] == 0
    requires buf[j] != 0
    ensures SkipNul(buf, i) == j
  {
  }

  /**
    The walk as the source writes it, with two cursor loops; the
    precondition is what the source silently relies on.
   */
  method WalkCursor(buf: seq<bv8>) returns (execPath: seq<bv8>, argv0FirstChar: bv8)
    requires HasArgv0(buf)
    ensures Walk(buf) == Some(Resolved(execPath, argv0FirstChar))
  {
    ghost var nul, nonNul :| IntSize <= nul < nonNul < |buf| && buf[nul] == 0 && buf[nonNul] != 0;
    var cursor := IntSize;
    while buf[cursor] != 0
      invariant IntSize <= cursor <= nul
      invariant forall k | IntSize <= k < cursor :: buf[k] != 0
      decreases nul - cursor
    {
      cursor := cursor + 1;
    }
    var pathEnd := cursor;
    SkipNonNulFindsFirstNul(buf, IntSize, pathEnd);
    while buf[cursor] == 0
      invariant pathEnd <= cursor <= nonNul
      invariant forall k | pathEnd <= k < cursor :: buf[k] == 0
      decreases nonNul - cursor
    {
      cursor := cursor + 1;
    }
    SkipNulFindsFirstNonNul(buf, pathEnd, cursor);
    execPath := buf[IntSize..pathEnd];
    argv0FirstChar := buf[cursor];
  }

  /**
    What the kernel lays out for a process: the count bytes, the executable
    path, `padding` NUL bytes (the path's terminator included), then the
    argv strings.
   */
  datatype Image = Image(argc: seq<bv8>, execPath: seq<bv8>, padding: nat, argv: seq<seq<bv8>>)

  function Zeros(n: nat): (z: seq<bv8>)
    ensures |z| == n && forall k | 0 <= k < n :: z[k] == 0
  {
    seq(n, k => 0)
  }

  /** The argv strings, each followed by its NUL. */
  function JoinStrings(strs: seq<seq<bv8>>): (out: seq<bv8>)
    ensures |strs| > 0 && |strs[0]| > 0 ==> |out| > 0 && out[0] == strs[0][0]
  {
    if |strs| == 0 then [] else strs[0] + [0] + JoinStrings(strs[1..])
  }

  function Encode(img: Image): seq<bv8>
  {
    img.argc + img.execPath + Zeros(img.padding) + JoinStrings(img.argv)
  }

  /**
    An image the kernel can produce for a process with a non-empty argv[0]:
    a full-width count, a path without NULs, and at least the path's
    terminating NUL.
   */
  predicate ValidImage(img: Image)
  {
    && |img.argc| == IntSize
    && NoNul(img.execPath)
    && img.padding >= 1
    && |img.argv| > 0
    && |img.argv[0]| > 0
    && NoNul(img.argv[0])
  }

  /**
    Round trip: walking the blob laid out for a process recovers exactly its
    executable path and the first byte of its argv[0].
   */
  lemma WalkRecoversImage(img: Image)
    requires ValidImage(img)
    ensures Walk(Encode(img)) == Some(Resolved(img.execPath, img.argv[0][0]))
  {
    var buf := Encode(img);
    var pathEnd := IntSize + |img.execPath|;
    var argv0 := pathEnd + img.padding;
    var tail := JoinStrings(img.argv);
    assert buf == img.argc + img.execPath + Zeros(img.padding) + tail;
    assert forall k | IntSize <= k < pathEnd :: buf[k] == img.execPath[k - IntSize];
    assert forall k | pathEnd <= k < argv0 :: buf[k] == 0;
    assert buf[argv0] == tail[0];
    SkipNonNulFindsFirstNul(buf, IntSize, pathEnd);
    SkipNulFindsFirstNonNul(buf, pathEnd, argv0);
    assert buf[IntSize..pathEnd] == img.execPath;
  }

  /**
    The layout cannot tell an empty argv[0] from padding: with an empty
    argv[0] the walk reads the first byte of argv[1] instead.
   */
  lemma EmptyArgv0ReadsNextString(argc: seq<bv8>, execPath: seq<bv8>, padding: nat, next: seq<bv8>, rest: seq<seq<bv8>>)
    requires |argc| == IntSize && NoNul(execPath) && padding >= 1
    requires |next| > 0 && NoNul(next)
    ensures Walk(Encode(Image(argc, execPath, padding, [[], next] + rest))) == Some(Resolved(execPath, next[0]))
  {
    var strs := [[], next] + rest;
    assert strs[1..] == [next] + rest;
    assert JoinStrings(strs) == [0] + JoinStrings(strs[1..]);
    var img := Image(argc, execPath, padding + 1, [next] + rest);
    assert Zeros(padding) + ([0] + JoinStrings([next] + rest)) == Zeros(padding + 1) + JoinStrings([next] + rest);
    assert Encode(Image(argc, execPath, padding, strs)) == Encode(img);
    WalkRecoversImage(img);
  }
}
