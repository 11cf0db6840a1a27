/**
 * What lookup_word (src/screener.c) makes of each chunk it reads from the grep pipe:
 * the chunk lands in `buffer`, its last byte is overwritten with a NUL terminator,
 * and the buffer is copied with strcpy, which stops at the first NUL. The line that
 * is then printed is what that copy holds.
 */
module Chunks {
  import opened Wrappers

  newtype byte = x: int | 0 <= x < 256

  const NUL: byte := 0
  const NEWLINE: byte := 10
  /** The size of `buffer`, the most one read can return (MAXBUFFER). */
  const MaxBuffer: nat := 1014

  /** What strcpy copies out of `s`: everything before the first NUL, or all of `s`. */
  function UpToNul(s: seq<byte>): (r: seq<byte>)
    ensures |r| <= |s| && r == s[..|r|]
    ensures NUL !in r
    ensures |r| < |s| ==> s[|r|] == NUL
  {
    if s == [] then []
    else if s[0] == NUL then []
    else [s[0]] + UpToNul(s[1..])
  }

  /** A string without a NUL is copied whole. */
  lemma {:induction false} UpToNulWhole(s: seq<byte>)
    requires NUL !in s
    ensures UpToNul(s) == s
  {
    if s != [] {
      UpToNulWhole(s[1..]);
      assert [s[0]] + s[1..] == s;
    }
  }

  /**
   * The line printed for a chunk, as written: `buffer[n - 1] = '\0'` drops the last
   * byte whatever it is. A read that returns nothing (`n > 0` fails) prints nothing.
   */
  function EmittedLine(chunk: seq<byte>): (r: Option<seq<byte>>)
    requires |chunk| <= MaxBuffer
    ensures r.None? <==> chunk == []
    ensures r.Some? ==> |r.value| < |chunk| && r.value == chunk[..|r.value|] && NUL !in r.value
    ensures r.Some? && NUL !in chunk ==> r.value == chunk[..|chunk| - 1]
  {
    if chunk == [] then None
    else
      var line := UpToNul(chunk[..|chunk| - 1]);
      if NUL !in chunk then UpToNulWhole(chunk[..|chunk| - 1]); Some(line)
      else Some(line)
  }

  /**
   * A chunk that does not end in a newline (a read that stops in the middle of a
   * line, or a line longer than the buffer) loses its last byte: "ab" prints as "a".
   */
  lemma LastByteLost()
    ensures var chunk: seq<byte> := [97, 98];
            chunk[|chunk| - 1] != NEWLINE && EmittedLine(chunk) == Some([97])
  {
    var chunk: seq<byte> := [97, 98];
    assert chunk[..1] == [97];
    assert UpToNul([97]) == [97] + UpToNul([]);
  }

  /**
   * The line printed for a chunk as the comment beside the code means it: the final
   * newline that tail and grep put after each line is removed, and nothing else.
   */
  function StripNewline(chunk: seq<byte>): (r: Option<seq<byte>>)
    requires |chunk| <= MaxBuffer
    ensures r.None? <==> chunk == []
    ensures r.Some? ==> |r.value| <= |chunk| && r.value == chunk[..|r.value|] && NUL !in r.value
    ensures r.Some? && NUL !in chunk ==>
              r.value == if chunk[|chunk| - 1] == NEWLINE then chunk[..|chunk| - 1] else chunk
  {
    if chunk == [] then None
    else if chunk[|chunk| - 1] == NEWLINE then
      var line := UpToNul(chunk[..|chunk| - 1]);
      if NUL !in chunk then UpToNulWhole(chunk[..|chunk| - 1]); Some(line)
      else Some(line)
    else
      var line := UpToNul(chunk);
      if NUL !in chunk then UpToNulWhole(chunk); Some(line)
      else Some(line)
  }

  /** Where the chunk does end in a newline, the code as written already does the right thing. */
  lemma StripNewlineAgrees(chunk: seq<byte>)
    requires |chunk| <= MaxBuffer && chunk != [] && chunk[|chunk| - 1] == NEWLINE
    ensures StripNewline(chunk) == EmittedLine(chunk)
  {
  }

  /**
   * A line without NUL bytes comes back whole, whether the read delivered it with its
   * newline or, up to a full buffer, without.
   */
  lemma StripNewlineRecovers(line: seq<byte>)
    requires |line| <= MaxBuffer && NUL !in line
    ensures |line| < MaxBuffer ==> StripNewline(line + [NEWLINE]) == Some(line)
    ensures line != [] && line[|line| - 1] != NEWLINE ==> StripNewline(line) == Some(line)
  {
    if |line| < MaxBuffer {
      assert (line + [NEWLINE])[..|line|] == line;
    }
  }
}
