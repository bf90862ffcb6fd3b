/** The C string functions the server uses, on buffers and NUL-terminated strings. */
module CStrings {
  import opened CTypes
  import opened Lines

  predicate NulFree(s: seq<byte>) {
    NUL !in s
  }

  /** strchr: the index of the first `c` before the first NUL, or -1. A buffer that holds neither is read
      past its end, which has no defined result. */
  function Strchr(buffer: seq<byte>, c: byte): (r: int)
    requires c in buffer || NUL in buffer
    ensures r >= 0 ==> r < |buffer| && buffer[r] == c && c !in buffer[..r] && NulFree(buffer[..r])
    ensures r < 0 ==> r == -1
  {
    if buffer[0] == c then 0
    else if buffer[0] == NUL then -1
    else
      var r := Strchr(buffer[1..], c);
      assert r >= 0 ==> buffer[..r + 1] == [buffer[0]] + buffer[1..][..r];
      if r < 0 then -1 else r + 1
  }

  /** strncpy into a destination of `n` bytes: what follows a NUL is padded with NULs. */
  function Strncpy(source: seq<byte>, n: nat): (r: seq<byte>)
    requires n <= |source|
    ensures |r| == n
  {
    if n == 0 then []
    else if source[0] == NUL then seq(n, _ => NUL)
    else [source[0]] + Strncpy(source[1..], n - 1)
  }

  lemma {:induction false} StrncpyOfNulFree(source: seq<byte>, n: nat)
    requires n <= |source| && NulFree(source[..n])
    ensures Strncpy(source, n) == source[..n]
  {
    if n > 0 {
      assert source[..n] == [source[0]] + source[1..][..n - 1];
      StrncpyOfNulFree(source[1..], n - 1);
    }
  }

  /** The string that starts at the beginning of a NUL-terminated buffer. */
  function CString(s: seq<byte>): (r: seq<byte>)
    ensures r <= s && NulFree(r)
    ensures NulFree(s) ==> r == s
  {
    if s == [] || s[0] == NUL then [] else [s[0]] + CString(s[1..])
  }

  /** strchr finds a byte that comes before any NUL. */
  lemma {:induction false} StrchrFinds(buffer: seq<byte>, c: byte, at: nat)
    requires at < |buffer| && buffer[at] == c && c !in buffer[..at] && NulFree(buffer[..at])
    ensures Strchr(buffer, c) == at
  {
    if at > 0 {
      assert buffer[0] in buffer[..at];
      assert forall x | x in buffer[1..][..at - 1] :: x in buffer[..at];
      StrchrFinds(buffer[1..], c, at - 1);
    }
  }

  /** strchr does not find a byte that is not there. */
  lemma StrchrMisses(buffer: seq<byte>, c: byte)
    requires c !in buffer && NUL in buffer
    ensures Strchr(buffer, c) == -1
  {
  }

  // ------------------------------------------------------------- chunks in a reused buffer

  const BUFFSIZE: int := 1024

  /** A chunk that the line loops can take: strchr stays within the buffer, and strncpy copies it. */
  predicate GoodChunk(chunk: seq<byte>) {
    |chunk| <= BUFFSIZE && NulFree(ThroughNewline(chunk)) && (|chunk| == BUFFSIZE ==> NEWLINE in chunk)
  }

  /** What a reused buffer is like before the next chunk arrives: what earlier, possibly longer chunks
      left in it has no newline, and its last byte is still NUL. */
  ghost predicate Reusable(buffer: seq<byte>) {
    |buffer| == BUFFSIZE && NEWLINE !in buffer && buffer[BUFFSIZE - 1] == NUL
  }

  /** How many bytes of the buffer the line loops take: through the first newline, or as many as were
      read. */
  function UsefulBytes(buffer: seq<byte>, bytesRead: nat): nat
    requires NEWLINE in buffer || NUL in buffer
  {
    var newline := Strchr(buffer, NEWLINE);
    if newline >= 0 then newline + 1 else bytesRead
  }

  lemma NewlineInChunk(chunk: seq<byte>, stale: seq<byte>)
    requires NEWLINE in chunk && NulFree(ThroughNewline(chunk))
    ensures NEWLINE in chunk + stale
    ensures Strchr(chunk + stale, NEWLINE) == |ThroughNewline(chunk)| - 1
  {
    var line := ThroughNewline(chunk);
    var at := |line| - 1;
    assert (chunk + stale)[..at] == line[..at];
    assert (chunk + stale)[at] == line[at];
    assert forall x | x in line[..at] :: x in line;
    StrchrFinds(chunk + stale, NEWLINE, at);
  }

  lemma NoNewlineInChunk(chunk: seq<byte>, stale: seq<byte>)
    requires NEWLINE !in chunk && NEWLINE !in stale && NUL in stale
    ensures NEWLINE !in chunk + stale && NUL in chunk + stale
    ensures Strchr(chunk + stale, NEWLINE) == -1
  {
    StrchrMisses(chunk + stale, NEWLINE);
  }

  /** A chunk over a reused buffer: the stale bytes behind it never make a newline appear, and what is
      taken and copied is the chunk through its first newline. */
  lemma ChunkInReusedBuffer(before: seq<byte>, chunk: seq<byte>)
    requires Reusable(before) && chunk != [] && GoodChunk(chunk)
    ensures var buffer := chunk + before[|chunk|..];
            && |buffer| == BUFFSIZE
            && (NEWLINE in buffer || NUL in buffer)
            && (Strchr(buffer, NEWLINE) >= 0 <==> NEWLINE in chunk)
            && UsefulBytes(buffer, |chunk|) == |ThroughNewline(chunk)|
            && Strncpy(buffer, |ThroughNewline(chunk)|) == ThroughNewline(chunk)
            && (NEWLINE !in chunk ==> Reusable(buffer))
  {
    var stale := before[|chunk|..];
    var buffer := chunk + stale;
    if NEWLINE in chunk {
      NewlineInChunk(chunk, stale);
    } else {
      assert stale[|stale| - 1] == before[BUFFSIZE - 1];
      assert forall x | x in stale :: x in before;
      NoNewlineInChunk(chunk, stale);
    }
    var line := ThroughNewline(chunk);
    assert buffer[..|line|] == line;
    StrncpyOfNulFree(buffer, |line|);
  }

  /** No NUL is followed by another byte: NULs can only pad the end. */
  predicate PadsOnly(s: seq<byte>) {
    forall i, j | 0 <= i < j < |s| && s[i] == NUL :: s[j] == NUL
  }

  lemma {:induction false} StrncpyExact(source: seq<byte>, n: nat)
    requires n <= |source|
    ensures Strncpy(source, n) == source[..n] <==> PadsOnly(source[..n])
  {
    if n > 0 {
      var first, rest := source[0], source[1..];
      assert source[..n] == [first] + rest[..n - 1];
      assert rest[..n - 1] == source[..n][1..];
      StrncpyExact(rest, n - 1);
      if first == NUL {
        PaddingFromStart(source[..n]);
      } else {
        assert Strncpy(source, n)[1..] == Strncpy(rest, n - 1);
        PadsOnlyRest(source[..n]);
      }
    }
  }

  lemma PaddingFromStart(s: seq<byte>)
    requires s != [] && s[0] == NUL
    ensures PadsOnly(s) <==> s == seq(|s|, _ => NUL)
  {
    if PadsOnly(s) {
      assert forall j | 0 < j < |s| :: s[j] == NUL;
    }
  }

  lemma PadsOnlyRest(s: seq<byte>)
    requires s != [] && s[0] != NUL
    ensures PadsOnly(s) <==> PadsOnly(s[1..])
  {
    if PadsOnly(s[1..]) {
      forall i, j | 0 <= i < j < |s| && s[i] == NUL
        ensures s[j] == NUL
      {
        assert s[1..][i - 1] == NUL && s[1..][j - 1] == s[j];
      }
    }
  }

  /** What the loops take of any chunk over a reused buffer, for as long as strchr stays within it: the
      chunk through its first newline exactly when no NUL comes before another byte of that. */
  lemma {:induction false} ChunkTakenExact(before: seq<byte>, chunk: seq<byte>)
    requires |before| == BUFFSIZE && NEWLINE !in before && chunk != [] && |chunk| <= BUFFSIZE
    requires NEWLINE in chunk + before[|chunk|..] || NUL in chunk + before[|chunk|..]
    ensures var buffer := chunk + before[|chunk|..];
            UsefulBytes(buffer, |chunk|) <= |buffer|
            && (Strncpy(buffer, UsefulBytes(buffer, |chunk|)) == ThroughNewline(chunk)
                <==> PadsOnly(ThroughNewline(chunk)))
  {
    var stale, line := before[|chunk|..], ThroughNewline(chunk);
    var buffer := chunk + stale;
    assert forall x | x in stale :: x in before;
    if NEWLINE in chunk && NulFree(line) {
      NewlineInChunk(chunk, stale);
      assert buffer[..|line|] == line;
      StrncpyOfNulFree(buffer, |line|);
    } else {
      NothingFound(chunk, stale);
      assert buffer[..|chunk|] == chunk;
      StrncpyExact(buffer, |chunk|);
      if NEWLINE in chunk {
        HiddenNewline(buffer, chunk);
      }
    }
  }

  /** strchr does not look behind a NUL. */
  lemma {:induction false} StrchrStopsAtNul(buffer: seq<byte>, c: byte, i: nat)
    requires i < |buffer| && buffer[i] == NUL && c != NUL && c !in buffer[..i]
    ensures Strchr(buffer, c) == -1
  {
    if i > 0 {
      assert buffer[0] in buffer[..i];
      if buffer[0] != NUL {
        assert forall x | x in buffer[1..][..i - 1] :: x in buffer[..i];
        StrchrStopsAtNul(buffer[1..], c, i - 1);
      }
    }
  }

  /** A newline behind a NUL is not found, and neither is one that is not there. */
  lemma NothingFound(chunk: seq<byte>, stale: seq<byte>)
    requires NEWLINE !in stale && (NEWLINE in chunk + stale || NUL in chunk + stale)
    requires NEWLINE in chunk ==> NUL in ThroughNewline(chunk)
    ensures Strchr(chunk + stale, NEWLINE) == -1
  {
    if NEWLINE in chunk {
      var line := ThroughNewline(chunk);
      var i :| 0 <= i < |line| && line[i] == NUL;
      OnlyNewlineLast(line);
      assert (chunk + stale)[..i] == line[..i];
      StrchrStopsAtNul(chunk + stale, NEWLINE, i);
    } else {
      StrchrMisses(chunk + stale, NEWLINE);
    }
  }

  /** A NUL before the newline of a line: what is copied has no newline where the line has it. */
  lemma HiddenNewline(buffer: seq<byte>, chunk: seq<byte>)
    requires chunk <= buffer && NEWLINE in chunk && NUL in ThroughNewline(chunk)
    ensures Strncpy(buffer, |chunk|) != ThroughNewline(chunk) && !PadsOnly(ThroughNewline(chunk))
  {
    var line := ThroughNewline(chunk);
    var i :| 0 <= i < |line| && line[i] == NUL;
    assert line[|line| - 1] == NEWLINE;
    assert buffer[i] == NUL;
    StrncpyAfterNul(buffer, |chunk|, i, |line| - 1);
  }

  lemma {:induction false} StrncpyAfterNul(source: seq<byte>, n: nat, i: nat, j: nat)
    requires i <= j < n <= |source| && source[i] == NUL
    ensures Strncpy(source, n)[j] == NUL
  {
    if source[0] != NUL {
      StrncpyAfterNul(source[1..], n - 1, i - 1, j - 1);
    }
  }

  // ------------------------------------------------------------- a whole run of chunks

  /** The buffer after a chunk has arrived at its front. */
  function Overwritten(buffer: seq<byte>, chunk: seq<byte>): (r: seq<byte>)
    requires |chunk| <= |buffer|
    ensures |r| == |buffer|
  {
    chunk + buffer[|chunk|..]
  }

  /** What recv can deliver into the buffer. */
  predicate Fits(chunks: seq<seq<byte>>) {
    forall i | 0 <= i < |chunks| :: 0 < |chunks[i]| <= BUFFSIZE
  }

  /** strchr stays within the buffer in every round, up to the one that finds a newline. */
  predicate StaysWithin(buffer: seq<byte>, chunks: seq<seq<byte>>)
    requires |buffer| == BUFFSIZE && Fits(chunks)
    decreases |chunks|
  {
    chunks == []
    || (var next := Overwritten(buffer, chunks[0]);
        (NEWLINE in next || NUL in next) && (Strchr(next, NEWLINE) >= 0 || StaysWithin(next, chunks[1..])))
  }

  /** What one round takes. */
  function Taken(next: seq<byte>, count: nat): (r: seq<byte>)
    requires count <= |next| && (NEWLINE in next || NUL in next)
    ensures Strchr(next, NEWLINE) >= 0 ==> NEWLINE in r
  {
    if Strchr(next, NEWLINE) >= 0 then
      StrncpyOfFound(next, Strchr(next, NEWLINE));
      Strncpy(next, UsefulBytes(next, count))
    else Strncpy(next, UsefulBytes(next, count))
  }

  lemma StrncpyOfFound(source: seq<byte>, at: nat)
    requires at < |source| && source[at] == NEWLINE && NulFree(source[..at])
    ensures Strncpy(source, at + 1) == source[..at + 1] && NEWLINE in Strncpy(source, at + 1)
  {
    assert source[..at + 1] == source[..at] + [NEWLINE];
    assert source[..at + 1][at] == NEWLINE;
    StrncpyOfNulFree(source, at + 1);
  }

  /** The line that a run of chunks is made into. */
  function TakeRun(buffer: seq<byte>, chunks: seq<seq<byte>>): seq<byte>
    requires |buffer| == BUFFSIZE && Fits(chunks) && StaysWithin(buffer, chunks)
    decreases |chunks|
  {
    if chunks == [] then []
    else
      var next := Overwritten(buffer, chunks[0]);
      var taken := Taken(next, |chunks[0]|);
      if Strchr(next, NEWLINE) >= 0 then taken else taken + TakeRun(next, chunks[1..])
  }

  /** Every chunk, up to the first with a newline, is one that the line loops can take. */
  predicate GoodThrough(chunks: seq<seq<byte>>) {
    chunks == [] || (GoodChunk(chunks[0]) && (NEWLINE in chunks[0] || GoodThrough(chunks[1..])))
  }

  /** What arrives in such chunks becomes the stream through its first newline. */
  lemma {:induction false} GoodRun(buffer: seq<byte>, chunks: seq<seq<byte>>)
    requires Reusable(buffer) && Fits(chunks) && GoodThrough(chunks)
    ensures StaysWithin(buffer, chunks) && TakeRun(buffer, chunks) == ThroughNewline(Flatten(chunks))
    decreases |chunks|
  {
    if chunks != [] {
      ChunkInReusedBuffer(buffer, chunks[0]);
      ThroughNewlineAppend(chunks[0], Flatten(chunks[1..]));
      if NEWLINE !in chunks[0] {
        GoodRun(Overwritten(buffer, chunks[0]), chunks[1..]);
      }
    }
  }

  /** No chunk, up to the first with a newline, has a NUL before another byte of that. */
  predicate PadsThrough(chunks: seq<seq<byte>>) {
    chunks == [] || (PadsOnly(ThroughNewline(chunks[0])) && (NEWLINE in chunks[0] || PadsThrough(chunks[1..])))
  }

  /** One round, in a buffer without a newline: a chunk whose NULs only pad is taken as it is, and then the
      newline is found when there is one; of any other chunk a byte is lost for good. */
  lemma RoundTakenExact(buffer: seq<byte>, chunk: seq<byte>)
    requires |buffer| == BUFFSIZE && NEWLINE !in buffer && 0 < |chunk| <= BUFFSIZE
    requires var next := Overwritten(buffer, chunk); NEWLINE in next || NUL in next
    ensures var next, line := Overwritten(buffer, chunk), ThroughNewline(chunk);
            if PadsOnly(line) then
              Taken(next, |chunk|) == line && (Strchr(next, NEWLINE) >= 0 <==> NEWLINE in chunk)
              && (NEWLINE !in chunk ==> NEWLINE !in next)
            else
              Strchr(next, NEWLINE) == -1
              && exists j :: 0 <= j < |line| && j < |Taken(next, |chunk|)| && Taken(next, |chunk|)[j] != line[j]
  {
    var next, line := Overwritten(buffer, chunk), ThroughNewline(chunk);
    ChunkTakenExact(buffer, chunk);
    assert forall x | x in buffer[|chunk|..] :: x in buffer;
    if PadsOnly(line) {
      if NEWLINE in chunk {
        PadsOnlyLine(line);
        NewlineInChunk(chunk, buffer[|chunk|..]);
      } else {
        NothingFound(chunk, buffer[|chunk|..]);
      }
    } else {
      NothingFound(chunk, buffer[|chunk|..]);
      var i, j :| 0 <= i < j < |line| && line[i] == NUL && line[j] != NUL;
      assert next[i] == NUL;
      StrncpyAfterNul(next, |chunk|, i, j);
      assert Taken(next, |chunk|)[j] != line[j];
    }
  }

  /** A line in which NULs only pad has none. */
  lemma PadsOnlyLine(line: seq<byte>)
    requires IsLine(line)
    ensures PadsOnly(line) <==> NulFree(line)
  {
    assert line[|line| - 1] == NEWLINE;
  }

  /** For as long as strchr stays within the buffer, what a run of chunks is made into is the stream through
      its first newline exactly when, up to there, no NUL comes before another byte of its chunk. */
  lemma {:induction false} RunTakenExact(buffer: seq<byte>, chunks: seq<seq<byte>>)
    requires |buffer| == BUFFSIZE && NEWLINE !in buffer && Fits(chunks) && StaysWithin(buffer, chunks)
    ensures TakeRun(buffer, chunks) == ThroughNewline(Flatten(chunks)) <==> PadsThrough(chunks)
    decreases |chunks|
  {
    if chunks != [] {
      var chunk, rest := chunks[0], chunks[1..];
      var next, line := Overwritten(buffer, chunk), ThroughNewline(chunk);
      RoundTakenExact(buffer, chunk);
      ThroughNewlineAppend(chunk, Flatten(rest));
      if PadsOnly(line) {
        if NEWLINE !in chunk {
          RunTakenExact(next, rest);
          SameEnd(chunk, TakeRun(next, rest), ThroughNewline(Flatten(rest)));
        }
      } else {
        var taken := Taken(next, |chunk|);
        var j :| 0 <= j < |line| && j < |taken| && taken[j] != line[j];
        assert (taken + TakeRun(next, rest))[j] == taken[j];
        assert ThroughNewline(Flatten(chunks))[j] == line[j];
      }
    }
  }

  lemma SameEnd(a: seq<byte>, b: seq<byte>, c: seq<byte>)
    ensures a + b == a + c <==> b == c
  {
    assert b == (a + b)[|a|..] && c == (a + c)[|a|..];
  }
}
