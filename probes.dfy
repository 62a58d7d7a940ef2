/** The arithmetic and the read loop of the two probes. The TCP connect
    itself, the HTTP request and the clock are outside the model: their
    outcomes arrive as parameters. */
module Probes {
  import opened Common

  newtype byte = x: int | 0 <= x < 256

  /** The largest amount one `resp.read(n)` call asks for (32 KiB). */
  const ChunkSize: int := 32 * 1024

  /** The smallest elapsed time a successful download reports, in seconds. */
  const MinElapsed: real := 0.0001

  /** `resp.read(n)` on a response whose body is `body`, after `pos` bytes
      of it have been consumed: the next at most `n` bytes. */
  function ReadChunk(body: seq<byte>, pos: nat, n: int): (chunk: seq<byte>)
    requires pos <= |body|
    ensures |chunk| <= n || |chunk| == 0
    ensures pos + |chunk| <= |body| && chunk == body[pos..pos + |chunk|]
    ensures |chunk| == 0 <==> pos == |body| || n <= 0
  {
    if n <= 0 then [] else body[pos..Min(pos + n, |body|)]
  }

  /** The read loop of `download_probe`: request chunks of at most 32 KiB,
      never past the budget, until the budget is used up or the body ends.
      `requests` records the size passed to each `read` call. */
  method ReadBody(body: seq<byte>, bytesToRead: int) returns (read: nat, ghost requests: seq<int>)
    ensures read == if bytesToRead <= 0 then 0 else Min(|body|, bytesToRead)
    ensures forall i :: 0 <= i < |requests| ==> 1 <= requests[i] <= ChunkSize
    ensures bytesToRead <= 0 <==> requests == []
  {
    read := 0;
    requests := [];
    while read < bytesToRead
      invariant read <= |body|
      invariant bytesToRead > 0 ==> read <= bytesToRead
      invariant bytesToRead <= 0 ==> read == 0 && requests == []
      invariant read > 0 ==> requests != []
      invariant forall i :: 0 <= i < |requests| ==> 1 <= requests[i] <= ChunkSize
      decreases bytesToRead - read
    {
      var n := Min(ChunkSize, bytesToRead - read);
      requests := requests + [n];
      var chunk := ReadChunk(body, read, n);
      if |chunk| == 0 {
        break;
      }
      read := read + |chunk|;
    }
  }

  /** `max(0.0001, end - start)`: the elapsed time of a completed read. */
  function Elapsed(start: real, end: real): (e: real)
    ensures e >= MinElapsed && e >= end - start
    ensures e == MinElapsed || e == end - start
  {
    if end - start > MinElapsed then end - start else MinElapsed
  }

  /** `download_probe(url, bytes_to_read)`. `response` is the body that
      `urlopen` delivers, or `None` when opening or reading it raises;
      `start` and `end` are the clock readings around the read loop.
      Failure is the sentinel `(0, 0.0)`; success reports the bytes read
      and `max(0.0001, end - start)` as the elapsed time. */
  method DownloadProbe(response: Option<seq<byte>>, bytesToRead: int, start: real, end: real)
    returns (read: int, elapsed: real)
    ensures response.None? ==> read == 0 && elapsed == 0.0
    ensures response.Some? ==>
      && read == (if bytesToRead <= 0 then 0 else Min(|response.value|, bytesToRead))
      && elapsed == Elapsed(start, end)
  {
    if response.None? {
      return 0, 0.0;
    }
    ghost var requests;
    read, requests := ReadBody(response.value, bytesToRead);
    elapsed := Elapsed(start, end);
  }

  /** `bps = bytes_read / seconds if seconds > 0 else 0.0`: the throughput
      times the elapsed time is the byte count, no division by zero happens,
      and a non-negative byte count gives a non-negative throughput. */
  function Throughput(bytesRead: int, seconds: real): (bps: real)
    ensures seconds > 0.0 ==> bps * seconds == bytesRead as real
    ensures seconds <= 0.0 ==> bps == 0.0
    ensures bytesRead >= 0 ==> bps >= 0.0
  {
    if seconds > 0.0 then bytesRead as real / seconds else 0.0
  }
}
