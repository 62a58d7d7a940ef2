/** The sampler `NetPulse`: its rolling histories, the bookkeeping that one
    measurement cycle does under the lock, and the snapshot the renderer
    reads. The probe calls, the background thread and the lock itself are
    outside the model; each method below is one atomic step. */
module Sampler {
  import opened Common
  import opened History
  import opened Hosts
  import opened Probes
  import Display

  /** `last_results`: `{}` before the first cycle, then the dictionary
      `{"pings", "download_bps", "bytes", "elapsed"}` of the latest cycle.
      A ping is `None` when the connect failed. */
  datatype LastResults =
    | NoResults
    | Results(pings: map<string, Option<real>>, downloadBps: real, bytes: int, elapsed: real)

  /** The keys of the targets; duplicated targets give one key. */
  function KeySet(hosts: seq<Target>): set<string> {
    set k | k in Keys(hosts)
  }

  /** `val if val is not None else 0.0`: what a latency contributes to its
      history. A failed probe becomes 0.0; a measured one is kept. */
  function HistoryValue(ms: Option<real>): (v: real)
    ensures ms.Some? ==> v == ms.value
    ensures ms.None? ==> v == 0.0
  {
    ms.GetOr(0.0)
  }

  /** The dictionary built by assigning `d[ks[i]] = vs[i]` for each `i` in
      turn, starting from `{}`. */
  function Zip<K, V>(ks: seq<K>, vs: seq<V>): map<K, V>
    requires |ks| == |vs|
    decreases |ks|
  {
    if ks == [] then map[]
    else
      var n := |ks| - 1;
      Zip(ks[..n], vs[..n])[ks[n] := vs[n]]
  }

  /** Its keys are exactly the assigned keys. */
  lemma {:induction false} ZipKeys<K, V>(ks: seq<K>, vs: seq<V>)
    requires |ks| == |vs|
    ensures Zip(ks, vs).Keys == set k | k in ks
    decreases |ks|
  {
    if ks != [] {
      var n := |ks| - 1;
      ZipKeys(ks[..n], vs[..n]);
      assert ks == ks[..n] + [ks[n]];
      assert (set k | k in ks) == (set k | k in ks[..n]) + {ks[n]};
    }
  }

  /** A key's entry is the value of its last assignment. */
  lemma {:induction false} ZipLastWins<K, V>(ks: seq<K>, vs: seq<V>, i: nat)
    requires |ks| == |vs| && i < |ks|
    requires forall j :: i < j < |ks| ==> ks[j] != ks[i]
    ensures ks[i] in Zip(ks, vs) && Zip(ks, vs)[ks[i]] == vs[i]
    decreases |ks|
  {
    var n := |ks| - 1;
    if i < n {
      assert ks[..n][i] == ks[i] && vs[..n][i] == vs[i];
      ZipLastWins(ks[..n], vs[..n], i);
    }
  }

  /** The `results` dictionary `measure_once` builds by assigning
      `results[f"{host}:{port}"] = ms` for each target in turn. */
  function ResultsOf(hosts: seq<Target>, latencies: seq<Option<real>>): map<string, Option<real>>
    requires |hosts| == |latencies|
  {
    Zip(Keys(hosts), latencies)
  }

  /** The results of a cycle have exactly one entry per target key, the
      same keys as the ping histories. */
  lemma ResultsOfKeys(hosts: seq<Target>, latencies: seq<Option<real>>)
    requires |hosts| == |latencies|
    ensures ResultsOf(hosts, latencies).Keys == KeySet(hosts)
  {
    ZipKeys(Keys(hosts), latencies);
  }

  /** Each target's entry is its own latency: with a duplicated target the
      last occurrence wins, and no other target can overwrite it. */
  lemma ResultsOfLatency(hosts: seq<Target>, latencies: seq<Option<real>>, i: nat)
    requires |hosts| == |latencies| && i < |hosts|
    requires forall j :: i < j < |hosts| ==> hosts[j] != hosts[i]
    ensures Key(hosts[i]) in ResultsOf(hosts, latencies)
    ensures ResultsOf(hosts, latencies)[Key(hosts[i])] == latencies[i]
  {
    var ks := Keys(hosts);
    forall j | i < j < |hosts|
      ensures ks[j] != ks[i]
    {
      if ks[j] == ks[i] {
        KeyInjective(hosts[j], hosts[i]);
      }
    }
    ZipLastWins(ks, latencies, i);
  }

  /** The ping histories after one cycle: every target's history has its
      cycle value appended. */
  function AppendEach(ph: map<string, seq<real>>, pings: map<string, Option<real>>): (r: map<string, seq<real>>)
    requires ph.Keys <= pings.Keys
    ensures r.Keys == ph.Keys
    ensures forall k :: k in r ==> r[k] == Append(ph[k], HistoryValue(pings[k]))
  {
    map k | k in ph :: Append(ph[k], HistoryValue(pings[k]))
  }

  /** The loop `for hp, val in results.items(): ping_history[hp].append(...)`,
      in whatever order the keys come: every history gets its own value. */
  method AppendPings(ph: map<string, seq<real>>, pings: map<string, Option<real>>)
    returns (r: map<string, seq<real>>)
    requires ph.Keys == pings.Keys
    ensures r == AppendEach(ph, pings)
  {
    r := ph;
    var todo := pings.Keys;
    while todo != {}
      invariant todo <= pings.Keys
      invariant r.Keys == ph.Keys
      invariant forall k :: k in r ==>
                  r[k] == if k in todo then ph[k] else Append(ph[k], HistoryValue(pings[k]))
      decreases todo
    {
      var hp :| hp in todo;
      r := r[hp := Append(r[hp], HistoryValue(pings[hp]))];
      todo := todo - {hp};
    }
  }

  /** Lock-step: after `cycles` cycles every history holds `min(cycles,
      Capacity)` entries. */
  ghost predicate InStep(downloads: seq<real>, pings: map<string, seq<real>>, cycles: nat) {
    && |downloads| == Min(cycles, Capacity)
    && forall k :: k in pings ==> |pings[k]| == |downloads|
  }

  /** The atomicity the lock provides: the newest entry of every history
      belongs to the cycle that `last_results` describes. */
  ghost predicate Consistent(res: LastResults, downloads: seq<real>, pings: map<string, seq<real>>)
    requires res.Results?
  {
    && res.pings.Keys == pings.Keys
    && res.downloadBps == Throughput(res.bytes, res.elapsed)
    && downloads != [] && downloads[|downloads| - 1] == res.downloadBps
    && forall k :: k in pings ==>
         pings[k] != [] && pings[k][|pings[k]| - 1] == HistoryValue(res.pings[k])
  }

  /** One cycle keeps the histories in lock-step, and leaves them
      consistent with the `last_results` it records. */
  lemma RecordStep(downloads: seq<real>, ph: map<string, seq<real>>, c: nat,
                   pings: map<string, Option<real>>, bytesRead: int, seconds: real)
    requires InStep(downloads, ph, c) && ph.Keys == pings.Keys
    ensures var bps := Throughput(bytesRead, seconds);
      && InStep(Append(downloads, bps), AppendEach(ph, pings), c + 1)
      && Consistent(Results(pings, bps, bytesRead, seconds), Append(downloads, bps), AppendEach(ph, pings))
  {
  }

  class NetPulse {
    const hosts: seq<Target>
    const url: string
    const bytesProbe: int
    const interval: real
    var running: bool
    var downloadHistory: seq<real>
    var pingHistory: map<string, seq<real>>
    var lastResults: LastResults
    var spinnerIdx: int
    /** The number of completed cycles. */
    ghost var cycles: nat

    /** The sampler's invariant: histories bounded by the deque capacity
        and in lock-step (every history holds one entry per cycle, up to
        the capacity), one history per target key, and `last_results`
        empty exactly before the first cycle and otherwise matching the
        newest history entries. */
    ghost predicate Valid()
      reads this
    {
      && interval >= 1.0
      && 0 <= spinnerIdx < 4
      && pingHistory.Keys == KeySet(hosts)
      && InStep(downloadHistory, pingHistory, cycles)
      && (cycles == 0 <==> lastResults.NoResults?)
      && (lastResults.Results? ==> Consistent(lastResults, downloadHistory, pingHistory))
    }

    /** `NetPulse(hosts, url, bytes_probe, interval)`: the interval is
        clamped to at least one second; all histories start empty. */
    constructor (hosts: seq<Target>, url: string, bytesProbe: int, interval: real)
      ensures Valid()
      ensures this.hosts == hosts && this.url == url && this.bytesProbe == bytesProbe
      ensures this.interval >= 1.0 && this.interval >= interval
      ensures interval >= 1.0 ==> this.interval == interval
      ensures interval < 1.0 ==> this.interval == 1.0
      ensures !running && spinnerIdx == 0 && cycles == 0
      ensures downloadHistory == [] && lastResults == NoResults
      ensures forall k :: k in pingHistory ==> pingHistory[k] == []
    {
      this.hosts := hosts;
      this.url := url;
      this.bytesProbe := bytesProbe;
      this.interval := if 1.0 >= interval then 1.0 else interval;
      running := false;
      downloadHistory := [];
      pingHistory := map k | k in KeySet(hosts) :: [];
      lastResults := NoResults;
      spinnerIdx := 0;
      cycles := 0;
    }

    /** The `with self.lock:` block of `measure_once`: append the throughput
        to the download history and each target's latency (0.0 for a
        failure) to its history, then replace `last_results` wholesale. */
    method Record(pings: map<string, Option<real>>, bytesRead: int, seconds: real)
      requires Valid()
      requires pings.Keys == KeySet(hosts)
      modifies this`downloadHistory, this`pingHistory, this`lastResults, this`cycles
      ensures Valid()
      ensures cycles == old(cycles) + 1
      ensures downloadHistory == Append(old(downloadHistory), Throughput(bytesRead, seconds))
      ensures pingHistory == AppendEach(old(pingHistory), pings)
      ensures lastResults == Results(pings, Throughput(bytesRead, seconds), bytesRead, seconds)
    {
      RecordStep(downloadHistory, pingHistory, cycles, pings, bytesRead, seconds);
      var bps := Throughput(bytesRead, seconds);
      downloadHistory := Append(downloadHistory, bps);
      pingHistory := AppendPings(pingHistory, pings);
      lastResults := Results(pings, bps, bytesRead, seconds);
      cycles := cycles + 1;
    }

    /** `measure_once`, with the probes' outcomes as parameters:
        `latencies[i]` is what `tcp_connect_time` returned for `hosts[i]`,
        and `response`, `start`, `end` feed `download_probe`. */
    method MeasureOnce(latencies: seq<Option<real>>, response: Option<seq<byte>>, start: real, end: real)
      returns (r: LastResults)
      requires Valid()
      requires |latencies| == |hosts|
      modifies this`downloadHistory, this`pingHistory, this`lastResults, this`cycles
      ensures Valid()
      ensures cycles == old(cycles) + 1
      ensures r == lastResults && r.Results?
      ensures r.pings == ResultsOf(hosts, latencies)
      ensures response.None? ==> r.bytes == 0 && r.elapsed == 0.0 && r.downloadBps == 0.0
      ensures response.Some? ==>
        && r.bytes == (if bytesProbe <= 0 then 0 else Min(|response.value|, bytesProbe))
        && r.elapsed == Elapsed(start, end) && r.downloadBps >= 0.0
      ensures downloadHistory == Append(old(downloadHistory), r.downloadBps)
      ensures pingHistory == AppendEach(old(pingHistory), r.pings)
    {
      ghost var keys := Keys(hosts);
      var results: map<string, Option<real>> := map[];
      for i := 0 to |hosts|
        invariant results == Zip(keys[..i], latencies[..i])
      {
        assert keys[..i + 1][..i] == keys[..i];
        assert latencies[..i + 1][..i] == latencies[..i];
        results := results[Key(hosts[i]) := latencies[i]];
      }
      assert keys[..|hosts|] == keys && latencies[..|latencies|] == latencies;
      ResultsOfKeys(hosts, latencies);
      var bytesRead, seconds := DownloadProbe(response, bytesProbe, start, end);
      Record(results, bytesRead, seconds);
      r := lastResults;
    }

    /** `start`, without the thread it launches: sets the running flag. */
    method Start()
      requires Valid()
      modifies this`running
      ensures Valid() && running
    {
      running := true;
    }

    /** `stop`: clears the running flag; calling it again, or before any
        `start`, leaves it cleared. Histories persist. */
    method Stop()
      requires Valid()
      modifies this`running
      ensures Valid() && !running
    {
      running := false;
    }

    /** `snapshot`: copies of `last_results` and of every history, taken
        under the lock. The copies are values, so later cycles cannot change
        them; and they are mutually consistent, with every history bounded
        and in lock-step. */
    method Snapshot() returns (res: LastResults, downloads: seq<real>, pings: map<string, seq<real>>)
      requires Valid()
      ensures res == lastResults && downloads == downloadHistory && pings == pingHistory
      ensures |downloads| <= Capacity
      ensures pings.Keys == KeySet(hosts)
      ensures forall k :: k in pings ==> |pings[k]| == |downloads|
      ensures res.NoResults? <==> downloads == []
      ensures res.Results? ==> Consistent(res, downloads, pings)
    {
      res, downloads, pings := lastResults, downloadHistory, pingHistory;
    }

    /** The glyph `render` shows for the current spinner position. */
    function SpinnerGlyph(): (c: char)
      reads this
      ensures c in Display.SpinnerChars
    {
      Display.Spinner(spinnerIdx)
    }

    /** `spinner_idx = (spinner_idx + 1) % 4` at the end of each frame. */
    method AdvanceSpinner()
      requires Valid()
      modifies this`spinnerIdx
      ensures Valid()
      ensures spinnerIdx == (old(spinnerIdx) + 1) % 4
    {
      spinnerIdx := (spinnerIdx + 1) % 4;
    }
  }

  /** One cycle with a target that cannot be reached beside one that
      answers: the failure is `None` in the results and 0.0 in its history,
      the other target's latency is kept, and a snapshot taken before a
      second cycle does not change. */
  method UnreachableTargetCycle() {
    var down := Target("192.0.2.1", 81);
    var up := Target("localhost", 9);
    var net := new NetPulse([down, up], "http://example.invalid/5MB.zip", 262144, 0.5);
    assert net.interval == 1.0;
    var r := net.MeasureOnce([None, Some(12.5)], None, 0.0, 0.0);
    ResultsOfLatency([down, up], [None, Some(12.5)], 0);
    ResultsOfLatency([down, up], [None, Some(12.5)], 1);
    var res, downloads, pings := net.Snapshot();
    assert res.pings[Key(down)] == None && res.pings[Key(up)] == Some(12.5);
    assert pings[Key(down)] == [0.0] && pings[Key(up)] == [12.5];
    assert downloads == [0.0];
    var r2 := net.MeasureOnce([Some(3.0), Some(4.0)], Some([]), 1.0, 1.0);
    assert downloads == [0.0] && |net.downloadHistory| == 2;
  }
}
