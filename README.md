# NetPulse sampler — a Dafny model

NetPulse is a terminal network monitor. Each cycle it measures the
TCP-connect latency to a list of `host:port` targets and estimates download
throughput by reading a bounded number of bytes from a URL. It keeps the
results in rolling histories of 120 entries, and a render loop draws them
as sparklines from a snapshot.

This project models the sampler's in-memory bookkeeping and the small
helpers around it, and proves properties of them:

- `history.dfy` (module `History`) models `deque(maxlen=120)`: appending to
  a full history drops exactly the oldest entry.
- `sampler.dfy` (module `Sampler`) models the class `NetPulse` as a Dafny
  class. The fields are the running flag, the download history, the map
  from `"host:port"` to ping history, `last_results` and the spinner index.
  Its invariant `Valid()` says the following:
  - every history holds at most 120 entries;
  - the histories move in lock-step, each holding `min(cycles, 120)`
    entries;
  - there is one ping history per target key;
  - the newest history entries belong to the cycle that `last_results`
    describes.

  The lock-protected block of `measure_once` becomes `Record`, one atomic
  method. `measure_once` becomes `MeasureOnce`, with the probe outcomes
  passed in as parameters. `snapshot` returns value copies.
- `probes.dfy` (module `Probes`) models the read loop of `download_probe`
  over an abstract response body, the `max(0.0001, …)` floor on elapsed
  time, the `(0, 0.0)` failure sentinel and the throughput rule
  `bytes / seconds if seconds > 0 else 0.0`.
- `hosts.dfy` (module `Hosts`) models targets, their key
  `f"{host}:{port}"`, and `parse_hosts`. A round-trip lemma shows that
  `parse_hosts` reads a comma-joined list of keys back into the same
  targets.
- `pytext.dfy` (module `PyText`) models the parts of Python's `str` and
  `int` that these rely on: `str.isspace`, `strip()`, `split(",")`, `int(s)`
  and `str(n)`. `strip()` removes every `isspace` character. `int()`
  skips the same characters except the ASCII separators U+001C..U+001F,
  which make it raise. So the field `"h:\x1c5"` gives `("h:\x1c5", 80)`,
  not `("h", 5)`.
- `display.dfy` (module `Display`) models `sparkline` (slicing, scaling,
  glyph index, padding) and `spinner`.

The model follows the code, which validates nothing:
- `NetPulse(...)` checks none of its arguments. An empty host list or a
  non-positive byte budget is accepted, and a non-positive budget simply
  reads 0 bytes.
- `parse_hosts` does not range-check ports: `"h:-1"` gives `("h", -1)`.
- The elapsed time of the download covers only the read loop.

## Model

| member | source | states |
|---|---|---|
| `History.Newest` | netpulse.py:119-120 | the newest `n` entries of a sequence, in order, and `min(len, n)` of them |
| `History.Append` | netpulse.py:137-139 | a deque append keeps at most 120 entries and ends with the new value; below capacity it only appends; at capacity it drops exactly the oldest entry and keeps the rest in order |
| `History.NewestOfExtension` | netpulse.py:119-120 | trimming to the newest `n` before or after extending a sequence gives the same result |
| `History.AppendAllKeepsNewest` | netpulse.py:137-139 | after any run of appends, a history that started within its bound holds exactly the newest 120 values, in insertion order |
| `History.AppendAllLength` | netpulse.py:119-120 | after `N` appends to an empty history it holds `min(N, 120)` entries |
| `History.OneOverCapacity` | netpulse.py:137 | appending v1..v121 to an empty history leaves exactly v2..v121 |
| `PyText.IsSpace` | netpulse.py:203 | `str.isspace` for one character, the set `strip()` removes; no contract of its own, it is the reference the trim lemmas are stated in |
| `PyText.IsWhite` | netpulse.py:203-209 | the whitespace of a trim: all of `isspace` for `strip()`, and `isspace` without U+001C..U+001F for `int()`; no contract of its own |
| `PyText.SkipSpaces` | netpulse.py:203 | the first non-whitespace position at or after `i`; everything skipped is whitespace |
| `PyText.SkipSpacesBack` | netpulse.py:203 | the end of a slice once its trailing whitespace is cut; everything cut is whitespace |
| `PyText.Trim` | netpulse.py:203-209 | a trim leaves a string whose first and last characters are not whitespace of its kind |
| `PyText.Strip` | netpulse.py:203 | `strip()` leaves a string whose first and last characters are not `isspace` |
| `PyText.TrimSlice` | netpulse.py:203 | a trim keeps a contiguous slice; everything before and after it is whitespace of its kind |
| `PyText.TrimUnchanged` | netpulse.py:203 | a string whose ends are not whitespace is its own trim |
| `PyText.Split` | netpulse.py:202 | `split(",")` yields at least one field; no field holds the separator; joining the fields with it gives the input back |
| `PyText.SplitJoin` | netpulse.py:202 | splitting a joined list whose parts hold no separator gives the parts back |
| `PyText.DigitValue` | netpulse.py:209 | an ASCII digit's value is below 10 |
| `PyText.DigitChar` | netpulse.py:209 | the digit character of a value below 10 is a digit with that value |
| `PyText.NatToString` | netpulse.py:120 | the decimal text of a natural number is a non-empty digit string whose value is the number, without a leading zero |
| `PyText.IntToString` | netpulse.py:120 | the decimal text of an integer holds no colon or comma, and neither end is whitespace |
| `PyText.ParseInt` | netpulse.py:209 | `int(p)`: after trimming `int()`'s whitespace, an optional sign and one or more ASCII digits give their value, and anything else raises (`None`); no contract of its own, its properties are `ParseIntCharacters`, `IntRejectsSeparator` and `ParseIntRoundTrip` |
| `PyText.IntRejectsSeparator` | netpulse.py:208-212 | `int("\x1c5")` raises, although `strip()` would remove the U+001C |
| `PyText.ParseIntCharacters` | netpulse.py:209 | a string `int()` accepts holds only whitespace other than U+001C..U+001F, digits and sign characters |
| `PyText.ParseIntRoundTrip` | netpulse.py:209 | `int(str(n)) == n` for every integer |
| `Hosts.Key` | netpulse.py:120 | the key `f"{host}:{port}"`; no contract of its own, `KeyInjective` and `ParseKey` state its properties |
| `Hosts.LastIndexOf` | netpulse.py:207 | `rsplit(":", 1)` splits at a colon with no colon after it |
| `Hosts.LastIndexOfAfter` | netpulse.py:207 | in `a + ":" + b` where `b` has no colon, the last colon sits right after `a` |
| `Hosts.KeyInjective` | netpulse.py:120 | two targets with the same key `f"{host}:{port}"` are equal, so only true duplicates share a history |
| `Hosts.ParseSegment` | netpulse.py:203-214 | a field yields no target exactly when it is empty after stripping |
| `Hosts.ParseSegmentCases` | netpulse.py:206-214 | a field without a colon gives `(field, 80)`; otherwise an integer after the last colon gives `(text before it, int)`, and any other suffix gives `(whole field, 80)` |
| `Hosts.SeparatorBeforePort` | netpulse.py:206-214 | the field `"h:\x1c5"` gives `("h:\x1c5", 80)`: `int()` rejects the port text, so the whole field is the host |
| `Hosts.ParseAll` | netpulse.py:202-215 | the fields give at most one target each |
| `Hosts.ParseHosts` | netpulse.py:200-215 | the loop of `parse_hosts`, with its `continue`s, returns the targets of the comma-split fields in order |
| `Hosts.ParseAllConcat` | netpulse.py:201-215 | output order follows input order: concatenated fields give concatenated targets |
| `Hosts.ParseAllBlank` | netpulse.py:203-205 | fields holding only whitespace are all skipped |
| `Hosts.ParseHostsOfBlank` | netpulse.py:202-205 | an input of only commas and whitespace, such as `""` or `","`, gives `[]` |
| `Hosts.JoinContains` | netpulse.py:202 | every character of a field occurs in the joined string |
| `Hosts.Keys` | netpulse.py:120 | the key list has one key per target, in order |
| `Hosts.ParseKey` | netpulse.py:206-210 | a key `host:port` whose host has no comma and no leading whitespace parses back to `(host, port)` |
| `Hosts.ParseAllKeys` | netpulse.py:202-215 | the list of keys of such targets parses back to the targets |
| `Hosts.ParseHostsRoundTrip` | netpulse.py:200-215 | `parse_hosts(",".join(keys))` returns the targets themselves, in order, including the empty list |
| `Probes.ReadChunk` | netpulse.py:83-84 | `resp.read(n)` returns the next at most `n` bytes of the body; it is empty only at the end of the body or for `n <= 0` |
| `Probes.ReadBody` | netpulse.py:80-86 | the read loop reads `min(body length, budget)` bytes: never more than the budget, and 0 for a non-positive budget; every `read` request is for 1 to 32768 bytes, and no request is made when the budget is not positive |
| `Probes.Elapsed` | netpulse.py:88 | the elapsed time is at least 0.0001 and at least `end - start`, and equals one of the two |
| `Probes.DownloadProbe` | netpulse.py:72-91 | on failure it returns exactly `(0, 0.0)`; on success the bytes the read loop reads and the elapsed time `max(0.0001, end - start)` (`Elapsed`) |
| `Probes.Throughput` | netpulse.py:133 | with positive seconds, throughput times seconds is the byte count; otherwise it is 0.0 (no division by zero); a non-negative byte count gives a non-negative throughput |
| `Display.Spinner` | netpulse.py:58-59 | every index, negative ones included, selects one of the four spinner frames |
| `Display.SpinnerCycle` | netpulse.py:58-59 | the spinner repeats every four ticks and changes on every tick |
| `Display.Spaces` | netpulse.py:97 | `" " * n` is `n` spaces, or empty when `n <= 0` |
| `Display.SliceStart` | netpulse.py:98 | for a positive width, `values[-width:]` keeps the newest `min(len, width)` values |
| `Display.Trunc` | netpulse.py:102 | `int(x)` truncates toward zero |
| `Display.Max` | netpulse.py:99 | `max(vals)` is an element of `vals` and at least every element |
| `Display.Scale` | netpulse.py:99 | the scale is positive |
| `Display.GlyphIndex` | netpulse.py:102 | `int((v / mx) * 7)`; no contract of its own, `GlyphIndexBounds` and `GlyphIndexMonotone` state its properties |
| `Display.PyIndex` | netpulse.py:103 | Python indexing succeeds exactly for indices in `-len..len-1`, and a non-negative index selects that character |
| `Display.PadLeft` | netpulse.py:105-106 | a shorter line is padded on the left with spaces to exactly `width`, keeping the glyphs at the end; a line already `width` long or longer is unchanged |
| `Display.Glyphs` | netpulse.py:100-103 | the glyph string of the loop, or `None` once a `SPARK_CHARS[idx]` raises; its properties are `GlyphsNoneExtends` and `GlyphsInRange` |
| `Display.SparklineOf` | netpulse.py:95-107 | `sparkline(values, width)` as a function: spaces for no values, else the glyphs of `values[-width:]` scaled by `mx` and padded on the left; its properties are `SparklineShape`, and `Sparkline` is proved equal to it |
| `Display.GlyphsNoneExtends` | netpulse.py:101-103 | once one glyph index raises, the whole sparkline raises |
| `Display.Sparkline` | netpulse.py:95-107 | the loop that builds the sparkline computes the specified line, including the cases where the source raises |
| `Display.GlyphIndexBounds` | netpulse.py:102 | a value between 0 and the scale gets a glyph index in 0..7, and the maximum gets 7 (the full block) |
| `Display.GlyphIndexMonotone` | netpulse.py:102 | a larger non-negative value never gets a lower bar |
| `Display.GlyphsInRange` | netpulse.py:101-103 | values between 0 and the scale get one glyph each, the glyph its index names, with the index in 0..7 |
| `Display.SparklineShape` | netpulse.py:95-107 | for `width > 0` and non-negative values, the result has exactly `width` characters: leading spaces, then the glyphs of the newest `min(len, width)` values with indices in 0..7; empty input gives all spaces |
| `Sampler.HistoryValue` | netpulse.py:139 | a failed probe is appended to its history as 0.0; a measured latency is appended unchanged |
| `Sampler.ResultsOf` | netpulse.py:126-130 | the `results` dictionary, one assignment per target in order; no contract of its own, `ResultsOfKeys` and `ResultsOfLatency` state its properties |
| `Sampler.ZipKeys` | netpulse.py:126-130 | the dictionary built by the results loop has exactly the assigned keys |
| `Sampler.ZipLastWins` | netpulse.py:128-130 | a key's entry is the value of its last assignment |
| `Sampler.ResultsOfKeys` | netpulse.py:120-130 | a cycle's `results` has exactly the target keys, the same key set as `ping_history`; duplicates collapse |
| `Sampler.ResultsOfLatency` | netpulse.py:128-130 | each target's entry in `results` is its own probe outcome, `None` for a failure; with duplicated targets the last one wins, and no other target overwrites it |
| `Sampler.AppendEach` | netpulse.py:138-139 | after a cycle, every ping history has exactly its own cycle value appended, and the key set is unchanged |
| `Sampler.AppendPings` | netpulse.py:138-139 | the loop over `results.items()` appends each target's value to its own history, in any key order |
| `Sampler.RecordStep` | netpulse.py:135-140 | one cycle keeps the histories in lock-step and consistent with the new `last_results` |
| `Sampler.NetPulse.constructor` | netpulse.py:111-122 | the interval is `max(1.0, interval)`; histories and `last_results` start empty, one history per target key; `running` is false and the spinner index is 0 |
| `Sampler.NetPulse.Record` | netpulse.py:133-140 | under the lock: one throughput value goes on the download history and one value on every ping history; `last_results` is replaced wholesale with exactly this cycle's `{pings, download_bps, bytes, elapsed}`; the invariant is kept |
| `Sampler.NetPulse.MeasureOnce` | netpulse.py:124-141 | a cycle records `None` for failed pings in its results; the failure sentinel yields throughput 0.0; a success yields the bytes the read loop read, the elapsed time `max(0.0001, end - start)` and a non-negative throughput; every history gets exactly one entry; the new `last_results` is returned |
| `Sampler.NetPulse.Start` | netpulse.py:143-144 | sets the running flag; histories persist |
| `Sampler.NetPulse.Stop` | netpulse.py:156-157 | clears the running flag; stopping twice, or before starting, leaves it cleared |
| `Sampler.NetPulse.Snapshot` | netpulse.py:159-161 | returns copies equal to `last_results` and to every history, in order; the copies are bounded by 120, in lock-step, and consistent with one another |
| `Sampler.NetPulse.SpinnerGlyph` | netpulse.py:196 | the glyph drawn for the current spinner index is a spinner frame |
| `Sampler.NetPulse.AdvanceSpinner` | netpulse.py:197 | `spinner_idx = (spinner_idx + 1) % 4` keeps the index in 0..3 |

The method `Sampler.UnreachableTargetCycle` is a client of the class. It
runs one cycle with an unreachable target (`192.0.2.1:81`) beside a
reachable one. The unreachable target then shows as `None` in the results
and 0.0 in its history; the reachable target keeps its latency. A snapshot
taken before a second cycle is not changed by that cycle.

## Left out

- `tcp_connect_time` (socket connect and wall-clock timing) is not
  modelled; its result enters `MeasureOnce` as an `Option<real>` per
  target.
- The network and timing parts of `download_probe` (`urllib.request`,
  `time.time()`, the `except`) are not modelled. The response body, or
  `None` when anything raises, and the two clock readings are parameters.
- `Probes.ReadChunk`: `resp.read(n)` is modelled as returning the next
  `min(n, remaining)` bytes. Short reads before the end of the body are
  not modelled.
- `start`'s background thread, `time.sleep`, the cycle-level `except`,
  `threading.Lock` and the daemon lifecycle are not modelled. Each method
  that runs under the lock is one atomic step. `Start` only sets the flag.
- Rendering and formatting (`render`, `clear`, `col`, `now_ts`, the ANSI
  constants, `human_mbps`), `main`, `argparse` and `default_hosts` are left
  out as terminal I/O and command-line plumbing. Only the spinner index
  update and the glyph chosen from it are modelled.
- Floats are Dafny `real`s. IEEE rounding, NaN and infinities are not
  modelled, so latencies, throughput and the sparkline scaling are exact.
- `PyText.ParseInt`: models `int(s)` with ASCII digits only. It does not
  model underscore separators (`"8_0"`) or non-ASCII decimal digits, which
  Python accepts.
- `PyText.ParseIntRoundTrip`: holds for every integer because the model
  has no digit limit. Python 3.11 and later raise `ValueError` in `int()`
  and `str()` past 4300 digits, so there `"h:"` followed by 5000 digits
  gives `(part, 80)`, and the round trip holds only below the limit. The
  interpreter version is outside the model.
- Dictionary insertion order (used only when `render` prints the ping
  table) is not modelled; maps are unordered.
- `Sampler.NetPulse.Record`: requires the results map to have exactly the
  target keys. `measure_once`, its only caller, always builds it that way
  (`Sampler.ResultsOfKeys`). A key outside the targets, which would be a
  `KeyError` in the source, is therefore not modelled.
- `Sampler.NetPulse.Snapshot`: `dict(self.last_results)` is a shallow
  copy that shares the `pings` dictionary with the sampler. The source
  never mutates that dictionary after storing it, so the model's value
  copy behaves the same.
