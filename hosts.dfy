/** Targets, their `"host:port"` key, and `parse_hosts`, which reads the
    comma-separated `--hosts` list. */
module Hosts {
  import opened Common
  import opened PyText

  /** One probed target, the source's `(host, port)` tuple. */
  datatype Target = Target(host: string, port: int)

  /** The port used when a segment carries none (or an unparsable one). */
  const DefaultPort: int := 80

  /** `f"{host}:{port}"`, the key of a target's history and result. */
  function Key(t: Target): string {
    t.host + ":" + IntToString(t.port)
  }

  /** The position of the last `c` in `s`, where `rsplit(c, 1)` splits. */
  function LastIndexOf(s: string, c: char): (i: nat)
    requires c in s
    ensures i < |s| && s[i] == c && c !in s[i + 1..]
    decreases |s|
  {
    if s[|s| - 1] == c then |s| - 1
    else
      assert c in s[..|s| - 1] by {
        var j :| 0 <= j < |s| && s[j] == c;
        assert s[..|s| - 1][j] == c;
      }
      LastIndexOf(s[..|s| - 1], c)
  }

  lemma LastIndexOfAfter(a: string, c: char, b: string)
    requires c !in b
    ensures c in a + [c] + b && LastIndexOf(a + [c] + b, c) == |a|
  {
    var s := a + [c] + b;
    assert s[|a|] == c;
    var i := LastIndexOf(s, c);
  }

  /** Keys identify targets: two targets with the same key are equal, so
      duplicated targets, and only those, share one history. */
  lemma KeyInjective(a: Target, b: Target)
    requires Key(a) == Key(b)
    ensures a == b
  {
    var pa, pb := IntToString(a.port), IntToString(b.port);
    assert Key(a) == a.host + [':'] + pa;
    assert Key(b) == b.host + [':'] + pb;
    LastIndexOfAfter(a.host, ':', pa);
    LastIndexOfAfter(b.host, ':', pb);
    assert a.host == Key(a)[..|a.host|];
    assert pa == Key(a)[|a.host| + 1..];
    ParseIntRoundTrip(a.port);
    ParseIntRoundTrip(b.port);
  }

  /** One field of the comma-split input, read as the loop body of
      `parse_hosts` does. `None` is the `continue` for an empty field.
      Otherwise the result is either the host before the last colon with
      the integer after it, or the whole stripped field with port 80 when
      there is no colon or the text after the last one is not an integer. */
  function ParseSegment(raw: string): (r: Option<Target>)
    ensures r.None? <==> Strip(raw) == []
  {
    var part := Strip(raw);
    if part == [] then None
    else if ':' in part then
      var i := LastIndexOf(part, ':');
      match ParseInt(part[i + 1..])
      case Some(p) => Some(Target(part[..i], p))
      case None => Some(Target(part, DefaultPort))
    else Some(Target(part, DefaultPort))
  }

  /** The three outcomes of a non-empty field. Without a colon the field
      is the host and the port is 80. Otherwise either the host is the
      text before the last colon and the port the integer after it, or,
      when that text is not an integer, the whole field is the host and
      the port is 80 (so `"host:"` gives `("host:", 80)`). */
  lemma ParseSegmentCases(raw: string)
    requires Strip(raw) != []
    ensures var part, r := Strip(raw), ParseSegment(raw).value;
      && (':' !in part ==> r == Target(part, DefaultPort))
      && (':' in part ==>
            var i := LastIndexOf(part, ':');
            && (ParseInt(part[i + 1..]).Some? ==> r == Target(part[..i], ParseInt(part[i + 1..]).value))
            && (ParseInt(part[i + 1..]).None? ==> r == Target(part, DefaultPort)))
  {
  }

  /** `strip()` removes U+001C..U+001F but `int()` rejects them, so a port
      that starts with one is not a port: `"h:\x1c5"` stays one host on
      port 80. */
  lemma SeparatorBeforePort()
    ensures ParseSegment("h:\U{1C}5") == Some(Target("h:\U{1C}5", DefaultPort))
  {
    var part, port := "h:\U{1C}5", "\U{1C}5";
    assert part == "h" + [':'] + port;
    TrimUnchanged(StrSpace, part);
    LastIndexOfAfter("h", ':', port);
    assert part[2..] == port;
    IntRejectsSeparator();
  }

  /** What one field contributes to the output list. */
  function SegmentTargets(raw: string): seq<Target> {
    match ParseSegment(raw)
    case Some(t) => [t]
    case None => []
  }

  /** The targets read from a list of fields, in field order. */
  function ParseAll(parts: seq<string>): (r: seq<Target>)
    ensures |r| <= |parts|
    decreases |parts|
  {
    if parts == [] then []
    else ParseAll(parts[..|parts| - 1]) + SegmentTargets(parts[|parts| - 1])
  }

  /** `parse_hosts(s)`. */
  method ParseHosts(s: string) returns (out: seq<Target>)
    ensures out == ParseAll(Split(s, ','))
  {
    var parts := Split(s, ',');
    out := [];
    for k := 0 to |parts|
      invariant out == ParseAll(parts[..k])
    {
      assert parts[..k + 1][..k] == parts[..k];
      var part := Strip(parts[k]);
      if part == [] {
        continue;
      }
      if ':' in part {
        var i := LastIndexOf(part, ':');
        var port := ParseInt(part[i + 1..]);
        if port.Some? {
          out := out + [Target(part[..i], port.value)];
          continue;
        }
      }
      out := out + [Target(part, DefaultPort)];
    }
    assert parts[..|parts|] == parts;
  }

  /** Output order follows input order: the fields of a concatenation give
      the targets of the first part followed by those of the second. */
  lemma {:induction false} ParseAllConcat(a: seq<string>, b: seq<string>)
    ensures ParseAll(a + b) == ParseAll(a) + ParseAll(b)
    decreases |b|
  {
    if b == [] {
      assert a + b == a;
    } else {
      var b' := b[..|b| - 1];
      var ab := a + b;
      assert ab[..|ab| - 1] == a + b' && ab[|ab| - 1] == b[|b| - 1];
      calc {
        ParseAll(a + b);
        ParseAll(a + b') + SegmentTargets(b[|b| - 1]);
        { ParseAllConcat(a, b'); }
        ParseAll(a) + ParseAll(b') + SegmentTargets(b[|b| - 1]);
        ParseAll(a) + ParseAll(b);
      }
    }
  }

  /** Fields that are empty after stripping are skipped: an input made only
      of commas and whitespace (`""`, `","`, `" , "`) yields no target. */
  lemma {:induction false} ParseAllBlank(parts: seq<string>)
    requires forall i :: 0 <= i < |parts| ==> forall c :: c in parts[i] ==> IsSpace(c)
    ensures ParseAll(parts) == []
    decreases |parts|
  {
    if parts != [] {
      ParseAllBlank(parts[..|parts| - 1]);
      var raw := parts[|parts| - 1];
      var lo := TrimSlice(StrSpace, raw);
    }
  }

  lemma ParseHostsOfBlank(s: string)
    requires forall c :: c in s ==> c == ',' || IsSpace(c)
    ensures ParseAll(Split(s, ',')) == []
  {
    var parts := Split(s, ',');
    forall i, c | 0 <= i < |parts| && c in parts[i]
      ensures IsSpace(c)
    {
      JoinContains(parts, ',', i, c);
    }
    ParseAllBlank(parts);
  }

  lemma {:induction false} JoinContains(parts: seq<string>, sep: char, i: nat, c: char)
    requires i < |parts| && c in parts[i]
    ensures c in Join(parts, sep)
    decreases |parts|
  {
    if |parts| > 1 {
      if i == 0 {
        var j :| 0 <= j < |parts[0]| && parts[0][j] == c;
        assert Join(parts, sep)[j] == c;
      } else {
        JoinContains(parts[1..], sep, i - 1, c);
        var s := Join(parts[1..], sep);
        var j :| 0 <= j < |s| && s[j] == c;
        assert Join(parts, sep)[|parts[0]| + 1 + j] == c;
      }
    }
  }

  /** A host that survives being written into a `--hosts` list: no comma,
      and no leading whitespace for `strip()` to remove. */
  predicate PlainHost(h: string) {
    ',' !in h && (h == [] || !IsSpace(h[0]))
  }

  /** The keys of a list of targets, in order. */
  function Keys(ts: seq<Target>): (ks: seq<string>)
    ensures |ks| == |ts|
    ensures forall i :: 0 <= i < |ts| ==> ks[i] == Key(ts[i])
  {
    seq(|ts|, i requires 0 <= i < |ts| => Key(ts[i]))
  }

  /** `parse_hosts` reads a key back into its target. */
  lemma ParseKey(t: Target)
    requires PlainHost(t.host)
    ensures ParseSegment(Key(t)) == Some(t)
  {
    var digits := IntToString(t.port);
    var k := Key(t);
    assert k == t.host + [':'] + digits;
    TrimUnchanged(StrSpace, k);
    LastIndexOfAfter(t.host, ':', digits);
    assert k[..|t.host|] == t.host;
    assert k[|t.host| + 1..] == digits;
    ParseIntRoundTrip(t.port);
  }

  lemma {:induction false} ParseAllKeys(ts: seq<Target>)
    requires forall i :: 0 <= i < |ts| ==> PlainHost(ts[i].host)
    ensures ParseAll(Keys(ts)) == ts
    decreases |ts|
  {
    if ts != [] {
      var ts', last := ts[..|ts| - 1], ts[|ts| - 1];
      var ks := Keys(ts);
      assert ks[..|ks| - 1] == Keys(ts') && ks[|ks| - 1] == Key(last);
      calc {
        ParseAll(ks);
        ParseAll(Keys(ts')) + SegmentTargets(Key(last));
        { ParseAllKeys(ts'); ParseKey(last); }
        ts' + [last];
        ts;
      }
    }
  }

  /** Round trip: writing targets as a comma-separated list of their keys
      and reading it with `parse_hosts` gives the same targets, in order. */
  lemma ParseHostsRoundTrip(ts: seq<Target>)
    requires forall i :: 0 <= i < |ts| ==> PlainHost(ts[i].host)
    ensures ParseAll(Split(Join(Keys(ts), ','), ',')) == ts
  {
    if ts == [] {
      assert Split([], ',') == [[]];
      assert ParseAll([[]]) == ParseAll([]) + SegmentTargets([]);
    } else {
      forall i | 0 <= i < |ts|
        ensures ',' !in Keys(ts)[i]
      {
        assert Keys(ts)[i] == ts[i].host + [':'] + IntToString(ts[i].port);
      }
      SplitJoin(Keys(ts), ',');
      ParseAllKeys(ts);
    }
  }
}
