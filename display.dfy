/** The two text helpers the renderer draws with: `sparkline`, a bar-glyph
    trend of the newest values, and `spinner`, the activity indicator. */
module Display {
  import opened Common

  /** The eight bar glyphs, lowest first: U+2581 LOWER ONE EIGHTH BLOCK
      through U+2588 FULL BLOCK. */
  const SparkChars: string := "\U{2581}\U{2582}\U{2583}\U{2584}\U{2585}\U{2586}\U{2587}\U{2588}"

  /** The four spinner frames. */
  const SpinnerChars: string := "|/-\\"

  /** `spinner(ch)`: Python's `%` by a positive divisor never yields a
      negative remainder, like Dafny's, so every index selects a frame. */
  function Spinner(ch: int): (c: char)
    ensures c in SpinnerChars
  {
    SpinnerChars[ch % 4]
  }

  /** The spinner repeats every four ticks and never shows the same frame
      on two consecutive ticks. */
  lemma SpinnerCycle(ch: int)
    ensures Spinner(ch + 4) == Spinner(ch)
    ensures Spinner(ch + 1) != Spinner(ch)
  {
    assert (ch + 4) % 4 == ch % 4;
    assert (ch + 1) % 4 == if ch % 4 == 3 then 0 else ch % 4 + 1;
  }

  /** `" " * n`: `n` spaces, the empty string when `n <= 0`. */
  function Spaces(n: int): (r: string)
    ensures |r| == if n <= 0 then 0 else n
    ensures forall i :: 0 <= i < |r| ==> r[i] == ' '
  {
    if n <= 0 then [] else seq(n, i => ' ')
  }

  /** Where the slice `values[-width:]` starts in a list of length `n`:
      the newest `width` values for a positive width, the whole list for
      width 0 (`-0 == 0`), and after the first `-width` for a negative one. */
  function SliceStart(n: nat, width: int): (k: nat)
    ensures k <= n
    ensures width > 0 ==> n - k == Min(n, width)
  {
    if width > 0 then (if width >= n then 0 else n - width)
    else if width == 0 then 0
    else Min(n, -width)
  }

  /** `int(x)` for a float: truncation toward zero. */
  function Trunc(x: real): (t: int)
    ensures x >= 0.0 ==> t as real <= x < t as real + 1.0
    ensures x < 0.0 ==> t as real - 1.0 < x <= t as real
  {
    if x >= 0.0 then x.Floor else -((-x).Floor)
  }

  /** `max(vals)`. */
  function Max(vals: seq<real>): (m: real)
    requires vals != []
    ensures m in vals
    ensures forall i :: 0 <= i < |vals| ==> vals[i] <= m
  {
    if |vals| == 1 then vals[0]
    else
      var m := Max(vals[1..]);
      assert forall i :: 1 <= i < |vals| ==> vals[i] == vals[1..][i - 1];
      if vals[0] >= m then vals[0] else m
  }

  /** The value the glyphs are scaled against: the maximum when it is
      positive, otherwise 1.0. */
  function Scale(vals: seq<real>): (mx: real)
    requires vals != []
    ensures mx > 0.0
  {
    if Max(vals) > 0.0 then Max(vals) else 1.0
  }

  /** `int((v / mx) * (len(SPARK_CHARS) - 1))`. */
  function GlyphIndex(v: real, mx: real): int
    requires mx > 0.0
  {
    Trunc((v / mx) * (|SparkChars| - 1) as real)
  }

  /** `SPARK_CHARS[idx]` with Python's indexing: a negative index counts
      from the end, and an index outside `-8..7` raises (here: `None`). */
  function PyIndex(s: string, i: int): (r: Option<char>)
    ensures r.Some? <==> -|s| <= i < |s|
    ensures 0 <= i < |s| ==> r == Some(s[i])
  {
    if 0 <= i < |s| then Some(s[i])
    else if -|s| <= i < 0 then Some(s[|s| + i])
    else None
  }

  /** The glyphs of `vals`, in order, or `None` when some index raises. */
  function Glyphs(vals: seq<real>, mx: real): (r: Option<string>)
    requires mx > 0.0
    decreases |vals|
  {
    if vals == [] then Some([])
    else
      match Glyphs(vals[..|vals| - 1], mx)
      case None => None
      case Some(g) =>
        match PyIndex(SparkChars, GlyphIndex(vals[|vals| - 1], mx))
        case None => None
        case Some(c) => Some(g + [c])
  }

  /** `sparkline(values, width)`, or `None` where the source raises: `max`
      of an empty slice (`ValueError`, possible only for width < 0) or a
      glyph index below -8 (`IndexError`, possible only for negative values). */
  function SparklineOf(values: seq<real>, width: int): Option<string> {
    if values == [] then Some(Spaces(width))
    else
      var vals := values[SliceStart(|values|, width)..];
      if vals == [] then None
      else
        match Glyphs(vals, Scale(vals))
        case None => None
        case Some(out) => Some(PadLeft(out, width))
  }

  /** The padding step: spaces in front of `out` up to `width` characters. */
  function PadLeft(out: string, width: int): (line: string)
    ensures |out| <= width ==>
      && |line| == width
      && (forall i :: 0 <= i < width - |out| ==> line[i] == ' ')
      && (forall i :: 0 <= i < |out| ==> line[width - |out| + i] == out[i])
    ensures |out| >= width ==> line == out
  {
    if |out| < width then Spaces(width - |out|) + out else out
  }

  lemma {:induction false} GlyphsNoneExtends(vals: seq<real>, mx: real, k: nat)
    requires mx > 0.0 && k <= |vals|
    requires Glyphs(vals[..k], mx).None?
    ensures Glyphs(vals, mx).None?
    decreases |vals| - k
  {
    if k < |vals| {
      assert vals[..k + 1][..k] == vals[..k];
      GlyphsNoneExtends(vals, mx, k + 1);
    } else {
      assert vals[..k] == vals;
    }
  }

  /** `sparkline` as the source computes it: slice, scale, one glyph per
      value appended in a loop, then left-padding. */
  method Sparkline(values: seq<real>, width: int) returns (r: Option<string>)
    ensures r == SparklineOf(values, width)
  {
    if values == [] {
      return Some(Spaces(width));
    }
    var vals := values[SliceStart(|values|, width)..];
    if vals == [] {
      return None;
    }
    var mx := Scale(vals);
    var out := "";
    for i := 0 to |vals|
      invariant Glyphs(vals[..i], mx) == Some(out)
    {
      assert vals[..i + 1][..i] == vals[..i];
      var c := PyIndex(SparkChars, GlyphIndex(vals[i], mx));
      if c.None? {
        GlyphsNoneExtends(vals, mx, i + 1);
        return None;
      }
      out := out + [c.value];
    }
    assert vals[..|vals|] == vals;
    if |out| < width {
      out := Spaces(width - |out|) + out;
    }
    assert out == PadLeft(Glyphs(vals, mx).value, width);
    return Some(out);
  }

  /** Values in `0..mx` get a glyph index in `0..7`; the maximum itself
      gets the full block. */
  lemma GlyphIndexBounds(v: real, mx: real)
    requires mx > 0.0 && 0.0 <= v <= mx
    ensures 0 <= GlyphIndex(v, mx) < |SparkChars|
    ensures v == mx ==> GlyphIndex(v, mx) == |SparkChars| - 1
  {
    assert |SparkChars| == 8;
    assert 0.0 <= v / mx <= 1.0 by {
      assert v / mx * mx == v;
    }
    if v == mx {
      assert v / mx == 1.0;
      assert Trunc(7.0) == 7;
    }
  }

  /** A larger value never gets a lower bar. */
  lemma GlyphIndexMonotone(v: real, w: real, mx: real)
    requires mx > 0.0 && 0.0 <= v <= w
    ensures GlyphIndex(v, mx) <= GlyphIndex(w, mx)
  {
    var x, y := (v / mx) * 7.0, (w / mx) * 7.0;
    assert x <= y by {
      assert v / mx <= w / mx;
    }
  }

  /** For values in `0..mx`, every value gets the glyph its index names. */
  lemma {:induction false} GlyphsInRange(vals: seq<real>, mx: real)
    requires mx > 0.0
    requires forall i :: 0 <= i < |vals| ==> 0.0 <= vals[i] <= mx
    ensures Glyphs(vals, mx).Some?
    ensures |Glyphs(vals, mx).value| == |vals|
    ensures forall i :: 0 <= i < |vals| ==>
              0 <= GlyphIndex(vals[i], mx) < |SparkChars|
              && Glyphs(vals, mx).value[i] == SparkChars[GlyphIndex(vals[i], mx)]
    decreases |vals|
  {
    if vals != [] {
      var init := vals[..|vals| - 1];
      GlyphsInRange(init, mx);
      GlyphIndexBounds(vals[|vals| - 1], mx);
      forall i | 0 <= i < |vals|
        ensures 0 <= GlyphIndex(vals[i], mx) < |SparkChars|
      {
        GlyphIndexBounds(vals[i], mx);
      }
    }
  }

  /** For a positive width and non-negative values, `sparkline` returns
      exactly `width` characters: spaces for missing history, then one
      glyph per value of the newest `min(len, width)`, each in `0..7`. */
  lemma SparklineShape(values: seq<real>, width: int)
    requires width > 0
    requires forall i :: 0 <= i < |values| ==> 0.0 <= values[i]
    ensures SparklineOf(values, width).Some?
    ensures var line, n := SparklineOf(values, width).value, Min(|values|, width);
      && |line| == width
      && (forall i :: 0 <= i < width - n ==> line[i] == ' ')
      && (values != [] ==>
            var vals := values[|values| - n..];
            forall i :: 0 <= i < n ==>
              && 0 <= GlyphIndex(vals[i], Scale(vals)) < |SparkChars|
              && line[width - n + i] == SparkChars[GlyphIndex(vals[i], Scale(vals))])
  {
    if values != [] {
      var n := Min(|values|, width);
      var vals := values[SliceStart(|values|, width)..];
      assert vals == values[|values| - n..];
      var mx := Scale(vals);
      forall i | 0 <= i < |vals|
        ensures 0.0 <= vals[i] <= mx
      {
        assert vals[i] == values[|values| - n + i];
      }
      GlyphsInRange(vals, mx);
      assert SparklineOf(values, width) == Some(PadLeft(Glyphs(vals, mx).value, width));
    }
  }
}
