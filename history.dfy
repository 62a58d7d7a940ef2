/** The rolling histories of the sampler: Python's `deque(maxlen=120)`.
    A deque is modelled by the sequence of its entries, oldest first;
    `append` on a full deque discards the oldest entry. */
module History {
  import opened Common

  /** `maxlen` of every history deque. */
  const Capacity: nat := 120

  /** The newest `n` entries of `s`, in order. */
  function Newest<T>(s: seq<T>, n: nat): (r: seq<T>)
    ensures |r| == Min(|s|, n)
    ensures r == s[|s| - |r|..]
  {
    if |s| <= n then s else s[|s| - n..]
  }

  /** `deque.append(v)` on a deque with `maxlen == Capacity`. */
  function Append<T>(h: seq<T>, v: T): (r: seq<T>)
    ensures |r| == Min(|h| + 1, Capacity)
    ensures r[|r| - 1] == v
    ensures |h| < Capacity ==> r == h + [v]
    ensures |h| == Capacity ==> r == h[1..] + [v]
  {
    Newest(h + [v], Capacity)
  }

  /** The deque after appending every element of `vs`, first to last. */
  function AppendAll<T>(h: seq<T>, vs: seq<T>): seq<T>
    decreases |vs|
  {
    if vs == [] then h else AppendAll(Append(h, vs[0]), vs[1..])
  }

  /** Keeping the newest `n` of a sequence and then of an extension of it
      is the same as keeping the newest `n` of the whole extension. */
  lemma NewestOfExtension<T>(s: seq<T>, t: seq<T>, n: nat)
    ensures Newest(Newest(s, n) + t, n) == Newest(s + t, n)
  {
    if |s| > n {
      var k := |s| - n;
      assert Newest(s, n) + t == (s + t)[k..];
      assert (s + t)[k..][|t|..] == (s + t)[k + |t|..];
    }
  }

  /** FIFO eviction: appending a run of values to a deque that is within its
      bound leaves exactly the newest `Capacity` values, oldest first. */
  lemma {:induction false} AppendAllKeepsNewest<T>(h: seq<T>, vs: seq<T>)
    requires |h| <= Capacity
    ensures AppendAll(h, vs) == Newest(h + vs, Capacity)
    decreases |vs|
  {
    if vs == [] {
      assert h + vs == h;
    } else {
      var h' := Append(h, vs[0]);
      AppendAllKeepsNewest(h', vs[1..]);
      NewestOfExtension(h + [vs[0]], vs[1..], Capacity);
      assert h + [vs[0]] + vs[1..] == h + vs;
    }
  }

  /** History bound: however many values are appended, the deque holds
      `min(N, Capacity)` of them. */
  lemma AppendAllLength<T>(vs: seq<T>)
    ensures |AppendAll([], vs)| == Min(|vs|, Capacity)
  {
    AppendAllKeepsNewest([], vs);
    assert [] + vs == vs;
  }

  /** After appending v1..v121 to an empty history it holds v2..v121. */
  lemma OneOverCapacity<T>(vs: seq<T>)
    requires |vs| == Capacity + 1
    ensures AppendAll([], vs) == vs[1..]
  {
    AppendAllKeepsNewest([], vs);
    assert [] + vs == vs;
  }
}
