/** The ring of newest samples, written at index (w % cap), and the sort applied to its filled prefix. */
module SampleRing {
  import opened WindowStats

  /** The slots after |window| writes: the samples in order until the ring is full, afterwards the
      newest samples rotated so that the oldest of them is the next slot to be overwritten. */
  ghost predicate HoldsNewest(slots: seq<real>, window: seq<real>) {
    var cap, w := |slots|, |window|;
    if w <= cap then slots[..w] == window
    else if cap == 0 then true
    else
      var next := w % cap;
      slots == window[w - next..] + window[w - cap..w - next]
  }

  lemma MulBounds(n: nat, k: int)
    requires n > 0
    ensures k >= 1 ==> n * k >= n
    ensures k <= -1 ==> n * k + n <= 0
  {}

  lemma UniqueRemainder(x: int, n: nat, q: int, r: int)
    requires n > 0 && x == n * q + r && 0 <= r < n
    ensures x % n == r
  {
    assert n * (q - x / n) == x % n - r;
    MulBounds(n, q - x / n);
  }

  lemma NextSlot(w: nat, cap: nat)
    requires cap > 0
    ensures (w + 1) % cap == if w % cap + 1 == cap then 0 else w % cap + 1
    ensures w < cap ==> w % cap == w
    ensures w == cap ==> w % cap == 0
  {
    NextRemainder(w, cap, w / cap, w % cap);
    if w < cap {
      UniqueRemainder(w, cap, 0, w);
    } else if w == cap {
      UniqueRemainder(w, cap, 1, 0);
    }
  }

  lemma NextRemainder(w: nat, cap: nat, q: nat, r: nat)
    requires w == cap * q + r && r < cap
    ensures (w + 1) % cap == if r + 1 == cap then 0 else r + 1
  {
    if r + 1 == cap {
      assert w + 1 == cap * (q + 1);
      UniqueRemainder(w + 1, cap, q + 1, 0);
    } else {
      UniqueRemainder(w + 1, cap, q, r + 1);
    }
  }

  /** Writing one more sample keeps the ring on the newest samples, whether or not it has wrapped. */
  lemma RingWrite(slots: seq<real>, window: seq<real>, x: real)
    requires slots != [] && HoldsNewest(slots, window)
    ensures HoldsNewest(slots[|window| % |slots| := x], window + [x])
  {
    NextSlot(|window|, |slots|);
    if |window| >= |slots| {
      WrappedWrite(slots, window, x);
    }
  }

  lemma WrappedWrite(slots: seq<real>, window: seq<real>, x: real)
    requires 0 < |slots| <= |window| && HoldsNewest(slots, window)
    ensures HoldsNewest(slots[|window| % |slots| := x], window + [x])
  {
    var cap, w := |slots|, |window|;
    NextSlot(w, cap);
    var p, next, window' := w % cap, (w + 1) % cap, window + [x];
    assert slots == window[w - p..] + window[w - cap..w - p];
    assert slots[p := x] == window[w - p..] + [x] + window[w - cap + 1..w - p];
    assert window'[w + 1 - next..w + 1] + window'[w + 1 - cap..w + 1 - next]
        == window[w - p..] + [x] + window[w - cap + 1..w - p];
  }

  /** The filled prefix is a rearrangement of the newest samples; no older value is left in it. */
  lemma PrefixIsNewest(slots: seq<real>, window: seq<real>)
    requires HoldsNewest(slots, window)
    ensures multiset(slots[..|Newest(window, |slots|)|]) == multiset(Newest(window, |slots|))
  {
    var cap, w := |slots|, |window|;
    if w > cap > 0 {
      var next := w % cap;
      assert slots[..cap] == slots;
      assert Newest(window, cap) == window[w - cap..w - next] + window[w - next..];
    }
  }

  // ---------------------------------------------------------------- sorting the filled prefix

  /** Sorts a[..n] in place and touches nothing else. */
  method SortPrefix(a: array<real>, n: nat)
    requires n <= a.Length
    modifies a
    ensures Sorted(a[..n]) && multiset(a[..n]) == old(multiset(a[..n]))
    ensures a[n..] == old(a[n..])
  {
    for i := 0 to n
      invariant forall p, q | 0 <= p < q < i :: a[p] <= a[q]
      invariant multiset(a[..n]) == old(multiset(a[..n]))
      invariant a[n..] == old(a[n..])
    {
      InsertLast(a, i, n);
    }
  }

  /** Moves a[i] down into the sorted prefix a[..i]. */
  method InsertLast(a: array<real>, i: nat, n: nat)
    requires i < n <= a.Length
    requires forall p, q | 0 <= p < q < i :: a[p] <= a[q]
    modifies a
    ensures forall p, q | 0 <= p < q <= i :: a[p] <= a[q]
    ensures multiset(a[..n]) == old(multiset(a[..n]))
    ensures a[n..] == old(a[n..])
  {
    var j := i;
    while j > 0 && a[j] < a[j - 1]
      invariant j <= i
      invariant forall p, q | 0 <= p < q <= i && q != j :: a[p] <= a[q]
      invariant multiset(a[..n]) == old(multiset(a[..n]))
      invariant a[n..] == old(a[n..])
    {
      SwapDown(a, j, n);
      j := j - 1;
    }
  }

  method SwapDown(a: array<real>, j: nat, n: nat)
    requires 0 < j < n <= a.Length
    modifies a
    ensures a[j] == old(a[j - 1]) && a[j - 1] == old(a[j])
    ensures forall k | 0 <= k < a.Length && k != j && k != j - 1 :: a[k] == old(a[k])
    ensures multiset(a[..n]) == old(multiset(a[..n]))
    ensures a[n..] == old(a[n..])
  {
    ghost var s := a[..n];
    a[j], a[j - 1] := a[j - 1], a[j];
    SwappedSame(s, a[..n], j);
  }

  lemma SwappedSame(s: seq<real>, t: seq<real>, j: nat)
    requires 0 < j < |s| == |t| && t[j] == s[j - 1] && t[j - 1] == s[j]
    requires forall k | 0 <= k < |s| && k != j && k != j - 1 :: t[k] == s[k]
    ensures multiset(s) == multiset(t)
  {
    var lo, hi := s[..j - 1], s[j + 1..];
    assert s == lo + ([s[j - 1]] + [s[j]]) + hi;
    assert t == lo + ([s[j]] + [s[j - 1]]) + hi;
    assert multiset(s) == multiset(lo) + (multiset{s[j - 1]} + multiset{s[j]}) + multiset(hi);
    assert multiset(t) == multiset(lo) + (multiset{s[j]} + multiset{s[j - 1]}) + multiset(hi);
  }

  method SortedCopy(s: seq<real>) returns (t: seq<real>)
    ensures Sorted(t) && multiset(t) == multiset(s)
  {
    var a := new real[|s|](i requires 0 <= i < |s| => s[i]);
    assert a[..|s|] == s;
    SortPrefix(a, |s|);
    t := a[..|s|];
  }
}
