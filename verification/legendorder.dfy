/**
 * The order in which a legend template visits a map's layers
 * (sortLayerByOrder and sortLayerByMetadata in maptemplate.c). A layer
 * order is a sequence of layer indices; a map without one has `None`.
 */
module LegendOrder {
  import opened Wrappers
  import opened CStrings
  import opened HashTable

  /** Every entry is the index of one of `n` layers. */
  predicate InRange(order: seq<int>, n: nat) {
    forall k :: 0 <= k < |order| ==> 0 <= order[k] < n
  }

  lemma {:induction false} ReverseMultiset<T>(s: seq<T>)
    ensures multiset(Reverse(s)) == multiset(s)
    decreases |s|
  {
    if |s| > 0 {
      ReverseMultiset(s[1..]);
      assert s == [s[0]] + s[1..];
    }
  }

  lemma ReverseTwice<T>(s: seq<T>)
    ensures Reverse(Reverse(s)) == s
  {
  }

  // ---------------------------------------------------------------------
  // sortLayerByOrder
  // ---------------------------------------------------------------------

  /**
   * sortLayerByOrder: an existing order is reversed when the word is
   * "DESCENDING" in any case; any other word, and a map without an order,
   * are left as they are.
   */
  function SortByOrder(order: Option<seq<int>>, how: string): (r: Option<seq<int>>)
    ensures r.Some? <==> order.Some?
    ensures r.Some? ==> |r.value| == |order.value|
    ensures r.Some? && LowerAll(how) != "descending" ==> r == order
  {
    match order
    case None => None
    case Some(o) => if LowerAll(how) == "descending" then Some(Reverse(o)) else Some(o)
  }

  /** Sorting by order only rearranges the layers. */
  lemma SortByOrderPermutes(order: seq<int>, how: string)
    ensures multiset(SortByOrder(Some(order), how).value) == multiset(order)
  {
    ReverseMultiset(order);
  }

  /** Asking twice for descending order gives the order back. */
  lemma SortByOrderTwice(order: Option<seq<int>>, how: string)
    ensures SortByOrder(SortByOrder(order, how), how) == order
  {
    if order.Some? {
      ReverseTwice(order.value);
    }
  }

  /** Descending order puts the last layer of the order first. */
  lemma SortByOrderDescending(order: seq<int>, how: string)
    requires LowerAll(how) == "descending"
    ensures forall k :: 0 <= k < |order| ==> SortByOrder(Some(order), how).value[k] == order[|order| - 1 - k]
  {
  }

  // ---------------------------------------------------------------------
  // sortLayerByMetadata
  // ---------------------------------------------------------------------

  /** The order the sort starts from: the existing order reversed, or the layers from the last to the first. */
  function InitialOrder(order: Option<seq<int>>, n: nat): (r: seq<int>)
    requires order.Some? ==> |order.value| == n
    ensures |r| == n
    ensures order.Some? ==> multiset(r) == multiset(order.value)
    ensures order.Some? && InRange(order.value, n) ==> InRange(r, n)
    ensures order.None? ==> InRange(r, n) && forall k :: 0 <= k < n ==> r[k] == n - 1 - k
  {
    match order
    case Some(o) =>
      ReverseMultiset(o);
      Reverse(o)
    case None => seq(n, k requires 0 <= k < n => n - 1 - k)
  }

  /** The number a layer's metadata gives under `key`, read with atoi; none when the layer lacks the key. */
  function Rank(meta: seq<Table>, key: string, layer: int): (r: Option<int>)
    ensures r.Some? ==> 0 <= layer < |meta| && Lookup(meta[layer], key).Some?
  {
    if 0 <= layer < |meta| then
      match Lookup(meta[layer], key)
      case None => None
      case Some(v) => Some(Atoi(v))
    else None
  }

  /** Every layer has a number under `key`. */
  predicate AllRanked(meta: seq<Table>, key: string) {
    forall l :: 0 <= l < |meta| ==> Rank(meta, key, l).Some?
  }

  /** The number of a layer, 0 for one that has none. */
  function Key(meta: seq<Table>, key: string, layer: int): int {
    match Rank(meta, key, layer)
    case Some(k) => k
    case None => 0
  }

  /** The positions from `lo` on are in ascending order of their numbers. */
  predicate SortedFrom(meta: seq<Table>, key: string, r: seq<int>, lo: int) {
    forall p, q :: 0 <= lo <= p < q < |r| ==> Key(meta, key, r[p]) <= Key(meta, key, r[q])
  }

  /** No number before `lo` exceeds a number from `lo` on. */
  predicate Parted(meta: seq<Table>, key: string, r: seq<int>, lo: int) {
    forall p, q :: 0 <= p < lo <= q < |r| ==> Key(meta, key, r[p]) <= Key(meta, key, r[q])
  }

  /** Layers without a number hold the places they hold in `init`. */
  predicate UnrankedFixed(meta: seq<Table>, key: string, r: seq<int>, init: seq<int>) {
    |r| == |init| && forall k :: 0 <= k < |r| && Rank(meta, key, init[k]).None? ==> r[k] == init[k]
  }

  /** Swapping two neighbours only rearranges the order. */
  lemma SwapMultiset(r: seq<int>, j: nat)
    requires j + 1 < |r|
    ensures multiset(r[j := r[j + 1]][j + 1 := r[j]]) == multiset(r)
    ensures multiset(r[j := r[j + 1]][j + 1 := r[j]][..j + 2]) == multiset(r[..j + 2])
  {
    var s := r[j := r[j + 1]][j + 1 := r[j]];
    assert r == r[..j] + [r[j], r[j + 1]] + r[j + 2..];
    assert s == r[..j] + [r[j + 1], r[j]] + r[j + 2..];
    assert r[..j + 2] == r[..j] + [r[j], r[j + 1]];
    assert s[..j + 2] == r[..j] + [r[j + 1], r[j]];
  }

  /** The compare-and-swap of the neighbours at j and j + 1. */
  function StepAt(s: seq<int>, j: nat, meta: seq<Table>, key: string): (t: seq<int>)
    requires j + 1 < |s|
    ensures |t| == |s|
  {
    var second := Rank(meta, key, s[j + 1]);
    var first := Rank(meta, key, s[j]);
    if second.Some? && first.Some? && second.value < first.value then s[j := s[j + 1]][j + 1 := s[j]]
    else s
  }

  /** What a pass over 0..m keeps true up to position j. */
  ghost predicate PassInv(r: seq<int>, s: seq<int>, m: nat, j: nat, meta: seq<Table>, key: string, init: seq<int>) {
    && j <= m < |r| && |s| == |r| && InRange(s, |meta|)
    && multiset(s[..m + 1]) == multiset(r[..m + 1])
    && s[m + 1..] == r[m + 1..]
    && UnrankedFixed(meta, key, s, init)
    && (AllRanked(meta, key) ==> forall p :: 0 <= p <= j ==> Key(meta, key, s[p]) <= Key(meta, key, s[j]))
  }

  lemma StepKeepsRange(s: seq<int>, j: nat, meta: seq<Table>, key: string, init: seq<int>)
    requires j + 1 < |s| && InRange(s, |meta|) && UnrankedFixed(meta, key, s, init)
    ensures InRange(StepAt(s, j, meta, key), |meta|) && UnrankedFixed(meta, key, StepAt(s, j, meta, key), init)
  {
  }

  lemma StepKeepsContents(s: seq<int>, j: nat, m: nat, meta: seq<Table>, key: string)
    requires j < m < |s|
    ensures multiset(StepAt(s, j, meta, key)[..m + 1]) == multiset(s[..m + 1])
    ensures StepAt(s, j, meta, key)[m + 1..] == s[m + 1..]
  {
    var t := StepAt(s, j, meta, key);
    if t != s {
      SwapMultiset(s, j);
      assert t[..m + 1] == t[..j + 2] + s[j + 2..m + 1];
      assert s[..m + 1] == s[..j + 2] + s[j + 2..m + 1];
    }
  }

  lemma StepCarriesMax(s: seq<int>, j: nat, meta: seq<Table>, key: string)
    requires j + 1 < |s| && AllRanked(meta, key) && InRange(s, |meta|)
    requires forall p :: 0 <= p <= j ==> Key(meta, key, s[p]) <= Key(meta, key, s[j])
    ensures var t := StepAt(s, j, meta, key);
            forall p :: 0 <= p <= j + 1 ==> Key(meta, key, t[p]) <= Key(meta, key, t[j + 1])
  {
  }

  lemma PassStep(r: seq<int>, s: seq<int>, m: nat, j: nat, meta: seq<Table>, key: string, init: seq<int>)
    requires PassInv(r, s, m, j, meta, key, init) && j < m
    ensures PassInv(r, StepAt(s, j, meta, key), m, j + 1, meta, key, init)
  {
    StepKeepsRange(s, j, meta, key, init);
    StepKeepsContents(s, j, m, meta, key);
    if AllRanked(meta, key) {
      StepCarriesMax(s, j, meta, key);
    }
  }

  /**
   * One pass of the bubble sort over positions 0..m: a neighbour pair that
   * both have numbers is swapped when the second's is smaller.
   */
  method BubblePass(r: seq<int>, m: nat, meta: seq<Table>, key: string, ghost init: seq<int>) returns (s: seq<int>)
    requires m < |r| && InRange(r, |meta|)
    requires UnrankedFixed(meta, key, r, init)
    ensures |s| == |r| && InRange(s, |meta|)
    ensures multiset(s[..m + 1]) == multiset(r[..m + 1]) && s[m + 1..] == r[m + 1..]
    ensures UnrankedFixed(meta, key, s, init)
    ensures AllRanked(meta, key) ==> forall p :: 0 <= p <= m ==> Key(meta, key, s[p]) <= Key(meta, key, s[m])
  {
    s := r;
    var j := 0;
    while j < m
      invariant PassInv(r, s, m, j, meta, key, init)
    {
      PassStep(r, s, m, j, meta, key, init);
      s := StepAt(s, j, meta, key);
      j := j + 1;
    }
  }

  /** The prefix and the untouched suffix make up the whole. */
  lemma PrefixSuffixMultiset(r: seq<int>, s: seq<int>, m: nat)
    requires m < |r| == |s|
    requires multiset(s[..m + 1]) == multiset(r[..m + 1]) && s[m + 1..] == r[m + 1..]
    ensures multiset(s) == multiset(r)
  {
    assert r == r[..m + 1] + r[m + 1..];
    assert s == s[..m + 1] + s[m + 1..];
  }

  /**
   * sortLayerByMetadata on a map of |meta| layers: the order starts as the
   * reverse of the existing one (or of the layers), and with a key it is
   * bubble-sorted by the layers' numbers under that key, leaving in place
   * every layer that has none.
   */
  method SortLayerByMetadata(order: Option<seq<int>>, meta: seq<Table>, key: Option<string>) returns (r: seq<int>)
    requires order.Some? ==> |order.value| == |meta| && InRange(order.value, |meta|)
    ensures |r| == |meta| && InRange(r, |meta|)
    ensures multiset(r) == multiset(InitialOrder(order, |meta|))
    ensures key.None? ==> r == InitialOrder(order, |meta|)
    ensures key.Some? ==> UnrankedFixed(meta, key.value, r, InitialOrder(order, |meta|))
    ensures key.Some? && AllRanked(meta, key.value) ==> SortedFrom(meta, key.value, r, 0)
  {
    var n := |meta|;
    r := InitialOrder(order, n);
    ghost var init := r;
    if key.None? {
      return;
    }
    var i := 0;
    while i < n - 1
      invariant 0 <= i <= if n == 0 then 0 else n - 1
      invariant |r| == n && InRange(r, n)
      invariant multiset(r) == multiset(init)
      invariant UnrankedFixed(meta, key.value, r, init)
      invariant AllRanked(meta, key.value) ==> SortedFrom(meta, key.value, r, n - i) && Parted(meta, key.value, r, n - i)
    {
      var m := n - 1 - i;
      var s := BubblePass(r, m, meta, key.value, init);
      PrefixSuffixMultiset(r, s, m);
      if AllRanked(meta, key.value) {
        PassKeepsOrder(meta, key.value, r, s, m);
      }
      r := s;
      i := i + 1;
    }
    if AllRanked(meta, key.value) && n > 0 {
      assert SortedFrom(meta, key.value, r, 1) && Parted(meta, key.value, r, 1);
    }
  }

  /**
   * After a pass over 0..m that ends with the largest number of that range
   * at m, the order from m on is sorted and parted from what comes before.
   */
  lemma PassKeepsOrder(meta: seq<Table>, key: string, r: seq<int>, s: seq<int>, m: nat)
    requires m < |r| == |s|
    requires SortedFrom(meta, key, r, m + 1) && Parted(meta, key, r, m + 1)
    requires multiset(s[..m + 1]) == multiset(r[..m + 1]) && s[m + 1..] == r[m + 1..]
    requires forall p :: 0 <= p <= m ==> Key(meta, key, s[p]) <= Key(meta, key, s[m])
    ensures SortedFrom(meta, key, s, m) && Parted(meta, key, s, m)
  {
    forall q | m + 1 <= q < |s|
      ensures s[q] == r[q]
    {
      assert s[q] == s[m + 1..][q - m - 1];
    }
    forall p, q | 0 <= p <= m < q < |s|
      ensures Key(meta, key, s[p]) <= Key(meta, key, s[q])
    {
      assert s[p] in multiset(r[..m + 1]) by {
        assert s[p] == s[..m + 1][p];
      }
      var p' :| 0 <= p' <= m && r[p'] == s[p] by {
        assert s[p] in r[..m + 1];
      }
    }
  }
}
