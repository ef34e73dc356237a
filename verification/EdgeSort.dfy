/**
 `stbtt__sort_edges`: quicksort down to short stretches, then one insertion sort over everything.
 Only the order of `y0` matters; it is a real number, so there is no NaN.
 */
module EdgeSort {

  datatype Edge = Edge(y0: real, rest: int)

  /** `STBTT__COMPARE` */
  predicate Less(a: Edge, b: Edge) { a.y0 < b.y0 }

  predicate Sorted(s: seq<Edge>) {
    forall i, j :: 0 <= i < j < |s| ==> s[i].y0 <= s[j].y0
  }

  lemma Replaced(s: seq<Edge>, i: nat, v: Edge)
    requires i < |s|
    ensures multiset(s[i := v]) == multiset(s) - multiset{s[i]} + multiset{v}
  {
  }

  /** Exchanging two elements is a permutation. */
  lemma Exchange(s: seq<Edge>, i: nat, j: nat)
    requires i < |s| && j < |s|
    ensures multiset(s[i := s[j]][j := s[i]]) == multiset(s)
  {
    Replaced(s, i, s[j]);
    Replaced(s[i := s[j]], j, s[i]);
    assert s[i] in multiset(s);
  }

  // ---------------------------------------------------------------- insertion sort

  /** Moving the gap left: with t put back into the gap, the elements are the same. */
  lemma GapMoves(s: seq<Edge>, j: nat, t: Edge)
    requires 0 < j < |s|
    ensures multiset(s[j := s[j - 1]][j - 1 := t]) == multiset(s[j := t])
  {
    var u := s[j := t];
    Exchange(u, j - 1, j);
    assert s[j := s[j - 1]][j - 1 := t] == u[j - 1 := u[j]][j := u[j - 1]];
  }

  /** Everything up to i is sorted apart from a gap at j, where t is missing; what follows the gap is not below t. */
  ghost predicate Gap(s: seq<Edge>, i: nat, j: nat, t: Edge) {
    && j <= i < |s|
    && (forall k, l :: 0 <= k < l <= i && k != j && l != j ==> s[k].y0 <= s[l].y0)
    && forall k :: j < k <= i ==> t.y0 <= s[k].y0
  }

  lemma GapStart(s: seq<Edge>, i: nat)
    requires i < |s| && Sorted(s[..i])
    ensures Gap(s, i, i, s[i]) && s[i := s[i]] == s
  {
    assert forall k :: 0 <= k < i ==> s[k] == s[..i][k];
  }

  lemma GapStep(s: seq<Edge>, i: nat, j: nat, t: Edge)
    requires Gap(s, i, j, t) && j > 0 && Less(t, s[j - 1])
    ensures Gap(s[j := s[j - 1]], i, j - 1, t) && multiset(s[j := s[j - 1]][j - 1 := t]) == multiset(s[j := t])
  {
    GapMoves(s, j, t);
  }

  lemma GapFilled(s: seq<Edge>, i: nat, j: nat, t: Edge)
    requires Gap(s, i, j, t) && (j == 0 || !Less(t, s[j - 1]))
    ensures Sorted(s[j := t][..i + 1])
  {
    var u := s[j := t][..i + 1];
    forall k, l | 0 <= k < l < |u|
      ensures u[k].y0 <= u[l].y0
    {
      if l == j {
        assert k < j - 1 ==> s[k].y0 <= s[j - 1].y0;
      }
    }
  }

  /** The body of the outer loop: element i moves left to its place among the i sorted ones. */
  method Insert(p: array<Edge>, i: nat)
    requires i < p.Length && Sorted(p[..i])
    modifies p
    ensures Sorted(p[..i + 1]) && multiset(p[..]) == multiset(old(p[..]))
  {
    hide Sorted, Gap;
    ghost var was := p[..];
    var t, j := p[i], i;
    GapStart(was, i);
    while j > 0
      invariant j <= i && Gap(p[..], i, j, t) && multiset(p[..][j := t]) == multiset(was) && (j == i ==> p[..] == was)
    {
      if !Less(t, p[j - 1]) {
        break;
      }
      ghost var s := p[..];
      GapStep(s, i, j, t);
      p[j] := p[j - 1];
      assert p[..] == s[j := s[j - 1]];
      j := j - 1;
    }
    ghost var s := p[..];
    GapFilled(s, i, j, t);
    if i != j {
      p[j] := t;
    }
    assert p[..] == s[j := t];
  }

  /** `stbtt__sort_edges_ins_sort` */
  method InsertionSort(p: array<Edge>)
    modifies p
    ensures Sorted(p[..]) && multiset(p[..]) == multiset(old(p[..]))
  {
    hide Sorted;
    ShortSorted(p[..]);
    var i := 1;
    while i < p.Length
      invariant 1 <= i && (p.Length > 0 ==> i <= p.Length) && multiset(p[..]) == multiset(old(p[..]))
      invariant Sorted(p[..if i <= p.Length then i else p.Length])
    {
      Insert(p, i);
      i := i + 1;
    }
    assert p[..] == p[..if i <= p.Length then i else p.Length];
  }

  lemma ShortSorted(s: seq<Edge>)
    ensures Sorted(s[..if |s| > 0 then 1 else 0])
  {
  }

  // ---------------------------------------------------------------- quicksort

  /** s' rearranges s inside [lo, hi) and nowhere else. */
  ghost predicate Rearranged(s: seq<Edge>, s': seq<Edge>, lo: nat, hi: nat) {
    && lo <= hi <= |s| == |s'| && multiset(s'[lo..hi]) == multiset(s[lo..hi])
    && s'[..lo] == s[..lo] && s'[hi..] == s[hi..]
  }

  lemma RearrangedTwice(s: seq<Edge>, s1: seq<Edge>, s2: seq<Edge>, lo: nat, hi: nat)
    requires Rearranged(s, s1, lo, hi) && Rearranged(s1, s2, lo, hi)
    ensures Rearranged(s, s2, lo, hi)
  {
  }

  lemma RearrangedWithin(s: seq<Edge>, s': seq<Edge>, lo: nat, hi: nat, lo': nat, hi': nat)
    requires Rearranged(s, s', lo, hi) && lo' <= lo && hi <= hi' <= |s|
    ensures Rearranged(s, s', lo', hi')
  {
    assert s[lo'..hi'] == s[..lo][lo'..] + s[lo..hi] + s[hi..][..hi' - hi];
    assert s'[lo'..hi'] == s'[..lo][lo'..] + s'[lo..hi] + s'[hi..][..hi' - hi];
    assert s'[..lo'] == s'[..lo][..lo'] && s[..lo'] == s[..lo][..lo'];
    assert s'[hi'..] == s'[hi..][hi' - hi..] && s[hi'..] == s[hi..][hi' - hi..];
  }

  lemma RearrangedAlong(s: seq<Edge>, s1: seq<Edge>, s2: seq<Edge>, s3: seq<Edge>, lo: nat, hi: nat,
                        a: nat, b: nat, c: nat, d: nat)
    requires Rearranged(s, s1, lo, hi) && Rearranged(s1, s2, a, b) && Rearranged(s2, s3, c, d)
    requires lo <= a <= c && d <= b <= hi <= |s|
    ensures Rearranged(s, s3, lo, hi)
  {
    RearrangedWithin(s1, s2, a, b, lo, hi);
    RearrangedWithin(s2, s3, c, d, lo, hi);
    RearrangedTwice(s, s1, s2, lo, hi);
    RearrangedTwice(s, s2, s3, lo, hi);
  }

  lemma ExchangeRearranges(s: seq<Edge>, i: nat, j: nat, lo: nat, hi: nat)
    requires lo <= i < hi <= |s| && lo <= j < hi
    ensures Rearranged(s, s[i := s[j]][j := s[i]], lo, hi)
  {
    var u := s[lo..hi];
    Exchange(u, i - lo, j - lo);
    assert s[i := s[j]][j := s[i]][lo..hi] == u[i - lo := u[j - lo]][j - lo := u[i - lo]];
  }

  /** Bounds on a stretch survive rearranging part of it. */
  lemma BoundsKept(s: seq<Edge>, s': seq<Edge>, lo: nat, hi: nat, a: nat, b: nat, v: real)
    requires Rearranged(s, s', lo, hi) && a <= lo && hi <= b <= |s|
    ensures (forall k :: a <= k < b ==> s[k].y0 <= v) ==> forall k :: a <= k < b ==> s'[k].y0 <= v
    ensures (forall k :: a <= k < b ==> v <= s[k].y0) ==> forall k :: a <= k < b ==> v <= s'[k].y0
  {
    RearrangedWithin(s, s', lo, hi, a, b);
    forall k | a <= k < b
      ensures exists l :: a <= l < b && s[l] == s'[k]
    {
      assert s'[k] == s'[a..b][k - a];
      assert s'[k] in multiset(s'[a..b]);
      assert s'[k] in s[a..b];
      var l :| 0 <= l < |s[a..b]| && s[a..b][l] == s'[k];
      assert s[a + l] == s'[k];
    }
  }

  method Swap(p: array<Edge>, i: nat, j: nat, ghost lo: nat, ghost hi: nat)
    requires lo <= i < hi <= p.Length && lo <= j < hi
    modifies p
    ensures p[i] == old(p[j]) && p[j] == old(p[i]) && (forall k :: 0 <= k < p.Length && k != i && k != j ==> p[k] == old(p[k]))
    ensures Rearranged(old(p[..]), p[..], lo, hi)
  {
    ExchangeRearranges(p[..], i, j, lo, hi);
    var t := p[i];
    p[i] := p[j];
    p[j] := t;
    assert p[..] == old(p[..])[i := old(p[..])[j]][j := old(p[..])[i]];
  }

  /** An element behind the pivot that stops the upward scan. */
  ghost predicate Sentinel(s: seq<Edge>, lo: nat, hi: nat) {
    lo < hi <= |s| && exists q :: lo < q < hi && s[lo].y0 <= s[q].y0
  }

  /** `STBTT__COMPARE` decides which of the two outer elements, if any, changes places with the middle one. */
  method MedianToMiddle(p: array<Edge>, lo: nat, n: nat)
    requires n > 12 && lo + n <= p.Length
    modifies p
    ensures Rearranged(old(p[..]), p[..], lo, lo + n)
    ensures p[lo + n / 2].y0 <= p[lo].y0 || p[lo + n / 2].y0 <= p[lo + n - 1].y0
    ensures p[lo].y0 <= p[lo + n / 2].y0 || p[lo + n - 1].y0 <= p[lo + n / 2].y0
  {
    hide Rearranged;
    ghost var s := p[..];
    Unchanged(s, lo, lo + n);
    var m := n / 2;
    assert 0 < m < n - 1;
    var c01, c12 := Less(p[lo], p[lo + m]), Less(p[lo + m], p[lo + n - 1]);
    if c01 != c12 {
      var c := Less(p[lo], p[lo + n - 1]);
      var z := if c == c12 then 0 else n - 1;
      Swap(p, lo + z, lo + m, lo, lo + n);
    }
  }

  /** The median of the first, middle and last element moves to the front; one of the others is not below it. */
  method MedianToFront(p: array<Edge>, lo: nat, n: nat)
    requires n > 12 && lo + n <= p.Length
    modifies p
    ensures Rearranged(old(p[..]), p[..], lo, lo + n) && Sentinel(p[..], lo, lo + n)
  {
    hide Rearranged, Sentinel;
    ghost var s := p[..];
    MedianToMiddle(p, lo, n);
    ghost var s1 := p[..];
    Swap(p, lo, lo + n / 2, lo, lo + n);
    RearrangedTwice(s, s1, p[..], lo, lo + n);
    SentinelThere(p[..], lo, lo + n, if p[lo].y0 <= p[lo + n / 2].y0 then lo + n / 2 else lo + n - 1);
  }

  lemma SentinelThere(s: seq<Edge>, lo: nat, hi: nat, q: nat)
    requires lo < q < hi <= |s| && s[lo].y0 <= s[q].y0
    ensures Sentinel(s, lo, hi)
  {
  }

  lemma Unchanged(s: seq<Edge>, lo: nat, hi: nat)
    requires lo <= hi <= |s|
    ensures Rearranged(s, s, lo, hi)
  {
  }

  /** Below i nothing exceeds the pivot s[lo], above j nothing is below it, and some element from i on stops the upward scan. */
  ghost predicate Parting(s: seq<Edge>, lo: nat, hi: nat, i: int, j: int) {
    && lo < i <= hi <= |s| && i - 1 <= j < hi
    && (forall k :: lo <= k < i ==> s[k].y0 <= s[lo].y0)
    && (forall k :: j < k < hi ==> s[lo].y0 <= s[k].y0)
    && exists q :: i <= q < hi && s[lo].y0 <= s[q].y0
  }

  /** The two scans stop inside the segment; either they met, and the segment is parted at i, or a swap goes on. */
  method Scan(p: array<Edge>, lo: nat, hi: nat, i0: nat, j0: nat) returns (i: nat, j: nat)
    requires hi <= p.Length && Parting(p[..], lo, hi, i0, j0)
    ensures Parting(p[..], lo, hi, i, j) && i0 <= i < hi && j <= j0
    ensures p[lo].y0 <= p[i].y0 && p[j].y0 <= p[lo].y0
  {
    i, j := i0, j0;
    while Less(p[i], p[lo])
      invariant i0 <= i < hi && Parting(p[..], lo, hi, i, j)
      decreases hi - i
    {
      i := i + 1;
    }
    while Less(p[lo], p[j])
      invariant j <= j0 && Parting(p[..], lo, hi, i, j) && p[lo].y0 <= p[i].y0
      decreases j
    {
      j := j - 1;
    }
  }

  lemma PartingStart(s: seq<Edge>, lo: nat, hi: nat)
    requires Sentinel(s, lo, hi)
    ensures lo + 1 < hi && Parting(s, lo, hi, lo + 1, hi - 1)
  {
  }

  lemma PartingSwap(s: seq<Edge>, s': seq<Edge>, lo: nat, hi: nat, i: nat, j: nat)
    requires Parting(s, lo, hi, i, j) && i < j && s[lo].y0 <= s[i].y0 && s[j].y0 <= s[lo].y0
    requires |s'| == |s| && s'[i] == s[j] && s'[j] == s[i] && forall k :: 0 <= k < |s| && k != i && k != j ==> s'[k] == s[k]
    ensures Parting(s', lo, hi, i + 1, j - 1)
  {
    assert s'[lo].y0 <= s'[j].y0;
  }

  /** Where a stretch falls apart: everything before k is at most v, everything from k on at least v. */
  ghost predicate Parted(s: seq<Edge>, lo: nat, hi: nat, k: nat, v: real) {
    && lo < k < hi <= |s|
    && (forall x :: lo <= x < k ==> s[x].y0 <= v)
    && forall x :: k <= x < hi ==> v <= s[x].y0
  }

  /** The partition loop: the scans never leave the segment, and it falls apart at i. */
  method Partition(p: array<Edge>, lo: nat, hi: nat) returns (i: nat, j: nat)
    requires hi <= p.Length && Sentinel(p[..], lo, hi)
    modifies p
    ensures Rearranged(old(p[..]), p[..], lo, hi) && Cut(p[..], lo, hi - lo, i, j, old(p[lo]).y0) && i < hi
  {
    hide Rearranged, Sentinel;
    ghost var s := p[..];
    PartingStart(s, lo, hi);
    Unchanged(s, lo, hi);
    i, j := lo + 1, hi - 1;
    while true
      invariant Parting(p[..], lo, hi, i, j) && Rearranged(s, p[..], lo, hi) && p[lo] == s[lo]
      decreases hi - i
    {
      i, j := Scan(p, lo, hi, i, j);
      if i >= j {
        break;
      }
      ghost var s1 := p[..];
      Swap(p, i, j, lo, hi);
      RearrangedTwice(s, s1, p[..], lo, hi);
      PartingSwap(s1, p[..], lo, hi, i, j);
      i, j := i + 1, j - 1;
    }
  }

  /** [lo, lo + n) falls apart into [lo, j) and [i, lo + n); at most the one element j lies between them. */
  ghost predicate Cut(s: seq<Edge>, lo: nat, n: nat, i: nat, j: nat, v: real) {
    lo <= j <= i <= j + 1 && lo < i < lo + n && Parted(s, lo, lo + n, i, v)
  }

  /** What the quicksort leaves behind: cut into pieces again and again until none is longer than 12. */
  ghost predicate Split(s: seq<Edge>, lo: nat, n: nat)
    decreases n
  {
    && lo + n <= |s|
    && (n > 12 ==> exists i: nat, j: nat, v ::
          Cut(s, lo, n, i, j, v) && Split(s, lo, j - lo) && Split(s, i, lo + n - i))
  }

  lemma {:induction false} SplitLocal(s: seq<Edge>, s': seq<Edge>, lo: nat, n: nat)
    requires Split(s, lo, n) && |s'| == |s| && forall k :: lo <= k < lo + n ==> s'[k] == s[k]
    ensures Split(s', lo, n)
    decreases n
  {
    if n > 12 {
      var i: nat, j: nat, v :| Cut(s, lo, n, i, j, v) && Split(s, lo, j - lo) && Split(s, i, lo + n - i);
      SplitLocal(s, s', lo, j - lo);
      SplitLocal(s, s', i, lo + n - i);
      assert Cut(s', lo, n, i, j, v);
    }
  }

  lemma OutsideSame(s: seq<Edge>, s': seq<Edge>, lo: nat, hi: nat)
    requires Rearranged(s, s', lo, hi)
    ensures |s'| == |s| && forall k :: (0 <= k < lo || hi <= k < |s|) ==> s'[k] == s[k]
  {
    assert forall k :: 0 <= k < lo ==> s'[k] == s'[..lo][k] == s[k];
    assert forall k :: hi <= k < |s| ==> s'[k] == s'[hi..][k - hi] == s[k];
  }

  lemma CutKept(s: seq<Edge>, s': seq<Edge>, lo: nat, n: nat, i: nat, j: nat, v: real, a: nat, b: nat)
    requires Cut(s, lo, n, i, j, v) && Rearranged(s, s', a, b)
    requires (a == lo && b == j) || (a == i && b == lo + n)
    ensures Cut(s', lo, n, i, j, v)
  {
    OutsideSame(s, s', a, b);
    if b == j && a == lo {
      BoundsKept(s, s', a, b, lo, i, v);
    } else {
      BoundsKept(s, s', a, b, i, lo + n, v);
    }
  }

  /** A cut whose one side [a, b) was split first and whose other side [c, d) is split now is split altogether. */
  lemma SplitTogether(s: seq<Edge>, s1: seq<Edge>, s2: seq<Edge>, lo: nat, n: nat, i: nat, j: nat, v: real,
                      a: nat, b: nat, c: nat, d: nat)
    requires Cut(s, lo, n, i, j, v) && n > 12 && lo + n <= |s|
    requires (a == lo && b == j && c == i && d == lo + n) || (c == lo && d == j && a == i && b == lo + n)
    requires Rearranged(s, s1, a, b) && Split(s1, a, b - a) && Rearranged(s1, s2, c, d) && Split(s2, c, d - c)
    ensures Split(s2, lo, n) && Rearranged(s, s2, lo, lo + n)
  {
    hide Split, Parted, Rearranged;
    CutKept(s, s1, lo, n, i, j, v, a, b);
    CutKept(s1, s2, lo, n, i, j, v, c, d);
    RearrangedWithin(s, s1, a, b, lo, lo + n);
    RearrangedWithin(s1, s2, c, d, lo, lo + n);
    RearrangedTwice(s, s1, s2, lo, lo + n);
    OutsideSame(s1, s2, c, d);
    SplitLocal(s1, s2, a, b - a);
    SplitIntro(s2, lo, n, i, j, v);
  }

  lemma SplitIntro(s: seq<Edge>, lo: nat, n: nat, i: nat, j: nat, v: real)
    requires Cut(s, lo, n, i, j, v) && n > 12 && lo + n <= |s| && Split(s, lo, j - lo) && Split(s, i, lo + n - i)
    ensures Split(s, lo, n)
  {
  }

  /** Median to the front, then the partition loop. */
  method Pass(p: array<Edge>, lo: nat, n: nat) returns (i: nat, j: nat)
    requires n > 12 && lo + n <= p.Length
    modifies p
    ensures Rearranged(old(p[..]), p[..], lo, lo + n) && SomeCut(p[..], lo, n, i, j)
  {
    hide Rearranged, Sentinel, Parted;
    ghost var s := p[..];
    MedianToFront(p, lo, n);
    ghost var s1 := p[..];
    i, j := Partition(p, lo, lo + n);
    RearrangedTwice(s, s1, p[..], lo, lo + n);
  }

  ghost predicate SomeCut(s: seq<Edge>, lo: nat, n: nat, i: nat, j: nat) {
    exists v :: Cut(s, lo, n, i, j, v)
  }

  /** Splitting [from, from + left) any way it goes is all that is missing from a split [lo, lo + n). */
  ghost predicate Completes(s: seq<Edge>, from: nat, left: nat, lo: nat, n: nat) {
    forall s' :: Rearranged(s, s', from, from + left) && Split(s', from, left) ==> Split(s', lo, n)
  }

  lemma CompletesItself(s: seq<Edge>, lo: nat, n: nat)
    ensures Completes(s, lo, n, lo, n)
  {
  }

  lemma Completed(s: seq<Edge>, from: nat, left: nat, lo: nat, n: nat)
    requires Completes(s, from, left, lo, n) && left <= 12 && from + left <= |s|
    ensures Split(s, lo, n)
  {
    hide Rearranged;
    Unchanged(s, from, from + left);
    assert Split(s, from, left);
  }

  /** One turn of the outer loop: [from, from + left) is cut, one side is split, the other side is what is left. */
  lemma CompletesNext(s: seq<Edge>, s1: seq<Edge>, s2: seq<Edge>, from: nat, left: nat, lo: nat, n: nat,
                      i: nat, j: nat, v: real, a: nat, b: nat, c: nat, d: nat)
    requires Completes(s, from, left, lo, n) && Rearranged(s, s1, from, from + left) && left > 12
    requires Cut(s1, from, left, i, j, v) && from + left <= |s1|
    requires (a == from && b == j && c == i && d == from + left) || (c == from && d == j && a == i && b == from + left)
    requires Rearranged(s1, s2, a, b) && Split(s2, a, b - a)
    ensures Completes(s2, c, d - c, lo, n)
  {
    hide Split, Parted, Rearranged;
    forall s' | Rearranged(s2, s', c, c + (d - c)) && Split(s', c, d - c)
      ensures Split(s', lo, n)
    {
      SplitTogether(s1, s2, s', from, left, i, j, v, a, b, c, d);
      RearrangedTwice(s, s1, s', from, from + left);
    }
  }

  /** A whole turn, seen from the stretch [lo, lo + n) it works in. */
  lemma Turn(s: seq<Edge>, s1: seq<Edge>, s2: seq<Edge>, s3: seq<Edge>, from: nat, left: nat, lo: nat, n: nat,
             i: nat, j: nat, v: real, a: nat, b: nat, c: nat, d: nat)
    requires Rearranged(s, s1, lo, lo + n) && Completes(s1, from, left, lo, n) && Rearranged(s1, s2, from, from + left)
    requires Cut(s2, from, left, i, j, v) && lo <= from && from + left <= lo + n <= |s| && |s2| == |s| && left > 12
    requires (a == from && b == j && c == i && d == from + left) || (c == from && d == j && a == i && b == from + left)
    requires Rearranged(s2, s3, a, b) && Split(s3, a, b - a)
    ensures Rearranged(s, s3, lo, lo + n) && Completes(s3, c, d - c, lo, n)
  {
    hide Split, Parted, Rearranged, Completes;
    RearrangedAlong(s, s1, s2, s3, lo, lo + n, from, from + left, a, b);
    CompletesNext(s1, s2, s3, from, left, lo, n, i, j, v, a, b, c, d);
  }

  /** `stbtt__sort_edges_quicksort` on the n edges from lo on: recurse on the smaller side, go on with the larger. */
  method Quicksort(p: array<Edge>, lo: nat, n: nat)
    requires lo + n <= p.Length
    modifies p
    ensures Rearranged(old(p[..]), p[..], lo, lo + n) && Split(p[..], lo, n)
    decreases n
  {
    hide Rearranged, Sentinel, Parted, Split, Completes;
    ghost var s := p[..];
    Unchanged(s, lo, lo + n);
    CompletesItself(s, lo, n);
    var from: nat, left: nat := lo, n;
    while left > 12
      invariant lo <= from && from + left <= lo + n && left <= n
      invariant Rearranged(s, p[..], lo, lo + n) && Completes(p[..], from, left, lo, n)
      decreases left
    {
      ghost var s1 := p[..];
      ghost var hi := from + left;
      var i, j := Pass(p, from, left);
      ghost var s2 := p[..];
      ghost var v :| Cut(s2, from, left, i, j, v);
      if j - from < from + left - i {
        Quicksort(p, from, j - from);
        Turn(s, s1, s2, p[..], from, left, lo, n, i, j, v, from, j, i, hi);
        from, left := i, from + left - i;
      } else {
        Quicksort(p, i, from + left - i);
        Turn(s, s1, s2, p[..], from, left, lo, n, i, j, v, i, hi, from, j);
        left := j - from;
      }
    }
    Completed(p[..], from, left, lo, n);
  }

  /** `stbtt__sort_edges`: whatever the array held comes out in order. */
  method SortEdges(p: array<Edge>)
    modifies p
    ensures Sorted(p[..]) && multiset(p[..]) == multiset(old(p[..]))
  {
    ghost var s := p[..];
    Quicksort(p, 0, p.Length);
    assert s[0..p.Length] == s && p[..][0..p.Length] == p[..];
    InsertionSort(p);
  }
}
