/**
 * The network list of the configuration page: signal quality, the in-place
 * exchange sort of scan indices by RSSI, and the marking of duplicate SSIDs
 * with -1 so that only the first (strongest) entry of each name is shown.
 *
 * A scan result is given as three sequences indexed by the scan index:
 * `rssi[i]`, `ssid[i]` and `encrypted[i]` stand for `WiFi.RSSI(i)`,
 * `WiFi.SSID(i)` and `WiFi.encryptionType(i) != WIFI_AUTH_OPEN`.
 */
module Scan {
  import opened CStrings

  /** `getRSSIasQuality`: 0 at or below -100 dBm, 100 at or above -50 dBm, linear in between. */
  function GetRssiAsQuality(rssi: int): (q: int)
    ensures 0 <= q <= 100
    ensures rssi <= -100 ==> q == 0
    ensures rssi >= -50 ==> q == 100
  {
    if rssi <= -100 then 0
    else if rssi >= -50 then 100
    else 2 * (rssi + 100)
  }

  /** A stronger signal never shows a lower quality. */
  lemma QualityMonotone(weaker: int, stronger: int)
    requires weaker <= stronger
    ensures GetRssiAsQuality(weaker) <= GetRssiAsQuality(stronger)
  {
  }

  /** Two points of the linear part, and strict growth inside it. */
  lemma QualityLinearPart(rssi: int, stronger: int)
    requires -100 < rssi < stronger < -50
    ensures GetRssiAsQuality(-90) == 20 && GetRssiAsQuality(-75) == 50
    ensures GetRssiAsQuality(rssi) < GetRssiAsQuality(stronger)
    ensures GetRssiAsQuality(rssi) % 2 == 0
  {
  }

  /** `WiFi.SSID(k)`: the SSID of a scan index, and the empty String for an index outside the scan. */
  function SsidAt(ssid: seq<Str>, k: int): Str {
    if 0 <= k < |ssid| then ssid[k] else []
  }

  function Iota(n: nat): (r: seq<int>)
    ensures |r| == n && forall i :: 0 <= i < n ==> r[i] == i
  {
    seq(n, i => i)
  }

  // ---------------------------------------------------------------------
  // Sorting the indices by RSSI
  // ---------------------------------------------------------------------

  ghost predicate InRange(s: seq<int>, n: int) {
    forall k :: 0 <= k < |s| ==> 0 <= s[k] < n
  }

  ghost predicate ByRssi(s: seq<int>, rssi: seq<int>)
    requires InRange(s, |rssi|)
  {
    forall p, q :: 0 <= p < q < |s| ==> rssi[s[p]] >= rssi[s[q]]
  }

  /** The first `i` positions hold their final entries: each is at least as strong as every later one. */
  ghost predicate Settled(s: seq<int>, rssi: seq<int>, i: int)
    requires InRange(s, |rssi|)
  {
    forall p, q :: 0 <= p < i && p < q < |s| ==> rssi[s[p]] >= rssi[s[q]]
  }

  /** The entry at `i` is at least as strong as every entry strictly between `i` and `j`. */
  ghost predicate Dominates(s: seq<int>, rssi: seq<int>, i: int, j: int)
    requires InRange(s, |rssi|) && 0 <= i < |s| && j <= |s|
  {
    forall q :: i < q < j ==> rssi[s[i]] >= rssi[s[q]]
  }

  lemma SettleNext(s: seq<int>, rssi: seq<int>, i: int)
    requires InRange(s, |rssi|) && 0 <= i < |s|
    requires Settled(s, rssi, i) && Dominates(s, rssi, i, |s|)
    ensures Settled(s, rssi, i + 1)
  {
  }

  method Swap(a: array<int>, i: int, j: int)
    requires 0 <= i < j < a.Length
    modifies a
    ensures a[..] == old(a[..])[i := old(a[j])][j := old(a[i])]
    ensures multiset(a[..]) == multiset(old(a[..]))
  {
    a[i], a[j] := a[j], a[i];
  }

  /**
   * Exchanging position `i` with a stronger later position `j` keeps the
   * entries before `i` settled, and leaves at `i` an entry at least as
   * strong as all of `i + 1 .. j`.
   */
  lemma SwapKeepsSettled(s: seq<int>, rssi: seq<int>, i: int, j: int)
    requires InRange(s, |rssi|) && 0 <= i < j < |s| && Settled(s, rssi, i)
    requires Dominates(s, rssi, i, j) && rssi[s[j]] > rssi[s[i]]
    ensures InRange(s[i := s[j]][j := s[i]], |rssi|)
    ensures Settled(s[i := s[j]][j := s[i]], rssi, i)
    ensures Dominates(s[i := s[j]][j := s[i]], rssi, i, j + 1)
  {
    var t := s[i := s[j]][j := s[i]];
    forall q | i < q <= j
      ensures rssi[t[i]] >= rssi[t[q]]
    {
      if q < j {
        assert t[q] == s[q];
      }
    }
    forall p, q | 0 <= p < i && p < q < |t|
      ensures rssi[t[p]] >= rssi[t[q]]
    {
      assert t[p] == s[p];
      if q == i {
        assert t[q] == s[j];
      } else if q == j {
        assert t[q] == s[i];
      } else {
        assert t[q] == s[q];
      }
    }
  }

  /** The inner loop of the sort: every later entry stronger than the one at `i` is swapped into `i`. */
  method PullStrongest(a: array<int>, rssi: seq<int>, i: int)
    requires a.Length == |rssi| && InRange(a[..], |rssi|)
    requires 0 <= i < a.Length && Settled(a[..], rssi, i)
    modifies a
    ensures InRange(a[..], |rssi|)
    ensures multiset(a[..]) == multiset(old(a[..]))
    ensures Settled(a[..], rssi, i + 1)
  {
    var n := a.Length;
    for j := i + 1 to n
      invariant InRange(a[..], n)
      invariant multiset(a[..]) == multiset(old(a[..]))
      invariant Settled(a[..], rssi, i)
      invariant Dominates(a[..], rssi, i, j)
    {
      if rssi[a[j]] > rssi[a[i]] {
        ghost var s := a[..];
        Swap(a, i, j);
        SwapKeepsSettled(s, rssi, i, j);
      }
    }
    SettleNext(a[..], rssi, i);
  }

  /**
   * The exchange sort of `handleWifi`: for each position `i`, every later
   * entry with a stronger signal is swapped into `i`.
   */
  method SortByRssi(a: array<int>, rssi: seq<int>)
    requires a.Length == |rssi| && InRange(a[..], |rssi|)
    modifies a
    ensures InRange(a[..], |rssi|)
    ensures multiset(a[..]) == multiset(old(a[..]))
    ensures ByRssi(a[..], rssi)
  {
    var n := a.Length;
    for i := 0 to n
      invariant InRange(a[..], n)
      invariant multiset(a[..]) == multiset(old(a[..]))
      invariant Settled(a[..], rssi, i)
    {
      PullStrongest(a, rssi, i);
    }
  }

  // ---------------------------------------------------------------------
  // Keeping the first entry of each SSID
  // ---------------------------------------------------------------------

  /** Some position before both `bound` and `p` carries the SSID of position `p`. */
  ghost predicate SeenBefore(s: seq<int>, ssid: seq<Str>, bound: int, p: int)
    requires 0 <= p < |s|
  {
    exists q :: 0 <= q < bound && q < p && SsidAt(ssid, s[q]) == SsidAt(ssid, s[p])
  }

  /**
   * The de-duplication loop: for each position still holding an index, every
   * later position whose SSID is the same is overwritten with -1. A position
   * ends up marked exactly when an earlier position has its SSID.
   */
  method MarkDuplicates(a: array<int>, ssid: seq<Str>)
    requires InRange(a[..], |ssid|)
    modifies a
    ensures forall p :: 0 <= p < a.Length ==> a[p] == -1 || a[p] == old(a[p])
    ensures forall p :: 0 <= p < a.Length ==> (a[p] == -1 <==> SeenBefore(old(a[..]), ssid, p, p))
  {
    ghost var s := a[..];
    var n := a.Length;
    for i := 0 to n
      invariant forall p :: 0 <= p < n ==> a[p] == -1 || a[p] == s[p]
      invariant forall p :: 0 <= p < n ==> (a[p] == -1 <==> SeenBefore(s, ssid, i, p))
    {
      if a[i] == -1 {
        forall p | i < p < n && SeenBefore(s, ssid, i + 1, p)
          ensures SeenBefore(s, ssid, i, p)
        {
          var q :| 0 <= q < i + 1 && q < p && SsidAt(ssid, s[q]) == SsidAt(ssid, s[p]);
          if q == i {
            var q0 :| 0 <= q0 < i && q0 < i && SsidAt(ssid, s[q0]) == SsidAt(ssid, s[i]);
            assert q0 < p;
          }
        }
        continue;
      }
      var cssid := SsidAt(ssid, a[i]);
      for j := i + 1 to n
        invariant forall p :: 0 <= p < n ==> a[p] == -1 || a[p] == s[p]
        invariant forall p :: 0 <= p < n && (p <= i || j <= p) ==> (a[p] == -1 <==> SeenBefore(s, ssid, i, p))
        invariant forall p :: i < p < j ==> (a[p] == -1 <==> SeenBefore(s, ssid, i + 1, p))
      {
        if cssid == SsidAt(ssid, a[j]) {
          a[j] := -1;
        }
        if a[j] != -1 {
          assert !SeenBefore(s, ssid, i, j);
          assert SsidAt(ssid, s[i]) != SsidAt(ssid, s[j]);
        }
      }
    }
  }

  /**
   * The positions of `s` whose SSID does not occur earlier in `s`, in
   * increasing order: each name's first position.
   */
  ghost function FirstPositions(s: seq<int>, ssid: seq<Str>): (r: seq<nat>)
    ensures forall k :: 0 <= k < |r| ==> r[k] < |s| && !SeenBefore(s, ssid, r[k], r[k])
    ensures forall k, l :: 0 <= k < l < |r| ==> r[k] < r[l]
    ensures |r| <= |s|
    ensures forall p :: 0 <= p < |s| && !SeenBefore(s, ssid, p, p) ==> p in r
  {
    if s == [] then []
    else
      var m := |s| - 1;
      var r0 := FirstPositions(s[..m], ssid);
      assert forall p :: 0 <= p < m ==> (SeenBefore(s[..m], ssid, p, p) <==> SeenBefore(s, ssid, p, p)) by {
        forall p | 0 <= p < m
          ensures SeenBefore(s[..m], ssid, p, p) <==> SeenBefore(s, ssid, p, p)
        {
          assert forall q :: 0 <= q <= p ==> s[..m][q] == s[q];
        }
      }
      if SeenBefore(s, ssid, m, m) then r0 else r0 + [m]
  }

  /** The indices the page lists: the first entry of each SSID, in the order of `s`. */
  ghost function Dedup(s: seq<int>, ssid: seq<Str>): (r: seq<int>)
    ensures |r| <= |s|
  {
    var pos := FirstPositions(s, ssid);
    seq(|pos|, k requires 0 <= k < |pos| => s[pos[k]])
  }

  /** Extending the scanned prefix by one position adds that position's index when its SSID is new. */
  lemma DedupSnoc(s: seq<int>, ssid: seq<Str>, i: nat)
    requires i < |s|
    ensures Dedup(s[..i + 1], ssid) ==
      Dedup(s[..i], ssid) + (if SeenBefore(s, ssid, i, i) then [] else [s[i]])
  {
    var t := s[..i + 1];
    assert t[..i] == s[..i];
    assert SeenBefore(t, ssid, i, i) <==> SeenBefore(s, ssid, i, i) by {
      assert forall q :: 0 <= q <= i ==> t[q] == s[q];
    }
    var p0 := FirstPositions(s[..i], ssid);
    assert forall k :: 0 <= k < |p0| ==> t[p0[k]] == s[..i][p0[k]];
  }

  /** No two listed entries share an SSID. */
  lemma DedupUnique(s: seq<int>, ssid: seq<Str>)
    ensures forall k, l :: 0 <= k < l < |Dedup(s, ssid)| ==>
      SsidAt(ssid, Dedup(s, ssid)[k]) != SsidAt(ssid, Dedup(s, ssid)[l])
  {
    var pos := FirstPositions(s, ssid);
    var d := Dedup(s, ssid);
    forall k, l | 0 <= k < l < |d|
      ensures SsidAt(ssid, d[k]) != SsidAt(ssid, d[l])
    {
      assert pos[k] < pos[l];
      assert !SeenBefore(s, ssid, pos[l], pos[l]);
    }
  }

  /** The first position carrying the SSID of position `p`. */
  lemma {:induction false} FirstOccurrence(s: seq<int>, ssid: seq<Str>, p: nat) returns (f: nat)
    requires p < |s|
    ensures f <= p && SsidAt(ssid, s[f]) == SsidAt(ssid, s[p]) && !SeenBefore(s, ssid, f, f)
    decreases p
  {
    if SeenBefore(s, ssid, p, p) {
      var q :| 0 <= q < p && q < p && SsidAt(ssid, s[q]) == SsidAt(ssid, s[p]);
      f := FirstOccurrence(s, ssid, q);
    } else {
      f := p;
    }
  }

  /**
   * Every SSID of the scan is listed once, by the first position carrying
   * it: the listed entry comes no later than any entry with its name.
   */
  lemma DedupKeepsFirst(s: seq<int>, ssid: seq<Str>, p: nat) returns (k: nat)
    requires p < |s|
    ensures k < |Dedup(s, ssid)|
    ensures SsidAt(ssid, Dedup(s, ssid)[k]) == SsidAt(ssid, s[p])
    ensures FirstPositions(s, ssid)[k] <= p && Dedup(s, ssid)[k] == s[FirstPositions(s, ssid)[k]]
  {
    var pos := FirstPositions(s, ssid);
    var f := FirstOccurrence(s, ssid, p);
    k :| 0 <= k < |pos| && pos[k] == f;
  }

  /** Every listed entry is the first position of its SSID. */
  lemma DedupListsFirsts(s: seq<int>, ssid: seq<Str>, k: nat, p: nat)
    requires k < |Dedup(s, ssid)| && p < |s|
    requires SsidAt(ssid, s[p]) == SsidAt(ssid, Dedup(s, ssid)[k])
    ensures FirstPositions(s, ssid)[k] <= p
  {
    var pos := FirstPositions(s, ssid);
    if p < pos[k] {
      assert SeenBefore(s, ssid, pos[k], pos[k]);
      assert false;
    }
  }

  // ---------------------------------------------------------------------
  // The list handleWifi shows
  // ---------------------------------------------------------------------

  datatype ScanItem = ScanItem(name: Str, quality: int, locked: bool)

  /**
   * What a scan shows: `sorted` is a permutation of the scan indices ordered
   * by non-increasing RSSI, `order` is its first entry of each SSID and
   * `items` renders them.
   */
  ghost predicate Listing(rssi: seq<int>, ssid: seq<Str>, encrypted: seq<bool>,
                          sorted: seq<int>, order: seq<int>, items: seq<ScanItem>)
    requires |rssi| == |ssid| == |encrypted|
  {
    && multiset(sorted) == multiset(Iota(|rssi|))
    && InRange(sorted, |rssi|)
    && ByRssi(sorted, rssi)
    && order == Dedup(sorted, ssid)
    && InRange(order, |rssi|)
    && |items| == |order|
    && forall k :: 0 <= k < |items| ==>
         items[k] == ScanItem(ssid[order[k]], GetRssiAsQuality(rssi[order[k]]), encrypted[order[k]])
  }

  /** A new array holding the scan indices `0 .. n-1` in scan order. */
  method Numbered(n: nat) returns (indices: array<int>)
    ensures fresh(indices) && indices[..] == Iota(n)
  {
    indices := new int[n];
    for i := 0 to n
      invariant forall k :: 0 <= k < i ==> indices[k] == k
    {
      indices[i] := i;
    }
  }

  /**
   * The scan part of `handleWifi`: number the results, sort them by RSSI,
   * mark duplicate names and list the rest with their quality.
   */
  method ScanList(rssi: seq<int>, ssid: seq<Str>, encrypted: seq<bool>)
    returns (sorted: seq<int>, order: seq<int>, items: seq<ScanItem>)
    requires |rssi| == |ssid| == |encrypted|
    ensures Listing(rssi, ssid, encrypted, sorted, order, items)
    ensures WellListed(order, rssi, ssid)
  {
    var n := |rssi|;
    if n == 0 {
      sorted, order, items := [], [], [];
      EmptyScanListing(rssi, ssid, encrypted);
      return;
    }
    var indices := Numbered(n);
    SortByRssi(indices, rssi);
    sorted := indices[..];
    MarkDuplicates(indices, ssid);
    order, items := ListUnmarked(indices, sorted, rssi, ssid, encrypted);
    assert Listing(rssi, ssid, encrypted, sorted, order, items);
    ListingIsWell(rssi, ssid, encrypted, sorted, order, items);
  }

  /**
   * The display loop of `handleWifi`: every position not marked -1 is
   * listed with its SSID, quality and lock, in order.
   */
  method ListUnmarked(indices: array<int>, sorted: seq<int>, rssi: seq<int>, ssid: seq<Str>, encrypted: seq<bool>)
    returns (order: seq<int>, items: seq<ScanItem>)
    requires |rssi| == |ssid| == |encrypted| && |sorted| == indices.Length
    requires InRange(sorted, |rssi|)
    requires forall p :: 0 <= p < indices.Length ==> indices[p] == -1 || indices[p] == sorted[p]
    requires forall p :: 0 <= p < indices.Length ==> (indices[p] == -1 <==> SeenBefore(sorted, ssid, p, p))
    ensures order == Dedup(sorted, ssid) && InRange(order, |rssi|)
    ensures |items| == |order|
    ensures forall k :: 0 <= k < |items| ==>
      items[k] == ScanItem(ssid[order[k]], GetRssiAsQuality(rssi[order[k]]), encrypted[order[k]])
  {
    var n := indices.Length;
    order, items := [], [];
    for i := 0 to n
      invariant order == Dedup(sorted[..i], ssid)
      invariant InRange(order, |rssi|)
      invariant |items| == |order|
      invariant forall k :: 0 <= k < |items| ==>
        items[k] == ScanItem(ssid[order[k]], GetRssiAsQuality(rssi[order[k]]), encrypted[order[k]])
    {
      DedupSnoc(sorted, ssid, i);
      if indices[i] == -1 {
        continue;
      }
      var quality := GetRssiAsQuality(rssi[indices[i]]);
      if -1 < quality {
        order := order + [indices[i]];
        items := items + [ScanItem(ssid[indices[i]], quality, encrypted[indices[i]])];
      }
    }
    assert sorted[..n] == sorted;
  }

  /** No two listed entries share an SSID. */
  ghost predicate UniqueNames(order: seq<int>, ssid: seq<Str>)
    requires InRange(order, |ssid|)
  {
    forall k, l :: 0 <= k < l < |order| ==> ssid[order[k]] != ssid[order[l]]
  }

  /** The SSIDs of the listed entries, in order. */
  ghost function ListedNames(order: seq<int>, ssid: seq<Str>): (r: seq<Str>)
    requires InRange(order, |ssid|)
    ensures |r| == |order| && forall k :: 0 <= k < |order| ==> r[k] == ssid[order[k]]
  {
    seq(|order|, k requires 0 <= k < |order| => ssid[order[k]])
  }

  /** Every SSID of the scan is listed. */
  ghost predicate CoversScan(order: seq<int>, ssid: seq<Str>)
    requires InRange(order, |ssid|)
  {
    forall i :: 0 <= i < |ssid| ==> ssid[i] in ListedNames(order, ssid)
  }

  /** A listed entry is at least as strong as every scan result with its SSID. */
  ghost predicate StrongestOfName(order: seq<int>, rssi: seq<int>, ssid: seq<Str>)
    requires |rssi| == |ssid| && InRange(order, |ssid|)
  {
    forall i, k :: 0 <= i < |ssid| && 0 <= k < |order| && ssid[order[k]] == ssid[i] ==>
      rssi[order[k]] >= rssi[i]
  }

  /**
   * What the page promises of its list: one entry per SSID of the scan,
   * strongest first, each the strongest result carrying its name.
   */
  ghost predicate WellListed(order: seq<int>, rssi: seq<int>, ssid: seq<Str>)
    requires |rssi| == |ssid|
  {
    && InRange(order, |ssid|)
    && UniqueNames(order, ssid)
    && ByRssi(order, rssi)
    && CoversScan(order, ssid)
    && StrongestOfName(order, rssi, ssid)
  }

  /** An empty scan lists nothing. */
  lemma EmptyScanListing(rssi: seq<int>, ssid: seq<Str>, encrypted: seq<bool>)
    requires |rssi| == |ssid| == |encrypted| == 0
    ensures Listing(rssi, ssid, encrypted, [], [], []) && WellListed([], rssi, ssid)
  {
    assert FirstPositions([], ssid) == [];
    assert Iota(0) == [];
  }

  /** Every listing satisfies what the page promises. */
  lemma ListingIsWell(rssi: seq<int>, ssid: seq<Str>, encrypted: seq<bool>,
                      sorted: seq<int>, order: seq<int>, items: seq<ScanItem>)
    requires |rssi| == |ssid| == |encrypted|
    requires Listing(rssi, ssid, encrypted, sorted, order, items)
    ensures WellListed(order, rssi, ssid)
  {
    MultisetLength(sorted, |rssi|);
    ListingProperties(rssi, ssid, sorted);
  }

  lemma MultisetLength(s: seq<int>, n: nat)
    requires multiset(s) == multiset(Iota(n))
    ensures |s| == n
  {
    assert |multiset(s)| == |s|;
    assert |multiset(Iota(n))| == n;
  }

  /** The properties of the listed order that follow from sorting and de-duplication. */
  lemma ListingProperties(rssi: seq<int>, ssid: seq<Str>, sorted: seq<int>)
    requires |rssi| == |ssid| && |sorted| == |rssi|
    requires multiset(sorted) == multiset(Iota(|rssi|))
    requires InRange(sorted, |rssi|) && ByRssi(sorted, rssi)
    ensures WellListed(Dedup(sorted, ssid), rssi, ssid)
  {
    ListedInRange(ssid, sorted);
    DedupUnique(sorted, ssid);
    ListedByRssi(rssi, ssid, sorted);
    ListedCoversScan(rssi, ssid, sorted);
    ListedStrongest(rssi, ssid, sorted);
  }

  lemma ListedInRange(ssid: seq<Str>, sorted: seq<int>)
    requires InRange(sorted, |ssid|)
    ensures InRange(Dedup(sorted, ssid), |ssid|)
    ensures forall k :: 0 <= k < |Dedup(sorted, ssid)| ==>
      SsidAt(ssid, Dedup(sorted, ssid)[k]) == ssid[Dedup(sorted, ssid)[k]]
  {
    var pos := FirstPositions(sorted, ssid);
    var order := Dedup(sorted, ssid);
    forall k | 0 <= k < |order|
      ensures 0 <= order[k] < |ssid|
    {
      assert order[k] == sorted[pos[k]];
    }
  }

  lemma ListedByRssi(rssi: seq<int>, ssid: seq<Str>, sorted: seq<int>)
    requires |rssi| == |ssid| && InRange(sorted, |rssi|) && ByRssi(sorted, rssi)
    ensures InRange(Dedup(sorted, ssid), |rssi|)
    ensures ByRssi(Dedup(sorted, ssid), rssi)
  {
    ListedInRange(ssid, sorted);
    var pos := FirstPositions(sorted, ssid);
    var order := Dedup(sorted, ssid);
    forall k, l | 0 <= k < l < |order|
      ensures rssi[order[k]] >= rssi[order[l]]
    {
      assert order[k] == sorted[pos[k]] && order[l] == sorted[pos[l]];
      assert pos[k] < pos[l];
    }
  }

  lemma ListedCoversScan(rssi: seq<int>, ssid: seq<Str>, sorted: seq<int>)
    requires |rssi| == |ssid| && |sorted| == |rssi|
    requires multiset(sorted) == multiset(Iota(|rssi|)) && InRange(sorted, |rssi|)
    ensures InRange(Dedup(sorted, ssid), |ssid|)
    ensures CoversScan(Dedup(sorted, ssid), ssid)
  {
    ListedInRange(ssid, sorted);
    var order := Dedup(sorted, ssid);
    forall i | 0 <= i < |ssid|
      ensures ssid[i] in ListedNames(order, ssid)
    {
      var p := Position(sorted, i);
      var k := DedupKeepsFirst(sorted, ssid, p);
      assert SsidAt(ssid, order[k]) == SsidAt(ssid, sorted[p]);
      assert ListedNames(order, ssid)[k] == ssid[i];
    }
  }

  lemma ListedStrongest(rssi: seq<int>, ssid: seq<Str>, sorted: seq<int>)
    requires |rssi| == |ssid| && |sorted| == |rssi|
    requires multiset(sorted) == multiset(Iota(|rssi|))
    requires InRange(sorted, |rssi|) && ByRssi(sorted, rssi)
    ensures InRange(Dedup(sorted, ssid), |ssid|)
    ensures StrongestOfName(Dedup(sorted, ssid), rssi, ssid)
  {
    ListedInRange(ssid, sorted);
    var order := Dedup(sorted, ssid);
    var pos := FirstPositions(sorted, ssid);
    forall i, k | 0 <= i < |rssi| && 0 <= k < |order| && ssid[order[k]] == ssid[i]
      ensures rssi[order[k]] >= rssi[i]
    {
      var p := Position(sorted, i);
      DedupListsFirsts(sorted, ssid, k, p);
      assert order[k] == sorted[pos[k]];
      if pos[k] < p {
        assert rssi[sorted[pos[k]]] >= rssi[sorted[p]];
      }
    }
  }

  /** A permutation of the scan indices holds every scan index somewhere. */
  lemma Position(sorted: seq<int>, i: nat) returns (p: nat)
    requires multiset(sorted) == multiset(Iota(|sorted|)) && i < |sorted|
    ensures p < |sorted| && sorted[p] == i
  {
    assert Iota(|sorted|)[i] == i;
    assert i in multiset(Iota(|sorted|));
    assert i in sorted;
    p :| 0 <= p < |sorted| && sorted[p] == i;
  }
}
