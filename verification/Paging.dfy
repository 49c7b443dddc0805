/**
 Paging through the repository's list: the dashboard fetches pages until one comes back short. The query
 orders by creation time alone, so each request may order rows created at the same time differently;
 `answers[k]` is the order in which the server answers request `k`.
 */
module Paging {
  import opened Arithmetic
  import opened Repository

  const PAGE := 100

  /** How many rows request number `k`, counting from zero, skips. */
  function Offset(k: nat): (o: nat)
    ensures o == 100 * k
  {
    k * PAGE
  }

  /** How many requests it takes to see a short page of `n` rows. */
  function Requests(n: nat): (r: nat)
    ensures r >= 1 && Offset(r - 1) <= n < Offset(r)
  {
    n / PAGE + 1
  }

  /** An answer order for the tenant's rows: every live row once, newest first. */
  ghost predicate IsListing(t: Table, tenant: Tenant, listing: seq<Id>) {
    && (forall i :: 0 <= i < |listing| ==> listing[i] in t && Visible(t[listing[i]], tenant))
    && (forall i, j :: 0 <= i < j < |listing| ==>
          listing[i] != listing[j] && t[listing[i]].createdAt >= t[listing[j]].createdAt)
    && (forall id :: id in t && Visible(t[id], tenant) ==> id in listing)
  }

  /** `limit` rows of the listing after skipping `offset`; past the end there are none. */
  function List<T>(listing: seq<T>, limit: nat, offset: nat): seq<T> {
    if offset >= |listing| then []
    else if offset + limit <= |listing| then listing[offset..offset + limit]
    else listing[offset..]
  }

  /** The pages of the first `m` requests, one after another. */
  function Fetched<T>(answers: seq<seq<T>>, m: nat): seq<T>
    requires m <= |answers|
  {
    if m == 0 then [] else Fetched(answers, m - 1) + List(answers[m - 1], PAGE, Offset(m - 1))
  }

  /** The fetch loop: `n` rows take floor(n / 100) + 1 requests, whatever order each is answered in. */
  method FetchAll<T>(ghost n: nat, answers: seq<seq<T>>) returns (all: seq<T>, requests: nat)
    requires |answers| == Requests(n) && forall k :: 0 <= k < |answers| ==> |answers[k]| == n
    ensures requests == Requests(n)
    ensures all == Fetched(answers, requests)
  {
    all := [];
    requests := 0;
    var offset := 0;
    while true
      invariant offset <= n
      invariant offset == Offset(requests)
      invariant all == Fetched(answers, requests)
      decreases n - offset
    {
      var page := List(answers[requests], PAGE, offset);
      requests := requests + 1;
      all := all + page;
      if |page| < PAGE {
        break;
      }
      offset := offset + PAGE;
    }
  }

  /** Answered in one and the same order throughout, the pages are that order. */
  lemma {:induction false} FetchedInOneOrder<T>(listing: seq<T>, answers: seq<seq<T>>, m: nat)
    requires m <= |answers| && forall k :: 0 <= k < m ==> answers[k] == listing
    ensures Fetched(answers, m) == listing[..Reach(|listing|, m)]
  {
    if m > 0 {
      FetchedInOneOrder(listing, answers, m - 1);
      var a, b := Reach(|listing|, m - 1), Reach(|listing|, m);
      assert List(listing, PAGE, Offset(m - 1)) == listing[a..b];
      assert listing[..b] == listing[..a] + listing[a..b];
    }
  }

  /** How many of `n` rows the first `m` pages hold. */
  function Reach(n: nat, m: nat): nat {
    if Offset(m) <= n then Offset(m) else n
  }

  /** A listing holds exactly the tenant's live rows, each once. */
  lemma FetchedRowsExactly(t: Table, tenant: Tenant, listing: seq<Id>, id: Id)
    requires IsListing(t, tenant, listing)
    ensures (id in t && Visible(t[id], tenant)) <==> multiset(listing)[id] == 1
    ensures multiset(listing)[id] <= 1
    ensures |listing| == |set i | i in t && Visible(t[i], tenant)|
  {
    DistinctCounts(listing, id);
    var live := set i | i in t && Visible(t[i], tenant);
    assert live == set i | i in listing;
    DistinctCard(listing);
  }

  lemma {:induction false} DistinctCounts(s: seq<Id>, id: Id)
    requires forall i, j :: 0 <= i < j < |s| ==> s[i] != s[j]
    ensures multiset(s)[id] == if id in s then 1 else 0
  {
    if s != [] {
      var init, last := s[..|s| - 1], s[|s| - 1];
      assert s == init + [last];
      DistinctCounts(init, id);
      assert last !in init;
    }
  }

  lemma {:induction false} DistinctCard(s: seq<Id>)
    requires forall i, j :: 0 <= i < j < |s| ==> s[i] != s[j]
    ensures |set x | x in s| == |s|
  {
    if s != [] {
      var init, last := s[..|s| - 1], s[|s| - 1];
      DistinctCard(init);
      assert last !in init;
      assert (set x | x in s) == (set x | x in init) + {last};
    }
  }

  /** Every table has such an order. */
  lemma ListingExists(t: Table, tenant: Tenant)
    ensures exists listing :: IsListing(t, tenant, listing)
  {
    var live := set id | id in t && Visible(t[id], tenant);
    var listing := SortNewestFirst(t, live);
    forall i | 0 <= i < |listing| ensures listing[i] in t && Visible(t[listing[i]], tenant) {
      assert listing[i] in listing;
    }
    assert IsListing(t, tenant, listing);
  }

  lemma {:induction false} SortNewestFirst(t: Table, ids: set<Id>) returns (listing: seq<Id>)
    requires ids <= t.Keys
    ensures forall id :: id in listing <==> id in ids
    ensures forall i, j :: 0 <= i < j < |listing| ==>
              listing[i] != listing[j] && t[listing[i]].createdAt >= t[listing[j]].createdAt
    decreases |ids|
  {
    if ids == {} {
      listing := [];
    } else {
      var newest := Newest(t, ids);
      var rest := SortNewestFirst(t, ids - {newest});
      listing := [newest] + rest;
    }
  }

  lemma {:induction false} Newest(t: Table, ids: set<Id>) returns (newest: Id)
    requires ids != {} && ids <= t.Keys
    ensures newest in ids && forall id :: id in ids ==> t[newest].createdAt >= t[id].createdAt
    decreases |ids|
  {
    newest :| newest in ids;
    if ids != {newest} {
      assert ids - {newest} != {};
      var other := Newest(t, ids - {newest});
      if t[other].createdAt > t[newest].createdAt {
        newest := other;
      }
    }
  }

  // ---- Requests that order ties differently ----

  ghost predicate Answers(t: Table, tenant: Tenant, answers: seq<seq<Id>>) {
    forall k :: 0 <= k < |answers| ==> IsListing(t, tenant, answers[k])
  }

  /** A cut after `b` rows that separates no two rows created at the same time. */
  predicate CleanCut(t: Table, listing: seq<Id>, b: nat)
    requires forall id :: id in listing ==> id in t
  {
    0 < b < |listing| ==> t[listing[b - 1]].createdAt != t[listing[b]].createdAt
  }

  predicate NoTieAcrossPages(t: Table, listing: seq<Id>)
    requires forall id :: id in listing ==> id in t
  {
    forall k :: 0 <= k <= |listing| ==> CleanCut(t, listing, Offset(k))
  }

  lemma ListingLength(t: Table, tenant: Tenant, a: seq<Id>, b: seq<Id>)
    requires IsListing(t, tenant, a) && IsListing(t, tenant, b)
    ensures |a| == |b|
  {
    DistinctCard(a);
    DistinctCard(b);
    assert (set x | x in a) == (set x | x in b);
  }

  /** Above a clean cut every listing has the same rows. */
  lemma CleanCutFixesPrefix(t: Table, tenant: Tenant, a: seq<Id>, b: seq<Id>, cut: nat)
    requires IsListing(t, tenant, a) && IsListing(t, tenant, b) && |a| == |b| && cut <= |a|
    requires CleanCut(t, a, cut)
    ensures multiset(b[..cut]) == multiset(a[..cut])
  {
    var above, other := set x | x in a[..cut], set x | x in b[..cut];
    DistinctCard(a[..cut]);
    DistinctCard(b[..cut]);
    forall i | 0 <= i < cut ensures b[i] in a[..cut] {
      RowBelowCut(t, tenant, a, b, cut, i);
    }
    assert other <= above;
    SameSizeSubset(other, above);
    assert forall x :: x in a[..cut] <==> x in above;
    assert forall x :: x in b[..cut] <==> x in other;
    SameRowsSameMultiset(a[..cut], b[..cut]);
  }

  lemma SameRowsSameMultiset(a: seq<Id>, b: seq<Id>)
    requires forall i, j :: 0 <= i < j < |a| ==> a[i] != a[j]
    requires forall i, j :: 0 <= i < j < |b| ==> b[i] != b[j]
    requires forall x :: x in a <==> x in b
    ensures multiset(a) == multiset(b)
  {
    forall id ensures multiset(a)[id] == multiset(b)[id] {
      DistinctCounts(a, id);
      DistinctCounts(b, id);
    }
  }

  /** A row from below the cut comes below it in every listing: all the rows above precede it. */
  lemma RowBelowCut(t: Table, tenant: Tenant, a: seq<Id>, b: seq<Id>, cut: nat, i: nat)
    requires IsListing(t, tenant, a) && IsListing(t, tenant, b) && i < |b| == |a| && cut <= |a|
    requires CleanCut(t, a, cut)
    ensures b[i] !in a[..cut] ==> cut <= i
  {
    if b[i] !in a[..cut] && cut > 0 {
      assert forall k :: 0 <= k < cut ==> a[..cut][k] == a[k];
      var j :| 0 <= j < |a| && a[j] == b[i];
      assert t[a[cut - 1]].createdAt > t[b[i]].createdAt;
      forall x | x in a[..cut] ensures x in b[..i] {
        PrecedesNewer(t, tenant, a, b, cut, i, x);
      }
      DistinctCard(a[..cut]);
      DistinctCard(b[..i]);
      SubsetCard((set x | x in a[..cut]), (set x | x in b[..i]));
    }
  }

  lemma PrecedesNewer(t: Table, tenant: Tenant, a: seq<Id>, b: seq<Id>, cut: nat, i: nat, x: Id)
    requires IsListing(t, tenant, a) && IsListing(t, tenant, b) && i < |b| && 0 < cut <= |a|
    requires t[a[cut - 1]].createdAt > t[b[i]].createdAt && x in a[..cut]
    ensures x in b[..i]
  {
    var p :| 0 <= p < cut && a[p] == x;
    assert t[x].createdAt >= t[a[cut - 1]].createdAt;
    var q :| 0 <= q < |b| && b[q] == x;
    assert b[..i][q] == x;
  }

  lemma SameSizeSubset<T>(a: set<T>, b: set<T>)
    requires a <= b && |a| == |b|
    ensures a == b
  {
    assert b == a + (b - a);
  }

  lemma MultisetSlice<T>(s: seq<T>, a: nat, b: nat)
    requires a <= b <= |s|
    ensures multiset(s[..b]) == multiset(s[..a]) + multiset(s[a..b])
  {
    assert s[..b] == s[..a] + s[a..b];
  }

  lemma ListIsSlice<T>(listing: seq<T>, m: nat)
    requires Offset(m) <= |listing|
    ensures Offset(m) == Reach(|listing|, m) <= Reach(|listing|, m + 1) <= |listing|
    ensures List(listing, PAGE, Offset(m)) == listing[Offset(m)..Reach(|listing|, m + 1)]
  {
  }

  lemma CleanCutAtPage(t: Table, listing: seq<Id>, m: nat)
    requires forall id :: id in listing ==> id in t
    requires NoTieAcrossPages(t, listing) && m <= Requests(|listing|)
    ensures CleanCut(t, listing, Reach(|listing|, m))
  {
    if Offset(m) <= |listing| {
      assert m <= |listing|;
      assert CleanCut(t, listing, Offset(m));
    }
  }

  /** Whatever order request `m` is answered in, its page holds the rows of that page of the listing. */
  ghost predicate SamePage(listing: seq<Id>, order: seq<Id>, m: nat)
    requires Offset(m) <= |listing|
  {
    multiset(List(order, PAGE, Offset(m))) == multiset(List(listing, PAGE, Offset(m)))
  }

  lemma CleanPage(t: Table, tenant: Tenant, listing: seq<Id>, order: seq<Id>, m: nat)
    requires IsListing(t, tenant, listing) && IsListing(t, tenant, order)
    requires NoTieAcrossPages(t, listing) && m < Requests(|listing|)
    ensures Offset(m) <= |listing| && SamePage(listing, order, m)
  {
    ListingLength(t, tenant, listing, order);
    CleanCutAtPage(t, listing, m);
    CleanCutAtPage(t, listing, m + 1);
    CleanCutFixesPrefix(t, tenant, listing, order, Reach(|listing|, m));
    CleanCutFixesPrefix(t, tenant, listing, order, Reach(|listing|, m + 1));
    SamePrefixesSamePage(listing, order, m);
  }

  lemma SamePrefixesSamePage(listing: seq<Id>, order: seq<Id>, m: nat)
    requires |order| == |listing| && Offset(m) <= |listing|
    requires multiset(order[..Reach(|listing|, m)]) == multiset(listing[..Reach(|listing|, m)])
    requires multiset(order[..Reach(|listing|, m + 1)]) == multiset(listing[..Reach(|listing|, m + 1)])
    ensures SamePage(listing, order, m)
  {
    var a, b := Reach(|listing|, m), Reach(|listing|, m + 1);
    ListIsSlice(order, m);
    ListIsSlice(listing, m);
    MultisetSlice(order, a, b);
    MultisetSlice(listing, a, b);
    assert multiset(order[a..b]) == multiset(order[..b]) - multiset(order[..a]);
    assert multiset(listing[a..b]) == multiset(listing[..b]) - multiset(listing[..a]);
  }

  lemma {:induction false} SamePagesConserve(listing: seq<Id>, answers: seq<seq<Id>>, m: nat)
    requires m <= |answers| && m <= Requests(|listing|)
    requires forall k :: 0 <= k < m ==> Offset(k) <= |listing| && SamePage(listing, answers[k], k)
    ensures multiset(Fetched(answers, m)) == multiset(listing[..Reach(|listing|, m)])
  {
    if m > 0 {
      SamePagesConserve(listing, answers, m - 1);
      assert SamePage(listing, answers[m - 1], m - 1);
      ListIsSlice(listing, m - 1);
      MultisetSlice(listing, Reach(|listing|, m - 1), Reach(|listing|, m));
    }
  }

  /** The listing with the rows on both sides of a cut exchanged. */
  function Swapped(listing: seq<Id>, b: nat): seq<Id>
    requires 0 < b < |listing|
  {
    listing[b - 1 := listing[b]][b := listing[b - 1]]
  }

  function Exchange(b: nat, i: int): int {
    if i == b then b - 1 else if i == b - 1 then b else i
  }

  lemma SwappedAt(listing: seq<Id>, b: nat, i: nat)
    requires 0 < b < |listing| && i < |listing|
    ensures |Swapped(listing, b)| == |listing| && Swapped(listing, b)[i] == listing[Exchange(b, i)]
  {
  }

  lemma SwappedIsListing(t: Table, tenant: Tenant, listing: seq<Id>, b: nat)
    requires IsListing(t, tenant, listing) && 0 < b < |listing|
    requires t[listing[b - 1]].createdAt == t[listing[b]].createdAt
    ensures IsListing(t, tenant, Swapped(listing, b))
  {
    var other := Swapped(listing, b);
    forall i | 0 <= i < |other| ensures other[i] in t && Visible(t[other[i]], tenant) {
      SwappedAt(listing, b, i);
    }
    forall i, j | 0 <= i < j < |other|
      ensures other[i] != other[j] && t[other[i]].createdAt >= t[other[j]].createdAt
    {
      SwappedOrdered(t, tenant, listing, b, i, j);
    }
    forall id | id in t && Visible(t[id], tenant) ensures id in other {
      var i :| 0 <= i < |listing| && listing[i] == id;
      SwappedAt(listing, b, Exchange(b, i));
    }
  }

  lemma SwappedOrdered(t: Table, tenant: Tenant, listing: seq<Id>, b: nat, i: nat, j: nat)
    requires IsListing(t, tenant, listing) && 0 < b < |listing| && i < j < |listing|
    requires t[listing[b - 1]].createdAt == t[listing[b]].createdAt
    ensures var other := Swapped(listing, b);
            && |other| == |listing| && other[i] in t && other[j] in t
            && other[i] != other[j] && t[other[i]].createdAt >= t[other[j]].createdAt
  {
    SwappedAt(listing, b, i);
    SwappedAt(listing, b, j);
    var p, q := Exchange(b, i), Exchange(b, j);
    assert p != q;
    if p < q {
      assert listing[p] != listing[q] && t[listing[p]].createdAt >= t[listing[q]].createdAt;
    } else {
      assert p == b && q == b - 1;
    }
  }

  /** Every request but number `k` is answered in the same order. */
  function OneDissenter(listing: seq<Id>, other: seq<Id>, k: nat, m: nat): (answers: seq<seq<Id>>)
    ensures |answers| == m && forall i :: 0 <= i < m ==> answers[i] == if i == k then other else listing
  {
    seq(m, i => if i == k then other else listing)
  }

  lemma DissenterAnswers(t: Table, tenant: Tenant, listing: seq<Id>, other: seq<Id>, k: nat, m: nat)
    requires IsListing(t, tenant, listing) && IsListing(t, tenant, other)
    ensures Answers(t, tenant, OneDissenter(listing, other, k, m))
  {
  }

  /** Which request brings row number `i`. */
  function PageOf(i: nat): (p: nat)
    ensures Offset(p) <= i < Offset(p + 1)
  {
    i / PAGE
  }

  /** Row number `i` of what was fetched is row number `i` of the order its request was answered in. */
  lemma {:induction false} FetchedAt(answers: seq<seq<Id>>, n: nat, m: nat)
    requires m <= |answers| && m <= Requests(n) && forall k :: 0 <= k < |answers| ==> |answers[k]| == n
    ensures |Fetched(answers, m)| == Reach(n, m)
    ensures forall i :: 0 <= i < Reach(n, m) ==> PageOf(i) < m && Fetched(answers, m)[i] == answers[PageOf(i)][i]
  {
    if m > 0 {
      FetchedAt(answers, n, m - 1);
      var page := List(answers[m - 1], PAGE, Offset(m - 1));
      ListIsSlice(answers[m - 1], m - 1);
      forall i | 0 <= i < Reach(n, m)
        ensures PageOf(i) < m && (Fetched(answers, m - 1) + page)[i] == answers[PageOf(i)][i]
      {
        if i >= Offset(m - 1) {
          assert PageOf(i) == m - 1;
        }
      }
    }
  }

  lemma DissenterFetched(listing: seq<Id>, k: nat)
    requires 0 < Offset(k) < |listing|
    ensures var answers := OneDissenter(listing, Swapped(listing, Offset(k)), k, Requests(|listing|));
            Fetched(answers, |answers|) == listing[Offset(k) := listing[Offset(k) - 1]]
  {
    var b := Offset(k);
    var answers := OneDissenter(listing, Swapped(listing, b), k, Requests(|listing|));
    FetchedAt(answers, |listing|, |answers|);
    var fetched := Fetched(answers, |answers|);
    forall i | 0 <= i < |listing| ensures fetched[i] == listing[b := listing[b - 1]][i] {
      SwappedAt(listing, b, i);
      assert fetched[i] == answers[PageOf(i)][i];
      assert i == b - 1 ==> PageOf(i) < k;
    }
  }

  lemma OverwrittenRow(listing: seq<Id>, b: nat)
    requires 0 < b < |listing| && forall i, j :: 0 <= i < j < |listing| ==> listing[i] != listing[j]
    ensures listing[b] !in listing[b := listing[b - 1]]
    ensures multiset(listing[b := listing[b - 1]])[listing[b - 1]] >= 2
  {
    var s := listing[b := listing[b - 1]];
    assert s == s[..b] + s[b..] && s[..b][b - 1] == s[b..][0] == listing[b - 1];
    assert listing[b - 1] in multiset(s[..b]) && listing[b - 1] in multiset(s[b..]);
  }

  /**
   With a tie across a page boundary, two requests that order it differently fetch the row before the boundary
   twice and the row after it not at all.
   */
  lemma TieFetchedTwice(t: Table, tenant: Tenant, listing: seq<Id>, k: nat) returns (answers: seq<seq<Id>>)
    requires IsListing(t, tenant, listing) && 0 < Offset(k) < |listing|
    requires t[listing[Offset(k) - 1]].createdAt == t[listing[Offset(k)]].createdAt
    ensures Answers(t, tenant, answers) && |answers| == Requests(|listing|)
    ensures multiset(Fetched(answers, |answers|))[listing[Offset(k) - 1]] >= 2
    ensures listing[Offset(k)] !in Fetched(answers, |answers|)
  {
    var other := Swapped(listing, Offset(k));
    SwappedIsListing(t, tenant, listing, Offset(k));
    answers := OneDissenter(listing, other, k, Requests(|listing|));
    DissenterAnswers(t, tenant, listing, other, k, Requests(|listing|));
    DissenterFetched(listing, k);
    OverwrittenRow(listing, Offset(k));
  }

  ghost predicate AlwaysComplete(t: Table, tenant: Tenant, listing: seq<Id>) {
    forall answers :: Answers(t, tenant, answers) && |answers| == Requests(|listing|) ==>
      multiset(Fetched(answers, |answers|)) == multiset(listing)
  }

  /**
   Fetching brings every row of the tenant exactly once, however each request orders its ties, if and only
   if no tie lies across a page boundary.
   */
  lemma {:induction false} FetchCompleteExactlyWithoutTiesAcrossPages(t: Table, tenant: Tenant, listing: seq<Id>)
    requires IsListing(t, tenant, listing)
    ensures AlwaysComplete(t, tenant, listing) <==> NoTieAcrossPages(t, listing)
  {
    var n := |listing|;
    if NoTieAcrossPages(t, listing) {
      forall answers | Answers(t, tenant, answers) && |answers| == Requests(n)
        ensures multiset(Fetched(answers, |answers|)) == multiset(listing)
      {
        forall k | 0 <= k < |answers| ensures Offset(k) <= n && SamePage(listing, answers[k], k) {
          CleanPage(t, tenant, listing, answers[k], k);
        }
        SamePagesConserve(listing, answers, |answers|);
        assert listing[..Reach(n, |answers|)] == listing;
      }
    } else {
      var k :| 0 <= k <= n && !CleanCut(t, listing, Offset(k));
      var answers := TieFetchedTwice(t, tenant, listing, k);
      DistinctCounts(listing, listing[Offset(k) - 1]);
    }
  }
}
