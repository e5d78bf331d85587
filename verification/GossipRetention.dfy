/** Which members of an overfull mesh survive the cut, by their scores. */
module GossipRetention {
  import opened Common
  import opened GossipState
  import opened GossipSteps
  import opened GossipMeshBounds

  type Ranking = PeerRef -> real

  predicate Descending(s: seq<PeerRef>, score: Ranking) {
    forall i, j :: 0 <= i < j < |s| ==> score(s[i]) >= score(s[j])
  }

  /** Any order of the best ones, followed by the `k` worst from better to worse. */
  predicate Ranked(order: seq<PeerRef>, score: Ranking, k: nat) {
    var m := Monus(|order|, k);
    && Descending(order[m..], score)
    && forall i, j :: 0 <= i < m <= j < |order| ==> score(order[i]) >= score(order[j])
  }

  // ---- The order the walk takes ------------------------------------------------------

  /** Where a peer goes in a descending list. */
  method Place(s: seq<PeerRef>, r: PeerRef, score: Ranking) returns (i: nat)
    requires Descending(s, score)
    ensures i <= |s| && (forall j :: 0 <= j < i ==> score(s[j]) >= score(r)) && forall j :: i <= j < |s| ==> score(s[j]) <= score(r)
  {
    i := 0;
    while i < |s| && score(r) < score(s[i])
      invariant i <= |s| && forall j :: 0 <= j < i ==> score(s[j]) >= score(r)
    {
      i := i + 1;
    }
  }

  lemma Placed(s: seq<PeerRef>, r: PeerRef, score: Ranking, i: nat)
    requires Descending(s, score) && i <= |s|
    requires (forall j :: 0 <= j < i ==> score(s[j]) >= score(r)) && forall j :: i <= j < |s| ==> score(s[j]) <= score(r)
    ensures Descending(s[..i] + [r] + s[i..], score)
  {
    var t := s[..i] + [r] + s[i..];
    assert forall j :: 0 <= j < |t| ==> t[j] == if j < i then s[j] else if j == i then r else s[j - 1];
  }

  lemma OneMore(s: seq<PeerRef>, r: PeerRef, i: nat)
    requires Distinct(s) && r !in s && i <= |s|
    ensures var t := s[..i] + [r] + s[i..]; Distinct(t) && Elements(t) == Elements(s) + {r}
  {
    var t := s[..i] + [r] + s[i..];
    assert forall j :: 0 <= j < |t| ==> t[j] == if j < i then s[j] else if j == i then r else s[j - 1];
    assert t[i] == r;
    forall x | x in s ensures x in t {
      var j :| 0 <= j < |s| && s[j] == x;
      assert t[if j < i then j else j + 1] == x;
    }
  }

  /** The source's sort, for scores that do not change meanwhile. */
  method SortByScore(s: seq<PeerRef>, score: Ranking) returns (sorted: seq<PeerRef>)
    requires Distinct(s)
    ensures Distinct(sorted) && Elements(sorted) == Elements(s) && Descending(sorted, score)
  {
    sorted := [];
    for n := 0 to |s|
      invariant Distinct(sorted) && Elements(sorted) == Elements(s[..n]) && Descending(sorted, score)
    {
      NotYet(s, n);
      assert s[n] !in sorted by { assert s[n] !in Elements(sorted); }
      var i := Place(sorted, s[n], score);
      Placed(sorted, s[n], score, i);
      OneMore(sorted, s[n], i);
      hide Distinct, Descending, Elements;
      sorted := sorted[..i] + [s[n]] + sorted[i..];
    }
    assert s[..|s|] == s;
  }

  lemma NotYet(s: seq<PeerRef>, n: nat)
    requires Distinct(s) && n < |s|
    ensures s[n] !in Elements(s[..n]) && Elements(s[..n + 1]) == Elements(s[..n]) + {s[n]}
  {
    assert s[..n + 1] == s[..n] + [s[n]];
  }

  /** Reordering the better part of a descending list. */
  lemma FrontShuffled(sorted: seq<PeerRef>, front: seq<PeerRef>, mesh: set<PeerRef>, score: Ranking, k: nat)
    requires Permutes(sorted, mesh) && Descending(sorted, score)
    requires var m := Monus(|sorted|, k); Permutes(front, Elements(sorted[..m])) && |front| == m
    ensures var order := front + sorted[Monus(|sorted|, k)..]; Permutes(order, mesh) && Ranked(order, score, k)
  {
    var m := Monus(|sorted|, k);
    var order := front + sorted[m..];
    FrontElements(sorted, front, m);
    assert order[m..] == sorted[m..];
    forall i, j | 0 <= i < m <= j < |order| ensures score(order[i]) >= score(order[j]) {
      assert order[i] in Elements(front);
      var l :| 0 <= l < m && sorted[..m][l] == order[i];
      assert order[j] == sorted[j];
    }
  }

  lemma FrontElements(sorted: seq<PeerRef>, front: seq<PeerRef>, m: nat)
    requires m <= |sorted| && Distinct(sorted) && Distinct(front) && |front| == m && Elements(front) == Elements(sorted[..m])
    ensures Distinct(front + sorted[m..]) && Elements(front + sorted[m..]) == Elements(sorted)
  {
    var order := front + sorted[m..];
    forall i, j | 0 <= i < j < |order| ensures order[i] != order[j] {
      if i < m <= j {
        assert order[i] in Elements(front);
        var l :| 0 <= l < m && sorted[..m][l] == order[i];
        assert order[j] == sorted[j] && sorted[l] == order[i];
      }
    }
    assert sorted == sorted[..m] + sorted[m..];
    assert Elements(order) == Elements(front) + Elements(sorted[m..]);
    assert Elements(sorted) == Elements(sorted[..m]) + Elements(sorted[m..]);
  }

  // ---- Who survives ------------------------------------------------------------------

  /** The end of the walk is reached with at most the quota spared before it. */
  lemma {:induction false} TailSurvives(objs: Heap, order: seq<PeerRef>, mesh: set<PeerRef>, n: nat, quota: nat, k: nat)
    requires Walking(objs, order, mesh, quota) && k <= |order| && k + quota <= n
    ensures Elements(order[|order| - k..]) <= Trim(objs, order, mesh, n, quota)
    decreases |order|
  {
    if |order| == k || |mesh| <= n {
      Fits(objs, order, mesh, n, quota, k);
    } else {
      var p, rest := order[0], order[1..];
      assert p in Elements(order);
      assert rest[|rest| - k..] == order[|order| - k..];
      WalkingStep(objs, order, mesh, quota);
      TrimUnfold(objs, order, mesh, n, quota);
      hide *;
      TailSurvives(objs, rest, if DialedOut(objs, p) && |Outbound(objs, mesh)| <= quota then mesh else mesh - {p}, n, quota, k);
    }
  }

  lemma Fits(objs: Heap, order: seq<PeerRef>, mesh: set<PeerRef>, n: nat, quota: nat, k: nat)
    requires Walking(objs, order, mesh, quota) && k <= |order| && k + quota <= n && (|order| == k || |mesh| <= n)
    ensures Elements(order[|order| - k..]) <= Trim(objs, order, mesh, n, quota)
  {
    assert Elements(order[|order| - k..]) <= Elements(order);
    if |order| == k {
      FewSpared(objs, order, mesh, quota);
    }
  }

  lemma FewSpared(objs: Heap, order: seq<PeerRef>, mesh: set<PeerRef>, quota: nat)
    requires Walking(objs, order, mesh, quota)
    ensures |mesh| <= |order| + quota
  {
    DistinctSize(order);
    var spared := mesh - Elements(order);
    SubsetSize(spared, Outbound(objs, mesh));
    hide Outbound, Distinct;
    assert mesh == Elements(order) + spared;
    assert |mesh| == |Elements(order)| + |spared|;
  }

  /**
   The last `retain_scores` of the order, which have the lowest scores, survive every cut, if they
   and the outbound quota fit `mesh_n` together.
   */
  lemma LowestSurvive(objs: Heap, order: seq<PeerRef>, mesh: set<PeerRef>, n: nat, quota: nat, score: Ranking, k: nat)
    returns (low: set<PeerRef>)
    requires Permutes(order, mesh) && Ranked(order, score, k) && k + quota <= n
    ensures low <= mesh && |low| == Min(k, |mesh|) && low <= Trim(objs, order, mesh, n, quota)
    ensures forall a, b :: a in mesh - low && b in low ==> score(a) >= score(b)
  {
    var l := Min(k, |order|);
    low := Elements(order[|order| - l..]);
    StartsWalking(objs, order, mesh, quota);
    assert Distinct(order) && Elements(order) == mesh;
    hide *;
    TailSurvives(objs, order, mesh, n, quota, l);
    TailIsLowest(order, score, k, l);
    DistinctSize(order);
  }

  lemma StartsWalking(objs: Heap, order: seq<PeerRef>, mesh: set<PeerRef>, quota: nat)
    requires Permutes(order, mesh)
    ensures Walking(objs, order, mesh, quota)
  {
    assert mesh - Elements(order) == {};
  }

  lemma TailIsLowest(order: seq<PeerRef>, score: Ranking, k: nat, l: nat)
    requires Distinct(order) && Ranked(order, score, k) && l == Min(k, |order|)
    ensures var low := Elements(order[|order| - l..]);
            && low <= Elements(order) && |low| == l
            && forall a, b :: a in Elements(order) - low && b in low ==> score(a) >= score(b)
  {
    var m := |order| - l;
    var low := Elements(order[m..]);
    DistinctSize(order[m..]);
    hide Distinct, Descending;
    assert forall i :: m <= i < |order| ==> order[i] == order[m..][i - m];
    forall a, b | a in Elements(order) - low && b in low ensures score(a) >= score(b) {
      var i :| 0 <= i < |order| && order[i] == a;
      var j :| 0 <= j < l && order[m..][j] == b;
      assert order[m + j] == b;
    }
  }

  // ---- The best ones are not protected ---------------------------------------------------

  ghost predicate Best(mesh: set<PeerRef>, score: Ranking, r: PeerRef) {
    r in mesh && forall q :: q in mesh ==> score(q) <= score(r)
  }

  /** Some descending order of a set. */
  lemma {:induction false} SomeOrder(s: set<PeerRef>, score: Ranking) returns (order: seq<PeerRef>)
    ensures Permutes(order, s) && Descending(order, score)
    decreases |s|
  {
    if s == {} {
      order := [];
    } else {
      var r := SomeBest(s, score);
      var rest := SomeOrder(s - {r}, score);
      order := [r] + rest;
      First(rest, s, score, r);
    }
  }

  lemma {:induction false} SomeBest(s: set<PeerRef>, score: Ranking) returns (r: PeerRef)
    requires s != {}
    ensures Best(s, score, r)
    decreases |s|
  {
    r :| r in s;
    if s != {r} {
      var q := SomeBest(s - {r}, score);
      if score(q) > score(r) { r := q; }
    }
  }

  lemma First(rest: seq<PeerRef>, s: set<PeerRef>, score: Ranking, r: PeerRef)
    requires Best(s, score, r) && Permutes(rest, s - {r}) && Descending(rest, score)
    ensures Permutes([r] + rest, s) && Descending([r] + rest, score)
  {
    var order := [r] + rest;
    forall i | 0 <= i < |rest| ensures rest[i] in s && rest[i] != r {
      assert rest[i] in Elements(rest);
    }
    assert Elements(order) == {r} + Elements(rest);
    assert forall i :: 1 <= i < |order| ==> order[i] == rest[i - 1];
  }

  lemma DescendingIsRanked(s: seq<PeerRef>, score: Ranking, k: nat)
    requires Descending(s, score)
    ensures Ranked(s, score, k)
  {
  }

  lemma {:induction false} OutboundSpared(objs: Heap, order: seq<PeerRef>, mesh: set<PeerRef>, n: nat, quota: nat, r: PeerRef)
    requires Distinct(order) && Elements(order) <= mesh && r in mesh && DialedOut(objs, r) && |Outbound(objs, mesh)| <= quota
    ensures r in Trim(objs, order, mesh, n, quota)
    decreases |order|
  {
    if order != [] && |mesh| > n {
      var p, rest := order[0], order[1..];
      assert p in Elements(order);
      TrimUnfold(objs, order, mesh, n, quota);
      NextOne(order);
      if DialedOut(objs, p) {
        hide Trim, Outbound;
        OutboundSpared(objs, rest, mesh, n, quota, r);
      } else {
        OutboundMinus(objs, mesh, p);
        hide Trim, Outbound;
        OutboundSpared(objs, rest, mesh - {p}, n, quota, r);
      }
    }
  }

  lemma NextOne(order: seq<PeerRef>)
    requires Distinct(order) && order != []
    ensures Distinct(order[1..]) && Elements(order[1..]) == Elements(order) - {order[0]}
  {
    assert order == [order[0]] + order[1..];
    assert Elements(order) == {order[0]} + Elements(order[1..]);
  }

  lemma {:induction false} TrimWithin(objs: Heap, order: seq<PeerRef>, mesh: set<PeerRef>, n: nat, quota: nat)
    requires Distinct(order) && Elements(order) <= mesh
    ensures Trim(objs, order, mesh, n, quota) <= mesh
    decreases |order|
  {
    if order != [] && |mesh| > n {
      var p := order[0];
      assert p in Elements(order);
      TrimUnfold(objs, order, mesh, n, quota);
      NextOne(order);
      hide Trim, Outbound;
      TrimWithin(objs, order[1..], mesh, n, quota);
      TrimWithin(objs, order[1..], mesh - {p}, n, quota);
    }
  }

  /** Every order the source may walk spares `r`. */
  ghost predicate Protected(objs: Heap, mesh: set<PeerRef>, n: nat, quota: nat, score: Ranking, k: nat, r: PeerRef) {
    forall order :: Permutes(order, mesh) && Ranked(order, score, k) ==> r in Trim(objs, order, mesh, n, quota)
  }

  /**
   A member with the best score of a mesh that is cut is safe only if it is outbound and the
   quota covers all outbound members; otherwise some shuffle has it removed first.
   */
  lemma BestProtectedIff(objs: Heap, mesh: set<PeerRef>, n: nat, quota: nat, score: Ranking, k: nat, r: PeerRef)
    requires |mesh| > n && Best(mesh, score, r)
    ensures Protected(objs, mesh, n, quota, score, k, r) <==> DialedOut(objs, r) && |Outbound(objs, mesh)| <= quota
  {
    if DialedOut(objs, r) && |Outbound(objs, mesh)| <= quota {
      forall order | Permutes(order, mesh) && Ranked(order, score, k) ensures r in Trim(objs, order, mesh, n, quota) {
        OutboundSpared(objs, order, mesh, n, quota, r);
      }
    } else {
      var order := RemovedFirst(objs, mesh, n, quota, score, k, r);
    }
  }

  lemma RemovedFirst(objs: Heap, mesh: set<PeerRef>, n: nat, quota: nat, score: Ranking, k: nat, r: PeerRef)
    returns (order: seq<PeerRef>)
    requires |mesh| > n && Best(mesh, score, r) && !(DialedOut(objs, r) && |Outbound(objs, mesh)| <= quota)
    ensures Permutes(order, mesh) && Ranked(order, score, k) && r !in Trim(objs, order, mesh, n, quota)
  {
    var rest := SomeOrder(mesh - {r}, score);
    order := [r] + rest;
    First(rest, mesh, score, r);
    DescendingIsRanked(order, score, k);
    assert order[0] == r && order[1..] == rest;
    TrimUnfold(objs, order, mesh, n, quota);
    TrimWithin(objs, rest, mesh - {r}, n, quota);
    hide Trim, Outbound, Ranked, Descending;
  }
}
