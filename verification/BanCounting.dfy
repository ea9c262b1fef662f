/** Bans with failures of their own, and failures that are kept, counted; and what overlap has to do with both. */
module BanCounting {
  import opened BanBacking
  import opened BanChains
  import opened ExactCounting
  import opened Handshakes
  import opened Sequences

  // ---------- counting by position ----------

  ghost function FailurePositions(run: seq<Event>, id: PeerId): set<nat> {
    set p: nat | p < |run| && IsFailureAt(run, p, id)
  }

  ghost function BanPositions(run: seq<Event>, id: PeerId): set<nat> {
    set p: nat | p < |run| && IsBanAt(run, p, id)
  }

  lemma FailureAtStays(run: seq<Event>, p: nat, id: PeerId)
    requires run != [] && p < |run| - 1
    ensures IsFailureAt(run, p, id) <==> IsFailureAt(Past(run), p, id)
    ensures IsBanAt(run, p, id) <==> IsBanAt(Past(run), p, id)
  {
    assert Past(run)[..p] == run[..p];
  }

  lemma FailureAtEnd(run: seq<Event>, id: PeerId)
    requires run != [] && IsRun(run)
    ensures IsFailureAt(run, |run| - 1, id) <==> IsFailure(After(Past(run)), Last(run), id)
    ensures IsBanAt(run, |run| - 1, id) <==> IsThresholdBan(After(Past(run)), Last(run), id)
  {
    assert run[..|run| - 1] == Past(run);
  }

  lemma InPositions(run: seq<Event>, id: PeerId, p: nat)
    requires run != [] && IsRun(run)
    ensures p in FailurePositions(run, id) <==>
            if p == |run| - 1 then IsFailure(After(Past(run)), Last(run), id) else p in FailurePositions(Past(run), id)
    ensures p in BanPositions(run, id) <==>
            if p == |run| - 1 then IsThresholdBan(After(Past(run)), Last(run), id)
            else p in BanPositions(Past(run), id)
  {
    if p == |run| - 1 {
      FailureAtEnd(run, id);
    } else if p < |run| {
      FailureAtStays(run, p, id);
    }
  }

  /** A set of positions that may have gained the last one. */
  lemma AddsLast(now: set<nat>, before: set<nat>, last: nat, added: bool)
    requires last !in before && forall p :: p in now <==> if p == last then added else p in before
    ensures |now| == |before| + if added then 1 else 0
  {
    assert now == before + if added then {last} else {};
  }

  lemma {:induction false} PositionsCount(run: seq<Event>, id: PeerId)
    requires IsRun(run)
    ensures |FailurePositions(run, id)| == Failures(run, id)
    ensures |BanPositions(run, id)| == ThresholdBans(run, id)
  {
    if run != [] {
      var past, e := After(Past(run)), Last(run);
      PositionsCount(Past(run), id);
      forall p: nat {
        InPositions(run, id, p);
      }
      AddsLast(FailurePositions(run, id), FailurePositions(Past(run), id), |run| - 1, IsFailure(past, e, id));
      AddsLast(BanPositions(run, id), BanPositions(Past(run), id), |run| - 1, IsThresholdBan(past, e, id));
    }
  }

  ghost function Positions(chain: seq<Link>): set<nat> {
    set l | l in chain :: l.failedAt
  }

  lemma {:induction false} AscendingPositions(chain: seq<Link>)
    requires forall i, j :: 0 <= i < j < |chain| ==> chain[i].failedAt < chain[j].failedAt
    ensures |Positions(chain)| == |chain|
  {
    if chain != [] {
      AscendingPositions(Past(chain));
      assert Positions(chain) == Positions(Past(chain)) + {Last(chain).failedAt};
    }
  }

  lemma ChainPositions(run: seq<Event>, id: PeerId, chain: seq<Link>)
    requires IsRun(run) && IsChain(run, id, chain)
    ensures |Positions(chain)| == |chain| && Positions(chain) <= FailurePositions(run, id)
  {
    forall i, j | 0 <= i < j < |chain|
      ensures chain[i].failedAt < chain[j].failedAt
    {
      ChainIsOrdered(run, id, chain, i, j);
      assert IsLink(run, id, chain[j], j);
    }
    AscendingPositions(chain);
    forall i | 0 <= i < |chain|
      ensures chain[i].failedAt in FailurePositions(run, id)
    {
      LinkFails(run, id, chain[i], i);
    }
  }

  // ---------- the failures behind each ban ----------

  ghost function Behind(run: seq<Event>, id: PeerId, p: nat): set<nat>
    requires IsRun(run) && IsBanAt(run, p, id)
  {
    BansExactlyOnTheFifth(run, p, id);
    var chain: seq<Link> :| IsBanChain(run, id, chain) && chain[4].failedAt == p;
    Positions(chain)
  }

  lemma BehindIsChain(run: seq<Event>, id: PeerId, p: nat) returns (chain: seq<Link>)
    requires IsRun(run) && IsBanAt(run, p, id)
    ensures IsBanChain(run, id, chain) && chain[4].failedAt == p && Behind(run, id, p) == Positions(chain)
    ensures |Behind(run, id, p)| == 5 && Behind(run, id, p) <= FailurePositions(run, id)
    ensures forall d: seq<Link> :: IsBanChain(run, id, d) && d[4].failedAt == p ==> d == chain
  {
    chain := BanChainIsUnique(run, id, p);
    ChainPositions(run, id, chain);
  }

  lemma OwnFailuresBehind(run: seq<Event>, id: PeerId, p: nat, q: nat)
    requires IsRun(run) && BansOwnFailures(run, id) && IsBanAt(run, p, id) && IsBanAt(run, q, id) && p != q
    ensures Behind(run, id, p) !! Behind(run, id, q)
  {
    var c := BehindIsChain(run, id, p);
    var d := BehindIsChain(run, id, q);
    assert Disjoint(c, d);
  }

  /** Disjoint groups of five fit into a set only if there is room for them. */
  lemma {:induction false} DisjointFives(groups: map<nat, set<nat>>, all: set<nat>)
    requires forall p :: p in groups ==> |groups[p]| == 5 && groups[p] <= all
    requires forall p, q :: p in groups && q in groups && p != q ==> groups[p] !! groups[q]
    ensures 5 * |groups| <= |all|
    decreases |groups|
  {
    if p :| p in groups {
      DisjointFives(groups - {p}, all - groups[p]);
      assert |groups - {p}| == |groups| - 1;
    }
  }

  /** Groups of five and a rest cover no more than their sizes. */
  lemma {:induction false} CoveredByFives(groups: map<nat, set<nat>>, rest: set<nat>, all: set<nat>)
    requires forall p :: p in groups ==> |groups[p]| == 5
    requires forall x :: x in all ==> x in rest || exists p :: p in groups && x in groups[p]
    ensures |all| <= 5 * |groups| + |rest|
    decreases |groups|
  {
    if p :| p in groups {
      var group := groups[p];
      forall x | x in all - group
        ensures x in rest || exists q :: q in groups - {p} && x in (groups - {p})[q]
      {
        if x !in rest {
          var q :| q in groups && x in groups[q];
          assert q in groups - {p} && x in (groups - {p})[q];
        }
      }
      CoveredByFives(groups - {p}, rest, all - group);
      assert |groups - {p}| == |groups| - 1;
      Overlapping(all, group);
    } else {
      Overlapping(rest, all);
      Overlapping(all, rest);
      assert all - rest == {};
    }
  }

  lemma Overlapping(a: set<nat>, b: set<nat>)
    ensures |a - b| == |a| - |a * b| && |a * b| == |b * a| && |a * b| <= |b|
  {
    assert a * b == b * a;
    assert |b - a| == |b| - |b * a|;
  }

  ghost function BehindEach(run: seq<Event>, id: PeerId): (groups: map<nat, set<nat>>)
    requires IsRun(run)
    ensures groups.Keys == BanPositions(run, id)
  {
    map p | p in BanPositions(run, id) :: Behind(run, id, p)
  }

  lemma BehindEachCount(run: seq<Event>, id: PeerId)
    requires IsRun(run)
    ensures |BehindEach(run, id)| == ThresholdBans(run, id)
    ensures forall p :: p in BehindEach(run, id) ==> |BehindEach(run, id)[p]| == 5
    ensures forall p :: p in BehindEach(run, id) ==> BehindEach(run, id)[p] <= FailurePositions(run, id)
  {
    var groups := BehindEach(run, id);
    PositionsCount(run, id);
    assert |groups.Keys| == |groups|;
    forall p | p in groups
      ensures |groups[p]| == 5 && groups[p] <= FailurePositions(run, id)
    {
      var chain := BehindIsChain(run, id, p);
    }
  }

  /** Bans with failures of their own take five failures each. */
  lemma OwnFailuresCount(run: seq<Event>, id: PeerId)
    requires IsRun(run) && BansOwnFailures(run, id)
    ensures 5 * ThresholdBans(run, id) <= Failures(run, id)
  {
    var groups := BehindEach(run, id);
    PositionsCount(run, id);
    BehindEachCount(run, id);
    forall p, q | p in groups && q in groups && p != q
      ensures groups[p] !! groups[q]
    {
      OwnFailuresBehind(run, id, p, q);
    }
    DisjointFives(groups, FailurePositions(run, id));
  }

  /** A kept failure is behind some ban or on the chain that stands. */
  lemma KeptHasPlace(run: seq<Event>, id: PeerId, x: nat, standing: seq<Link>)
    requires IsRun(run) && IsKept(run, id, x)
    requires IsStanding(run, id, standing) && |standing| == Stored(After(run).p2pFailures, id)
    ensures x in Positions(standing) || exists p :: p in BanPositions(run, id) && x in Behind(run, id, p)
  {
    var chain: seq<Link>, i: nat :| i < |chain| && chain[i].failedAt == x && HasUse(run, id, chain);
    if IsBanChain(run, id, chain) {
      var p := chain[4].failedAt;
      LinkFails(run, id, chain[4], 4);
      var behind := BehindIsChain(run, id, p);
      assert chain == behind && p in BanPositions(run, id);
    } else {
      CountsStayBelowThreshold(run);
      OneStandingChain(run, id, chain, standing);
    }
  }

  /** Kept failures are no more than five for each ban and those that are stored. */
  lemma KeptFailuresCount(run: seq<Event>, id: PeerId)
    requires IsRun(run) && EveryFailureIsKept(run, id)
    ensures Failures(run, id) <= 5 * ThresholdBans(run, id) + Stored(After(run).p2pFailures, id)
  {
    var standing := StoredCountChain(run, id);
    var groups := BehindEach(run, id);
    ChainPositions(run, id, standing);
    PositionsCount(run, id);
    BehindEachCount(run, id);
    forall x | x in FailurePositions(run, id)
      ensures x in Positions(standing) || exists p :: p in groups && x in groups[p]
    {
      KeptHasPlace(run, id, x, standing);
      if p :| p in BanPositions(run, id) && x in Behind(run, id, p) {
        assert p in groups && x in groups[p];
      }
    }
    CoveredByFives(groups, Positions(standing), FailurePositions(run, id));
  }

  lemma OneLastWrite(run: seq<Event>, id: PeerId, p: nat, q: nat)
    requires WritesCountAt(run, p, id) && NoWrites(run, p + 1, |run|, id)
    requires WritesCountAt(run, q, id) && NoWrites(run, q + 1, |run|, id)
    ensures p == q
  {
  }

  /** Only one chain stands behind a stored count. */
  lemma OneStandingChain(run: seq<Event>, id: PeerId, c: seq<Link>, d: seq<Link>)
    requires IsRun(run) && IsStanding(run, id, c) && IsStanding(run, id, d) && |c| == |d| <= 4
    ensures c == d
  {
    if c != [] {
      var n := |c| - 1;
      LinkFails(run, id, c[n], n);
      LinkFails(run, id, d[n], n);
      OneLastWrite(run, id, c[n].failedAt, d[n].failedAt);
      SharedFailureSharesPast(run, id, c, d, n, n);
      assert c[..n + 1] == c && d[..n + 1] == d;
    }
  }

  // ---------- overlap breaks both ----------

  lemma OneOfTwoIsIn(five: set<nat>, six: set<nat>, u: nat, v: nat)
    requires |five| == 5 && |six| == 6 && five <= six && u in six && v in six && u != v
    ensures u in five || v in five
  {
    SubsetCount(five + {u} + {v}, six);
  }

  /** Two bans among six failures ban for the same four. */
  lemma SixFailuresShareFour(run: seq<Event>, id: PeerId, c: seq<Link>, d: seq<Link>)
    requires IsRun(run) && Failures(run, id) == 6
    requires IsBanChain(run, id, c) && IsBanChain(run, id, d) && c[4].failedAt != d[4].failedAt
    ensures c[..4] == d[..4]
  {
    PositionsCount(run, id);
    ChainPositions(run, id, c);
    ChainPositions(run, id, d);
    ChainIsOrdered(run, id, c, 3, 4);
    assert c[3].failedAt < c[4].readAt < c[4].failedAt by {
      assert IsLink(run, id, c[4], 4);
    }
    OneOfTwoIsIn(Positions(d), FailurePositions(run, id), c[3].failedAt, c[4].failedAt);
    var i := if c[3].failedAt in Positions(d) then 3 else 4;
    var j :| 0 <= j < 5 && d[j].failedAt == c[i].failedAt;
    SharedFailureSharesPast(run, id, c, d, i, j);
  }

  /** Six failures of which overlap makes two bans, both for the same four failures. */
  lemma OverlapSharesFailures(peer: NodeRecord) returns (run: seq<Event>, c: seq<Link>, d: seq<Link>)
    ensures IsRun(run) && Failures(run, peer.id) == 6 && ThresholdBans(run, peer.id) == 2
    ensures IsBanChain(run, peer.id, c) && IsBanChain(run, peer.id, d) && c[4].failedAt != d[4].failedAt
    ensures c[..4] == d[..4] && !BansOwnFailures(run, peer.id)
  {
    var id := peer.id;
    run := OverlapBansTwice(peer);
    PositionsCount(run, id);
    var p :| p in BanPositions(run, id);
    assert |BanPositions(run, id) - {p}| == 1;
    var q :| q in BanPositions(run, id) - {p};
    c := BanChainIsUnique(run, id, p);
    d := BanChainIsUnique(run, id, q);
    SixFailuresShareFour(run, id, c, d);
    assert c[0] == c[..4][0] && d[0] == d[..4][0];
    DisjointExactly(run, id, c, d);
  }

  /** Of two failures that overlap one is part of nothing. */
  lemma OverlapDropsAFailure(peer: NodeRecord) returns (run: seq<Event>)
    ensures IsRun(run) && Failures(run, peer.id) == 2
    ensures !EveryFailureIsKept(run, peer.id)
  {
    run := OverlapLosesAFailure(peer);
    if EveryFailureIsKept(run, peer.id) {
      KeptFailuresCount(run, peer.id);
    }
  }
}
