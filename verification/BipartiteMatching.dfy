/**
  cpp/Bipartite-matching.cc: maximum matching by augmenting paths, where the visit flags are only
  refreshed after a success.

  `adj[l]` lists the right vertices next to the left vertex `l`.  A matching is the sequence that gives
  each right vertex its left partner, or `nl` when it has none.
*/
module BipartiteMatching {
  import opened FiniteSets

  ghost predicate Graph(adj: seq<seq<nat>>, nl: nat, nr: nat) {
    && nl <= |adj|
    && forall l, k :: 0 <= l < nl && 0 <= k < |adj[l]| ==> adj[l][k] < nr
  }

  /** Every partner is a neighbour. */
  ghost predicate OnEdges(adj: seq<seq<nat>>, nl: nat, m: seq<nat>)
    requires nl <= |adj|
  {
    forall r :: 0 <= r < |m| ==> m[r] <= nl && (m[r] < nl ==> r in adj[m[r]])
  }

  ghost predicate Matching(adj: seq<seq<nat>>, nl: nat, m: seq<nat>)
    requires nl <= |adj|
  {
    && OnEdges(adj, nl, m)
    && forall r, r' :: 0 <= r < r' < |m| && m[r] == m[r'] ==> m[r] == nl
  }

  ghost function Matched(nl: nat, m: seq<nat>): set<nat> { set r: nat | r < |m| && m[r] < nl }

  ghost function Size(nl: nat, m: seq<nat>): nat { |Matched(nl, m)| }

  /** Every edge has its left end in `left` or its right end in `right`. */
  ghost predicate Cover(adj: seq<seq<nat>>, nl: nat, left: set<nat>, right: set<nat>)
    requires nl <= |adj|
  {
    forall l, r :: 0 <= l < nl && r in adj[l] ==> l in left || r in right
  }

  ghost predicate NeighboursIn(adj: seq<seq<nat>>, l: nat, right: set<nat>)
    requires l < |adj|
  {
    forall r :: r in adj[l] ==> r in right
  }

  /** A set of right vertices no augmenting path can leave. */
  ghost predicate Closed(adj: seq<seq<nat>>, nl: nat, m: seq<nat>, dead: set<nat>)
    requires nl <= |adj|
  {
    forall r :: r in dead ==> r < |m| && m[r] < nl && NeighboursIn(adj, m[r], dead)
  }

  ghost function Flagged(flags: seq<nat>, flag: nat): set<nat> { set r: nat | r < |flags| && flags[r] == flag }

  ghost function Unflagged(flags: seq<nat>, flag: nat): set<nat> { set r: nat | r < |flags| && flags[r] != flag }

  /** Going from `flags` to `flags'` only sets entries to `flag`. */
  ghost predicate Grown(flags: seq<nat>, flags': seq<nat>, flag: nat) {
    && |flags'| == |flags|
    && forall r :: 0 <= r < |flags| ==> flags'[r] == flags[r] || flags'[r] == flag
  }

  /** Every right vertex flagged between `flags` and `flags'` is matched, and its partner's neighbours are all flagged. */
  ghost predicate Explored(adj: seq<seq<nat>>, nl: nat, m: seq<nat>, flags: seq<nat>, flags': seq<nat>, flag: nat)
    requires nl <= |adj|
  {
    forall r :: 0 <= r < |m| && r < |flags| && r in Flagged(flags', flag) && flags[r] != flag ==>
      m[r] < nl && NeighboursIn(adj, m[r], Flagged(flags', flag))
  }

  /** The entries that were flagged keep their partner. */
  ghost predicate Kept(m: seq<nat>, m': seq<nat>, flags: seq<nat>, flag: nat) {
    && |m'| == |m|
    && forall r :: 0 <= r < |m| && r in Flagged(flags, flag) ==> m'[r] == m[r]
  }

  ghost predicate KeptIn(m: seq<nat>, m': seq<nat>, dead: set<nat>) {
    |m'| == |m| && forall r :: r in dead && r < |m| ==> m'[r] == m[r]
  }

  /** `l` got one partner more, taken from the free vertices. */
  ghost predicate GainedPartner(m: seq<nat>, m': seq<nat>, nl: nat, l: nat) {
    nl in m && multiset(m') == multiset(m) - multiset{nl} + multiset{l}
  }

  lemma FlagOne(flags: seq<nat>, flags1: seq<nat>, r: nat, flag: nat)
    requires Grown(flags, flags1, flag) && r < |flags| && flags1[r] != flag
    ensures Grown(flags, flags1[r := flag], flag)
    ensures Unflagged(flags1[r := flag], flag) < Unflagged(flags, flag)
  {
    assert r in Unflagged(flags, flag) && r !in Unflagged(flags1[r := flag], flag);
  }

  lemma ExploreOneMore(adj: seq<seq<nat>>, nl: nat, m: seq<nat>, flags: seq<nat>, flags1: seq<nat>, r: nat, flags2: seq<nat>, flag: nat)
    requires nl <= |adj| && |m| == |flags|
    requires Grown(flags, flags1, flag) && Explored(adj, nl, m, flags, flags1, flag)
    requires r < |flags| && Grown(flags1[r := flag], flags2, flag) && Explored(adj, nl, m, flags1[r := flag], flags2, flag)
    requires m[r] < nl && NeighboursIn(adj, m[r], Flagged(flags2, flag))
    ensures Grown(flags, flags2, flag) && Explored(adj, nl, m, flags, flags2, flag)
    ensures Flagged(flags1, flag) + {r} <= Flagged(flags2, flag)
  {}

  /** Taking the partner's old place over completes the exchange. */
  lemma TakeOver(m: seq<nat>, m': seq<nat>, nl: nat, r: nat, l: nat)
    requires r < |m| == |m'| && m[r] == m'[r] < nl && GainedPartner(m, m', nl, m[r])
    ensures GainedPartner(m, m'[r := l], nl, l)
  {}

  lemma TakeFree(m: seq<nat>, nl: nat, r: nat, l: nat)
    requires r < |m| && m[r] == nl
    ensures GainedPartner(m, m[r := l], nl, l)
  {}

  class Matcher {
    const adj: seq<seq<nat>>
    const nl: nat
    const nr: nat
    var rightVertexFlags: seq<nat>
    var rightMatches: seq<nat>
    var currentFlag: nat

    ghost predicate Valid()
      reads this
    {
      && Graph(adj, nl, nr)
      && |rightVertexFlags| == |rightMatches| == nr
      && OnEdges(adj, nl, rightMatches)
    }

    constructor (nl: nat, nr: nat, adj: seq<seq<nat>>)
      requires Graph(adj, nl, nr)
      ensures Valid() && this.adj == adj && this.nl == nl && this.nr == nr && currentFlag == 1
      ensures rightVertexFlags == seq(nr, _ => 0) && rightMatches == seq(nr, _ => nl)
    {
      this.adj, this.nl, this.nr := adj, nl, nr;
      rightVertexFlags, rightMatches := seq(nr, _ => 0), seq(nr, _ => nl);
      currentFlag := 1;
    }

    /** Looks for a partner for `l` by a path that visits each right vertex at most once per flag value.
        On success `l` has one more partner and a free right vertex is used up; on failure nothing is
        rematched and everything reached is closed.  `dead` is never left and never rematched. */
    method RecurseAugment(l: nat, ghost dead: set<nat>) returns (ok: bool)
      requires Valid() && l < nl && Closed(adj, nl, rightMatches, dead)
      modifies this`rightVertexFlags, this`rightMatches
      ensures Valid()
      ensures Grown(old(rightVertexFlags), rightVertexFlags, currentFlag)
      ensures Kept(old(rightMatches), rightMatches, old(rightVertexFlags), currentFlag)
      ensures ok ==> GainedPartner(old(rightMatches), rightMatches, nl, l)
      ensures KeptIn(old(rightMatches), rightMatches, dead)
      ensures NeighboursIn(adj, l, dead) ==> !ok
      ensures !ok ==> rightMatches == old(rightMatches)
      ensures !ok ==> NeighboursIn(adj, l, Flagged(rightVertexFlags, currentFlag))
      ensures !ok ==> Explored(adj, nl, rightMatches, old(rightVertexFlags), rightVertexFlags, currentFlag)
      decreases Unflagged(rightVertexFlags, currentFlag)
    {
      hide Explored, GainedPartner, Unflagged;
      ghost var m := rightMatches;
      ghost var flags := rightVertexFlags;
      NothingExplored(adj, nl, m, flags, currentFlag);
      for k := 0 to |adj[l]|
        invariant rightMatches == m
        invariant Grown(flags, rightVertexFlags, currentFlag)
        invariant forall i :: 0 <= i < k ==> adj[l][i] in Flagged(rightVertexFlags, currentFlag)
        invariant Explored(adj, nl, m, flags, rightVertexFlags, currentFlag)
      {
        var r := adj[l][k];
        if rightVertexFlags[r] == currentFlag {
          continue;
        }
        ghost var flags1 := rightVertexFlags;
        FlagOne(flags, flags1, r, currentFlag);
        rightVertexFlags := rightVertexFlags[r := currentFlag];
        if rightMatches[r] == nl {
          TakeFree(m, nl, r, l);
          rightMatches := rightMatches[r := l];
          return true;
        }
        var found := RecurseAugment(rightMatches[r], dead);
        if found {
          TakeOver(m, rightMatches, nl, r, l);
          rightMatches := rightMatches[r := l];
          return true;
        }
        ExploreOneMore(adj, nl, m, flags, flags1, r, rightVertexFlags, currentFlag);
      }
      ok := false;
    }
  }

  lemma NothingExplored(adj: seq<seq<nat>>, nl: nat, m: seq<nat>, flags: seq<nat>, flag: nat)
    requires nl <= |adj|
    ensures Explored(adj, nl, m, flags, flags, flag)
  {}

  /** Each left vertex below `k` was tried: it has a partner now, or its neighbours are all dead. */
  ghost predicate Tried(adj: seq<seq<nat>>, nl: nat, m: seq<nat>, dead: set<nat>, k: nat)
    requires nl <= |adj|
  {
    && k <= nl
    && (forall l :: 0 <= l < nl ==> multiset(m)[l] <= if l < k then 1 else 0)
    && (forall l :: 0 <= l < k ==> l in m || NeighboursIn(adj, l, dead))
  }

  ghost predicate FlagsUpTo(flags: seq<nat>, flag: nat, dead: set<nat>) {
    && (forall r :: 0 <= r < |flags| ==> flags[r] <= flag)
    && Flagged(flags, flag) <= dead
  }

  lemma AfterSuccess(adj: seq<seq<nat>>, nl: nat, m: seq<nat>, m': seq<nat>, dead: set<nat>, k: nat)
    requires nl <= |adj| && k < nl
    requires Closed(adj, nl, m, dead) && Tried(adj, nl, m, dead, k)
    requires GainedPartner(m, m', nl, k) && KeptIn(m, m', dead)
    ensures Closed(adj, nl, m', dead) && Tried(adj, nl, m', dead, k + 1)
  {
    forall l | 0 <= l < nl
      ensures multiset(m')[l] == multiset(m)[l] + if l == k then 1 else 0
      ensures l in m' <==> l in multiset(m')
    {}
  }

  /** A failed search adds everything it flagged to the dead vertices. */
  lemma AfterFailure(adj: seq<seq<nat>>, nl: nat, m: seq<nat>, dead: set<nat>, k: nat, flags: seq<nat>, flags': seq<nat>, flag: nat)
    requires nl <= |adj| && k < nl && |flags| == |m|
    requires Closed(adj, nl, m, dead) && Tried(adj, nl, m, dead, k)
    requires FlagsUpTo(flags, flag, dead) && Grown(flags, flags', flag)
    requires Explored(adj, nl, m, flags, flags', flag)
    requires NeighboursIn(adj, k, Flagged(flags', flag))
    ensures var dead' := dead + Flagged(flags', flag);
            Closed(adj, nl, m, dead') && Tried(adj, nl, m, dead', k + 1) && FlagsUpTo(flags', flag, dead')
  {
    var dead' := dead + Flagged(flags', flag);
    forall r | r in dead' ensures r < |m| && m[r] < nl && NeighboursIn(adj, m[r], dead') {
      if r !in dead {
        assert r in Flagged(flags', flag) && r !in Flagged(flags, flag);
      }
    }
  }

  lemma TwiceInMultiset(m: seq<nat>, r: nat, r': nat)
    requires r < r' < |m| && m[r] == m[r']
    ensures multiset(m)[m[r]] >= 2
  {
    assert m == m[..r'] + m[r'..];
    assert m[..r'][r] in multiset(m[..r']) && m[r'..][0] in multiset(m[r'..]);
  }

  /** Weak duality: no matching is larger than a cover. */
  lemma MatchingAtMostCover(adj: seq<seq<nat>>, nl: nat, m: seq<nat>, left: set<nat>, right: set<nat>)
    requires nl <= |adj| && Matching(adj, nl, m) && Cover(adj, nl, left, right)
    ensures Size(nl, m) <= |left| + |right|
  {
    var matched := Matched(nl, m);
    var viaLeft := matched - right;
    var image := set r | r in viaLeft :: m[r];
    ImageSize(m, viaLeft, image);
    SubsetSize(image, left);
    SubsetSize(matched - viaLeft, right);
    assert matched == viaLeft + (matched - viaLeft);
  }

  /** Dead right vertices, with the partners of the other matched ones, cover every edge. */
  lemma DeadGivesCover(adj: seq<seq<nat>>, nl: nat, m: seq<nat>, dead: set<nat>) returns (left: set<nat>)
    requires nl <= |adj| && Matching(adj, nl, m) && Closed(adj, nl, m, dead) && Tried(adj, nl, m, dead, nl)
    ensures Cover(adj, nl, left, dead) && |left| + |dead| == Size(nl, m)
  {
    var alive := Matched(nl, m) - dead;
    left := set r | r in alive :: m[r];
    ImageSize(m, alive, left);
    assert Matched(nl, m) == alive + dead;
    forall l, r | 0 <= l < nl && r in adj[l] ensures l in left || r in dead {
      if l in m && !NeighboursIn(adj, l, dead) {
        var r' :| 0 <= r' < |m| && m[r'] == l;
        assert r' in alive;
      }
    }
  }

  lemma OnceEachIsMatching(adj: seq<seq<nat>>, nl: nat, m: seq<nat>, dead: set<nat>)
    requires nl <= |adj| && OnEdges(adj, nl, m) && Tried(adj, nl, m, dead, nl)
    ensures Matching(adj, nl, m)
  {
    forall r, r' | 0 <= r < r' < |m| && m[r] == m[r'] ensures m[r] == nl {
      TwiceInMultiset(m, r, r');
    }
  }

  lemma NoneMatched(adj: seq<seq<nat>>, nl: nat, nr: nat)
    requires nl <= |adj|
    ensures Tried(adj, nl, seq(nr, _ => nl), {}, 0)
  {
    var m := seq(nr, _ => nl);
    forall l | 0 <= l < nl ensures multiset(m)[l] == 0 { assert l !in m; }
  }

  /** The result is a matching, and a cover of the same size shows that no matching is larger. */
  method MaximumCardinalityBipartiteMatch(nl: nat, nr: nat, adj: seq<seq<nat>>) returns (m: seq<nat>)
    requires Graph(adj, nl, nr)
    ensures |m| == nr && Matching(adj, nl, m)
    ensures exists left, right :: Cover(adj, nl, left, right) && |left| + |right| == Size(nl, m)
    ensures forall other :: Matching(adj, nl, other) ==> Size(nl, other) <= Size(nl, m)
  {
    hide Explored, GainedPartner, Unflagged, Closed, Tried, Grown;
    var matcher := new Matcher(nl, nr, adj);
    ghost var dead: set<nat> := {};
    NoneMatched(adj, nl, nr);
    NothingDead(adj, nl, matcher.rightMatches);
    for l := 0 to nl
      invariant fresh(matcher)
      invariant matcher.Valid() && matcher.adj == adj && matcher.nl == nl && matcher.nr == nr
      invariant Closed(adj, nl, matcher.rightMatches, dead)
      invariant Tried(adj, nl, matcher.rightMatches, dead, l)
      invariant FlagsUpTo(matcher.rightVertexFlags, matcher.currentFlag, dead)
    {
      ghost var flags, before := matcher.rightVertexFlags, matcher.rightMatches;
      var ok := matcher.RecurseAugment(l, dead);
      if ok {
        AfterSuccess(adj, nl, before, matcher.rightMatches, dead, l);
        FlagsStillUpTo(flags, matcher.rightVertexFlags, matcher.currentFlag, dead);
        matcher.currentFlag := matcher.currentFlag + 1;
      } else {
        AfterFailure(adj, nl, before, dead, l, flags, matcher.rightVertexFlags, matcher.currentFlag);
        dead := dead + Flagged(matcher.rightVertexFlags, matcher.currentFlag);
      }
    }
    m := matcher.rightMatches;
    OnceEachIsMatching(adj, nl, m, dead);
    ghost var left := DeadGivesCover(adj, nl, m, dead);
    forall other | Matching(adj, nl, other) ensures Size(nl, other) <= Size(nl, m) {
      MatchingAtMostCover(adj, nl, other, left, dead);
    }
  }

  lemma NothingDead(adj: seq<seq<nat>>, nl: nat, m: seq<nat>)
    requires nl <= |adj|
    ensures Closed(adj, nl, m, {})
  {}

  lemma FlagsStillUpTo(flags: seq<nat>, flags': seq<nat>, flag: nat, dead: set<nat>)
    requires FlagsUpTo(flags, flag, dead) && Grown(flags, flags', flag)
    ensures FlagsUpTo(flags', flag + 1, dead)
  {}
}
