/** Rank-matrix construction (build_rank_matrix): each scanned match adds its
    weight to the 4x4 matrix in place, winner's row and loser's column, 3 for a
    decisive result and 1 to both off-diagonal cells for a draw. */
module RankMatrix {
  import opened Matches
  import opened Teams

  /** Both names of the record occupy a slot: find_team_index finds both. */
  predicate Resolved(teams: seq<Name>, m: Match): (r: bool)
    ensures r <==> m.t1 in teams && m.t2 in teams
  {
    IndexOf(teams, m.t1) >= 0 && IndexOf(teams, m.t2) >= 0
  }

  /** Index of the first record with a name no slot holds, or |recs| if every
      record resolves. */
  function FirstUnresolved(teams: seq<Name>, recs: seq<Match>): (n: nat)
    ensures n <= |recs|
    ensures forall k :: 0 <= k < n ==> Resolved(teams, recs[k])
    ensures n < |recs| ==> !Resolved(teams, recs[n])
  {
    if recs == [] || !Resolved(teams, recs[0]) then 0
    else
      var n := FirstUnresolved(teams, recs[1..]);
      assert forall k :: 1 <= k <= n ==> recs[k] == recs[1..][k - 1];
      n + 1
  }

  /** The records build_rank_matrix applies: those before the first one with
      a name no slot holds. */
  function Applied(teams: seq<Name>, recs: seq<Match>): (applied: seq<Match>)
    ensures |applied| <= |recs| && applied == recs[..|applied|]
    ensures forall k :: 0 <= k < |applied| ==> Resolved(teams, recs[k])
    ensures |applied| < |recs| ==> !Resolved(teams, recs[|applied|])
  {
    recs[..FirstUnresolved(teams, recs)]
  }

  /** FirstUnresolved is the only index with its two properties. */
  lemma FirstUnresolvedIs(teams: seq<Name>, recs: seq<Match>, n: nat)
    requires n <= |recs|
    requires forall k :: 0 <= k < n ==> Resolved(teams, recs[k])
    requires n < |recs| ==> !Resolved(teams, recs[n])
    ensures FirstUnresolved(teams, recs) == n
  {
  }

  /** What match m, its names resolved to rows t1 and t2, adds to cell [a, b]:
      3 to the winner's row and the loser's column, or 1 to [t1, t2] and 1 to
      [t2, t1] for a draw. Nothing outside those two cells changes. */
  function Weight(t1: int, t2: int, m: Match, a: int, b: int): (w: nat)
    ensures w <= 3
    ensures w > 0 ==> (a == t1 && b == t2) || (a == t2 && b == t1)
  {
    if m.s1 > m.s2 then (if a == t1 && b == t2 then 3 else 0)
    else if m.s1 < m.s2 then (if a == t2 && b == t1 then 3 else 0)
    else (if a == t1 && b == t2 then 1 else 0) + (if a == t2 && b == t1 then 1 else 0)
  }

  /** What one match adds to cell [a, b]: nothing unless both names resolve. */
  function Gain(teams: seq<Name>, m: Match, a: int, b: int): (w: nat)
    ensures w <= 3
    ensures w > 0 ==>
      Resolved(teams, m) &&
      ((a == IndexOf(teams, m.t1) && b == IndexOf(teams, m.t2)) ||
       (a == IndexOf(teams, m.t2) && b == IndexOf(teams, m.t1)))
  {
    var t1, t2 := IndexOf(teams, m.t1), IndexOf(teams, m.t2);
    if t1 < 0 || t2 < 0 then 0 else Weight(t1, t2, m, a, b)
  }

  /** Total that the records, applied in order, add to cell [a, b]: at most 3
      per record. */
  function Added(teams: seq<Name>, recs: seq<Match>, a: int, b: int): (s: nat)
    ensures s <= 3 * |recs|
  {
    if recs == [] then 0
    else Added(teams, recs[..|recs| - 1], a, b) + Gain(teams, recs[|recs| - 1], a, b)
  }

  // ---------------------------------------------------------------------------
  // Reference counts: who beat whom, and draws

  /** Team a beat team b in this match. */
  predicate Beat(teams: seq<Name>, m: Match, a: int, b: int)
  {
    Resolved(teams, m) &&
    ((m.s1 > m.s2 && IndexOf(teams, m.t1) == a && IndexOf(teams, m.t2) == b) ||
     (m.s1 < m.s2 && IndexOf(teams, m.t2) == a && IndexOf(teams, m.t1) == b))
  }

  /** Number of matches in which a beat b. */
  function Wins(teams: seq<Name>, recs: seq<Match>, a: int, b: int): nat
  {
    if recs == [] then 0
    else Wins(teams, recs[..|recs| - 1], a, b) + (if Beat(teams, recs[|recs| - 1], a, b) then 1 else 0)
  }

  /** Positions in which a drawn match has a as one side and b as the other:
      (t1, t2) counts once and (t2, t1) once, so a self-draw counts twice on
      the diagonal. */
  function DrawShare(teams: seq<Name>, m: Match, a: int, b: int): nat
  {
    if Resolved(teams, m) && m.s1 == m.s2 then
      (if IndexOf(teams, m.t1) == a && IndexOf(teams, m.t2) == b then 1 else 0) +
      (if IndexOf(teams, m.t2) == a && IndexOf(teams, m.t1) == b then 1 else 0)
    else 0
  }

  /** Draw positions between a and b over all the records. */
  function Draws(teams: seq<Name>, recs: seq<Match>, a: int, b: int): nat
  {
    if recs == [] then 0
    else Draws(teams, recs[..|recs| - 1], a, b) + DrawShare(teams, recs[|recs| - 1], a, b)
  }

  /** Number of records with a decisive result. */
  function Decisive(recs: seq<Match>): nat
  {
    if recs == [] then 0
    else Decisive(recs[..|recs| - 1]) + (if recs[|recs| - 1].s1 != recs[|recs| - 1].s2 then 1 else 0)
  }

  /** Number of drawn records. */
  function Drawn(recs: seq<Match>): nat
  {
    if recs == [] then 0
    else Drawn(recs[..|recs| - 1]) + (if recs[|recs| - 1].s1 == recs[|recs| - 1].s2 then 1 else 0)
  }

  // ---------------------------------------------------------------------------
  // Properties of the accumulated weights

  /** Each cell gains 3 per win of a over b and 1 per draw position of a
      against b. */
  lemma {:induction false} AddedCounts(teams: seq<Name>, recs: seq<Match>, a: int, b: int)
    ensures Added(teams, recs, a, b) == 3 * Wins(teams, recs, a, b) + Draws(teams, recs, a, b)
    decreases |recs|
  {
    if recs != [] {
      AddedCounts(teams, recs[..|recs| - 1], a, b);
    }
  }

  /** Applying xs and then ys adds the sum of both. */
  lemma {:induction false} AddedAppend(teams: seq<Name>, xs: seq<Match>, ys: seq<Match>, a: int, b: int)
    ensures Added(teams, xs + ys, a, b) == Added(teams, xs, a, b) + Added(teams, ys, a, b)
    decreases |ys|
  {
    if ys == [] {
      assert xs + ys == xs;
    } else {
      var ys' := ys[..|ys| - 1];
      assert (xs + ys)[..|xs + ys| - 1] == xs + ys';
      AddedAppend(teams, xs, ys', a, b);
    }
  }

  /** The weights do not depend on the order of the matches. */
  lemma {:induction false} AddedPermutation(teams: seq<Name>, xs: seq<Match>, ys: seq<Match>, a: int, b: int)
    requires multiset(xs) == multiset(ys)
    ensures Added(teams, xs, a, b) == Added(teams, ys, a, b)
    decreases |xs|
  {
    if xs == [] {
      assert |ys| == |multiset(ys)| == 0;
    } else {
      var m := xs[|xs| - 1];
      var xs' := xs[..|xs| - 1];
      assert xs == xs' + [m];
      assert m in multiset(ys);
      var j :| 0 <= j < |ys| && ys[j] == m;
      var ys' := RemovedMultiset(xs', m, ys, j);
      AddedPermutation(teams, xs', ys', a, b);
      AddedRemove(teams, ys, j, a, b);
    }
  }

  /** Taking the same match off both sides of a permutation leaves one. */
  lemma RemovedMultiset(xs': seq<Match>, m: Match, ys: seq<Match>, j: nat) returns (ys': seq<Match>)
    requires j < |ys| && ys[j] == m
    requires multiset(xs' + [m]) == multiset(ys)
    ensures ys' == ys[..j] + ys[j + 1..]
    ensures multiset(xs') == multiset(ys')
  {
    ys' := ys[..j] + ys[j + 1..];
    assert ys == ys[..j] + [m] + ys[j + 1..];
    assert multiset(ys) == multiset(ys[..j]) + multiset([m]) + multiset(ys[j + 1..]);
    assert multiset(ys') == multiset(ys[..j]) + multiset(ys[j + 1..]);
    assert multiset(xs' + [m]) == multiset(xs') + multiset([m]);
    assert multiset(xs') + multiset([m]) == multiset(ys') + multiset([m]);
    assert multiset(xs') == multiset(xs') + multiset([m]) - multiset([m]);
    assert multiset(ys') == multiset(ys') + multiset([m]) - multiset([m]);
  }

  /** Removing one record removes exactly its gain. */
  lemma AddedRemove(teams: seq<Name>, ys: seq<Match>, j: nat, a: int, b: int)
    requires j < |ys|
    ensures Added(teams, ys, a, b) == Added(teams, ys[..j] + ys[j + 1..], a, b) + Gain(teams, ys[j], a, b)
  {
    var m := ys[j];
    assert ys == ys[..j] + [m] + ys[j + 1..];
    AddedAppend(teams, ys[..j] + [m], ys[j + 1..], a, b);
    AddedAppend(teams, ys[..j], [m], a, b);
    AddedAppend(teams, ys[..j], ys[j + 1..], a, b);
    assert [m][..0] == [];
  }

  /** A diagonal cell gains only from a match that names the same team twice. */
  lemma {:induction false} DiagonalNeedsSelfMatch(teams: seq<Name>, recs: seq<Match>, a: int)
    requires Added(teams, recs, a, a) > 0
    ensures exists k :: 0 <= k < |recs| && recs[k].t1 == recs[k].t2
    decreases |recs|
  {
    var init, m := recs[..|recs| - 1], recs[|recs| - 1];
    if Gain(teams, m, a, a) > 0 {
      assert teams[a] == m.t1 && teams[a] == m.t2;
    } else {
      DiagonalNeedsSelfMatch(teams, init, a);
      var k :| 0 <= k < |init| && init[k].t1 == init[k].t2;
      assert recs[k] == init[k];
    }
  }

  /** Sum of one match's gains over the whole matrix. */
  function GainTotal(teams: seq<Name>, m: Match): int
  {
    Gain(teams, m, 0, 0) + Gain(teams, m, 0, 1) + Gain(teams, m, 0, 2) + Gain(teams, m, 0, 3) +
    Gain(teams, m, 1, 0) + Gain(teams, m, 1, 1) + Gain(teams, m, 1, 2) + Gain(teams, m, 1, 3) +
    Gain(teams, m, 2, 0) + Gain(teams, m, 2, 1) + Gain(teams, m, 2, 2) + Gain(teams, m, 2, 3) +
    Gain(teams, m, 3, 0) + Gain(teams, m, 3, 1) + Gain(teams, m, 3, 2) + Gain(teams, m, 3, 3)
  }

  /** Sum of the records' additions over the whole matrix. */
  function AddedTotal(teams: seq<Name>, recs: seq<Match>): int
  {
    Added(teams, recs, 0, 0) + Added(teams, recs, 0, 1) + Added(teams, recs, 0, 2) + Added(teams, recs, 0, 3) +
    Added(teams, recs, 1, 0) + Added(teams, recs, 1, 1) + Added(teams, recs, 1, 2) + Added(teams, recs, 1, 3) +
    Added(teams, recs, 2, 0) + Added(teams, recs, 2, 1) + Added(teams, recs, 2, 2) + Added(teams, recs, 2, 3) +
    Added(teams, recs, 3, 0) + Added(teams, recs, 3, 1) + Added(teams, recs, 3, 2) + Added(teams, recs, 3, 3)
  }

  /** A resolved match adds 3 in all if decisive and 2 if drawn. */
  lemma GainTotalOfMatch(teams: seq<Name>, m: Match)
    requires |teams| == TeamCount && Resolved(teams, m)
    ensures GainTotal(teams, m) == if m.s1 == m.s2 then 2 else 3
  {
    var t1, t2 := IndexOf(teams, m.t1), IndexOf(teams, m.t2);
    assert 0 <= t1 < 4 && 0 <= t2 < 4;
    assert forall a, b :: Gain(teams, m, a, b) == Weight(t1, t2, m, a, b);
  }

  /** When every match resolves, the matrix gains 3 per decisive match and 2
      per drawn match in all. */
  lemma {:induction false} TotalWeight(teams: seq<Name>, recs: seq<Match>)
    requires |teams| == TeamCount
    requires forall k :: 0 <= k < |recs| ==> Resolved(teams, recs[k])
    ensures AddedTotal(teams, recs) == 3 * Decisive(recs) + 2 * Drawn(recs)
    decreases |recs|
  {
    if recs != [] {
      var init, m := recs[..|recs| - 1], recs[|recs| - 1];
      assert forall k :: 0 <= k < |init| ==> init[k] == recs[k];
      TotalWeight(teams, init);
      GainTotalOfMatch(teams, m);
      assert AddedTotal(teams, recs) == AddedTotal(teams, init) + GainTotal(teams, m);
    }
  }

  /** The prefix of one more record adds that record's gain to every cell. */
  lemma AddedPrefix(teams: seq<Name>, recs: seq<Match>, i: nat)
    requires i < |recs|
    ensures forall a, b :: Added(teams, recs[..i + 1], a, b) == Added(teams, recs[..i], a, b) + Gain(teams, recs[i], a, b)
  {
    assert recs[..i + 1][..i] == recs[..i];
  }

  // ---------------------------------------------------------------------------
  // build_rank_matrix

  /** The scoring step of build_rank_matrix for one match whose names resolved
      to rows t1 and t2. */
  method AddMatch(matrix: array2<int>, t1: int, t2: int, m: Match)
    requires matrix.Length0 == TeamCount && matrix.Length1 == TeamCount
    requires 0 <= t1 < TeamCount && 0 <= t2 < TeamCount
    modifies matrix
    ensures forall a, b :: 0 <= a < TeamCount && 0 <= b < TeamCount ==>
      matrix[a, b] == old(matrix[a, b]) + Weight(t1, t2, m, a, b)
  {
    if m.s1 > m.s2 {
      matrix[t1, t2] := matrix[t1, t2] + 3;
    } else if m.s1 < m.s2 {
      matrix[t2, t1] := matrix[t2, t1] + 3;
    } else {
      matrix[t1, t2] := matrix[t1, t2] + 1;
      matrix[t2, t1] := matrix[t2, t1] + 1;
    }
  }

  /** The body of the loop of build_rank_matrix for one match: resolve both
      names, and add the match's weight only when both resolve. */
  method ApplyMatch(matrix: array2<int>, teams: array<Name>, m: Match) returns (ok: bool)
    requires matrix.Length0 == TeamCount && matrix.Length1 == TeamCount
    requires teams.Length == TeamCount
    modifies matrix
    ensures ok == Resolved(teams[..], m)
    ensures forall a, b :: 0 <= a < TeamCount && 0 <= b < TeamCount ==>
      matrix[a, b] == old(matrix[a, b]) + Gain(teams[..], m, a, b)
  {
    var t1 := FindTeamIndex(teams, m.t1);
    var t2 := FindTeamIndex(teams, m.t2);
    if t1 == -1 || t2 == -1 {
      return false;
    }
    AddMatch(matrix, t1, t2, m);
    return true;
  }

  /** build_rank_matrix: for each scanned match in order, resolve both names and
      add the match's weight to the matrix; return false at the first match with
      a name no slot holds, leaving the earlier matches' additions in place. */
  method BuildRankMatrix(matrix: array2<int>, teams: array<Name>, matches: array<Match>) returns (ok: bool)
    requires matrix.Length0 == TeamCount && matrix.Length1 == TeamCount
    requires teams.Length == TeamCount && matches.Length == MaxMatchCount
    modifies matrix
    ensures ok <==> forall k :: 0 <= k < |Scanned(matches[..])| ==> Resolved(teams[..], Scanned(matches[..])[k])
    ensures forall a, b :: 0 <= a < TeamCount && 0 <= b < TeamCount ==>
      matrix[a, b] == old(matrix[a, b]) + Added(teams[..], Applied(teams[..], Scanned(matches[..])), a, b)
  {
    ghost var recs, ts := Scanned(matches[..]), teams[..];
    var i := 0;
    while i < MaxMatchCount && matches[i].t1 != ""
      invariant 0 <= i <= |recs|
      invariant forall k :: 0 <= k < i ==> Resolved(ts, recs[k])
      invariant forall a, b :: 0 <= a < TeamCount && 0 <= b < TeamCount ==>
        matrix[a, b] == old(matrix[a, b]) + Added(ts, recs[..i], a, b)
    {
      assert matches[i] == recs[i];
      ok := ApplyMatch(matrix, teams, matches[i]);
      if !ok {
        FirstUnresolvedIs(ts, recs, i);
        assert Applied(ts, recs) == recs[..i];
        return;
      }
      AddedPrefix(ts, recs, i);
      i := i + 1;
    }
    assert recs[..|recs|] == recs;
    FirstUnresolvedIs(ts, recs, |recs|);
    assert Applied(ts, recs) == recs[..i];
    return true;
  }
}
