/** Match records, the fixed bounds of the ranking pipeline, and the scan over the
    match array that find_teams and build_rank_matrix share. */
module Matches {

  /** Capacity of the match array (MAX_MATCH_COUNT). */
  const MaxMatchCount: nat := 12

  /** Number of team slots, and the dimension of the rank matrix. */
  const TeamCount: nat := 4

  /** A team name. The empty string stands for an empty team slot, and an empty
      first name marks the end of the match records. */
  type Name = string

  /** One result line: the two team names and their scores. */
  datatype Match = Match(t1: Name, t2: Name, s1: nat, s2: nat)

  /** The first index at or after i whose record has an empty first name, or |ms|. */
  function ScanFrom(ms: seq<Match>, i: nat): (n: nat)
    requires i <= |ms|
    ensures i <= n <= |ms|
    ensures forall k :: i <= k < n ==> ms[k].t1 != ""
    ensures n < |ms| ==> ms[n].t1 == ""
    decreases |ms| - i
  {
    if i == |ms| || ms[i].t1 == "" then i else ScanFrom(ms, i + 1)
  }

  /** How many records the loop guard `i < MAX_MATCH_COUNT && t1_name[0] != '\0'`
      lets through: the records before the first empty first name, and never
      more than MaxMatchCount. */
  function ScanLength(ms: seq<Match>): (n: nat)
    requires |ms| == MaxMatchCount
    ensures n <= MaxMatchCount
    ensures forall k :: 0 <= k < n ==> ms[k].t1 != ""
    ensures n < MaxMatchCount ==> ms[n].t1 == ""
  {
    ScanFrom(ms, 0)
  }

  /** The records both scans visit, in order. */
  function Scanned(ms: seq<Match>): (recs: seq<Match>)
    requires |ms| == MaxMatchCount
    ensures |recs| <= MaxMatchCount && recs == ms[..|recs|]
    ensures forall k :: 0 <= k < |recs| ==> recs[k].t1 != ""
    ensures |recs| < MaxMatchCount ==> ms[|recs|].t1 == ""
  {
    ms[..ScanLength(ms)]
  }

  /** The names in the order find_teams meets them: the first then the second
      name of each record, record by record. */
  function Appearances(recs: seq<Match>): (ns: seq<Name>)
    ensures |ns| == 2 * |recs|
    ensures forall k :: 0 <= k < |recs| ==> ns[2 * k] == recs[k].t1 && ns[2 * k + 1] == recs[k].t2
  {
    if recs == [] then []
    else
      var rest := Appearances(recs[1..]);
      assert forall k :: 1 <= k < |recs| ==> recs[k] == recs[1..][k - 1];
      [recs[0].t1, recs[0].t2] + rest
  }

  /** Every name met during the scan belongs to one of the records. */
  lemma {:induction false} AppearanceSource(recs: seq<Match>, x: Name)
    requires x in Appearances(recs)
    ensures exists j :: 0 <= j < |recs| && (recs[j].t1 == x || recs[j].t2 == x)
  {
    var rest := recs[1..];
    assert Appearances(recs) == [recs[0].t1, recs[0].t2] + Appearances(rest);
    if x != recs[0].t1 && x != recs[0].t2 {
      AppearanceSource(rest, x);
      var j :| 0 <= j < |rest| && (rest[j].t1 == x || rest[j].t2 == x);
      assert recs[j + 1] == rest[j];
    }
  }
}
