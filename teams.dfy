/** Team discovery (find_teams) and name lookup (find_team_index) over the four
    team slots. The slots are an array of names updated in place; the spec
    functions below describe the same steps on sequences, and the lemmas relate
    them to an independent first-seen definition. */
module Teams {
  import opened Matches

  /** No name occurs twice. */
  predicate Distinct(s: seq<Name>)
  {
    forall i, j :: 0 <= i < j < |s| ==> s[i] != s[j]
  }

  /** The slots as the pipeline initialises them: all empty. */
  function EmptySlots(): (slots: seq<Name>)
    ensures |slots| == TeamCount && forall k :: 0 <= k < TeamCount ==> slots[k] == ""
  {
    seq(TeamCount, _ => "")
  }

  // ---------------------------------------------------------------------------
  // The slot updates of find_teams, as functions

  /** Where the inner loop of find_teams stops when started at slot j: the first
      slot that holds `name` or is empty, or |slots| if there is none. */
  function StopFrom(slots: seq<Name>, name: Name, j: nat): (k: nat)
    requires j <= |slots|
    ensures j <= k <= |slots|
    ensures forall l :: j <= l < k ==> slots[l] != name && slots[l] != ""
    ensures k < |slots| ==> slots[k] == name || slots[k] == ""
    decreases |slots| - j
  {
    if j == |slots| || slots[j] == name || slots[j] == "" then j
    else StopFrom(slots, name, j + 1)
  }

  /** One run of the inner loop: the slots afterwards, and whether `name` was
      copied into a slot. A name equal to a slot met first is left alone;
      otherwise it goes into the first empty slot; with no empty slot nothing
      changes. */
  function Place(slots: seq<Name>, name: Name): (r: (seq<Name>, bool))
    ensures |r.0| == |slots|
    ensures !r.1 ==> r.0 == slots && (name in slots || "" !in slots)
    ensures r.1 ==> name != "" && "" in slots
  {
    var k := StopFrom(slots, name, 0);
    if k < |slots| && slots[k] != name then (slots[k := name], true) else (slots, false)
  }

  /** A name is copied exactly when it is non-empty and some empty slot comes
      before any slot equal to it; it then lands in the first empty slot, and
      no other slot changes. */
  lemma PlaceFillsFirstEmpty(slots: seq<Name>, name: Name)
    ensures Place(slots, name).1 <==>
      name != "" &&
      (exists k :: 0 <= k < |slots| && slots[k] == "" &&
         forall l :: 0 <= l < k ==> slots[l] != "" && slots[l] != name)
    ensures Place(slots, name).1 ==>
      exists k :: 0 <= k < |slots| && slots[k] == "" && Place(slots, name).0 == slots[k := name] &&
        forall l :: 0 <= l < k ==> slots[l] != "" && slots[l] != name
  {
    var k := StopFrom(slots, name, 0);
    if name != "" &&
       (exists k' :: 0 <= k' < |slots| && slots[k'] == "" &&
          forall l :: 0 <= l < k' ==> slots[l] != "" && slots[l] != name)
    {
      var k' :| 0 <= k' < |slots| && slots[k'] == "" &&
        forall l :: 0 <= l < k' ==> slots[l] != "" && slots[l] != name;
      assert k <= k';
    }
  }

  /** The body of the outer loop of find_teams for one record: place its first
      and then its second name, adding one to the count per name copied. */
  function Visit(slots: seq<Name>, m: Match, count: int): (r: (seq<Name>, int))
    ensures |r.0| == |slots|
    ensures count <= r.1 <= count + 2
  {
    var p1 := Place(slots, m.t1);
    var p2 := Place(p1.0, m.t2);
    (p2.0, count + (if p1.1 then 1 else 0) + (if p2.1 then 1 else 0))
  }

  /** The outer loop of find_teams over the scanned records, stopping after the
      record that brings the count to TeamCount. */
  function Discover(slots: seq<Name>, recs: seq<Match>, count: int): (r: (seq<Name>, int))
    ensures |r.0| == |slots|
    decreases |recs|
  {
    if recs == [] then (slots, count)
    else
      var v := Visit(slots, recs[0], count);
      if v.1 == TeamCount then v else Discover(v.0, recs[1..], v.1)
  }

  // ---------------------------------------------------------------------------
  // Reference definition: distinct names in order of first appearance

  /** `seen` extended by x, unless x is empty or already seen. */
  function Add(seen: seq<Name>, x: Name): seq<Name>
  {
    if x == "" || x in seen then seen else seen + [x]
  }

  /** `seen` extended by every name of xs, left to right. */
  function Seen(seen: seq<Name>, xs: seq<Name>): seq<Name>
    decreases |xs|
  {
    if xs == [] then seen else Seen(Add(seen, xs[0]), xs[1..])
  }

  /** The non-empty names of xs without repeats, in order of first appearance. */
  function FirstSeen(xs: seq<Name>): seq<Name>
  {
    Seen([], xs)
  }

  /** The first n elements of s (all of s if it is shorter). */
  function Take(s: seq<Name>, n: nat): (t: seq<Name>)
    ensures |t| <= n && |t| <= |s| && t == s[..|t|]
    ensures |s| <= n ==> t == s
  {
    if |s| <= n then s else s[..n]
  }

  /** d followed by empty slots up to TeamCount. */
  function Pad(d: seq<Name>): (slots: seq<Name>)
    requires |d| <= TeamCount
    ensures |slots| == TeamCount && slots[..|d|] == d
    ensures forall k :: |d| <= k < TeamCount ==> slots[k] == ""
  {
    d + seq(TeamCount - |d|, _ => "")
  }

  lemma AddKeepsDistinct(seen: seq<Name>, x: Name)
    requires Distinct(seen) && "" !in seen
    ensures Distinct(Add(seen, x)) && "" !in Add(seen, x)
  {
    if x != "" && x !in seen {
      var s := seen + [x];
      forall i, j | 0 <= i < j < |s| ensures s[i] != s[j] {
        if j == |seen| {
          assert s[i] == seen[i];
        }
      }
    }
  }

  /** The names seen so far stay at the front. */
  lemma {:induction false} SeenExtends(seen: seq<Name>, xs: seq<Name>)
    ensures |seen| <= |Seen(seen, xs)| && Seen(seen, xs)[..|seen|] == seen
    decreases |xs|
  {
    if xs != [] {
      var s1 := Add(seen, xs[0]);
      assert s1[..|seen|] == seen;
      SeenExtends(s1, xs[1..]);
      assert Seen(seen, xs)[..|s1|] == s1;
      assert Seen(seen, xs)[..|seen|] == s1[..|seen|];
    }
  }

  lemma {:induction false} SeenMembers(seen: seq<Name>, xs: seq<Name>, x: Name)
    ensures x in Seen(seen, xs) <==> x in seen || (x != "" && x in xs)
    decreases |xs|
  {
    if xs != [] {
      SeenMembers(Add(seen, xs[0]), xs[1..], x);
      assert xs == [xs[0]] + xs[1..];
    }
  }

  lemma {:induction false} SeenDistinct(seen: seq<Name>, xs: seq<Name>)
    requires Distinct(seen) && "" !in seen
    ensures Distinct(Seen(seen, xs)) && "" !in Seen(seen, xs)
    decreases |xs|
  {
    if xs != [] {
      AddKeepsDistinct(seen, xs[0]);
      SeenDistinct(Add(seen, xs[0]), xs[1..]);
    }
  }

  /** FirstSeen lists each non-empty name of xs exactly once, and nothing else. */
  lemma FirstSeenFacts(xs: seq<Name>)
    ensures Distinct(FirstSeen(xs)) && "" !in FirstSeen(xs)
    ensures forall x :: x in FirstSeen(xs) <==> x != "" && x in xs
  {
    SeenDistinct([], xs);
    forall x ensures x in FirstSeen(xs) <==> x != "" && x in xs {
      SeenMembers([], xs, x);
    }
  }

  // ---------------------------------------------------------------------------
  // Discovery from empty slots agrees with the reference definition

  /** On slots holding distinct names d followed by empty slots, placing x adds x
      after d exactly when x is a new non-empty name and a slot is still empty. */
  lemma PlacePadded(d: seq<Name>, x: Name)
    requires |d| <= TeamCount && Distinct(d) && "" !in d
    ensures var e := Take(Add(d, x), TeamCount);
      Place(Pad(d), x) == (Pad(e), |e| == |d| + 1)
  {
    var s := Pad(d);
    var k := StopFrom(s, x, 0);
    assert forall l :: 0 <= l < |d| ==> s[l] == d[l];
    if x == "" {
      if |d| < TeamCount {
        assert s[|d|] == "";
      }
    } else if x in d {
      var i :| 0 <= i < |d| && d[i] == x;
      assert s[i] == x;
      assert k <= i;
    } else if |d| < TeamCount {
      assert s[|d|] == "";
      assert k == |d|;
      assert s[k := x] == Pad(d + [x]);
    } else {
      assert k == |s|;
    }
  }

  /** From distinct names d padded with empty slots, Discover ends with the first
      TeamCount names of the first-seen extension of d, padded, and counts them. */
  lemma {:induction false} DiscoverPadded(d: seq<Name>, recs: seq<Match>)
    requires |d| < TeamCount && Distinct(d) && "" !in d
    ensures var f := Take(Seen(d, Appearances(recs)), TeamCount);
      Discover(Pad(d), recs, |d|) == (Pad(f), |f|)
    decreases |recs|
  {
    if recs != [] {
      var r, rest := recs[0], recs[1..];
      assert recs == [r] + rest;
      var d2 := Add(Add(d, r.t1), r.t2);
      DiscoverRecord(d, r, rest);
      SeenOfRecord(d, r, rest);
      SeenExtends(d2, Appearances(rest));
      if |d2| < TeamCount {
        DiscoverPadded(d2, rest);
      } else {
        var sn := Seen(d2, Appearances(rest));
        assert sn[..TeamCount] == d2[..|d2|][..TeamCount];
        assert Take(sn, TeamCount) == Take(d2, TeamCount) == d2[..TeamCount];
      }
    }
  }

  /** One record on padded slots: the slots then hold the reference extension
      of d by the record's two names, cut to TeamCount, and the count is its size. */
  lemma VisitPadded(d: seq<Name>, r: Match)
    requires |d| < TeamCount && Distinct(d) && "" !in d
    ensures var e := Take(Add(Add(d, r.t1), r.t2), TeamCount);
      Visit(Pad(d), r, |d|) == (Pad(e), |e|)
  {
    var d1 := Add(d, r.t1);
    AddKeepsDistinct(d, r.t1);
    PlacePadded(d, r.t1);
    assert Place(Pad(d), r.t1) == (Pad(d1), |d1| == |d| + 1);
    PlacePadded(d1, r.t2);
  }

  lemma DiscoverRecord(d: seq<Name>, r: Match, rest: seq<Match>)
    requires |d| < TeamCount && Distinct(d) && "" !in d
    ensures var d2 := Add(Add(d, r.t1), r.t2);
      Distinct(d2) && "" !in d2 &&
      Discover(Pad(d), [r] + rest, |d|) ==
        if |d2| < TeamCount then Discover(Pad(d2), rest, |d2|)
        else (Pad(Take(d2, TeamCount)), TeamCount)
  {
    AddKeepsDistinct(d, r.t1);
    AddKeepsDistinct(Add(d, r.t1), r.t2);
    VisitPadded(d, r);
    assert ([r] + rest)[0] == r && ([r] + rest)[1..] == rest;
  }

  /** The reference scan over one record's two names. */
  lemma SeenOfRecord(d: seq<Name>, r: Match, rest: seq<Match>)
    ensures Seen(d, Appearances([r] + rest)) == Seen(Add(Add(d, r.t1), r.t2), Appearances(rest))
  {
    var ns := Appearances(rest);
    assert ([r] + rest)[1..] == rest;
    assert Appearances([r] + rest) == [r.t1, r.t2] + ns;
    assert ([r.t1, r.t2] + ns)[1..] == [r.t2] + ns;
    assert ([r.t2] + ns)[1..] == ns;
  }

  /** Started from empty slots, discovery fills the slots with the distinct
      names of the records in first-appearance order, at most TeamCount of them. */
  lemma DiscoverFromEmpty(recs: seq<Match>)
    ensures var f := Take(FirstSeen(Appearances(recs)), TeamCount);
      Discover(EmptySlots(), recs, 0) == (Pad(f), |f|)
  {
    assert Pad([]) == EmptySlots();
    DiscoverPadded([], recs);
  }

  /** What find_teams leaves behind when the slots start empty: the count is at
      most TeamCount, and it is TeamCount unless fewer distinct names occur; the
      filled slots are the first names met, in the order they are met; all later
      slots stay empty. */
  lemma DiscoverOrder(recs: seq<Match>)
    ensures var r := Discover(EmptySlots(), recs, 0);
      var fs := FirstSeen(Appearances(recs));
      0 <= r.1 <= TeamCount && (r.1 == TeamCount || r.1 == |fs|) &&
      r.1 <= |fs| && r.0[..r.1] == fs[..r.1] &&
      (forall k :: r.1 <= k < TeamCount ==> r.0[k] == "")
  {
    DiscoverFromEmpty(recs);
  }

  /** The filled slots are non-empty and pairwise distinct. */
  lemma DiscoverDistinct(recs: seq<Match>)
    ensures var r := Discover(EmptySlots(), recs, 0);
      0 <= r.1 <= TeamCount && Distinct(r.0[..r.1]) && "" !in r.0[..r.1]
  {
    var fs := FirstSeen(Appearances(recs));
    DiscoverFromEmpty(recs);
    FirstSeenFacts(Appearances(recs));
    var f := Take(fs, TeamCount);
    assert Pad(f)[..|f|] == f == fs[..|f|];
  }

  /** Every filled slot names a team of some record. */
  lemma DiscoverProvenance(recs: seq<Match>)
    ensures var r := Discover(EmptySlots(), recs, 0);
      0 <= r.1 <= TeamCount &&
      forall k :: 0 <= k < r.1 ==>
        exists j :: 0 <= j < |recs| && (recs[j].t1 == r.0[k] || recs[j].t2 == r.0[k])
  {
    var fs := FirstSeen(Appearances(recs));
    DiscoverFromEmpty(recs);
    FirstSeenFacts(Appearances(recs));
    var r := Discover(EmptySlots(), recs, 0);
    forall k | 0 <= k < r.1
      ensures exists j :: 0 <= j < |recs| && (recs[j].t1 == r.0[k] || recs[j].t2 == r.0[k])
    {
      assert r.0[k] == fs[k] && fs[k] in fs;
      AppearanceSource(recs, r.0[k]);
    }
  }

  /** Once every slot holds a name, placing any further name changes nothing:
      a new team met after the slots are full is not added. */
  lemma PlaceWhenFull(slots: seq<Name>, name: Name)
    requires "" !in slots
    ensures Place(slots, name) == (slots, false)
  {
  }

  /** Discover on the records from i on, one record unfolded. */
  lemma DiscoverNext(slots: seq<Name>, recs: seq<Match>, i: nat, count: int)
    requires i < |recs|
    ensures var v := Visit(slots, recs[i], count);
      Discover(slots, recs[i..], count) ==
        if v.1 == TeamCount then v else Discover(v.0, recs[i + 1..], v.1)
  {
    assert recs[i..][0] == recs[i];
    assert recs[i..][1..] == recs[i + 1..];
  }

  // ---------------------------------------------------------------------------
  // find_team_index

  /** The least slot index holding `name`, or -1 when no slot does. */
  function IndexOf(teams: seq<Name>, name: Name): (r: int)
    ensures -1 <= r < |teams|
    ensures 0 <= r ==> teams[r] == name && name !in teams[..r]
    ensures r == -1 <==> name !in teams
  {
    if teams == [] then -1
    else if teams[0] == name then 0
    else
      var k := IndexOf(teams[1..], name);
      assert teams == [teams[0]] + teams[1..];
      assert k >= 0 ==> teams[..k + 1] == [teams[0]] + teams[1..][..k];
      if k < 0 then -1 else k + 1
  }

  /** Linear search over the slots (find_team_index). */
  method FindTeamIndex(teams: array<Name>, name: Name) returns (index: int)
    requires teams.Length == TeamCount
    ensures index == IndexOf(teams[..], name)
    ensures -1 <= index < TeamCount
    ensures 0 <= index ==> teams[index] == name && forall k :: 0 <= k < index ==> teams[k] != name
    ensures index == -1 ==> forall k :: 0 <= k < TeamCount ==> teams[k] != name
  {
    for i := 0 to TeamCount
      invariant forall k :: 0 <= k < i ==> teams[k] != name
    {
      if teams[i] == name {
        assert name !in teams[..i];
        return i;
      }
    }
    assert name !in teams[..];
    return -1;
  }

  // ---------------------------------------------------------------------------
  // find_teams

  /** One inner loop of find_teams: stop at the first slot equal to `name`, or
      copy `name` into the first empty slot met, whichever comes first. */
  method PlaceName(teams: array<Name>, name: Name) returns (added: bool)
    requires teams.Length == TeamCount
    modifies teams
    ensures (teams[..], added) == Place(old(teams[..]), name)
  {
    ghost var slots := teams[..];
    var j := 0;
    while j < TeamCount
      invariant 0 <= j <= TeamCount
      invariant teams[..] == slots
      invariant StopFrom(slots, name, 0) == StopFrom(slots, name, j)
    {
      if name == teams[j] {
        return false;
      } else if teams[j] == "" {
        teams[j] := name;
        return true;
      }
      j := j + 1;
    }
    return false;
  }

  /** The body of the outer loop of find_teams: the two inner loops, for the
      first and then the second name of one record. */
  method VisitMatch(teams: array<Name>, m: Match, count: int) returns (count': int)
    requires teams.Length == TeamCount
    modifies teams
    ensures (teams[..], count') == Visit(old(teams[..]), m, count)
  {
    var added := PlaceName(teams, m.t1);
    count' := count + if added then 1 else 0;
    added := PlaceName(teams, m.t2);
    count' := count' + if added then 1 else 0;
  }

  /** find_teams: scan the records up to the first empty first name (at most
      MaxMatchCount of them), filling the slots in place, and return how many
      names were copied. */
  method FindTeams(teams: array<Name>, matches: array<Match>) returns (count: int)
    requires teams.Length == TeamCount && matches.Length == MaxMatchCount
    modifies teams
    ensures (teams[..], count) == Discover(old(teams[..]), Scanned(matches[..]), 0)
  {
    ghost var recs := Scanned(matches[..]);
    count := 0;
    var i := 0;
    while i < MaxMatchCount && matches[i].t1 != ""
      invariant 0 <= i <= |recs|
      invariant Discover(teams[..], recs[i..], count) == Discover(old(teams[..]), recs, 0)
    {
      assert recs[i] == matches[i];
      DiscoverNext(teams[..], recs, i, count);
      count := VisitMatch(teams, matches[i], count);
      if count == TeamCount {
        break;
      }
      i := i + 1;
    }
  }
}
