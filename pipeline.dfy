/** How team discovery and rank-matrix construction fit together in the
    pipeline: the slots find_teams fills from empty slots are exactly the ones
    build_rank_matrix resolves names against. */
module Pipeline {
  import opened Matches
  import opened Teams
  import opened RankMatrix

  /** The slots find_teams leaves when it fills all four from empty slots: the
      first four distinct names met. */
  lemma FullSlots(recs: seq<Match>)
    requires Discover(EmptySlots(), recs, 0).1 == TeamCount
    ensures |FirstSeen(Appearances(recs))| >= TeamCount
    ensures Discover(EmptySlots(), recs, 0).0 == FirstSeen(Appearances(recs))[..TeamCount]
  {
    DiscoverFromEmpty(recs);
  }

  /** Against the first four distinct names, the records resolve when no name
      is empty and there is no fifth name. */
  lemma FourNamesResolve(recs: seq<Match>)
    requires |FirstSeen(Appearances(recs))| == TeamCount && "" !in Appearances(recs)
    ensures forall k :: 0 <= k < |recs| ==> Resolved(FirstSeen(Appearances(recs)), recs[k])
  {
    var ns := Appearances(recs);
    var fs := FirstSeen(ns);
    FirstSeenFacts(ns);
    forall k | 0 <= k < |recs| ensures Resolved(fs, recs[k]) {
      assert recs[k].t1 == ns[2 * k] && recs[k].t2 == ns[2 * k + 1];
      assert recs[k].t1 in fs && recs[k].t2 in fs;
    }
  }

  /** If every record resolves against slots that are all filled, no name is
      empty. */
  lemma ResolvedMeansNoEmptyName(recs: seq<Match>, slots: seq<Name>)
    requires "" !in slots
    requires forall k :: 0 <= k < |recs| ==> Resolved(slots, recs[k])
    ensures "" !in Appearances(recs)
  {
    var ns := Appearances(recs);
    forall i | 0 <= i < |ns| ensures ns[i] != "" {
      AppearanceSource(recs, ns[i]);
      var j :| 0 <= j < |recs| && (recs[j].t1 == ns[i] || recs[j].t2 == ns[i]);
      assert IndexOf(slots, ns[i]) >= 0;
    }
  }

  /** If every record resolves against the first four distinct names, there is
      no fifth name. */
  lemma ResolvedMeansFourNames(recs: seq<Match>)
    requires |FirstSeen(Appearances(recs))| >= TeamCount
    requires forall k :: 0 <= k < |recs| ==>
      Resolved(FirstSeen(Appearances(recs))[..TeamCount], recs[k])
    ensures |FirstSeen(Appearances(recs))| == TeamCount
  {
    var fs := FirstSeen(Appearances(recs));
    FirstSeenFacts(Appearances(recs));
    var head := fs[..TeamCount];
    forall y | y in fs ensures y in head {
      AppearanceSource(recs, y);
      var j :| 0 <= j < |recs| && (recs[j].t1 == y || recs[j].t2 == y);
      assert IndexOf(head, y) >= 0;
    }
    var inFs, inHead := set y | y in fs, set y | y in head;
    assert inHead == inFs + (inHead - inFs) && inFs * (inHead - inFs) == {};
    DistinctCard(fs);
    CardAtMostLength(head);
  }

  /** A sequence without repeats has as many distinct elements as entries. */
  lemma {:induction false} DistinctCard(s: seq<Name>)
    requires Distinct(s)
    ensures |set y | y in s| == |s|
  {
    if s != [] {
      var t, z := s[..|s| - 1], s[|s| - 1];
      assert s == t + [z];
      assert (set y | y in s) == (set y | y in t) + {z};
      assert z !in t;
      DistinctCard(t);
    }
  }

  /** A sequence has at most as many distinct elements as entries. */
  lemma {:induction false} CardAtMostLength(s: seq<Name>)
    ensures |set y | y in s| <= |s|
  {
    if s != [] {
      var t, z := s[..|s| - 1], s[|s| - 1];
      assert s == t + [z];
      assert (set y | y in s) == (set y | y in t) + {z};
      CardAtMostLength(t);
    }
  }

  /** Once find_teams has filled all four slots from empty ones,
      build_rank_matrix succeeds exactly when the scanned records name exactly
      four distinct teams and no second name is empty; a fifth team, met after
      the slots were full, makes it fail. */
  lemma BuildSucceedsIffFourTeams(ms: seq<Match>)
    requires |ms| == MaxMatchCount
    requires Discover(EmptySlots(), Scanned(ms), 0).1 == TeamCount
    ensures var recs := Scanned(ms);
      (forall k :: 0 <= k < |recs| ==> Resolved(Discover(EmptySlots(), recs, 0).0, recs[k])) <==>
      (|FirstSeen(Appearances(recs))| == TeamCount && "" !in Appearances(recs))
  {
    var recs := Scanned(ms);
    var fs := FirstSeen(Appearances(recs));
    FullSlots(recs);
    FirstSeenFacts(Appearances(recs));
    var slots := fs[..TeamCount];
    assert "" !in slots;
    if forall k :: 0 <= k < |recs| ==> Resolved(slots, recs[k]) {
      ResolvedMeansNoEmptyName(recs, slots);
      ResolvedMeansFourNames(recs);
    }
    if |fs| == TeamCount && "" !in Appearances(recs) {
      FourNamesResolve(recs);
      assert slots == fs;
    }
  }
}
