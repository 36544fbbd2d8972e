/**
 * The selection half of `generateMatchPool`: from the session's queue (in
 * join order) to the 4 entries of the next match, or the reason there is
 * none. Nothing here touches the store; `MatchPoolService.GenerateMatchPool`
 * reads the queue and the played keys and writes the pool.
 */
module Selection {
  import opened Common
  import opened Balance
  import opened Combinations
  import opened PlayedKey
  import opened Rows

  /** At most this many queue entries are considered. */
  const MaxScope: nat := 8

  /** A group not played before is taken only when its difference does not exceed this. */
  const BalanceThreshold: nat := 3

  predicate HasGender(c: Candidate, genderType: GenderType)
  {
    c.member.Some? && c.member.value.gender == genderType
  }

  /**
   * The gender filter: MALE or FEMALE keeps exactly the entries whose member
   * has that gender, in queue order; MIXED (the default) keeps every entry.
   */
  function GenderFilter(entries: seq<Candidate>, genderType: GenderType): (r: seq<Candidate>)
    ensures |r| <= |entries|
    ensures genderType == Mixed ==> r == entries
    ensures genderType != Mixed ==> forall c :: c in r <==> c in entries && HasGender(c, genderType)
  {
    if genderType == Mixed then entries
    else Filter(entries, c => HasGender(c, genderType))
  }

  /** Candidates are ordered by the id of their queue entry (the queue's join order). */
  function CandidateId(c: Candidate): Id
  {
    c.entryId
  }

  /** The gender filter keeps the queue order. */
  lemma GenderFilterKeepsOrder(entries: seq<Candidate>, genderType: GenderType)
    requires IncreasingIds(entries, CandidateId)
    ensures IncreasingIds(GenderFilter(entries, genderType), CandidateId)
  {
    if genderType != Mixed {
      FilterKeepsOrder(entries, c => HasGender(c, genderType), CandidateId);
    }
  }

  /** The first min(8, n) candidates. */
  function Scope(participants: seq<Candidate>): (r: seq<Candidate>)
    ensures |r| == if |participants| < MaxScope then |participants| else MaxScope
    ensures r == participants[..|r|]
  {
    participants[..if |participants| < MaxScope then |participants| else MaxScope]
  }

  /** Every candidate has a member row (the key reads `member.id` without a null check). */
  predicate AllHaveMembers(scope: seq<Candidate>)
  {
    forall k :: 0 <= k < |scope| ==> scope[k].member.Some?
  }

  function MemberIds(group: seq<Candidate>): (r: seq<Id>)
    ensures |r| == |group| && forall k :: 0 <= k < |group| ==> r[k] == group[k].memberId
  {
    seq(|group|, k requires 0 <= k < |group| => group[k].memberId)
  }

  /** Whether a group's key (its sorted member ids) is among the keys of the session's earlier matches. */
  predicate Played(group: seq<Candidate>, played: set<seq<Id>>)
  {
    Key(MemberIds(group)) in played
  }

  /** The test `newCombos` filters with. */
  function Unplayed(played: set<seq<Id>>): seq<Candidate> -> bool
  {
    g => !Played(g, played)
  }

  /** `newCombos`: the groups not played before, in their enumeration order. */
  function Fresh(combos: seq<seq<Candidate>>, played: set<seq<Id>>): (r: seq<seq<Candidate>>)
    ensures |r| <= |combos|
    ensures forall g :: g in r <==> g in combos && !Played(g, played)
  {
    Filter(combos, Unplayed(played))
  }

  lemma AllFoursOfMembers(all: seq<seq<Candidate>>, sub: seq<seq<Candidate>>)
    requires AllFours(all)
    requires forall g :: g in sub ==> g in all
    ensures AllFours(sub)
  {
    forall i | 0 <= i < |sub| ensures |sub[i]| == 4 {
      assert sub[i] in all;
    }
  }

  /** The first best group is no worse than any group of the list. */
  lemma FirstBestIsMinimum(combos: seq<seq<Candidate>>)
    requires |combos| > 0 && AllFours(combos)
    ensures combos[FirstBest(combos)] in combos
    ensures forall h :: h in combos ==> GroupDiff(combos[FirstBest(combos)]) <= GroupDiff(h)
  {
    forall h | h in combos ensures GroupDiff(combos[FirstBest(combos)]) <= GroupDiff(h) {
      var i :| 0 <= i < |combos| && combos[i] == h;
    }
  }

  /**
   * Where the first best group not played before sits among all groups: at
   * a position p of a group not played before, no such group is better
   * balanced, and every such group before p is strictly worse. So the fresh
   * choice is the earliest best fresh group in enumeration order.
   */
  function FreshPick(all: seq<seq<Candidate>>, played: set<seq<Id>>): (p: nat)
    requires AllFours(all) && Fresh(all, played) != []
    ensures AllFours(Fresh(all, played))
    ensures p < |all| && !Played(all[p], played)
    ensures all[p] == Fresh(all, played)[FirstBest(Fresh(all, played))]
    ensures forall i :: 0 <= i < |all| && !Played(all[i], played) ==> GroupDiff(all[p]) <= GroupDiff(all[i])
    ensures forall i :: 0 <= i < p && !Played(all[i], played) ==> GroupDiff(all[p]) < GroupDiff(all[i])
  {
    FreshPickIsEarliest(all, played);
    KeptPositions(all, Unplayed(played))[FirstBest(Fresh(all, played))]
  }

  lemma FreshPickIsEarliest(all: seq<seq<Candidate>>, played: set<seq<Id>>)
    requires AllFours(all) && Fresh(all, played) != []
    ensures AllFours(Fresh(all, played))
    ensures |KeptPositions(all, Unplayed(played))| == |Fresh(all, played)|
    ensures FreshPickAt(all, played, KeptPositions(all, Unplayed(played))[FirstBest(Fresh(all, played))])
  {
    var unplayed := Fresh(all, played);
    AllFoursOfMembers(all, unplayed);
    FilterPicksKeptPositions(all, Unplayed(played));
    var positions := KeptPositions(all, Unplayed(played));
    var w := FirstBest(unplayed);
    var p := positions[w];
    forall i | 0 <= i < |all| && !Played(all[i], played) ensures GroupDiff(all[p]) <= GroupDiff(all[i]) {
      var k := KeptIndex(all, Unplayed(played), i);
    }
    forall i | 0 <= i < p && !Played(all[i], played) ensures GroupDiff(all[p]) < GroupDiff(all[i]) {
      var k := KeptIndex(all, Unplayed(played), i);
    }
  }

  /** What FreshPick promises of position p. */
  ghost predicate FreshPickAt(all: seq<seq<Candidate>>, played: set<seq<Id>>, p: nat)
    requires AllFours(all) && Fresh(all, played) != [] && AllFours(Fresh(all, played))
  {
    && p < |all| && !Played(all[p], played)
    && all[p] == Fresh(all, played)[FirstBest(Fresh(all, played))]
    && (forall i :: 0 <= i < |all| && !Played(all[i], played) ==> GroupDiff(all[p]) <= GroupDiff(all[i]))
    && (forall i :: 0 <= i < p && !Played(all[i], played) ==> GroupDiff(all[p]) < GroupDiff(all[i]))
  }

  /**
   * The fresh-first policy on the enumerated groups: the first best group
   * not played before when its difference is within the threshold, else the
   * first best of all groups; no group at all gives the empty group.
   */
  function Preferred(all: seq<seq<Candidate>>, played: set<seq<Id>>): (r: seq<Candidate>)
    requires AllFours(all)
    ensures all == [] <==> r == []
    ensures all != [] ==> r in all && |r| == 4
  {
    var unplayed := Fresh(all, played);
    AllFoursOfMembers(all, unplayed);
    if unplayed != [] && GroupDiff(unplayed[FirstBest(unplayed)]) <= BalanceThreshold then unplayed[FirstBest(unplayed)]
    else if all != [] then all[FirstBest(all)]
    else []
  }

  /** Steps 6.1 to 8 of `generateMatchPool`: split off the fresh groups, pick, and fall back. */
  method PickWithPolicy(allCombos: seq<seq<Candidate>>, played: set<seq<Id>>) returns (bestGroup: seq<Candidate>)
    requires AllFours(allCombos)
    ensures bestGroup == Preferred(allCombos, played)
  {
    var newCombos := Fresh(allCombos, played);
    AllFoursOfMembers(allCombos, newCombos);
    var bestDiff;
    bestGroup, bestDiff := PickBestGroup(newCombos);
    if |bestGroup| == 0 || (bestDiff.Some? && bestDiff.value > BalanceThreshold) {
      bestGroup, bestDiff := PickBestGroup(allCombos);
    }
  }

  /**
   * What `generateMatchPool` selects, stated on its reference definitions:
   * the length guards, the member-row dereference, then the fresh-first
   * policy over all groups of the scope.
   */
  function Selected(queue: seq<Candidate>, genderType: GenderType, played: set<seq<Id>>): (r: Result<seq<Candidate>>)
  {
    if |queue| < 4 then Err(NotEnoughPlayers)
    else
      var participants := GenderFilter(queue, genderType);
      if |participants| < 4 then Err(NotEnoughPlayersForMatch)
      else
        var scope := Scope(participants);
        if !AllHaveMembers(scope) then Err(MissingMemberRow)
        else
          QuadrupleCount(scope);
          var best := Preferred(Choose(scope, 4), played);
          if best == [] then Err(CouldNotFormMatch) else Ok(best)
  }

  /** Steps 3 to 8 of `generateMatchPool`: filter, truncate, enumerate and choose. */
  method SelectGroup(queue: seq<Candidate>, genderType: GenderType, played: set<seq<Id>>)
    returns (r: Result<seq<Candidate>>)
    ensures r == Selected(queue, genderType, played)
  {
    if |queue| < 4 {
      return Err(NotEnoughPlayers);
    }
    var participants := GenderFilter(queue, genderType);
    if |participants| < 4 {
      return Err(NotEnoughPlayersForMatch);
    }
    var scope := Scope(participants);
    var allCombos := AllQuadruples(scope);
    if !AllHaveMembers(scope) {
      return Err(MissingMemberRow);
    }
    QuadrupleCount(scope);
    var bestGroup := PickWithPolicy(allCombos, played);
    if |bestGroup| == 0 {
      return Err(CouldNotFormMatch);
    }
    return Ok(bestGroup);
  }

  /**
   * The selection fails exactly when the queue is short, the gender filter
   * leaves fewer than 4, or an entry in scope has no member row; "could not
   * form any match" is never the reason.
   */
  lemma SelectedFailsOnlyOnGuards(queue: seq<Candidate>, genderType: GenderType, played: set<seq<Id>>)
    ensures Selected(queue, genderType, played).Err? <==>
              |queue| < 4 || |GenderFilter(queue, genderType)| < 4 ||
              !AllHaveMembers(Scope(GenderFilter(queue, genderType)))
    ensures Selected(queue, genderType, played) != Err(CouldNotFormMatch)
  {
    if |queue| >= 4 && |GenderFilter(queue, genderType)| >= 4 {
      ScopeQuadrupleBounds(Scope(GenderFilter(queue, genderType)));
    }
  }

  /**
   * The policy never picks a group worse than another group of the list: a
   * fresh group is taken only when its difference is within the threshold,
   * hence 0, and otherwise the best of all groups is taken.
   */
  lemma {:induction false} PreferredIsBalanced(all: seq<seq<Candidate>>, played: set<seq<Id>>)
    requires AllFours(all) && all != []
    ensures Preferred(all, played) in all
    ensures forall h :: h in all ==> GroupDiff(Preferred(all, played)) <= GroupDiff(h)
  {
    var unplayed := Fresh(all, played);
    AllFoursOfMembers(all, unplayed);
    var g := Preferred(all, played);
    if unplayed != [] && GroupDiff(unplayed[FirstBest(unplayed)]) <= BalanceThreshold {
      WithinThresholdIsZero(g);
      assert g in unplayed;
    } else {
      FirstBestIsMinimum(all);
    }
  }

  /**
   * Fresh first: when some group not played before is within the threshold,
   * the chosen group is one not played before.
   */
  lemma {:induction false} PreferredPrefersFresh(all: seq<seq<Candidate>>, played: set<seq<Id>>, h: seq<Candidate>)
    requires AllFours(all)
    requires h in all && !Played(h, played) && |h| == 4 && GroupDiff(h) <= BalanceThreshold
    ensures Preferred(all, played) in all && !Played(Preferred(all, played), played)
  {
    var unplayed := Fresh(all, played);
    AllFoursOfMembers(all, unplayed);
    assert h in unplayed;
    FirstBestIsMinimum(unplayed);
    assert Preferred(all, played) in unplayed;
  }

  /**
   * When the fresh choice stands (the first best group not played before is
   * within the threshold), the policy takes the group at FreshPick: the
   * earliest best-balanced group not played before, in enumeration order.
   */
  lemma {:induction false} PreferredTakesFreshPick(all: seq<seq<Candidate>>, played: set<seq<Id>>)
    requires AllFours(all) && Fresh(all, played) != []
    requires AllFours(Fresh(all, played)) && GroupDiff(Fresh(all, played)[FirstBest(Fresh(all, played))]) <= BalanceThreshold
    ensures Preferred(all, played) == all[FreshPick(all, played)]
    ensures !Played(Preferred(all, played), played)
  {
    var p := FreshPick(all, played);
  }

  /**
   * Fall back: when no group not played before is within the threshold
   * (in particular when every group was played), the choice is the first
   * best group among all groups.
   */
  lemma {:induction false} PreferredFallsBack(all: seq<seq<Candidate>>, played: set<seq<Id>>)
    requires AllFours(all) && all != []
    requires forall h :: h in all && !Played(h, played) ==> |h| == 4 && GroupDiff(h) > BalanceThreshold
    ensures Preferred(all, played) == all[FirstBest(all)]
  {
    var unplayed := Fresh(all, played);
    AllFoursOfMembers(all, unplayed);
    if unplayed != [] {
      assert unplayed[FirstBest(unplayed)] in unplayed;
    }
  }

  /**
   * End to end: a successful selection is one of the C(n, 4) groups of the
   * scope (n = min(8, candidates)) and no group of the scope is better balanced.
   */
  lemma SelectedIsBalanced(queue: seq<Candidate>, genderType: GenderType, played: set<seq<Id>>)
    requires Selected(queue, genderType, played).Ok?
    ensures var scope := Scope(GenderFilter(queue, genderType));
            var g := Selected(queue, genderType, played).value;
            4 <= |scope| <= 8 && g in Choose(scope, 4) &&
            forall h :: h in Choose(scope, 4) ==> |h| == 4 && GroupDiff(g) <= GroupDiff(h)
  {
    var scope := Scope(GenderFilter(queue, genderType));
    QuadrupleCount(scope);
    ScopeQuadrupleBounds(scope);
    PreferredIsBalanced(Choose(scope, 4), played);
  }

  /**
   * A selected group is 4 distinct candidates of the queue, listed in queue
   * order: a group taken from an ordered queue never holds one entry twice.
   */
  lemma SelectedFromQueue(queue: seq<Candidate>, genderType: GenderType, played: set<seq<Id>>)
    requires IncreasingIds(queue, CandidateId)
    requires Selected(queue, genderType, played).Ok?
    ensures var g := Selected(queue, genderType, played).value;
            |g| == 4 && IncreasingIds(g, CandidateId) && forall c :: c in g ==> c in queue
  {
    var participants := GenderFilter(queue, genderType);
    var scope := Scope(participants);
    GenderFilterKeepsOrder(queue, genderType);
    ChooseKeepsOrder(scope, CandidateId, 4);
    QuadrupleCount(scope);
    ScopeQuadrupleBounds(scope);
    var g := Selected(queue, genderType, played).value;
    assert g in Choose(scope, 4);
    ScopeFromQueue(queue, genderType);
  }

  /** The scope holds only candidates of the queue. */
  lemma ScopeFromQueue(queue: seq<Candidate>, genderType: GenderType)
    ensures forall c :: c in Scope(GenderFilter(queue, genderType)) ==> c in queue
  {
    var participants := GenderFilter(queue, genderType);
    var scope := Scope(participants);
    forall c | c in scope ensures c in queue {
      var k :| 0 <= k < |scope| && scope[k] == c;
      assert participants[k] == c;
    }
  }
}
