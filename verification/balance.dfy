/**
 * Balance scoring of a 4-player group: the three ways to split it into two
 * teams of two, the power difference of each split, and the two accumulator
 * loops of the match-pool service that keep the first strict minimum
 * (`pickBestGroup` over groups, and the pairing choice of
 * `createBalancedMatch` inside one group).
 */
module Balance {
  import opened Common
  import opened Skill

  /** The gender filter values; a member's own gender is compared against them. */
  datatype GenderType = Male | Female | Mixed

  /** The fields of a member row that the selection reads. */
  datatype Profile = Profile(level: Option<Level>, gender: GenderType)

  /** A queue entry joined with its member row (None when the row is missing). */
  datatype Candidate = Candidate(entryId: Id, memberId: Id, member: Option<Profile>)

  /** One split of a group: the positions forming TEAM_A and those forming TEAM_B. */
  datatype Pairing = Pairing(teamA: seq<nat>, teamB: seq<nat>)

  /** The three splits, in the order `createBalancedMatch` tries them: 01|23, 02|13, 03|12. */
  const Pairings: seq<Pairing> := [Pairing([0, 1], [2, 3]), Pairing([0, 2], [1, 3]), Pairing([0, 3], [1, 2])]

  /** All positions are positions of a 4-player group. */
  predicate InGroup(idx: seq<nat>)
  {
    forall k :: 0 <= k < |idx| ==> idx[k] < 4
  }

  /** Two teams of two positions of a 4-player group, each position in exactly one of them. */
  predicate IsSplit(p: Pairing)
  {
    |p.teamA| == 2 && |p.teamB| == 2 && InGroup(p.teamA) && InGroup(p.teamB) &&
    forall k :: 0 <= k < 4 ==> (k in p.teamA <==> k !in p.teamB)
  }

  /** Every listed pairing is a split, and position 0 is always on TEAM_A. */
  lemma PairingIsSplit(t: nat)
    requires t < |Pairings|
    ensures IsSplit(Pairings[t]) && Pairings[t].teamA[0] == 0
  {
  }

  /** The power of a candidate: its member's level, CASUAL when the member or the level is missing. */
  function PowerOf(c: Candidate): (p: nat)
    ensures 50 <= p <= 90 && p % 10 == 0
    ensures c.member.None? ==> p == Power(Casual)
  {
    if c.member.None? then Power(Casual) else PowerOrCasual(c.member.value.level)
  }

  function Abs(x: int): (r: nat)
    ensures r == x || r == -x
  {
    if x < 0 then -x else x
  }

  /** The group members at the given positions (`teamAIdx.map(i => participants[i])` in `createBalancedMatch`). */
  function Team(g: seq<Candidate>, idx: seq<nat>): (r: seq<Candidate>)
    requires |g| == 4 && InGroup(idx)
    ensures |r| == |idx| && forall k :: 0 <= k < |idx| ==> r[k] == g[idx[k]]
  {
    seq(|idx|, k requires 0 <= k < |idx| => g[idx[k]])
  }

  /** The summed power of the members at the given positions (the `reduce` over a team in `createBalancedMatch`). */
  function TeamPower(g: seq<Candidate>, idx: seq<nat>): nat
    requires |g| == 4 && InGroup(idx)
  {
    if idx == [] then 0 else PowerOf(g[idx[0]]) + TeamPower(g, idx[1..])
  }

  /** A team's power lies between 50 and 90 per member and is a multiple of 10. */
  lemma {:induction false} TeamPowerRange(g: seq<Candidate>, idx: seq<nat>)
    requires |g| == 4 && InGroup(idx)
    ensures 50 * |idx| <= TeamPower(g, idx) <= 90 * |idx|
    ensures TeamPower(g, idx) % 10 == 0
  {
    if idx != [] {
      TeamPowerRange(g, idx[1..]);
      TensClosed(PowerOf(g[idx[0]]), TeamPower(g, idx[1..]));
    }
  }

  /** |powerA - powerB| for one split of a 4-player group. */
  function PairingDiff(g: seq<Candidate>, t: nat): (d: nat)
    requires |g| == 4 && t < |Pairings|
  {
    Abs(TeamPower(g, Pairings[t].teamA) - TeamPower(g, Pairings[t].teamB))
  }

  /** Every difference is a multiple of 10 and at most 80. */
  lemma {:induction false} PairingDiffTens(g: seq<Candidate>, t: nat)
    requires |g| == 4 && t < |Pairings|
    ensures PairingDiff(g, t) % 10 == 0 && PairingDiff(g, t) <= 80
  {
    var a, b := Pairings[t].teamA, Pairings[t].teamB;
    TeamPowerRange(g, a);
    TeamPowerRange(g, b);
    TensClosed(TeamPower(g, a), TeamPower(g, b));
  }

  /** Sums and distances of multiples of 10 are multiples of 10. */
  lemma TensClosed(x: int, y: int)
    requires x % 10 == 0 && y % 10 == 0
    ensures (x + y) % 10 == 0 && Abs(x - y) % 10 == 0
  {
    var a, b := x / 10, y / 10;
    assert x == 10 * a && y == 10 * b;
    assert x + y == 10 * (a + b);
    if x >= y {
      assert Abs(x - y) == 10 * (a - b);
    } else {
      assert Abs(x - y) == 10 * (b - a);
    }
  }

  /** The smallest difference among the first t splits of a group. */
  function MinOfFirst(g: seq<Candidate>, t: nat): (d: nat)
    requires |g| == 4 && 1 <= t <= |Pairings|
    ensures forall u :: 0 <= u < t ==> d <= PairingDiff(g, u)
    ensures d == PairingDiff(g, 0) || (t >= 2 && d == PairingDiff(g, 1)) || (t >= 3 && d == PairingDiff(g, 2))
  {
    if t == 1 then PairingDiff(g, 0)
    else
      var m := MinOfFirst(g, t - 1);
      if PairingDiff(g, t - 1) < m then PairingDiff(g, t - 1) else m
  }

  /** The best difference a group can reach: the minimum over its three splits. */
  function GroupDiff(g: seq<Candidate>): (d: nat)
    requires |g| == 4
  {
    MinOfFirst(g, |Pairings|)
  }

  /** Since differences are multiples of 10, "within the threshold 3" means "exactly balanced". */
  lemma {:induction false} WithinThresholdIsZero(g: seq<Candidate>)
    requires |g| == 4
    ensures GroupDiff(g) <= 3 <==> GroupDiff(g) == 0
    ensures GroupDiff(g) % 10 == 0
  {
    var t := FirstBestPairing(g);
    PairingDiffTens(g, t);
    var d := GroupDiff(g);
    assert d == 10 * (d / 10);
  }

  predicate AllFours(combos: seq<seq<Candidate>>)
  {
    forall i :: 0 <= i < |combos| ==> |combos[i]| == 4
  }

  /** The GroupDiff of every group, in order. */
  function Scores(combos: seq<seq<Candidate>>): (r: seq<nat>)
    requires AllFours(combos)
    ensures |r| == |combos|
    ensures forall i :: 0 <= i < |combos| ==> r[i] == GroupDiff(combos[i])
  {
    seq(|combos|, i requires 0 <= i < |combos| => GroupDiff(combos[i]))
  }

  /**
   * The position of the first smallest score: no score is smaller, and every
   * earlier score is strictly larger.
   */
  function FirstMin(s: seq<nat>): (w: nat)
    requires |s| > 0
    ensures w < |s|
    ensures forall i :: 0 <= i < |s| ==> s[w] <= s[i]
    ensures forall i :: 0 <= i < w ==> s[w] < s[i]
    decreases |s|
  {
    if |s| == 1 then 0
    else
      var v := FirstMin(s[..|s| - 1]);
      if s[|s| - 1] < s[v] then |s| - 1 else v
  }

  /** The first strict minimum is unique: any position with both properties is FirstMin. */
  lemma FirstMinUnique(s: seq<nat>, w: nat)
    requires |s| > 0 && w < |s|
    requires forall i :: 0 <= i < |s| ==> s[w] <= s[i]
    requires forall i :: 0 <= i < w ==> s[w] < s[i]
    ensures w == FirstMin(s)
  {
    var v := FirstMin(s);
    assert s[v] == s[w];
  }

  /** Extending the scanned prefix by one score moves the first minimum only on a strict improvement. */
  lemma FirstMinStep(s: seq<nat>, i: nat, w: nat)
    requires i < |s|
    requires i > 0 ==> w == FirstMin(s[..i])
    ensures i == 0 ==> FirstMin(s[..i + 1]) == 0
    ensures i > 0 ==> FirstMin(s[..i + 1]) == if s[i] < s[w] then i else w
  {
    assert s[..i + 1][..i] == s[..i];
  }

  /** The position of the group `pickBestGroup` settles on: the first with the smallest GroupDiff. */
  function FirstBest(combos: seq<seq<Candidate>>): (w: nat)
    requires |combos| > 0 && AllFours(combos)
    ensures w < |combos|
    ensures forall i :: 0 <= i < |combos| ==> GroupDiff(combos[w]) <= GroupDiff(combos[i])
    ensures forall i :: 0 <= i < w ==> GroupDiff(combos[w]) < GroupDiff(combos[i])
  {
    FirstMin(Scores(combos))
  }

  /**
   * One pass of the inner loop of `pickBestGroup` over the three splits of
   * `group`: the accumulators move to `group` exactly when one of its splits
   * beats the best difference so far (None stands for the initial Infinity).
   */
  method ImproveWith(group: seq<Candidate>, bestGroup: seq<Candidate>, bestDiff: Option<nat>)
    returns (newGroup: seq<Candidate>, newDiff: Option<nat>)
    requires |group| == 4
    ensures bestDiff.None? || GroupDiff(group) < bestDiff.value ==>
              newGroup == group && newDiff == Some(GroupDiff(group))
    ensures bestDiff.Some? && bestDiff.value <= GroupDiff(group) ==>
              newGroup == bestGroup && newDiff == bestDiff
  {
    newGroup, newDiff := bestGroup, bestDiff;
    var t := 0;
    while t < |Pairings|
      invariant 0 <= t <= |Pairings|
      invariant SplitsScanned(group, bestGroup, bestDiff, t, newGroup, newDiff)
    {
      var diff := PairingDiff(group, t);
      ghost var g0, d0 := newGroup, newDiff;
      if newDiff.None? || diff < newDiff.value {
        newDiff := Some(diff);
        newGroup := group;
      }
      SplitStep(group, bestGroup, bestDiff, t, g0, d0, newGroup, newDiff);
      t := t + 1;
    }
    SplitsDone(group, bestGroup, bestDiff, newGroup, newDiff);
  }

  /** After the first t splits of `group`: the accumulators moved to `group` exactly when its best so far beat `bestDiff`. */
  ghost predicate SplitsScanned(group: seq<Candidate>, bestGroup: seq<Candidate>, bestDiff: Option<nat>, t: nat,
                                newGroup: seq<Candidate>, newDiff: Option<nat>)
    requires |group| == 4 && t <= |Pairings|
  {
    (t == 0 ==> newGroup == bestGroup && newDiff == bestDiff) &&
    (t > 0 && (bestDiff.None? || MinOfFirst(group, t) < bestDiff.value) ==>
       newGroup == group && newDiff == Some(MinOfFirst(group, t))) &&
    (t > 0 && bestDiff.Some? && bestDiff.value <= MinOfFirst(group, t) ==>
       newGroup == bestGroup && newDiff == bestDiff)
  }

  /** After all three splits, the comparison was against the group's GroupDiff. */
  lemma SplitsDone(group: seq<Candidate>, bestGroup: seq<Candidate>, bestDiff: Option<nat>,
                   newGroup: seq<Candidate>, newDiff: Option<nat>)
    requires |group| == 4 && SplitsScanned(group, bestGroup, bestDiff, |Pairings|, newGroup, newDiff)
    ensures bestDiff.None? || GroupDiff(group) < bestDiff.value ==>
              newGroup == group && newDiff == Some(GroupDiff(group))
    ensures bestDiff.Some? && bestDiff.value <= GroupDiff(group) ==>
              newGroup == bestGroup && newDiff == bestDiff
  {
  }

  /** One split of the inner loop of `pickBestGroup`. */
  lemma SplitStep(group: seq<Candidate>, bestGroup: seq<Candidate>, bestDiff: Option<nat>, t: nat,
                  g0: seq<Candidate>, d0: Option<nat>, g1: seq<Candidate>, d1: Option<nat>)
    requires |group| == 4 && t < |Pairings|
    requires SplitsScanned(group, bestGroup, bestDiff, t, g0, d0)
    requires d0.None? || PairingDiff(group, t) < d0.value ==> g1 == group && d1 == Some(PairingDiff(group, t))
    requires d0.Some? && d0.value <= PairingDiff(group, t) ==> g1 == g0 && d1 == d0
    ensures SplitsScanned(group, bestGroup, bestDiff, t + 1, g1, d1)
  {
  }

  /**
   * `pickBestGroup`: scans the groups and their splits with a strict `<`, so
   * it returns the first group reaching the overall minimum difference, and
   * that difference; an empty list gives an empty group and no difference.
   */
  method PickBestGroup(combos: seq<seq<Candidate>>) returns (bestGroup: seq<Candidate>, bestDiff: Option<nat>)
    requires AllFours(combos)
    ensures combos == [] ==> bestGroup == [] && bestDiff == None
    ensures combos != [] ==>
              bestGroup == combos[FirstBest(combos)] && bestDiff == Some(GroupDiff(combos[FirstBest(combos)]))
  {
    ghost var scores := Scores(combos);
    bestGroup, bestDiff := [], None;
    var i := 0;
    while i < |combos|
      invariant 0 <= i <= |combos|
      invariant Scanned(combos, scores, i, bestGroup, bestDiff)
    {
      var g, d := ImproveWith(combos[i], bestGroup, bestDiff);
      ScanStep(combos, scores, i, bestGroup, bestDiff, g, d);
      bestGroup, bestDiff := g, d;
      i := i + 1;
    }
    ScanDone(combos, scores, bestGroup, bestDiff);
  }

  /** After scanning the first i groups: nothing yet, or the first of them with the smallest score. */
  ghost predicate Scanned(combos: seq<seq<Candidate>>, scores: seq<nat>, i: nat, bestGroup: seq<Candidate>, bestDiff: Option<nat>)
    requires i <= |scores| == |combos|
  {
    (i == 0 ==> bestGroup == [] && bestDiff == None) &&
    (i > 0 ==> bestGroup == combos[FirstMin(scores[..i])] && bestDiff == Some(scores[FirstMin(scores[..i])]))
  }

  /** A finished scan has found the first group with the smallest GroupDiff. */
  lemma ScanDone(combos: seq<seq<Candidate>>, scores: seq<nat>, g: seq<Candidate>, d: Option<nat>)
    requires AllFours(combos) && scores == Scores(combos)
    requires Scanned(combos, scores, |combos|, g, d)
    ensures combos == [] ==> g == [] && d == None
    ensures combos != [] ==> g == combos[FirstBest(combos)] && d == Some(GroupDiff(combos[FirstBest(combos)]))
  {
    assert scores[..|combos|] == scores;
  }

  /** One step of the scan of `pickBestGroup`, given what ImproveWith did with group i. */
  lemma ScanStep(combos: seq<seq<Candidate>>, scores: seq<nat>, i: nat, g0: seq<Candidate>, d0: Option<nat>,
                 g1: seq<Candidate>, d1: Option<nat>)
    requires AllFours(combos) && scores == Scores(combos) && i < |combos|
    requires Scanned(combos, scores, i, g0, d0)
    requires d0.None? || GroupDiff(combos[i]) < d0.value ==> g1 == combos[i] && d1 == Some(GroupDiff(combos[i]))
    requires d0.Some? && d0.value <= GroupDiff(combos[i]) ==> g1 == g0 && d1 == d0
    ensures Scanned(combos, scores, i + 1, g1, d1)
  {
    if i == 0 {
      FirstMinStep(scores, 0, 0);
    } else {
      FirstMinStep(scores, i, FirstMin(scores[..i]));
    }
  }

  /** The position of the first split reaching GroupDiff. */
  function FirstBestPairing(g: seq<Candidate>): (t: nat)
    requires |g| == 4
    ensures t < |Pairings| && PairingDiff(g, t) == GroupDiff(g)
    ensures forall u :: 0 <= u < t ==> GroupDiff(g) < PairingDiff(g, u)
    ensures InGroup(Pairings[t].teamA) && InGroup(Pairings[t].teamB)
  {
    var t := if PairingDiff(g, 0) == GroupDiff(g) then 0
             else if PairingDiff(g, 1) == GroupDiff(g) then 1
             else 2;
    PairingIsSplit(t);
    t
  }

  /**
   * The pairing loop of `createBalancedMatch`: the first split (in the order
   * 01|23, 02|13, 03|12) with the smallest difference, and that difference,
   * which is the group's GroupDiff, the figure `pickBestGroup` ranked it by.
   */
  method BestPairing(participants: seq<Candidate>) returns (teams: Pairing, diff: nat)
    requires |participants| == 4
    ensures teams == Pairings[FirstBestPairing(participants)]
    ensures diff == GroupDiff(participants)
  {
    var bestDiff: Option<nat> := None;
    var best := 0;
    var t := 0;
    while t < |Pairings|
      invariant 0 <= t <= |Pairings| && best < |Pairings|
      invariant bestDiff.None? <==> t == 0
      invariant bestDiff.Some? ==> best < t && bestDiff.value == PairingDiff(participants, best)
      invariant bestDiff.Some? ==> forall u :: 0 <= u < t ==> PairingDiff(participants, best) <= PairingDiff(participants, u)
      invariant bestDiff.Some? ==> forall u :: 0 <= u < best ==> PairingDiff(participants, best) < PairingDiff(participants, u)
    {
      var d := PairingDiff(participants, t);
      if bestDiff.None? || d < bestDiff.value {
        bestDiff := Some(d);
        best := t;
      }
      t := t + 1;
    }
    teams := Pairings[best];
    diff := bestDiff.value;
  }

  /** CASUAL, BEGINNER, INTERMEDIATE, ADVANCED splits as {0,3} against {1,2}, perfectly balanced. */
  lemma LadderExample(e: seq<Id>)
    requires |e| == 4
    ensures var g := [Candidate(e[0], e[0], Some(Profile(Some(Casual), Mixed))),
                      Candidate(e[1], e[1], Some(Profile(Some(Beginner), Mixed))),
                      Candidate(e[2], e[2], Some(Profile(Some(Intermediate), Mixed))),
                      Candidate(e[3], e[3], Some(Profile(Some(Advanced), Mixed)))];
            FirstBestPairing(g) == 2 && Pairings[2] == Pairing([0, 3], [1, 2]) && GroupDiff(g) == 0
  {
    var g := [Candidate(e[0], e[0], Some(Profile(Some(Casual), Mixed))),
              Candidate(e[1], e[1], Some(Profile(Some(Beginner), Mixed))),
              Candidate(e[2], e[2], Some(Profile(Some(Intermediate), Mixed))),
              Candidate(e[3], e[3], Some(Profile(Some(Advanced), Mixed)))];
    assert [0, 1][1..] == [1] && [2, 3][1..] == [3] && [0, 2][1..] == [2];
    assert [1, 3][1..] == [3] && [0, 3][1..] == [3] && [1, 2][1..] == [2];
    assert [1][1..] == [] && [2][1..] == [] && [3][1..] == [];
    assert PowerOf(g[0]) == 50 && PowerOf(g[1]) == 60 && PowerOf(g[2]) == 80 && PowerOf(g[3]) == 90;
    assert TeamPower(g, [1]) == 60;
    assert TeamPower(g, [2]) == 80;
    assert TeamPower(g, [3]) == 90;
    assert TeamPower(g, [0, 1]) == 110 && TeamPower(g, [2, 3]) == 170;
    assert TeamPower(g, [0, 2]) == 130 && TeamPower(g, [1, 3]) == 150;
    assert TeamPower(g, [0, 3]) == 140 && TeamPower(g, [1, 2]) == 140;
    assert PairingDiff(g, 0) == 60 && PairingDiff(g, 1) == 20 && PairingDiff(g, 2) == 0;
  }
}
