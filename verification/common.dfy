/**
 * Shared vocabulary of the club-session services: abstract row ids, the
 * optional value, and the typed failure every service reports instead of
 * throwing an `ApiError`.
 */
module Common {

  /** Every row id of the store (the original uses string ids). */
  type Id = nat

  datatype Option<+T> = None | Some(value: T)

  /** The reasons the services reject a request, one per thrown message. */
  datatype Error =
    | MatchPoolNotFound
    | QueueParticipantNotFound  // "SessionQueueParticipant not found"
    | ParticipantNotFound       // "Participant not found"
    | AlreadyInMatchPool
    | SessionQueueNotFound
    | PoolParticipantNotFound
    | SessionNotFound
    | NotEnoughPlayers          // fewer than 4 queue entries
    | NotEnoughPlayersForMatch  // fewer than 4 entries after the gender filter
    | MissingMemberRow          // a candidate without a member row reaches the key
    | CouldNotFormMatch
    | NotEnoughPoolParticipants
    | SessionCourtNotFound
    | CourtSessionMismatch
    | ClubIdRequired
    | TimesRequired
    | EndNotAfterStart
    | StartInPast
    | SessionOverlaps
    | SessionAlreadyEnded
    | NoActiveSession
    | ClubNotFound
    | ClubAtFullCapacity
    | MemberNotFound
    | PlanNotFound
    | SubscriptionNotFound

  datatype Result<+T> = Ok(value: T) | Err(error: Error)

  /** The sequence with every element failing `keep` dropped, in order. */
  function Filter<T>(s: seq<T>, keep: T -> bool): (r: seq<T>)
    ensures |r| <= |s|
    ensures forall x :: x in r ==> x in s && keep(x)
    ensures forall x :: x in s && keep(x) ==> x in r
  {
    if s == [] then []
    else if keep(s[0]) then [s[0]] + Filter(s[1..], keep)
    else Filter(s[1..], keep)
  }

  /** Filtering a list extended by one element extends the filtered list by that element when it is kept. */
  lemma {:induction false} FilterAppendOne<T>(s: seq<T>, x: T, keep: T -> bool)
    ensures Filter(s + [x], keep) == Filter(s, keep) + (if keep(x) then [x] else [])
  {
    if s != [] {
      assert (s + [x])[1..] == s[1..] + [x];
      FilterAppendOne(s[1..], x, keep);
    } else {
      assert Filter([x][1..], keep) == [];
    }
  }

  /** The positions of `s` whose element passes `keep`, in increasing order. */
  function KeptPositions<T>(s: seq<T>, keep: T -> bool): (r: seq<nat>)
    ensures forall k :: 0 <= k < |r| ==> r[k] < |s| && keep(s[r[k]])
    ensures forall k, l :: 0 <= k < l < |r| ==> r[k] < r[l]
    ensures forall i :: 0 <= i < |s| && keep(s[i]) ==> i in r
  {
    if s == [] then []
    else KeptPositions(s[..|s| - 1], keep) + (if keep(s[|s| - 1]) then [|s| - 1] else [])
  }

  /**
   * `Filter` keeps a sub-list in order: its k-th element is the element of
   * `s` at the k-th kept position.
   */
  lemma {:induction false} FilterPicksKeptPositions<T>(s: seq<T>, keep: T -> bool)
    ensures |Filter(s, keep)| == |KeptPositions(s, keep)|
    ensures forall k :: 0 <= k < |Filter(s, keep)| ==> Filter(s, keep)[k] == s[KeptPositions(s, keep)[k]]
  {
    if s != [] {
      var init := s[..|s| - 1];
      FilterPicksKeptPositions(init, keep);
      assert s == init + [s[|s| - 1]];
      FilterAppendOne(init, s[|s| - 1], keep);
    }
  }

  /** The index, among the kept positions, of a kept position i; later kept positions have larger indices. */
  lemma KeptPositionIndex<T>(s: seq<T>, keep: T -> bool, i: nat) returns (k: nat)
    requires i < |s| && keep(s[i])
    ensures k < |KeptPositions(s, keep)| && KeptPositions(s, keep)[k] == i
    ensures forall w :: 0 <= w < |KeptPositions(s, keep)| && i < KeptPositions(s, keep)[w] ==> k < w
  {
    var positions := KeptPositions(s, keep);
    assert i in positions;
    k :| 0 <= k < |positions| && positions[k] == i;
    forall w | 0 <= w < |positions| && i < positions[w] ensures k < w {
      assert positions[k] < positions[w];
    }
  }

  /**
   * A kept element of `s` is the k-th element of the filtered list, and it
   * comes before every element kept from a later position.
   */
  lemma KeptIndex<T>(s: seq<T>, keep: T -> bool, i: nat) returns (k: nat)
    requires i < |s| && keep(s[i])
    ensures k < |Filter(s, keep)| && Filter(s, keep)[k] == s[i]
    ensures forall w :: 0 <= w < |KeptPositions(s, keep)| && i < KeptPositions(s, keep)[w] ==> k < w
  {
    k := KeptPositionIndex(s, keep, i);
    FilterPicksKeptPositions(s, keep);
  }
}
