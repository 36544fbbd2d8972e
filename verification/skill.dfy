/**
 * The skill model: the fixed table from a member's level to the power score
 * used for balance scoring.
 */
module Skill {
  import opened Common

  datatype Level = Casual | Beginner | Intermediate | Advanced

  /** The power table (CASUAL 50, BEGINNER 60, INTERMEDIATE 80, ADVANCED 90). */
  function Power(l: Level): (p: nat)
    ensures 50 <= p <= 90 && p % 10 == 0
    ensures l == Casual <==> p == 50
    ensures l == Beginner <==> p == 60
    ensures l == Intermediate <==> p == 80
    ensures l == Advanced <==> p == 90
  {
    match l
    case Casual => 50
    case Beginner => 60
    case Intermediate => 80
    case Advanced => 90
  }

  /** The power of a member whose level may be absent: absent counts as CASUAL. */
  function PowerOrCasual(l: Option<Level>): (p: nat)
    ensures 50 <= p <= 90 && p % 10 == 0
    ensures l.None? ==> p == Power(Casual)
    ensures l.Some? ==> p == Power(l.value)
  {
    match l
    case None => Power(Casual)
    case Some(v) => Power(v)
  }

  /** The table is injective: distinct levels have distinct powers. */
  lemma PowerInjective(a: Level, b: Level)
    ensures Power(a) == Power(b) <==> a == b
  {
  }
}
