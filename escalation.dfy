/**
 * The escalation table of the warn command (getTimeoutDuration): the
 * automatic timeout, in milliseconds, for a given number of active warnings.
 */
module Escalation {
  import opened Wrappers

  const MsPerMinute: nat := 60 * 1000

  /** The longest automatic timeout: 24 hours, registered for count 8. */
  const MaxTimeoutMs: nat := 24 * 60 * 60 * 1000

  /**
   * getTimeoutDuration: `durations[count] || durations[8]` over the table
   * keyed by the exact counts 3..8; every other count gets the count-8 value.
   */
  function TimeoutDuration(warningCount: int): nat {
    match warningCount
    case 3 => 10 * 60 * 1000
    case 4 => 30 * 60 * 1000
    case 5 => 60 * 60 * 1000
    case 6 => 6 * 60 * 60 * 1000
    case 7 => 12 * 60 * 60 * 1000
    case 8 => 24 * 60 * 60 * 1000
    case _ => 24 * 60 * 60 * 1000
  }

  /** One escalation tier: from `minWarnings` active warnings on, `minutes` of timeout. */
  datatype Tier = Tier(minWarnings: nat, minutes: nat)

  /** The table in minutes, as an ordered tier list. */
  const Tiers: seq<Tier> := [Tier(3, 10), Tier(4, 30), Tier(5, 60), Tier(6, 360), Tier(7, 720), Tier(8, 1440)]

  /**
   * The reference policy: the highest tier whose threshold the count has
   * reached, or None below the first threshold.
   */
  function ThresholdMinutes(tiers: seq<Tier>, warningCount: int): Option<nat> {
    if tiers == [] then None
    else if tiers[|tiers| - 1].minWarnings <= warningCount then Some(tiers[|tiers| - 1].minutes)
    else ThresholdMinutes(tiers[..|tiers| - 1], warningCount)
  }

  /**
   * From count 3 on, the exact-key lookup agrees with the threshold policy
   * over the tier list: each count 3..8 gets its own tier, larger counts the
   * last one.
   */
  lemma TimeoutDurationIsThresholdPolicy(warningCount: int)
    requires warningCount >= 3
    ensures ThresholdMinutes(Tiers, warningCount).Some?
    ensures TimeoutDuration(warningCount) == ThresholdMinutes(Tiers, warningCount).value * MsPerMinute
  {
    var t5, t4, t3, t2, t1 := Tiers[..5], Tiers[..4], Tiers[..3], Tiers[..2], Tiers[..1];
    assert t5[..4] == t4 && t4[..3] == t3 && t3[..2] == t2 && t2[..1] == t1;
    if warningCount < 8 {
      assert ThresholdMinutes(Tiers, warningCount) == ThresholdMinutes(t5, warningCount);
      if warningCount < 7 {
        assert ThresholdMinutes(t5, warningCount) == ThresholdMinutes(t4, warningCount);
        if warningCount < 6 {
          assert ThresholdMinutes(t4, warningCount) == ThresholdMinutes(t3, warningCount);
          if warningCount < 5 {
            assert ThresholdMinutes(t3, warningCount) == ThresholdMinutes(t2, warningCount);
            if warningCount < 4 {
              assert ThresholdMinutes(t2, warningCount) == ThresholdMinutes(t1, warningCount);
            }
          }
        }
      }
    }
  }

  /** The durations strictly increase from count 3 to count 8. */
  lemma TimeoutDurationStrictlyIncreasing(a: int, b: int)
    requires 3 <= a < b <= 8
    ensures TimeoutDuration(a) < TimeoutDuration(b)
  {
  }

  /** From count 8 on the duration stays at the 24-hour maximum. */
  lemma TimeoutDurationSaturates(warningCount: int)
    requires warningCount >= 8
    ensures TimeoutDuration(warningCount) == TimeoutDuration(8) == MaxTimeoutMs
  {
  }

  /** Every duration lies between 10 minutes and 24 hours. */
  lemma TimeoutDurationBounds(warningCount: int)
    ensures 10 * MsPerMinute <= TimeoutDuration(warningCount) <= MaxTimeoutMs
  {
  }

  /** More active warnings never give a shorter timeout. */
  lemma TimeoutDurationMonotone(a: int, b: int)
    requires 3 <= a <= b
    ensures TimeoutDuration(a) <= TimeoutDuration(b)
  {
  }
}
