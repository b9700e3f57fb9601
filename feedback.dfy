/** The three-tier feedback shown beside each team's score (`getEmoji`). */
module Feedback {

  datatype Emoji = Party | Smile | Cry

  /** Tiers ordered from worst to best. */
  function Rank(e: Emoji): nat
  {
    match e
    case Cry => 0
    case Smile => 1
    case Party => 2
  }

  /** The percentage of the questions a team answered correctly, computed
      exactly (the source uses a floating-point division). */
  function Percentage(score: nat, total: nat): (p: real)
    requires total > 0
    ensures p * total as real == score as real * 100.0
    ensures score <= total ==> 0.0 <= p <= 100.0
  {
    (score as real / total as real) * 100.0
  }

  /** The rule as the source states it: full marks, at least half, or less. */
  function EmojiByPercentage(score: nat, total: nat): (e: Emoji)
    requires total > 0
    ensures e == Party <==> Percentage(score, total) == 100.0
    ensures e != Cry <==> Percentage(score, total) >= 50.0
  {
    var percentage := Percentage(score, total);
    if percentage == 100.0 then Party
    else if percentage >= 50.0 then Smile
    else Cry
  }

  /** `getEmoji` on integers. With no questions the source divides by zero:
      `0 / 0` is NaN, which fails both comparisons, and a positive score over
      zero is Infinity, which is not 100 but is at least 50. */
  function GetEmoji(score: nat, total: nat): (e: Emoji)
    ensures total > 0 ==> e == EmojiByPercentage(score, total)
    ensures total == 0 ==> e == (if score == 0 then Cry else Smile)
  {
    if total == 0 then (if score == 0 then Cry else Smile)
    else
      PercentageThresholds(score, total);
      if score == total then Party
      else if 2 * score >= total then Smile
      else Cry
  }

  /** The two comparisons on the percentage are comparisons on integers. */
  lemma PercentageThresholds(score: nat, total: nat)
    requires total > 0
    ensures Percentage(score, total) == 100.0 <==> score == total
    ensures Percentage(score, total) >= 50.0 <==> 2 * score >= total
  {
    var s, t := score as real, total as real;
    var x := s / t;
    assert x * t == s;
    RatioThresholds(x, s, t);
    assert Percentage(score, total) == x * 100.0;
    assert (2 * score) as real == 2.0 * s;
  }

  lemma RatioThresholds(x: real, s: real, t: real)
    requires t > 0.0 && x * t == s
    ensures x * 100.0 == 100.0 <==> s == t
    ensures x * 100.0 >= 50.0 <==> 2.0 * s >= t
  {
    RatioFull(x, s, t);
    RatioHalf(x, s, t);
  }

  /** Full marks exactly when the ratio is one. */
  lemma RatioFull(x: real, s: real, t: real)
    requires t > 0.0 && x * t == s
    ensures x * 100.0 == 100.0 <==> s == t
  {
    ScaleMonotone(x, 1.0, t);
    ScaleMonotone(1.0, x, t);
  }

  /** At least half exactly when twice the score reaches the total. */
  lemma RatioHalf(x: real, s: real, t: real)
    requires t > 0.0 && x * t == s
    ensures x * 100.0 >= 50.0 <==> 2.0 * s >= t
  {
    ScaleMonotone(0.5, x, t);
  }

  /** Multiplying by a positive number keeps the order. */
  lemma ScaleMonotone(a: real, b: real, t: real)
    requires t > 0.0
    ensures a <= b <==> a * t <= b * t
  {
    if a <= b {
      assert (b - a) * t >= 0.0;
    } else {
      assert (a - b) * t > 0.0;
    }
  }

  /** A higher score never earns a worse tier. */
  lemma EmojiMonotone(low: nat, high: nat, total: nat)
    requires low <= high <= total
    ensures Rank(GetEmoji(low, total)) <= Rank(GetEmoji(high, total))
  {
  }
}
