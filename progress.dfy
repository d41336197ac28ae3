/**
 * `calculateProgress` of src/lib/utils.ts: the share completed/total as a
 * whole percentage, rounded the way Math.round rounds (half-way cases go up),
 * and 0 when there is nothing to complete.
 */
module Progress {

  /**
   * Math.round(num / den) computed exactly on the rational num/den:
   * the integer r with r - 1/2 <= num/den < r + 1/2.
   */
  function RoundHalfUp(num: int, den: int): (r: int)
    requires den != 0
    ensures var (n, d) := if den > 0 then (num, den) else (-num, -den);
      2 * d * r - d <= 2 * n < 2 * d * r + d
  {
    if den > 0 then (2 * num + den) / (2 * den) else (-2 * num - den) / (-2 * den)
  }

  /** utils.ts calculateProgress, on integral counts. */
  function CalculateProgress(completed: int, total: int): (r: int)
    ensures total == 0 ==> r == 0
    ensures total != 0 ==>
      var (n, d) := if total > 0 then (100 * completed, total) else (-100 * completed, -total);
      2 * d * r - d <= 2 * n < 2 * d * r + d
  {
    if total == 0 then 0 else RoundHalfUp(completed * 100, total)
  }

  /** Multiplying by a non-negative factor keeps the order. */
  lemma MulMonotone(k: int, x: int, y: int)
    requires k >= 0 && x <= y
    ensures k * x <= k * y
  {
  }

  /** The rounding condition pins down a single integer. */
  lemma RoundingIsUnique(n: int, d: int, r1: int, r2: int)
    requires d > 0
    requires 2 * d * r1 - d <= 2 * n < 2 * d * r1 + d
    requires 2 * d * r2 - d <= 2 * n < 2 * d * r2 + d
    ensures r1 == r2
  {
    if r1 < r2 {
      MulMonotone(2 * d, r1 + 1, r2);
    } else if r2 < r1 {
      MulMonotone(2 * d, r2 + 1, r1);
    }
  }

  /** For a positive total, the rounding inequality with the signs already normalised. */
  lemma ProgressBracket(completed: int, total: int)
    requires total > 0
    ensures var r := CalculateProgress(completed, total);
      2 * total * r - total <= 200 * completed < 2 * total * r + total
  {
  }

  /** With 0 <= completed <= total and total > 0 the percentage lies in [0, 100]. */
  lemma ProgressInRange(completed: int, total: int)
    requires total > 0 && 0 <= completed <= total
    ensures 0 <= CalculateProgress(completed, total) <= 100
  {
    var r := CalculateProgress(completed, total);
    ProgressBracket(completed, total);
    MulMonotone(200, completed, total);
    if r < 0 {
      MulMonotone(2 * total, r + 1, 0);
    }
    if r > 100 {
      MulMonotone(2 * total, 101, r);
    }
  }

  /** Rounding is monotone: a larger fraction over the same denominator never rounds lower. */
  lemma RoundingMonotone(n1: int, n2: int, d: int, r1: int, r2: int)
    requires d > 0 && n1 <= n2
    requires 2 * d * r1 - d <= 2 * n1
    requires 2 * n2 < 2 * d * r2 + d
    ensures r1 <= r2
  {
    if r1 > r2 {
      MulMonotone(2 * d, r2 + 1, r1);
    }
  }

  /** Completing more never lowers the percentage. */
  lemma ProgressMonotone(c1: int, c2: int, total: int)
    requires total > 0 && c1 <= c2
    ensures CalculateProgress(c1, total) <= CalculateProgress(c2, total)
  {
    ProgressBracket(c1, total);
    ProgressBracket(c2, total);
    RoundingMonotone(100 * c1, 100 * c2, total, CalculateProgress(c1, total), CalculateProgress(c2, total));
  }

  /** Everything completed is exactly 100 percent. */
  lemma ProgressComplete(total: int)
    requires total != 0
    ensures CalculateProgress(total, total) == 100
  {
    var r := CalculateProgress(total, total);
    if total > 0 {
      RoundingIsUnique(100 * total, total, r, 100);
    } else {
      RoundingIsUnique(-100 * total, -total, r, 100);
    }
  }
}
