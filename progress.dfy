/** The console progress bar of `show_progress`: only the length arithmetic
    and the characters of the bar; the percentage text is not modelled. */
module Progress {

  /** The bar width every call uses (the parameter's default). */
  const DefaultWidth: int := 40

  const FilledChar: char := '█'
  const EmptyChar: char := '-'

  /** `int(x)` of the quotient `a / b`: truncation toward zero. */
  function TruncDiv(a: int, b: int): (q: int)
    requires b > 0
    ensures a >= 0 ==> q * b <= a < (q + 1) * b
    ensures a < 0 ==> (q - 1) * b < a <= q * b
  {
    if a >= 0 then a / b else -((-a) / b)
  }

  /** `filled = int(width * pct)` with `pct = current / total`, computed on
      exact rationals: the number of filled cells is the product truncated
      toward zero. */
  function Filled(current: int, total: int, width: int): int
    requires total > 0
  {
    TruncDiv(width * current, total)
  }

  /** `c * k` on a one-character string: `k` copies, none when `k <= 0`. */
  function Repeat(c: char, k: int): (s: string)
    ensures |s| == if k > 0 then k else 0
    ensures forall i | 0 <= i < |s| :: s[i] == c
    decreases k
  {
    if k <= 0 then "" else [c] + Repeat(c, k - 1)
  }

  /** `bar = "█" * filled + "-" * (width - filled)`. */
  function Bar(current: int, total: int, width: int): string
    requires total > 0
  {
    var f := Filled(current, total, width);
    Repeat(FilledChar, f) + Repeat(EmptyChar, width - f)
  }

  /** For a position within the run, the filled part never exceeds the bar. */
  lemma FilledWithinWidth(current: int, total: int, width: int)
    requires 0 <= current <= total && total > 0 && width >= 0
    ensures 0 <= Filled(current, total, width) <= width
  {
    var f := Filled(current, total, width);
    MulLeftMonotone(width, 0, current);
    MulLeftMonotone(width, current, total);
    assert width * total == total * width;
    if f > width {
      MulLeftMonotone(total, width + 1, f);
      assert false;
    }
  }

  /** For a position within the run the bar is exactly `width` characters:
      `filled` cells of `FilledChar` followed by `EmptyChar` up to the width. */
  lemma BarShape(current: int, total: int, width: int)
    requires 0 <= current <= total && total > 0 && width >= 0
    ensures |Bar(current, total, width)| == width
    ensures forall i | 0 <= i < width ::
              Bar(current, total, width)[i] == if i < Filled(current, total, width) then FilledChar else EmptyChar
  {
    var f := Filled(current, total, width);
    FilledWithinWidth(current, total, width);
    var full, empty := Repeat(FilledChar, f), Repeat(EmptyChar, width - f);
    assert Bar(current, total, width) == full + empty;
    assert |full| == f && |empty| == width - f;
  }

  /** The filled length is `width * current / total` rounded down: it is the
      largest count whose share of `total` does not pass `current`'s. */
  lemma FilledIsFloor(current: int, total: int, width: int)
    requires current >= 0 && total > 0 && width >= 0
    ensures Filled(current, total, width) * total <= width * current
    ensures width * current < (Filled(current, total, width) + 1) * total
  {
    MulLeftMonotone(width, 0, current);
  }

  /** The bar never moves backward as `current` grows. */
  lemma FilledMonotone(c1: int, c2: int, total: int, width: int)
    requires 0 <= c1 <= c2 && total > 0 && width >= 0
    ensures Filled(c1, total, width) <= Filled(c2, total, width)
  {
    var f1, f2 := Filled(c1, total, width), Filled(c2, total, width);
    MulLeftMonotone(width, 0, c1);
    MulLeftMonotone(width, c1, c2);
    if f1 > f2 {
      MulLeftMonotone(total, f2 + 1, f1);
      assert false;
    }
  }

  /** The bar is full once the last page has been handled. */
  lemma FullAtEnd(total: int, width: int)
    requires total > 0 && width >= 0
    ensures Filled(total, total, width) == width
  {
    var f := Filled(total, total, width);
    assert width * total == total * width;
    if f < width {
      MulLeftMonotone(total, f + 1, width);
      assert false;
    } else if f > width {
      MulLeftMonotone(total, width + 1, f);
      assert false;
    }
  }

  /** Halfway through 40 pages the default bar is 20 filled cells and 20
      empty ones. */
  lemma HalfwayExample()
    ensures Filled(20, 40, DefaultWidth) == 20
    ensures Bar(20, 40, DefaultWidth) == Repeat(FilledChar, 20) + Repeat(EmptyChar, 20)
  {
  }

  lemma MulLeftMonotone(k: int, a: int, b: int)
    requires k >= 0 && a <= b
    ensures k * a <= k * b
  {
    assert k * b - k * a == k * (b - a);
  }
}
