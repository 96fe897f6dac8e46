/** The scaling between raw control values and percentages, and between percentages and bus volumes. */
module VolumeScaling {
  import opened Options

  datatype Action = Get | Set

  datatype DbScale = DbScale(min: int, max: int)

  /** A control: whether it holds integers, its dB scale if it has one, and its raw range. */
  datatype Control = Control(isInteger: bool, dbscale: Option<DbScale>, minval: int, maxval: int)

  datatype Mode = Plain | DbLinear | Linear

  /** `Undefined` is a division by zero. */
  datatype Result = Normalised(values: seq<int>) | Refused | Undefined

  const MAX_LINEAR_DB_SCALE: int := 24

  /** C's division rounds towards zero. */
  function Quotient(a: int, b: int): int
    requires b != 0
  {
    if (a >= 0) == (b > 0) then (if a >= 0 then a else -a) / (if b > 0 then b else -b)
    else -((if a >= 0 then a else -a) / (if b > 0 then b else -b))
  }

  /** Which scale applies; none when the raw range is needed and empty. */
  function ModeOf(c: Control): Option<Mode> {
    if !c.isInteger then Some(Plain)
    else if c.dbscale.None? || c.dbscale.value.min >= c.dbscale.value.max then
      if c.minval >= c.maxval then None else Some(Linear)
    else if c.dbscale.value.max - c.dbscale.value.min <= MAX_LINEAR_DB_SCALE * 100 then Some(DbLinear)
    else Some(Linear)
  }

  /** The scaled value; only the linear mode changes it, and only reading divides by the raw range. */
  function Scaled(action: Action, mode: Mode, c: Control, value: int): int
    requires mode == Linear && action == Get ==> c.minval != c.maxval
  {
    if mode != Linear then value
    else if action == Get then Quotient(100 * (value - c.minval), c.maxval - c.minval)
    else Quotient(value * (c.maxval - c.minval), 100)
  }

  /** Which scale a control has: integers are scaled by their raw range if they have no valid dB scale or one of more
      than 24 dB, and refused if that range is needed and empty; all other values are passed on. */
  lemma ScaleChosen(c: Control)
    ensures var ranged := c.dbscale.Some? && c.dbscale.value.min < c.dbscale.value.max;
      && (ModeOf(c).None? <==> c.isInteger && !ranged && c.minval >= c.maxval)
      && (ModeOf(c) == Some(Linear)
          <==> c.isInteger && if ranged then c.dbscale.value.max - c.dbscale.value.min > 2400 else c.minval < c.maxval)
    ensures ModeOf(c).Some? && ModeOf(c).value != Linear ==>
      forall action, v :: Scaled(action, ModeOf(c).value, c, v) == v
  {
  }

  /** The linear mode reads with an empty raw range. */
  predicate Divides0(action: Action, c: Control) {
    ModeOf(c) == Some(Linear) && action == Get && c.minval == c.maxval
  }

  /** volumeNormalise: every value is scaled, in order. A scalar is passed as a list of one. */
  method VolumeNormalise(action: Action, c: Control, values: seq<int>) returns (r: Result)
    ensures r == Refused <==> ModeOf(c).None?
    ensures r == Undefined <==> Divides0(action, c) && values != []
    ensures r.Normalised? ==> |r.values| == |values|
    ensures r.Normalised? ==>
      forall i :: 0 <= i < |values| ==>
        !Divides0(action, c) && r.values[i] == Scaled(action, ModeOf(c).value, c, values[i])
  {
    var mode := ModeOf(c);
    if mode.None? {
      return Refused;
    }
    var normalised: seq<int> := [];
    for idx := 0 to |values|
      invariant |normalised| == idx
      invariant idx > 0 ==> !Divides0(action, c)
      invariant forall i :: 0 <= i < idx ==>
        !Divides0(action, c) && normalised[i] == Scaled(action, mode.value, c, values[i])
    {
      var value := values[idx];
      if mode.value == Linear {
        if action == Get {
          if c.minval == c.maxval {
            return Undefined;
          }
          value := Quotient(100 * (value - c.minval), c.maxval - c.minval);
        } else {
          value := Quotient(value * (c.maxval - c.minval), 100);
        }
      }
      normalised := normalised + [value];
    }
    r := Normalised(normalised);
  }

  /** A control whose raw range begins at 0. */
  predicate FromZero(c: Control) {
    c.minval == 0 && c.maxval >= 1
  }

  lemma DivideBetween(a: int, b: int, q: int)
    requires b > 0 && q * b <= a < (q + 1) * b
    ensures a / b == q
  {
    var d := a / b - q;
    assert d * b == (a / b) * b - q * b;
    assert (a / b) * b + a % b == a;
    assert d >= 1 ==> d * b >= b;
    assert d <= -1 ==> d * b <= -b;
  }

  lemma QuotientBySign(a: int, d: int)
    requires d > 0
    ensures Quotient(a, d) == if a >= 0 then a / d else -(-a / d)
    ensures a >= 0 ==> Quotient(a, d) >= 0
    ensures a <= 0 ==> Quotient(a, d) <= 0
  {
  }

  lemma QuotientMonotone(a: int, b: int, d: int)
    requires a <= b && d > 0
    ensures Quotient(a, d) <= Quotient(b, d) && (a >= 0 ==> Quotient(a, d) >= 0)
  {
    hide Quotient;
    QuotientBySign(a, d);
    QuotientBySign(b, d);
    if a >= 0 {
      DivideMonotone(a, b, d);
    } else if b < 0 {
      DivideMonotone(-b, -a, d);
    }
  }

  lemma DivideMonotone(a: int, b: int, d: int)
    requires 0 <= a <= b && d > 0
    ensures a / d <= b / d
  {
    var p, q := a / d, b / d;
    assert p * d <= a && b < q * d + d;
    assert (p - q) * d == p * d - q * d < d;
    assert p - q >= 1 ==> (p - q) * d >= d;
  }

  /** The quotient is cut towards zero: what remains is smaller than the divisor and has the sign of the dividend. */
  lemma QuotientTruncates(a: int, b: int) returns (r: int)
    requires b > 0
    ensures a == Quotient(a, b) * b + r && -b < r < b && (a >= 0 ==> r >= 0) && (a <= 0 ==> r <= 0)
  {
    r := a - Quotient(a, b) * b;
    var m := if a >= 0 then a else -a;
    assert m == (m / b) * b + m % b;
    assert a < 0 ==> Quotient(a, b) * b == -((m / b) * b);
  }

  // ---------------------------------------------------------------- the linear scale of any range

  /** The raw range is read as 0 to 100, and percentages are set as 0 to the width of the range: the minimum is not
      added, so that 100 percent sets the maximum exactly if the minimum is 0. */
  lemma LinearEnds(c: Control)
    requires c.minval < c.maxval
    ensures Scaled(Get, Linear, c, c.minval) == 0 && Scaled(Get, Linear, c, c.maxval) == 100
    ensures Scaled(Set, Linear, c, 0) == 0 && Scaled(Set, Linear, c, 100) == c.maxval - c.minval
    ensures Scaled(Set, Linear, c, 100) == c.maxval <==> c.minval == 0
  {
    var range := c.maxval - c.minval;
    DivideBetween(100 * range, range, 100);
  }

  /** Between the ends both directions are proportional, but for what is cut off. */
  lemma LinearIsProportional(c: Control, v: int)
    requires c.minval < c.maxval
    ensures var range := c.maxval - c.minval;
      && -range < 100 * (v - c.minval) - Scaled(Get, Linear, c, v) * range < range
      && -100 < v * range - 100 * Scaled(Set, Linear, c, v) < 100
  {
    var range := c.maxval - c.minval;
    var r := QuotientTruncates(100 * (v - c.minval), range);
    var t := QuotientTruncates(v * range, 100);
  }

  // ---------------------------------------------------------------- the linear scale from 0 to a range

  /** Setting and reading are monotone. */
  lemma ScalesAreMonotone(c: Control, v: int, w: int)
    requires FromZero(c) && 0 <= v <= w
    ensures 0 <= Scaled(Set, Linear, c, v) <= Scaled(Set, Linear, c, w)
    ensures 0 <= Scaled(Get, Linear, c, v) <= Scaled(Get, Linear, c, w)
  {
    assert 0 <= v * c.maxval <= w * c.maxval;
    QuotientMonotone(v * c.maxval, w * c.maxval, 100);
    QuotientMonotone(100 * v, 100 * w, c.maxval);
  }

  /** What is read of a percentage that has been set. */
  function ReadBack(c: Control, v: int): int
    requires FromZero(c)
  {
    Scaled(Get, Linear, c, Scaled(Set, Linear, c, v))
  }

  /** Setting a percentage and reading it back loses exactly the truncated part of the raw value, rounded up
      to whole steps of the scale: nothing if 100 divides v * range, at most 1 if the remainder is at most
      the range, hence always at most 1 for ranges of at least 100. */
  lemma SetThenGet(c: Control, v: int)
    requires FromZero(c) && v >= 0
    ensures var lost := v * c.maxval % 100;
      && ReadBack(c, v) == v - (lost + c.maxval - 1) / c.maxval
      && ReadBack(c, v) <= v
      && (ReadBack(c, v) == v <==> lost == 0)
      && (ReadBack(c, v) >= v - 1 <==> lost <= c.maxval)
    ensures c.maxval >= 100 ==> ReadBack(c, v) >= v - 1
  {
    RoundTripByProduct(v, v * c.maxval, c.maxval);
    RoundUp(v * c.maxval % 100, c.maxval);
  }

  /** The same with the product `p` of the two factors given, so that only one factor is multiplied. */
  lemma RoundTripByProduct(v: int, p: int, range: int)
    requires v >= 0 && range >= 1 && p == v * range
    ensures p >= 0 && Quotient(100 * Quotient(p, 100), range) == v - (p % 100 + range - 1) / range
  {
    var lost := p % 100;
    var steps := (lost + range - 1) / range;
    assert p >= 0;
    assert 100 * (p / 100) == p - lost;
    StepsCover(lost, range);
    assert (v - steps) * range == p - steps * range;
    assert (v - steps + 1) * range == p - steps * range + range;
    DivideBetween(100 * (p / 100), range, v - steps);
  }

  lemma StepsCover(lost: int, range: int)
    requires lost >= 0 && range >= 1
    ensures var steps := (lost + range - 1) / range; steps * range - range < lost <= steps * range
  {
  }

  lemma RoundUp(lost: int, range: int)
    requires lost >= 0 && range >= 1
    ensures (lost + range - 1) / range >= 0
    ensures (lost + range - 1) / range == 0 <==> lost == 0
    ensures (lost + range - 1) / range <= 1 <==> lost <= range
  {
  }

  // ---------------------------------------------------------------- wrap_volume_calculate

  function Calculate(value: int, maxOld: int, maxNew: int): int
    requires maxOld > 0
  {
    Quotient((if value > maxOld then maxOld else value) * maxNew, maxOld)
  }

  /** The volume of a percentage as a byte, after the cast to an unsigned 8-bit integer. */
  function VolumeByte(percent: int): int {
    Calculate(percent, 100, 255) % 256
  }

  /** The scaled volume never exceeds its maximum; it survives the cast to a byte exactly for percentages that
      are not negative, and on those it is monotone, from 0 at 0 to 255 at 100 and above. */
  lemma VolumeByteIsVolume(percent: int)
    ensures Calculate(percent, 100, 255) <= 255
    ensures VolumeByte(percent) == Calculate(percent, 100, 255) <==> percent >= 0
    ensures 0 <= percent <= 100 ==> 100 * VolumeByte(percent) <= 255 * percent < 100 * VolumeByte(percent) + 100
    ensures VolumeByte(0) == 0 && (percent >= 100 ==> VolumeByte(percent) == 255)
    ensures forall lower :: 0 <= lower <= percent ==> VolumeByte(lower) <= VolumeByte(percent)
  {
  }

  /** A percentage of -1 becomes an almost full volume. */
  lemma NegativeVolume()
    ensures Calculate(-1, 100, 255) == -2 && VolumeByte(-1) == 254
  {
  }
}
