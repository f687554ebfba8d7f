/** Health factors (src/Flop.Core/HealthFactor.cs, HealthFactorType.cs): a
    value that affects an actor's health, bounded above by a maximum and
    below by zero when it is increased or decreased. Single-precision floats
    are modelled as reals. */
module HealthFactors {
  import opened Outcomes

  datatype HealthFactorType = HitPoints | BloodLoss | Poison

  /** The enum's underlying values are 0, 1 and 2; any other int cast to the
      enum is a value the switches below do not know. */
  function TypeOfCode(code: int): (r: Option<HealthFactorType>)
    ensures r.Some? <==> 0 <= code <= 2
    ensures r.Some? ==> CodeOfType(r.value) == code
  {
    if code == 0 then Some(HitPoints)
    else if code == 1 then Some(BloodLoss)
    else if code == 2 then Some(Poison)
    else None
  }

  function CodeOfType(t: HealthFactorType): int {
    match t
    case HitPoints => 0
    case BloodLoss => 1
    case Poison => 2
  }

  /** Every type has a code that names it. */
  lemma CodeRoundTrip(t: HealthFactorType)
    ensures TypeOfCode(CodeOfType(t)) == Some(t)
  {
  }

  /** The description shown for each type. */
  function DescriptionOf(t: HealthFactorType): string {
    match t
    case HitPoints => "Hit points"
    case BloodLoss => "Blood loss"
    case Poison => "Poison"
  }

  /** Different types are described differently. */
  lemma DescriptionsDistinct(s: HealthFactorType, t: HealthFactorType)
    ensures DescriptionOf(s) == DescriptionOf(t) <==> s == t
  {
    if s != t {
      assert DescriptionOf(s)[0] != DescriptionOf(t)[0] || |DescriptionOf(s)| != |DescriptionOf(t)|;
    }
  }

  /** Math.Min(current + amount, max): the increase stops at the maximum. */
  function Increased(current: real, amount: real, max: real): (r: real)
    ensures r <= max && r <= current + amount
    ensures r == current + amount || r == max
  {
    if current + amount < max then current + amount else max
  }

  /** Math.Max(current - amount, 0): the decrease stops at zero. */
  function Decreased(current: real, amount: real): (r: real)
    ensures r >= 0.0 && r >= current - amount
    ensures r == current - amount || r == 0.0
  {
    if current - amount > 0.0 then current - amount else 0.0
  }

  /** A value within [0, max] stays there under non-negative increases and
      decreases. */
  lemma StepsKeepRange(current: real, amount: real, max: real)
    requires 0.0 <= current <= max && amount >= 0.0
    ensures 0.0 <= Increased(current, amount, max) <= max
    ensures 0.0 <= Decreased(current, amount) <= max
  {
  }

  /** The constructor does not clamp: a value above the maximum is kept until
      the first increase, which brings it down to the maximum, even by zero. */
  lemma IncreaseByZeroClampsOverfull()
    ensures Increased(15.0, 0.0, 10.0) == 10.0
  {
  }

  class HealthFactor {
    var currentValue: real
    const maxValue: real
    const kind: HealthFactorType
    const isHigherBetter: bool
    const description: string

    /** Construction from a known type; the current value is taken as given. */
    constructor (currentValue: real, maxValue: real, kind: HealthFactorType)
      ensures this.currentValue == currentValue && this.maxValue == maxValue && this.kind == kind
      ensures isHigherBetter <==> kind == HitPoints
      ensures description == DescriptionOf(kind)
    {
      this.currentValue := currentValue;
      this.maxValue := maxValue;
      this.kind := kind;
      this.isHigherBetter := kind == HitPoints;
      this.description := DescriptionOf(kind);
    }

    /** Increase: the value rises by amount but never past the maximum. */
    method Increase(amount: real)
      modifies this
      ensures currentValue == Increased(old(currentValue), amount, maxValue)
      ensures 0.0 <= old(currentValue) <= maxValue && amount >= 0.0 ==> 0.0 <= currentValue <= maxValue
    {
      if 0.0 <= currentValue <= maxValue && amount >= 0.0 {
        StepsKeepRange(currentValue, amount, maxValue);
      }
      currentValue := Increased(currentValue, amount, maxValue);
    }

    /** Decrease: the value falls by amount but never below zero. */
    method Decrease(amount: real)
      modifies this
      ensures currentValue == Decreased(old(currentValue), amount)
      ensures 0.0 <= old(currentValue) <= maxValue && amount >= 0.0 ==> 0.0 <= currentValue <= maxValue
    {
      if 0.0 <= currentValue <= maxValue && amount >= 0.0 {
        StepsKeepRange(currentValue, amount, maxValue);
      }
      currentValue := Decreased(currentValue, amount);
    }

    /** FractionValue: CurrentValue / MaxValue; none for a zero maximum,
        where the float division gives an infinity or NaN. */
    function FractionValue(): (r: Option<real>)
      reads this
      ensures r.None? <==> maxValue == 0.0
      ensures r.Some? ==> r.value * maxValue == currentValue
      ensures r.Some? && 0.0 <= currentValue <= maxValue ==> 0.0 <= r.value <= 1.0
    {
      if maxValue == 0.0 then None else Some(currentValue / maxValue)
    }
  }

  /** new HealthFactor(currentValue, maxValue, (HealthFactorType)code): an
      enum value outside the three types is an ArgumentException from the
      IsHigherBetter and Description switches. */
  method Create(currentValue: real, maxValue: real, code: int) returns (r: Outcome<HealthFactor>)
    ensures !(0 <= code <= 2) ==> r == Threw(ArgumentException)
    ensures 0 <= code <= 2 ==>
      && r.Done?
      && fresh(r.value)
      && r.value.kind == TypeOfCode(code).value
      && r.value.currentValue == currentValue && r.value.maxValue == maxValue
      && (r.value.isHigherBetter <==> code == 0)
  {
    var kind := TypeOfCode(code);
    if kind.None? {
      return Threw(ArgumentException);
    }
    var factor := new HealthFactor(currentValue, maxValue, kind.value);
    r := Done(factor);
  }
}
