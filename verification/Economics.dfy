/** The burn taken from a rollup's stake, and the bounded forms of the same arithmetic. */
module Economics {
  import opened Common
  import opened Decimal
  import opened Denominations

  const DEFAULT_BURN_RATE: Bytes := Ascii("0.01")

  datatype CreationCost = CreationCost(stake: Bytes, burn: Bytes, netStake: Bytes, totalRequired: Bytes,
                                       burnRate: Bytes)

  /** big.Int.String. */
  function IntText(n: int): Bytes { if n >= 0 then Text(n) else [45] + Text(-n) }

  /** The digits of both parts read as one number. */
  function JoinedValue(whole: Bytes, frac: Bytes): nat
    requires Digital(whole) && Digital(frac)
  {
    DigitsValue(whole + frac)
  }

  /** A decimal rate as numerator and scale. */
  function Rate(decimal: Bytes): (r: Option<(nat, nat)>)
    ensures r.Some? ==> r.value.1 > 0
  {
    match DecimalParts(TrimSpace(decimal))
    case None => None
    case Some((whole, frac)) => Some((JoinedValue(whole, frac), Pow(10, |frac|)))
  }

  /** MulDecimalFloor: Quo truncates, which floors for the non-negative amounts it is used on. */
  function MulDecimalFloor(amount: int, decimal: Bytes): Option<int> {
    match Rate(decimal)
    case None => None
    case Some((numerator, scale)) => Some(TruncDiv(amount * numerator, scale))
  }

  function CostOf(stake: nat, burn: int, rate: Bytes): CreationCost {
    CreationCost(Text(stake), IntText(burn), IntText(stake - burn), Text(stake), rate)
  }

  function EstimateCreationCost(stakeUqor: Bytes, burnRate: Bytes): Result<CreationCost, DenomError> {
    var t := TrimSpace(stakeUqor);
    var rate := if burnRate == [] then DEFAULT_BURN_RATE else burnRate;
    if !AllDigits(t) then Err(InvalidAmount)
    else
      var stake := DigitsValue(t);
      match MulDecimalFloor(stake, rate)
      case None => Err(InvalidAmount)
      case Some(burn) => Ok(CostOf(stake, burn, rate))
  }

  /** The burn is the exact floor of stake times rate; it leaves a stake exactly below one more unit. */
  lemma BurnExact(stake: nat, decimal: Bytes)
    requires Rate(decimal).Some?
    ensures MulDecimalFloor(stake, decimal).Some?
    ensures var (numerator, scale) := Rate(decimal).value;
            var burn := MulDecimalFloor(stake, decimal).value;
            && 0 <= burn && burn * scale <= stake * numerator < (burn + 1) * scale
            && (burn <= stake <==> stake * numerator < (stake + 1) * scale)
            && (numerator <= scale ==> burn <= stake)
  {
    hide Rate;
    var (numerator, scale) := Rate(decimal).value;
    var product := stake * numerator;
    FloorFacts(product, scale, stake);
    if numerator <= scale {
      MulMonotone(numerator, scale, stake);
      assert stake * scale < (stake + 1) * scale;
    }
  }

  lemma FloorFacts(product: nat, scale: nat, stake: nat)
    requires scale > 0
    ensures var q := TruncDiv(product, scale);
            q >= 0 && q * scale <= product < (q + 1) * scale && (q <= stake <==> product < (stake + 1) * scale)
  {
    var q, r := product / scale, product % scale;
    assert product == q * scale + r;
    if q <= stake { MulMonotone(q + 1, stake + 1, scale); } else { MulMonotone(stake + 1, q, scale); }
  }

  /** A text with an optional minus sign, read back as the number it shows. */
  function ReadInt(s: Bytes): int {
    if AllDigits(s) then DigitsValue(s)
    else if |s| > 1 && s[0] == 45 && AllDigits(s[1..]) then 0 - DigitsValue(s[1..])
    else 0
  }

  lemma IntTextReads(n: int)
    ensures ReadInt(IntText(n)) == n
  {
    hide DigitsValue, Text;
    TextValue(if n >= 0 then n else -n);
    if n < 0 { assert IntText(n)[1..] == Text(-n); }
  }

  /**
   * Burn and remaining stake, as shown, add up to the stake, which is all that leaves the wallet, for
   * every rate; what remains is negative exactly when the rate takes more than the stake.
   */
  lemma CostConserves(stakeUqor: Bytes, burnRate: Bytes)
    requires EstimateCreationCost(stakeUqor, burnRate).Ok?
    ensures var cost := EstimateCreationCost(stakeUqor, burnRate).value;
            var stake := DigitsValue(TrimSpace(stakeUqor));
            && ReadInt(cost.burn) + ReadInt(cost.netStake) == ReadInt(cost.totalRequired)
            && ReadInt(cost.totalRequired) == ReadInt(cost.stake) == stake
            && Some(ReadInt(cost.burn)) == MulDecimalFloor(stake, cost.burnRate)
            && (ReadInt(cost.netStake) < 0 <==> ReadInt(cost.burn) > stake)
  {
    hide Rate, DigitsValue, Text, ReadInt, IntText, TrimSpace, Ascii;
    var cost, stake := EstimateCreationCost(stakeUqor, burnRate).value, DigitsValue(TrimSpace(stakeUqor));
    var burn := MulDecimalFloor(stake, cost.burnRate).value;
    IntTextReads(stake);
    IntTextReads(burn);
    IntTextReads(stake - burn);
    NaturalText(stake);
  }

  lemma NaturalText(n: nat)
    ensures IntText(n) == Text(n)
  {
  }

  // ---------------------------------------------------------------------------
  // The bounded (u128) forms

  const U128_LIMIT: nat := 0x1_0000_0000_0000_0000_0000_0000_0000_0000

  /** An error the bounded form returns, or an arithmetic overflow, which is a panic. */
  datatype BoundedError = Refused | Overflow

  predicate Fits128(n: nat) { n < U128_LIMIT }

  /** Both forms give the same value, or both refuse. */
  predicate Agree<T(==)>(unbounded: Result<T, DenomError>, bounded: Result<T, BoundedError>) {
    match unbounded
    case Ok(v) => bounded == Ok(v)
    case Err(_) => bounded == Err(Refused)
  }

  /** split_once('.') and is_digits: unlike the pattern, an empty fraction after the dot is allowed. */
  function BoundedParts(s: Bytes): (r: Option<(Bytes, Bytes)>)
    ensures r.Some? ==> AllDigits(r.value.0) && Digital(r.value.1)
  {
    var i := FirstOf(s, DOT);
    var whole, frac := s[..i], if i < |s| then s[i + 1..] else [];
    if AllDigits(whole) && Digital(frac) then Some((whole, frac)) else None
  }

  /** A text such as "5.", which only the bounded form accepts. */
  predicate EndsInDot(s: Bytes) { FirstOf(s, DOT) == |s| - 1 }

  lemma PartsAgree(s: Bytes)
    ensures DecimalParts(s).Some? ==> BoundedParts(s) == DecimalParts(s)
    ensures DecimalParts(s).Some? <==> BoundedParts(s).Some? && !EndsInDot(s)
    ensures BoundedParts(s).Some? && EndsInDot(s) ==> BoundedParts(s).value.1 == []
  {
    assert s[..|s|] == s;
  }

  // ---------------------------------------------------------------------------
  // Display to base units

  /** What qor_to_uqor answers. */
  function BoundedUnits(amount: Bytes, exponent: nat): Result<Bytes, DenomError> {
    match BoundedParts(TrimSpace(amount))
    case None => Err(InvalidAmount)
    case Some((whole, frac)) =>
      if |frac| > exponent then Err(TooManyDigits) else Ok(Text(BaseUnits(whole, frac, exponent)))
  }

  /** qor_to_uqor, with its padding loop: exact, whatever the exponent. */
  method BoundedQorToUqor(amount: Bytes, exponent: nat) returns (r: Result<Bytes, DenomError>)
    ensures r == BoundedUnits(amount, exponent)
  {
    hide TrimSpace, BoundedParts, FirstOf, TrimLeft, Text, BaseUnits, DigitsValue;
    var parts := BoundedParts(TrimSpace(amount));
    if parts.None? {
      return Err(InvalidAmount);
    }
    var (whole, frac) := parts.value;
    if |frac| > exponent {
      return Err(TooManyDigits);
    }
    var fracPadded := frac;
    while |fracPadded| < exponent
      invariant |frac| <= |fracPadded| <= exponent && fracPadded == frac + Zeros(|fracPadded| - |frac|)
    {
      fracPadded := fracPadded + [48];
    }
    assert whole + fracPadded == whole + frac + Zeros(exponent - |frac|);
    CombinedValue(whole, frac, exponent);
    TrimLeftText(whole + fracPadded);
    var trimmed := TrimLeft(whole + fracPadded);
    return Ok(if trimmed == [] then [48] else trimmed);
  }

  /**
   * When both conversions to base units answer alike. An exponent of 0 is taken as it is by the bounded form
   * and as 6 by the other, and a dot without digits behind it is accepted by the bounded form only.
   */
  predicate SameUnits(s: Bytes, exponent: nat) {
    match BoundedParts(s)
    case None => true
    case Some((whole, frac)) =>
      && !EndsInDot(s)
      && (exponent >= 1 || |frac| > DEFAULT_EXPONENT || (frac == [] && DigitsValue(whole) == 0))
  }

  lemma WholeUnits(whole: Bytes, e: nat)
    requires Digital(whole)
    ensures BaseUnits(whole, [], e) == DigitsValue(whole) * Pow(10, e)
  {
    hide Pow;
    NoDigits();
  }

  lemma TextInjective(m: nat, n: nat)
    requires Text(m) == Text(n)
    ensures m == n
  {
    hide Text, DigitsValue;
    TextValue(m);
    TextValue(n);
  }

  lemma SmallPowersOfTen()
    ensures Pow(10, 0) == 1 && Pow(10, 6) == 1_000_000
  {
  }

  /** The texts of a whole amount at exponents 0 and 6 are the same for 0 only. */
  lemma ScalesDiffer(whole: Bytes)
    requires Digital(whole)
    ensures Text(BaseUnits(whole, [], 0)) == Text(BaseUnits(whole, [], 6)) <==> DigitsValue(whole) == 0
  {
    hide Text, BaseUnits, DigitsValue, Pow;
    WholeUnits(whole, 0);
    WholeUnits(whole, 6);
    SmallPowersOfTen();
    if Text(BaseUnits(whole, [], 0)) == Text(BaseUnits(whole, [], 6)) {
      TextInjective(BaseUnits(whole, [], 0), BaseUnits(whole, [], 6));
    }
  }

  /** On every text and every exponent, the two conversions to base units answer alike iff SameUnits. */
  lemma BoundedUnitsAgree(amount: Bytes, exponent: nat)
    ensures BoundedUnits(amount, exponent) == QorToUqor(amount, exponent) <==> SameUnits(TrimSpace(amount), exponent)
  {
    hide TrimSpace, DecimalParts, BoundedParts, FirstOf, Text, BaseUnits, DigitsValue, QorToUqor, EndsInDot;
    var s := TrimSpace(amount);
    PartsAgree(s);
    QorToUqorExact(amount, exponent);
    if BoundedParts(s).Some? {
      var (whole, frac) := BoundedParts(s).value;
      if frac == [] { ScalesDiffer(whole); }
    }
  }

  lemma Five()
    ensures DigitsValue([53]) == 5
  {
    hide DigitsValue;
    NoDigits();
    DigitsPush([], 53);
    assert [] + [53] == [53];
  }

  /** "5." is 5000000 base units to the bounded form; the other refuses it. */
  lemma TrailingDot()
    ensures BoundedUnits(Ascii("5."), 6) == Ok(Text(5_000_000)) && QorToUqor(Ascii("5."), 6) == Err(InvalidAmount)
  {
    var s: Bytes := [53, DOT];
    assert Ascii("5.") == s;
    assert TrimSpace(s) == s;
    assert s[1..] == [DOT];
    assert FirstOf(s, DOT) == 1;
    assert s[..1] == [53] && s[2..] == [];
    assert BoundedParts(s) == Some(([53], []));
    assert DigitsValue([53]) == 5 by { Five(); }
    hide FirstOf, TrimSpace, Text, DigitsValue, Pow;
    WholeUnits([53], 6);
    SmallPowersOfTen();
  }

  // ---------------------------------------------------------------------------
  // Base units to display

  /** uqor_to_qor: the fraction is printed in `exponent` digits, filled up with zeros. */
  function BoundedUqorToQor(amount: Bytes, exponent: nat): Result<Bytes, BoundedError> {
    hide Pow, Text, Padded, DigitsValue;
    var t := TrimSpace(amount);
    if !AllDigits(t) || !Fits128(DigitsValue(t)) then Err(Refused)
    else if !Fits128(Pow(10, exponent)) then Err(Overflow)
    else
      var value, base := DigitsValue(t), Pow(10, exponent);
      var whole, frac := value / base, value % base;
      Ok(if frac == 0 then Text(whole) else Text(whole) + [DOT] + TrimRight(Padded(frac, exponent)))
  }

  /** 10 to the 38 is the largest power of ten in 128 bits. */
  lemma LargestPower(e: nat)
    ensures Fits128(Pow(10, e)) <==> e <= 38
  {
    PowersOfTen();
    hide Pow;
    if e <= 38 { PowerMonotone(e, 38); } else { PowerMonotone(39, e); }
  }

  lemma PowersOfTen()
    ensures Fits128(Pow(10, 38)) && !Fits128(Pow(10, 39))
  {
    TenTimes(38);
    assert Pow(10, 4) == 10000;
    hide Pow;
    PowerSum(4, 4);
    PowerSum(8, 8);
    PowerSum(16, 16);
    PowerSum(32, 4);
    TenTimes(36);
    TenTimes(37);
  }

  lemma {:induction false} PowerMonotone(m: nat, n: nat)
    requires m <= n
    ensures Pow(10, m) <= Pow(10, n)
    decreases n
  {
    if m == n {
    } else {
      PowerMonotone(m, n - 1);
    }
  }

  /** Where nothing overflows and the exponent is not 0, the bounded display text is the unbounded one. */
  lemma DisplayAgrees(amount: Bytes, exponent: nat)
    requires 1 <= exponent <= 38 && AllDigits(TrimSpace(amount)) && Fits128(DigitsValue(TrimSpace(amount)))
    ensures BoundedUqorToQor(amount, exponent) == Ok(QorText(DigitsValue(TrimSpace(amount)), exponent))
  {
    hide TrimSpace, DigitsValue, Text, Padded, TrimRight, Pow;
    LargestPower(exponent);
    var frac := DigitsValue(TrimSpace(amount)) % Pow(10, exponent);
    PaddedIsText(frac, exponent);
  }

  /** At exponent 0 the bounded form prints the base units themselves. */
  lemma DisplayAtZero(amount: Bytes)
    requires AllDigits(TrimSpace(amount)) && Fits128(DigitsValue(TrimSpace(amount)))
    ensures BoundedUqorToQor(amount, 0) == Ok(Text(DigitsValue(TrimSpace(amount))))
  {
    hide TrimSpace, DigitsValue, Text, Padded, TrimRight, Pow;
    SmallPowersOfTen();
    var v := DigitsValue(TrimSpace(amount));
    assert v / 1 == v && v % 1 == 0;
  }

  /** A number shown at exponent 6 looks like its own text only if it is 0. */
  lemma ShownAsItself(v: nat)
    ensures QorText(v, DEFAULT_EXPONENT) == Text(v) <==> v == 0
  {
    SmallPowersOfTen();
    hide Pow, Text, DigitsValue, DecimalParts, TrimRight, TrimSpace;
    if v == 0 {
      assert 0 / 1_000_000 == 0 && 0 % 1_000_000 == 0;
    } else if QorText(v, DEFAULT_EXPONENT) == Text(v) {
      QorTextParts(v, DEFAULT_EXPONENT);
      NoDot(Text(v));
      TextValue(v);
      WholeUnits(Text(v), DEFAULT_EXPONENT);
    }
  }

  /** The text is refused by both, or it fits 128 bits and the exponent is 1 to 38, or 0 with nothing to show. */
  predicate SameDisplay(t: Bytes, exponent: nat) {
    || !AllDigits(t)
    || (Fits128(DigitsValue(t)) && (1 <= exponent <= 38 || (exponent == 0 && DigitsValue(t) == 0)))
  }

  /** On every text and every exponent, the two display conversions agree iff SameDisplay. */
  lemma BoundedDisplayAgrees(amount: Bytes, exponent: nat)
    ensures Agree(UqorToQor(amount, exponent), BoundedUqorToQor(amount, exponent))
       <==> SameDisplay(TrimSpace(amount), exponent)
  {
    hide TrimSpace, DigitsValue, Text, QorText, Pow, TrimRight, Padded;
    var t := TrimSpace(amount);
    LargestPower(exponent);
    if AllDigits(t) && Fits128(DigitsValue(t)) {
      if exponent == 0 {
        DisplayAtZero(amount);
        ShownAsItself(DigitsValue(t));
      } else if exponent <= 38 {
        DisplayAgrees(amount, exponent);
      }
    }
  }

  /** At exponent 0 the forms differ in both directions: 5 stays 5 in one and is scaled by 10^6 in the other. */
  lemma ExponentZeroDiffers()
    ensures BoundedUqorToQor(Ascii("5"), 0) == Ok(Text(5)) && UqorToQor(Ascii("5"), 0) == Ok(QorText(5, 6))
    ensures Text(5) != QorText(5, 6)
    ensures BoundedUnits(Ascii("5"), 0) == Ok(Text(5)) && QorToUqor(Ascii("5"), 0) == Ok(Text(5_000_000))
  {
    var s: Bytes := [53];
    assert Ascii("5") == s && TrimSpace(s) == s;
    assert AllDigits(s) && DigitsValue(s) == 5 by { Five(); }
    hide TrimSpace, DigitsValue, Text, QorText, Pow, DecimalParts, BoundedParts, EndsInDot;
    DisplayAtZero(s);
    ShownAsItself(5);
    NoDot(s);
    PartsAgree(s);
    QorToUqorExact(s, 0);
    WholeUnits(s, 0);
    WholeUnits(s, 6);
    SmallPowersOfTen();
  }

  // ---------------------------------------------------------------------------
  // The cost estimate

  /** mul_decimal_floor; an intermediate value outside u128 is a panic. */
  function BoundedMulFloor(amount: nat, decimal: Bytes): Result<nat, BoundedError> {
    match BoundedParts(TrimSpace(decimal))
    case None => Err(Refused)
    case Some((whole, frac)) => BoundedFloor(amount, JoinedValue(whole, frac), Pow(10, |frac|))
  }

  function BoundedFloor(amount: nat, numerator: nat, scale: nat): Result<nat, BoundedError>
    requires scale > 0
  {
    if !Fits128(scale) then Err(Overflow)
    else if !Fits128(numerator) then Err(Refused)
    else if !Fits128(amount * numerator) then Err(Overflow)
    else Ok(TruncDiv(amount * numerator, scale))
  }

  /** estimate_creation_cost: only an absent rate stands for the default, an empty one does not. */
  function BoundedEstimate(stakeUqor: Bytes, burnRate: Option<Bytes>): Result<CreationCost, BoundedError> {
    var t := TrimSpace(stakeUqor);
    var rate := RateUsed(burnRate);
    if !AllDigits(t) || !Fits128(DigitsValue(t)) then Err(Refused)
    else
      var stake := DigitsValue(t);
      match BoundedMulFloor(stake, rate)
      case Err(e) => Err(e)
      case Ok(burn) => if burn > stake then Err(Overflow) else Ok(CostOf(stake, burn, rate))
  }

  function RateUsed(burnRate: Option<Bytes>): Bytes {
    if burnRate.None? then DEFAULT_BURN_RATE else burnRate.value
  }

  /** How the unbounded form is passed the same rate: absent is empty. */
  function RateText(burnRate: Option<Bytes>): Bytes { if burnRate.None? then [] else burnRate.value }

  /** No intermediate value leaves 128 bits and the burn does not exceed the stake. */
  predicate NothingOverflows(stake: nat, numerator: nat, scale: nat) {
    Fits128(stake) && Fits128(numerator) && Fits128(scale) && Fits128(stake * numerator)
    && stake * numerator < (stake + 1) * scale
  }

  /** When both estimates answer alike for a stake of known digits and a rate that is not the empty text. */
  predicate SameCost(stake: nat, rate: Bytes) {
    match BoundedParts(TrimSpace(rate))
    case None => true
    case Some((whole, frac)) =>
      if EndsInDot(TrimSpace(rate)) then !Fits128(stake) || !Fits128(JoinedValue(whole, frac))
      else NothingOverflows(stake, JoinedValue(whole, frac), Pow(10, |frac|))
  }

  lemma DefaultRate()
    ensures DEFAULT_BURN_RATE != [] && Rate(DEFAULT_BURN_RATE).Some?
    ensures DecimalParts(TrimSpace(DEFAULT_BURN_RATE)).Some?
  {
    var a: Bytes, b: Bytes := [48], [48, 49];
    assert DEFAULT_BURN_RATE == a + [DOT] + b;
    OneDot(a, b);
  }

  /** The estimates for a rate in use, absent or given, but not the empty text. */
  lemma CostAgrees(stake: nat, rate: Bytes)
    ensures var go := match MulDecimalFloor(stake, rate)
                      case None => Err(InvalidAmount)
                      case Some(burn) => Ok(CostOf(stake, burn, rate));
            var bounded := if !Fits128(stake) then Err(Refused)
              else match BoundedMulFloor(stake, rate)
                   case Err(e) => Err(e)
                   case Ok(burn) => if burn > stake then Err(Overflow) else Ok(CostOf(stake, burn, rate));
            Agree(go, bounded) <==> SameCost(stake, rate)
  {
    hide TrimSpace, DigitsValue, DecimalParts, BoundedParts, Text, FirstOf, JoinedValue, EndsInDot;
    PartsAgree(TrimSpace(rate));
    if Rate(rate).Some? { BurnExact(stake, rate); }
    SmallPowersOfTen();
    hide Pow;
  }

  /** The stake is refused by both, or the rate is not the empty text and SameCost holds of the rate in use. */
  predicate SameEstimate(t: Bytes, burnRate: Option<Bytes>) {
    !AllDigits(t) || (burnRate != Some([]) && SameCost(DigitsValue(t), RateUsed(burnRate)))
  }

  /** On every stake and every rate, absent ones included, the two estimates agree iff SameEstimate. */
  lemma BoundedCostAgrees(stakeUqor: Bytes, burnRate: Option<Bytes>)
    ensures Agree(EstimateCreationCost(stakeUqor, RateText(burnRate)), BoundedEstimate(stakeUqor, burnRate))
       <==> SameEstimate(TrimSpace(stakeUqor), burnRate)
  {
    hide TrimSpace, Ascii, DigitsValue, MulDecimalFloor, BoundedMulFloor, Text, SameCost, CostOf;
    var t := TrimSpace(stakeUqor);
    DefaultRate();
    if AllDigits(t) {
      CostAgrees(DigitsValue(t), RateUsed(burnRate));
      if burnRate == Some([]) { EmptyRate(DigitsValue(t)); }
    }
  }

  /** The empty rate is no decimal to the bounded form and the default to the other. */
  lemma EmptyRate(stake: nat)
    ensures BoundedMulFloor(stake, []) == Err(Refused) && MulDecimalFloor(stake, DEFAULT_BURN_RATE).Some?
  {
    DefaultRate();
    hide Ascii;
    assert TrimSpace([]) == [];
  }

  // ---------------------------------------------------------------------------
  // What a rate is

  /** A rate with parts w and f is (w * 10^|f| + f) / 10^|f|. */
  lemma RateExact(decimal: Bytes, whole: Bytes, frac: Bytes)
    requires DecimalParts(TrimSpace(decimal)) == Some((whole, frac))
    ensures Rate(decimal) == Some((DigitsValue(whole) * Pow(10, |frac|) + DigitsValue(frac), Pow(10, |frac|)))
  {
    hide TrimSpace, DecimalParts, Pow, DigitsValue;
    DigitsAppend(whole, frac);
  }

  /** The burn of a stake at a rate of w.f is the floor of their exact product. */
  lemma BurnIsFloor(stake: nat, decimal: Bytes, whole: Bytes, frac: Bytes)
    requires DecimalParts(TrimSpace(decimal)) == Some((whole, frac))
    ensures MulDecimalFloor(stake, decimal).Some?
    ensures var scale := Pow(10, |frac|);
            var product := stake * (DigitsValue(whole) * scale + DigitsValue(frac));
            var burn := MulDecimalFloor(stake, decimal).value;
            burn * scale <= product < (burn + 1) * scale
  {
    hide TrimSpace, DecimalParts, Pow, DigitsValue, Rate, MulDecimalFloor;
    RateExact(decimal, whole, frac);
    BurnExact(stake, decimal);
  }

  /** Without a rate one hundredth of the stake is burned. */
  lemma DefaultBurn(stakeUqor: Bytes)
    requires AllDigits(TrimSpace(stakeUqor))
    ensures EstimateCreationCost(stakeUqor, []).Ok?
    ensures ReadInt(EstimateCreationCost(stakeUqor, []).value.burn) == DigitsValue(TrimSpace(stakeUqor)) / 100
  {
    hide TrimSpace, DigitsValue, MulDecimalFloor, ReadInt, Ascii;
    var stake := DigitsValue(TrimSpace(stakeUqor));
    BurnAtDefault(stake);
    CostConserves(stakeUqor, []);
  }

  lemma BurnAtDefault(stake: nat)
    ensures MulDecimalFloor(stake, DEFAULT_BURN_RATE) == Some(stake / 100)
  {
    hide TrimSpace, DecimalParts, Pow, DigitsValue, MulDecimalFloor;
    DefaultParts();
    HundredthParts();
    BurnIsFloor(stake, DEFAULT_BURN_RATE, [48], [48, 49]);
    FloorOfHundredth(stake, MulDecimalFloor(stake, DEFAULT_BURN_RATE).value);
  }

  lemma DefaultParts()
    ensures DecimalParts(TrimSpace(DEFAULT_BURN_RATE)) == Some(([48], [48, 49]))
  {
    var zero: Bytes, hundredth: Bytes := [48], [48, 49];
    assert DEFAULT_BURN_RATE == zero + [DOT] + hundredth;
    hide TrimSpace, DecimalParts;
    OneDot(zero, hundredth);
  }

  lemma HundredthParts()
    ensures DigitsValue([48]) == 0 && DigitsValue([48, 49]) == 1 && Pow(10, 2) == 100
  {
    ZeroDigit();
    DigitsPush([48], 49);
    assert [48] + [49] == [48, 49];
  }

  lemma FloorOfHundredth(stake: nat, burn: int)
    requires burn * 100 <= stake * (0 * 100 + 1) < (burn + 1) * 100
    ensures burn == stake / 100
  {
  }
}
