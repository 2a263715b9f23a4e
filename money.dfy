/** The monetary value type: an exact amount in a currency, checked against the
    one rate table configured for the whole process. */
module MoneyValue {
  import opened Wrappers
  import opened MoneyErrors
  import opened ConversionRates

  /** `Money.new(amount, currency)` against the configured slot: no table
      fails first, then a currency the table does not know. The amount is
      kept unchanged. */
  function New(slot: Option<RateTable>, amount: real, currency: string): (r: Result<Money, Error>)
    ensures slot.None? ==> r == Failure(ConversionRatesNotSet)
    ensures slot.Some? && !slot.value.ValidCurrency(currency) ==> r == Failure(InvalidCurrency)
    ensures slot.Some? && slot.value.ValidCurrency(currency) ==> r == Success(Money(amount, currency))
    ensures r.Success? ==> slot.Some? && slot.value.ValidCurrency(r.value.currency) && r.value.amount == amount
  {
    if slot.None? then Failure(ConversionRatesNotSet)
    else if !slot.value.ValidCurrency(currency) then Failure(InvalidCurrency)
    else Success(Money(amount, currency))
  }

  /** An amount and a currency. The operations take the table configured at
      the time of the call; a Money only exists once some table has been set,
      and the slot is never cleared afterwards. */
  datatype Money = Money(amount: real, currency: string)
  {
    /** `convert_to`: the target must be known; the result is in the target
        currency and scaled by the conversion rate. */
    function ConvertTo(table: RateTable, target: string): (r: Result<Money, Error>)
      requires table.Valid()
      ensures !table.ValidCurrency(target) ==> r == Failure(InvalidCurrency)
      ensures table.ValidCurrency(target) && !table.ValidCurrency(currency) ==> r == Failure(UndefinedRate)
      ensures table.ValidCurrency(target) && table.ValidCurrency(currency) ==>
        r == Success(Money(amount * table.ConversionRate(currency, target), target))
    {
      if !table.ValidCurrency(target) then Failure(InvalidCurrency)
      else if !table.ValidCurrency(currency) then Failure(UndefinedRate)
      else New(Some(table), amount * table.ConversionRate(currency, target), target)
    }

    /** `+`: the right operand is first converted into this currency. */
    function Plus(table: RateTable, other: Money): (r: Result<Money, Error>)
      requires table.Valid()
      ensures !table.ValidCurrency(currency) ==> r == Failure(InvalidCurrency)
      ensures table.ValidCurrency(currency) && !table.ValidCurrency(other.currency) ==> r == Failure(UndefinedRate)
      ensures table.ValidCurrency(currency) && table.ValidCurrency(other.currency) ==>
        r == Success(Money(amount + other.amount * table.ConversionRate(other.currency, currency), currency))
    {
      var converted := other.ConvertTo(table, currency);
      if converted.Failure? then Failure(converted.error)
      else
        var result := New(Some(table), amount + converted.value.amount, currency);
        SucceedsWith(result, amount + other.amount * table.ConversionRate(other.currency, currency), currency);
        result
    }

    /** `-`: the right operand is first converted into this currency. */
    function Minus(table: RateTable, other: Money): (r: Result<Money, Error>)
      requires table.Valid()
      ensures !table.ValidCurrency(currency) ==> r == Failure(InvalidCurrency)
      ensures table.ValidCurrency(currency) && !table.ValidCurrency(other.currency) ==> r == Failure(UndefinedRate)
      ensures table.ValidCurrency(currency) && table.ValidCurrency(other.currency) ==>
        r == Success(Money(amount - other.amount * table.ConversionRate(other.currency, currency), currency))
    {
      var converted := other.ConvertTo(table, currency);
      if converted.Failure? then Failure(converted.error)
      else
        var result := New(Some(table), amount - converted.value.amount, currency);
        SucceedsWith(result, amount - other.amount * table.ConversionRate(other.currency, currency), currency);
        result
    }

    /** `/`: a zero divisor fails before anything else; otherwise the amount is
        divided and the currency kept. */
    function Divide(table: RateTable, divisor: real): (r: Result<Money, Error>)
      ensures divisor == 0.0 ==> r == Failure(ZeroDivision)
      ensures divisor != 0.0 && !table.ValidCurrency(currency) ==> r == Failure(InvalidCurrency)
      ensures divisor != 0.0 && table.ValidCurrency(currency) ==> r == Success(Money(amount / divisor, currency))
    {
      if divisor == 0.0 then Failure(ZeroDivision)
      else New(Some(table), amount / divisor, currency)
    }

    /** `*`: the amount is scaled and the currency kept, with no conversion. */
    function Times(table: RateTable, factor: real): (r: Result<Money, Error>)
      ensures !table.ValidCurrency(currency) ==> r == Failure(InvalidCurrency)
      ensures table.ValidCurrency(currency) ==> r == Success(Money(amount * factor, currency))
    {
      New(Some(table), amount * factor, currency)
    }
  }

  /** The class-level slot `Money.rates`, together with its setter. */
  class Configuration {
    var rates: Option<RateTable>

    /** A configured table is always one that construction accepted. */
    ghost predicate Valid()
      reads this
    {
      rates.Some? ==> rates.value.Valid()
    }

    /** At load time no table is set. */
    constructor ()
      ensures Valid() && rates == None
    {
      rates := None;
    }

    /** `Money.conversion_rates(base, entries)`: builds a table and, only if
        that succeeds, replaces the configured one with it. */
    method SetConversionRates(base: string, entries: seq<RateEntry>) returns (r: Result<RateTable, Error>)
      requires Valid()
      modifies this
      ensures Valid()
      ensures r == Construct(base, entries)
      ensures rates == if r.Success? then Some(r.value) else old(rates)
    {
      r := Build(base, entries);
      if r.Success? {
        ConstructedTable(base, entries);
        rates := Some(r.value);
      }
    }
  }

  // ---------------------------------------------------------------------------
  // Exact arithmetic facts, stated over plain reals so the solver need not
  // unfold the rate functions while using them

  lemma ScaleThereAndBack(x: real, r: real, r': real)
    requires r * r' == 1.0
    ensures (x * r) * r' == x
  {
    assert (x * r) * r' == x * (r * r');
  }

  lemma ScaleTwice(x: real, r1: real, r2: real)
    ensures (x * r1) * r2 == x * (r1 * r2)
  {
  }

  lemma ScaleSum(x: real, y: real, p: real, q: real)
    requires p * q == 1.0
    ensures (x + y * p) * q == y + x * q
  {
    assert (x + y * p) * q == x * q + y * (p * q);
  }

  // ---------------------------------------------------------------------------
  // Properties of the value operations

  /** No operation yields a value whose currency the table does not know. */
  lemma ResultsAreKnown(t: RateTable, m: Money, other: Money, target: string, x: real)
    requires t.Valid()
    ensures m.ConvertTo(t, target).Success? ==> t.ValidCurrency(m.ConvertTo(t, target).value.currency)
    ensures m.Plus(t, other).Success? ==> t.ValidCurrency(m.Plus(t, other).value.currency)
    ensures m.Minus(t, other).Success? ==> t.ValidCurrency(m.Minus(t, other).value.currency)
    ensures m.Divide(t, x).Success? ==> t.ValidCurrency(m.Divide(t, x).value.currency)
    ensures m.Times(t, x).Success? ==> t.ValidCurrency(m.Times(t, x).value.currency)
  {
  }

  /** A successful result is determined by its amount and currency. */
  lemma SucceedsWith(r: Result<Money, Error>, amount: real, currency: string)
    requires r.Success? && r.value.amount == amount && r.value.currency == currency
    ensures r == Success(Money(amount, currency))
  {
  }

  /** Between known currencies conversion succeeds, scaling the amount by the rate. */
  lemma ConvertParts(t: RateTable, m: Money, target: string)
    requires t.Valid() && t.ValidCurrency(m.currency) && t.ValidCurrency(target)
    ensures m.ConvertTo(t, target).Success?
    ensures m.ConvertTo(t, target).value.amount == m.amount * t.ConversionRate(m.currency, target)
    ensures m.ConvertTo(t, target).value.currency == target
  {
  }

  /** Converting to one's own currency changes nothing. */
  lemma ConvertToOwnCurrency(t: RateTable, m: Money)
    requires t.Valid() && t.ValidCurrency(m.currency)
    ensures m.ConvertTo(t, m.currency) == Success(m)
  {
  }

  /** Converting there and back gives the original amount (in exact arithmetic). */
  lemma ConvertRoundTrip(t: RateTable, m: Money, target: string)
    requires t.Valid() && t.ValidCurrency(m.currency) && t.ValidCurrency(target)
    ensures m.ConvertTo(t, target).Success?
    ensures m.ConvertTo(t, target).value.ConvertTo(t, m.currency) == Success(m)
  {
    ConvertParts(t, m, target);
    var there := m.ConvertTo(t, target).value;
    ConvertParts(t, there, m.currency);
    RateInverse(t, m.currency, target);
    ScaleThereAndBack(m.amount, t.ConversionRate(m.currency, target), t.ConversionRate(target, m.currency));
    SucceedsWith(there.ConvertTo(t, m.currency), m.amount, m.currency);
  }

  /** Converting through an intermediate currency is converting directly. */
  lemma ConvertThrough(t: RateTable, m: Money, via: string, target: string)
    requires t.Valid() && t.ValidCurrency(m.currency) && t.ValidCurrency(via) && t.ValidCurrency(target)
    ensures m.ConvertTo(t, via).Success?
    ensures m.ConvertTo(t, via).value.ConvertTo(t, target) == m.ConvertTo(t, target)
  {
    ConvertParts(t, m, via);
    var there := m.ConvertTo(t, via).value;
    ConvertParts(t, there, target);
    ConvertParts(t, m, target);
    RateChain(t, m.currency, via, target);
    ScaleTwice(m.amount, t.ConversionRate(m.currency, via), t.ConversionRate(via, target));
    var direct := m.ConvertTo(t, target).value;
    SucceedsWith(there.ConvertTo(t, target), direct.amount, target);
    SucceedsWith(m.ConvertTo(t, target), direct.amount, target);
  }

  /** With operands of one currency, `+` and `-` are plain addition and subtraction. */
  lemma SameCurrencyArithmetic(t: RateTable, a: Money, b: Money)
    requires t.Valid() && t.ValidCurrency(a.currency) && a.currency == b.currency
    ensures a.Plus(t, b) == Success(Money(a.amount + b.amount, a.currency))
    ensures a.Minus(t, b) == Success(Money(a.amount - b.amount, a.currency))
  {
  }

  /** Subtracting what was added gives back the left operand. */
  lemma MinusUndoesPlus(t: RateTable, a: Money, b: Money)
    requires t.Valid() && t.ValidCurrency(a.currency) && t.ValidCurrency(b.currency)
    ensures a.Plus(t, b).Success?
    ensures a.Plus(t, b).value.Minus(t, b) == Success(a)
  {
    var sum := a.Plus(t, b).value;
    assert sum.amount == a.amount + b.amount * t.ConversionRate(b.currency, a.currency);
    assert sum.currency == a.currency;
    SucceedsWith(sum.Minus(t, b), a.amount, a.currency);
  }

  /** Addition keeps the left operand's currency, yet its value does not depend
      on the order: the sum converted into the right operand's currency is the
      reversed sum. */
  lemma PlusCommutesInValue(t: RateTable, a: Money, b: Money)
    requires t.Valid() && t.ValidCurrency(a.currency) && t.ValidCurrency(b.currency)
    ensures a.Plus(t, b).Success? && b.Plus(t, a).Success?
    ensures a.Plus(t, b).value.ConvertTo(t, b.currency) == b.Plus(t, a)
  {
    var rab, rba := t.ConversionRate(a.currency, b.currency), t.ConversionRate(b.currency, a.currency);
    var sum := a.Plus(t, b).value;
    assert sum.amount == a.amount + b.amount * rba && sum.currency == a.currency;
    var reversed := b.Plus(t, a).value;
    assert reversed.amount == b.amount + a.amount * rab && reversed.currency == b.currency;
    ConvertParts(t, sum, b.currency);
    RateInverse(t, b.currency, a.currency);
    ScaleSum(a.amount, b.amount, rba, rab);
    SucceedsWith(sum.ConvertTo(t, b.currency), reversed.amount, b.currency);
    SucceedsWith(b.Plus(t, a), reversed.amount, b.currency);
  }

  /** Dividing by the factor undoes multiplying by it. */
  lemma DivideUndoesTimes(t: RateTable, m: Money, factor: real)
    requires t.ValidCurrency(m.currency) && factor != 0.0
    ensures m.Times(t, factor).Success?
    ensures m.Times(t, factor).value.Divide(t, factor) == Success(m)
  {
    var scaled := m.Times(t, factor).value;
    assert scaled.amount == m.amount * factor && scaled.currency == m.currency;
    assert (m.amount * factor) / factor == m.amount;
    SucceedsWith(scaled.Divide(t, factor), m.amount, m.currency);
  }

  // ---------------------------------------------------------------------------
  // The library's test scenarios, checked on exact amounts

  /** Conversions of the example table. */
  lemma ExampleConversions()
    ensures Money(50.0, "EUR").ConvertTo(ExampleTable(), "USD") == Success(Money(55.5, "USD"))
    ensures Money(55.5, "USD").ConvertTo(ExampleTable(), "EUR") == Success(Money(50.0, "EUR"))
    ensures Money(50.0, "USD").ConvertTo(ExampleTable(), "Bitcoin") == Success(Money(50.0 / 1.11 * 0.0047, "Bitcoin"))
    ensures New(Some(ExampleTable()), 1.0, "Aurum") == Failure(InvalidCurrency)
    ensures New(None, 50.0, "EUR") == Failure(ConversionRatesNotSet)
  {
    ExampleConstruction();
  }

  /** Sums, differences, products and quotients of the example table. */
  lemma ExampleArithmetic()
    ensures Money(50.0, "USD").Plus(ExampleTable(), Money(25.0, "USD")) == Success(Money(75.0, "USD"))
    ensures Money(50.0, "USD").Plus(ExampleTable(), Money(50.0, "EUR")) == Success(Money(105.5, "USD"))
    ensures Money(50.0, "USD").Minus(ExampleTable(), Money(25.0, "USD")) == Success(Money(25.0, "USD"))
    ensures Money(50.0, "EUR").Minus(ExampleTable(), Money(50.0, "USD")) == Success(Money(550.0 / 111.0, "EUR"))
    ensures Money(50.0, "EUR").Divide(ExampleTable(), 2.0) == Success(Money(25.0, "EUR"))
    ensures Money(40.0, "USD").Divide(ExampleTable(), 4.5) == Success(Money(80.0 / 9.0, "USD"))
    ensures Money(100.0, "USD").Divide(ExampleTable(), 3.0) == Success(Money(100.0 / 3.0, "USD"))
    ensures Money(50.0, "EUR").Divide(ExampleTable(), 0.0) == Failure(ZeroDivision)
    ensures Money(50.0, "EUR").Times(ExampleTable(), 2.0) == Success(Money(100.0, "EUR"))
    ensures Money(40.0, "USD").Times(ExampleTable(), 3.5) == Success(Money(140.0, "USD"))
  {
    ExampleConstruction();
  }

  /** The setup of the library's tests: a value cannot be built before the
      table is configured; a failed reconfiguration keeps the table in place;
      a successful one replaces it, stranding a value built against the old one. */
  method ConfigurationSession() returns (early: Result<Money, Error>, rejected: Result<RateTable, Error>, stranded: Result<Money, Error>)
    ensures early == Failure(ConversionRatesNotSet)
    ensures rejected == Failure(InvalidConfiguration(BaseCurrencyNotProvided))
    ensures stranded == Failure(UndefinedRate)
  {
    var cfg := new Configuration();
    early := New(cfg.rates, 50.0, "EUR");

    ExampleConstruction();
    var configured := cfg.SetConversionRates("EUR", ExampleEntries());
    assert cfg.rates == Some(ExampleTable());

    rejected := cfg.SetConversionRates("", []);
    assert cfg.rates == Some(ExampleTable());

    var euros := New(cfg.rates, 50.0, "EUR");
    assert euros == Success(Money(50.0, "EUR"));

    var replaced := cfg.SetConversionRates("USD", [RateEntry("GBP", Number(0.8))]);
    assert Acceptable([RateEntry("GBP", Number(0.8))][0]);
    assert cfg.rates.Some? && cfg.rates.value.baseCurrency == "USD";
    // The euro value now names a currency the new table does not know.
    assert "EUR" !in RatesOf([RateEntry("GBP", Number(0.8))]);
    stranded := euros.value.ConvertTo(cfg.rates.value, "USD");
  }
}
