/** The exchange-rate table: a base currency and, for every other currency,
    how many of its units one unit of the base currency buys. All conversions
    route through the base currency. BigDecimal values are exact reals here. */
module ConversionRates {
  import opened Wrappers
  import opened MoneyErrors

  /** A rate as handed to the constructor, before it is read as a decimal. */
  datatype RateValue = Number(value: real) | NonNumeric

  /** One `(currency, rate)` pair of the input hash; the hash is a sequence in insertion order. */
  datatype RateEntry = RateEntry(currency: string, value: RateValue)

  /** The decimal a rate reads as: a number is itself, anything else reads as zero. */
  function ParseDecimal(v: RateValue): real
  {
    match v
    case Number(x) => x
    case NonNumeric => 0.0
  }

  /** An entry the constructor accepts: a non-empty currency and a non-zero rate. */
  predicate Acceptable(e: RateEntry)
  {
    e.currency != "" && ParseDecimal(e.value) != 0.0
  }

  /** The map the constructor accumulates: entries inserted in order, a later
      entry for the same currency replacing an earlier one. */
  function RatesOf(entries: seq<RateEntry>): (r: map<string, real>)
    ensures |r| <= |entries|
  {
    if |entries| == 0 then map[]
    else
      var last := entries[|entries| - 1];
      RatesOf(entries[..|entries| - 1])[last.currency := ParseDecimal(last.value)]
  }

  datatype RateTable = RateTable(baseCurrency: string, rates: map<string, real>)
  {
    /** What construction guarantees of every table. */
    ghost predicate Valid()
    {
      baseCurrency != "" && forall c :: c in rates ==> c != "" && rates[c] != 0.0
    }

    /** A currency is known when it is the base currency or has a rate. The
        base currency needs no rate, and in a valid table the empty code is
        never known. */
    predicate ValidCurrency(c: string): (b: bool)
      ensures c == baseCurrency ==> b
      ensures Valid() && b ==> c != ""
    {
      c == baseCurrency || c in rates
    }

    /** Units of the base currency that one unit of `c` buys. */
    function ToBaseRate(c: string): (r: real)
      requires Valid() && ValidCurrency(c)
      ensures r != 0.0
      ensures r * FromBaseRate(c) == 1.0
    {
      if c == baseCurrency then 1.0 else 1.0 / rates[c]
    }

    /** Units of `c` that one unit of the base currency buys. */
    function FromBaseRate(c: string): (r: real)
      requires Valid() && ValidCurrency(c)
      ensures r != 0.0
      ensures c != baseCurrency ==> r == rates[c]
    {
      if c == baseCurrency then 1.0 else rates[c]
    }

    /** The factor that turns an amount in `source` into an amount in `target`.
        The lookups of an unknown currency fail in the source, unless the two
        currencies are the same. */
    function ConversionRate(source: string, target: string): (r: real)
      requires Valid()
      requires source == target || (ValidCurrency(source) && ValidCurrency(target))
      ensures r != 0.0
      ensures source == target ==> r == 1.0
    {
      if source == target then 1.0 else ToBaseRate(source) * FromBaseRate(target)
    }
  }

  /** What `Money::ConversionRates.new(base, entries)` produces: the base
      currency is checked before any entry, then every entry is checked. */
  function Construct(base: string, entries: seq<RateEntry>): (r: Result<RateTable, Error>)
    ensures r.Failure? ==> r.error.InvalidConfiguration?
    ensures r.Success? ==> r.value.baseCurrency == base && r.value.rates == RatesOf(entries) && r.value.Valid()
  {
    if base == "" then Failure(InvalidConfiguration(BaseCurrencyNotProvided))
    else if exists i :: 0 <= i < |entries| && !Acceptable(entries[i]) then
      Failure(InvalidConfiguration(RatesNotValid))
    else
      RatesOfAcceptable(entries);
      Success(RateTable(base, RatesOf(entries)))
  }

  /** The constructor: fail fast on an empty base currency, then walk the
      entries, inserting each into the accumulating map and failing at the
      first bad one. */
  method Build(base: string, entries: seq<RateEntry>) returns (r: Result<RateTable, Error>)
    ensures r == Construct(base, entries)
  {
    if base == "" {
      return Failure(InvalidConfiguration(BaseCurrencyNotProvided));
    }
    var memo: map<string, real> := map[];
    var i := 0;
    while i < |entries|
      invariant 0 <= i <= |entries|
      invariant forall j :: 0 <= j < i ==> Acceptable(entries[j])
      invariant memo == RatesOf(entries[..i])
    {
      var currency := entries[i].currency;
      var rate := ParseDecimal(entries[i].value);
      if currency == "" || rate == 0.0 {
        assert !Acceptable(entries[i]);
        return Failure(InvalidConfiguration(RatesNotValid));
      }
      assert entries[..i + 1][..i] == entries[..i];
      memo := memo[currency := rate];
      i := i + 1;
    }
    assert entries[..i] == entries;
    return Success(RateTable(base, memo));
  }

  // ---------------------------------------------------------------------------
  // The accumulated map

  /** The map holds exactly the currencies of the entries. */
  lemma {:induction false} RatesOfKeys(entries: seq<RateEntry>)
    ensures RatesOf(entries).Keys == set i | 0 <= i < |entries| :: entries[i].currency
  {
    if |entries| > 0 {
      var init := entries[..|entries| - 1];
      RatesOfKeys(init);
      var last := entries[|entries| - 1];
      assert forall i :: 0 <= i < |init| ==> init[i] == entries[i];
      var s := set i | 0 <= i < |entries| :: entries[i].currency;
      var s' := set i | 0 <= i < |init| :: init[i].currency;
      assert s == s' + {last.currency} by {
        forall c | c in s ensures c in s' + {last.currency} {
          var i :| 0 <= i < |entries| && entries[i].currency == c;
          if i < |init| { assert init[i].currency == c; }
        }
      }
    }
  }

  /** The value stored for a currency is the rate of its last entry. */
  lemma {:induction false} RatesOfLast(entries: seq<RateEntry>, i: nat)
    requires i < |entries|
    requires forall j :: i < j < |entries| ==> entries[j].currency != entries[i].currency
    ensures entries[i].currency in RatesOf(entries)
    ensures RatesOf(entries)[entries[i].currency] == ParseDecimal(entries[i].value)
  {
    var init := entries[..|entries| - 1];
    if i < |entries| - 1 {
      assert forall j :: i < j < |init| ==> init[j] == entries[j];
      RatesOfLast(init, i);
    }
  }

  /** When every entry is acceptable, every key is non-empty and every stored rate non-zero. */
  lemma {:induction false} RatesOfAcceptable(entries: seq<RateEntry>)
    requires forall i :: 0 <= i < |entries| ==> Acceptable(entries[i])
    ensures forall c :: c in RatesOf(entries) ==> c != "" && RatesOf(entries)[c] != 0.0
  {
    if |entries| > 0 {
      var init := entries[..|entries| - 1];
      assert forall i :: 0 <= i < |init| ==> init[i] == entries[i];
      RatesOfAcceptable(init);
      assert Acceptable(entries[|entries| - 1]);
    }
  }

  // ---------------------------------------------------------------------------
  // Construction

  /** An empty base currency fails, whatever the entries: it is checked first. */
  lemma EmptyBaseFailsFirst(entries: seq<RateEntry>)
    ensures Construct("", entries) == Failure(InvalidConfiguration(BaseCurrencyNotProvided))
  {
  }

  /** With a base currency given, one empty key or zero rate anywhere fails the whole construction. */
  lemma BadEntryFails(base: string, entries: seq<RateEntry>, i: nat)
    requires base != "" && i < |entries|
    requires entries[i].currency == "" || ParseDecimal(entries[i].value) == 0.0
    ensures Construct(base, entries) == Failure(InvalidConfiguration(RatesNotValid))
  {
    assert !Acceptable(entries[i]);
  }

  /** Construction succeeds exactly when the base currency is non-empty and every entry is acceptable. */
  lemma ConstructSucceedsIff(base: string, entries: seq<RateEntry>)
    ensures Construct(base, entries).Success? <==>
      base != "" && forall i :: 0 <= i < |entries| ==> entries[i].currency != "" && ParseDecimal(entries[i].value) != 0.0
  {
    if base != "" && Construct(base, entries).Failure? {
      var i :| 0 <= i < |entries| && !Acceptable(entries[i]);
    }
  }

  /** A constructed table keeps the base currency, holds exactly the input
      currencies as keys, and satisfies the table invariant. */
  lemma ConstructedTable(base: string, entries: seq<RateEntry>)
    requires Construct(base, entries).Success?
    ensures Construct(base, entries).value.baseCurrency == base
    ensures Construct(base, entries).value.rates.Keys == set i | 0 <= i < |entries| :: entries[i].currency
    ensures Construct(base, entries).value.Valid()
  {
    RatesOfKeys(entries);
    RatesOfAcceptable(entries);
  }

  /** In a constructed table, an entry not overridden later gives the stored rate. */
  lemma ConstructedRate(base: string, entries: seq<RateEntry>, i: nat)
    requires Construct(base, entries).Success?
    requires i < |entries|
    requires forall j :: i < j < |entries| ==> entries[j].currency != entries[i].currency
    ensures entries[i].currency in Construct(base, entries).value.rates
    ensures Construct(base, entries).value.rates[entries[i].currency] == ParseDecimal(entries[i].value)
  {
    RatesOfLast(entries, i);
  }

  /** In a constructed table, a currency is known iff it is the base currency or
      the currency of some entry: the base currency needs no entry. */
  lemma ConstructedValidCurrency(base: string, entries: seq<RateEntry>, c: string)
    requires Construct(base, entries).Success?
    ensures Construct(base, entries).value.ValidCurrency(c) <==>
      c == base || exists i :: 0 <= i < |entries| && entries[i].currency == c
  {
    RatesOfKeys(entries);
    var keys := set i | 0 <= i < |entries| :: entries[i].currency;
    if c in keys {
      var i :| 0 <= i < |entries| && entries[i].currency == c;
    }
  }

  // ---------------------------------------------------------------------------
  // Conversion rates

  /** From the base currency the rate is the stored rate; into it, its
      reciprocal. The base check wins even if the base currency is also a key. */
  lemma RateAgainstBase(t: RateTable, c: string)
    requires t.Valid() && c in t.rates && c != t.baseCurrency
    ensures t.ConversionRate(t.baseCurrency, c) == t.rates[c]
    ensures t.ConversionRate(c, t.baseCurrency) == 1.0 / t.rates[c]
  {
  }

  /** Between two different non-base currencies the rate is `(1/rates[s]) * rates[u]`,
      the product of the two legs through the base currency. */
  lemma RateBetweenNonBase(t: RateTable, s: string, u: string)
    requires t.Valid() && s in t.rates && u in t.rates
    requires s != u && s != t.baseCurrency && u != t.baseCurrency
    ensures t.ConversionRate(s, u) == (1.0 / t.rates[s]) * t.rates[u]
    ensures t.ConversionRate(s, u) == t.ConversionRate(s, t.baseCurrency) * t.ConversionRate(t.baseCurrency, u)
  {
  }

  /** Rates compose: converting a to b and then b to c is converting a to c. */
  lemma RateChain(t: RateTable, a: string, b: string, c: string)
    requires t.Valid() && t.ValidCurrency(a) && t.ValidCurrency(b) && t.ValidCurrency(c)
    ensures t.ConversionRate(a, b) * t.ConversionRate(b, c) == t.ConversionRate(a, c)
  {
    var ta, fb, tb, fc := t.ToBaseRate(a), t.FromBaseRate(b), t.ToBaseRate(b), t.FromBaseRate(c);
    if a != b && b != c {
      calc {
        t.ConversionRate(a, b) * t.ConversionRate(b, c);
        (ta * fb) * (tb * fc);
        (ta * fc) * (tb * fb);
        { assert tb * fb == 1.0; }
        ta * fc;
      }
      if a == c {
        assert ta * t.FromBaseRate(a) == 1.0;
      }
    }
  }

  /** A rate and its reverse are reciprocal (in exact arithmetic). */
  lemma RateInverse(t: RateTable, s: string, u: string)
    requires t.Valid() && t.ValidCurrency(s) && t.ValidCurrency(u)
    ensures t.ConversionRate(s, u) * t.ConversionRate(u, s) == 1.0
  {
    RateChain(t, s, u, s);
  }

  // ---------------------------------------------------------------------------
  // The table of the library's tests: base EUR, USD = 1.11, Bitcoin = 0.0047

  function ExampleEntries(): seq<RateEntry>
  {
    [RateEntry("USD", Number(1.11)), RateEntry("Bitcoin", Number(0.0047))]
  }

  function ExampleTable(): RateTable
  {
    RateTable("EUR", map["USD" := 1.11, "Bitcoin" := 0.0047])
  }

  /** The example builds the expected table, and the malformed inputs fail. */
  lemma ExampleConstruction()
    ensures Construct("EUR", ExampleEntries()) == Success(ExampleTable())
    ensures ExampleTable().Valid()
    ensures Construct("", []) == Failure(InvalidConfiguration(BaseCurrencyNotProvided))
    ensures Construct("EUR", [RateEntry("", Number(1.11))]) == Failure(InvalidConfiguration(RatesNotValid))
    ensures Construct("EUR", [RateEntry("USD", NonNumeric)]) == Failure(InvalidConfiguration(RatesNotValid))
  {
    var e := ExampleEntries();
    assert Acceptable(e[0]) && Acceptable(e[1]);
    assert e[..1] == [e[0]];
    assert RatesOf(e) == map["USD" := 1.11, "Bitcoin" := 0.0047];
    assert !Acceptable([RateEntry("", Number(1.11))][0]);
    assert !Acceptable([RateEntry("USD", NonNumeric)][0]);
  }

  /** Known currencies and rates of the example table. */
  lemma ExampleRates()
    ensures ExampleTable().ValidCurrency("EUR") && ExampleTable().ValidCurrency("USD")
    ensures !ExampleTable().ValidCurrency("Aurum")
    ensures ExampleTable().ConversionRate("EUR", "EUR") == 1.0
    ensures ExampleTable().ConversionRate("USD", "USD") == 1.0
    ensures ExampleTable().ConversionRate("EUR", "USD") == 1.11
    ensures ExampleTable().ConversionRate("USD", "EUR") == 1.0 / 1.11
    ensures ExampleTable().ConversionRate("USD", "Bitcoin") == 1.0 / 1.11 * 0.0047
  {
  }
}
