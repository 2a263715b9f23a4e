# Money with a base-currency rate table — a Dafny model

This project models the core of a small Ruby money library. A `Money` value is
an exact decimal amount in a currency. A process-wide table of exchange rates
checks every value, and every conversion goes through the table's base
currency.

- `ConversionRates` (in `conversion_rates.dfy`) models `Money::ConversionRates`.
  A `RateTable` is a base currency plus a map from currency code to rate. The
  constructor is the method `Build`, a loop over the input pairs. It fails fast
  on an empty base currency. It then inserts pairs into an accumulating map and
  stops at the first empty key or zero rate. `Construct` is the function that
  specifies it, and `RatesOf` is the map the loop builds. The table's members
  are `ValidCurrency`, `ToBaseRate`, `FromBaseRate` and `ConversionRate`.
  Lemmas prove the table invariant, the exact key set, the lookup rule, and the
  algebra of rates: routing through the base currency, reciprocity and
  composition.
- `MoneyValue` (in `money.dfy`) models `Money`. The class `Configuration` holds
  the class-level slot `Money.rates`. Its method `SetConversionRates` is
  `Money.conversion_rates`: it replaces the slot only when construction
  succeeds. `New` is `Money.new`, checked against the slot. `ConvertTo`, `Plus`,
  `Minus`, `Divide` and `Times` are the instance operations. Each returns a new
  value or an error and never changes its receiver. Each takes the table
  configured at the time of the call.
- `MoneyErrors` (in `errors.dfy`) gives one constructor per Ruby exception:
  - `InvalidConfiguration` is the `ArgumentError`, with its two messages.
  - `ConversionRatesNotSet` and `InvalidCurrency` are the library's own errors.
  - `ZeroDivision` is Ruby's `ZeroDivisionError`.
  - `UndefinedRate` is the `TypeError` Ruby raises when a conversion divides by
    the `nil` rate of an unknown currency.
- `Wrappers` (in `wrappers.dfy`) defines `Option` and `Result`.

BigDecimal values are Dafny `real`s, so all arithmetic is exact. The amounts in
the library's tests are checked as exact values, not as display strings. For
example, 50 EUR converts to exactly 55.5 USD, and 50 EUR − 50 USD is exactly
550/111 EUR (the test shows "4.95 EUR").

The model follows the code of the constructor and the rate lookups:
- A rate must only be non-zero (lib/money/conversion_rates.rb:15), so negative
  rates are accepted.
- Nothing keeps the base currency out of the rate keys. If it appears there, it
  is still valid, and the base-currency checks in `to_base_rate`/`from_base_rate`
  win over the stored rate (`RateAgainstBase`).
- `lib/money.rb` defines no comparison operators, so none are modelled.

A `Money` built against one table can outlive that table, because
`Money.conversion_rates` may be called again. The operations therefore take the
current table and handle a receiver whose currency that table no longer knows.
Such a value fails to convert to another currency with `UndefinedRate`. As the
right operand of `+` or `-` it fails the same way, because it is converted into
the left operand's currency first. As the left operand it fails with
`InvalidCurrency`, from the target check of that conversion
(lib/money.rb:32). Multiplying or dividing it fails with `InvalidCurrency` when
`Money.new` re-checks the currency.
The client method `MoneyValue.ConfigurationSession` walks through this: the
test suite's one-time setup, a rejected reconfiguration that keeps the table,
and a replacement that leaves an earlier value stranded.

## Model

| member | source | states |
|---|---|---|
| `ConversionRates.Build` | lib/money/conversion_rates.rb:5-19 | The loop's result is exactly `Construct(base, entries)`. An empty base fails before any entry is read. Entries are inserted in order and the first empty key or zero rate fails. Otherwise the table holds the base currency and the accumulated map. |
| `ConversionRates.Construct` | lib/money/conversion_rates.rb:5-19 | What the constructor produces. Every failure is an `ArgumentError` (`InvalidConfiguration`). A success keeps the base currency, holds the map `RatesOf(entries)` and satisfies the table invariant: a non-empty base, non-empty keys and non-zero rates. |
| `ConversionRates.RatesOf` | lib/money/conversion_rates.rb:10-18 | The `each_with_object` memo, filled in input order. It has at most one key per entry, since repeated currencies collapse. |
| `ConversionRates.EmptyBaseFailsFirst` | lib/money/conversion_rates.rb:6-8 | An empty base currency fails with "base_currency is not provided", whatever the rates are. |
| `ConversionRates.BadEntryFails` | lib/money/conversion_rates.rb:10-15 | With a base given, one empty key or zero (or non-numeric) rate anywhere fails with "rates are not valid". The rate is read by `ParseDecimal` (line 12) and checked by `Acceptable` (lines 14-15). |
| `ConversionRates.ConstructSucceedsIff` | lib/money/conversion_rates.rb:8-18 | Construction succeeds if and only if the base is non-empty and every entry has a non-empty key and a non-zero rate. |
| `ConversionRates.ConstructedTable` | lib/money/conversion_rates.rb:6-18 | A constructed table keeps the base currency. Its keys are exactly the input currencies. Every key is non-empty and every stored rate is non-zero. |
| `ConversionRates.ConstructedRate` | lib/money/conversion_rates.rb:11-17 | The stored rate of a currency is the parsed rate of its last entry. |
| `ConversionRates.RatesOfKeys` | lib/money/conversion_rates.rb:10-18 | The accumulated map's key set is the set of entry currencies. |
| `ConversionRates.RatesOfLast` | lib/money/conversion_rates.rb:17 | A later entry for a currency overrides earlier ones. The last entry's rate is the one stored. |
| `ConversionRates.RatesOfAcceptable` | lib/money/conversion_rates.rb:14-17 | If every entry passes the checks, the map has no empty key and no zero rate. |
| `ConversionRates.ConstructedValidCurrency` | lib/money/conversion_rates.rb:21-23 | In a constructed table, a currency is valid if and only if it is the base or the currency of some entry. The base needs no entry. |
| `ConversionRates.RateTable.ValidCurrency` | lib/money/conversion_rates.rb:21-23 | `valid_currency?`: the base currency is always known, without a rate of its own. In a valid table the empty code is never known. |
| `ConversionRates.RateTable.ToBaseRate` | lib/money/conversion_rates.rb:32-35 | The rate into the base currency is non-zero, and it is the reciprocal of the rate out of the base currency. |
| `ConversionRates.RateTable.FromBaseRate` | lib/money/conversion_rates.rb:37-40 | The rate out of the base currency is non-zero. For a non-base currency it is the stored rate. |
| `ConversionRates.RateTable.ConversionRate` | lib/money/conversion_rates.rb:25-28 | Every conversion rate is non-zero. The rate from a currency to itself is exactly 1. |
| `ConversionRates.RateAgainstBase` | lib/money/conversion_rates.rb:25-40 | For non-base `c`, base→c is `rates[c]` and c→base is `1/rates[c]`. This holds even when the base is also a key. |
| `ConversionRates.RateBetweenNonBase` | lib/money/conversion_rates.rb:27 | For distinct non-base `s` and `u`, the rate is `(1/rates[s]) * rates[u]`. This equals rate(s, base) · rate(base, u). |
| `ConversionRates.RateChain` | lib/money/conversion_rates.rb:25-40 | Rates compose: rate(a, b) · rate(b, c) = rate(a, c) for any three known currencies. |
| `ConversionRates.RateInverse` | lib/money/conversion_rates.rb:25-40 | rate(s, u) · rate(u, s) = 1 in exact arithmetic. |
| `ConversionRates.ExampleConstruction` | test/conversion_rates_test.rb:4-42 | The test table (EUR, USD=1.11, Bitcoin=0.0047) builds as expected. An empty base, an empty key and a non-numeric rate each fail. The test's `new("")` passes no rates hash, so Ruby raises its arity `ArgumentError` before line 8 is reached. The lemma checks `new("", {})` instead: the empty base is what that test means to reject. |
| `ConversionRates.ExampleRates` | test/conversion_rates_test.rb:44-71 | EUR and USD are valid and Aurum is not. The rates of the test table are 1, 1.11, 1/1.11 and (1/1.11)·0.0047. |
| `MoneyValue.New` | lib/money.rb:19-25 | No table fails with ConversionRatesNotSet. An unknown currency fails with InvalidCurrency. Otherwise the value keeps the amount, and its currency is valid in the table. |
| `MoneyValue.Configuration.constructor` | lib/money.rb:11-17 | Before configuration the slot is empty. |
| `MoneyValue.Configuration.SetConversionRates` | lib/money.rb:12-16 | Returns the constructed table or its error. On success the slot holds the new table. On failure the slot is unchanged. |
| `MoneyValue.Money.ConvertTo` | lib/money.rb:31-36 | An unknown target fails with InvalidCurrency. A receiver currency the table no longer knows fails with UndefinedRate. Otherwise the result is in the target currency with amount · rate(currency, target). |
| `MoneyValue.Money.Plus` | lib/money.rb:38-41 | The result is in the left operand's currency, with amount a + b · rate(b.currency, a.currency). Conversion errors propagate. |
| `MoneyValue.Money.Minus` | lib/money.rb:43-46 | The result is in the left operand's currency, with amount a − b · rate(b.currency, a.currency). Conversion errors propagate. |
| `MoneyValue.Money.Divide` | lib/money.rb:48-51 | A zero divisor fails with ZeroDivision before anything else. Otherwise the amount is divided and the currency kept. |
| `MoneyValue.Money.Times` | lib/money.rb:53-55 | The amount is scaled and the currency kept, with no conversion. |
| `MoneyValue.ResultsAreKnown` | lib/money.rb:19-55 | Every value an operation returns has a currency the current table knows. |
| `MoneyValue.ConvertParts` | lib/money.rb:31-36 | Between two known currencies, conversion always succeeds and scales the amount by the rate. |
| `MoneyValue.ConvertToOwnCurrency` | lib/money.rb:31-36 | Converting a value to its own currency returns the same value. |
| `MoneyValue.ConvertRoundTrip` | lib/money.rb:31-36 | Converting to another currency and back returns the original value exactly. |
| `MoneyValue.ConvertThrough` | lib/money.rb:31-36 | Converting through an intermediate currency gives the same result as converting directly. |
| `MoneyValue.SameCurrencyArithmetic` | lib/money.rb:38-46 | For operands in one currency, `+` and `-` are plain addition and subtraction. |
| `MoneyValue.MinusUndoesPlus` | lib/money.rb:38-46 | (a + b) − b = a, in a's currency. |
| `MoneyValue.PlusCommutesInValue` | lib/money.rb:38-46 | a + b, converted into b's currency, equals b + a. Only the currency of the result depends on operand order. |
| `MoneyValue.DivideUndoesTimes` | lib/money.rb:48-55 | (m · f) / f = m for any non-zero f. |
| `MoneyValue.ExampleConversions` | test/money_test.rb:40-56 | 50 EUR converts to exactly 55.5 USD, and 55.5 USD to exactly 50 EUR. 50 USD converts to (50/1.11)·0.0047 Bitcoin (shown as 0.21). Aurum is rejected, and so is any value before configuration. |
| `MoneyValue.ExampleArithmetic` | test/money_test.rb:58-112 | Exact amounts for the sum, difference, division and multiplication tests. These include 50 USD + 50 EUR = 105.5 USD, 100 USD / 3 = 100/3 USD (shown as "33.33 USD") and division by zero failing. |
| `MoneyValue.ConfigurationSession` | test/money_test.rb:4-8 | The tests' one-time setup, as a session on one `Configuration`. A value built before any table fails with ConversionRatesNotSet. A rejected reconfiguration fails with "base_currency is not provided" and keeps the table. A replacement table strands a euro value, whose conversion then fails with UndefinedRate. |

## Left out

- `Money#inspect` and `Money::Inspectable` (`format("%#.2f …")`, `%g`, `round(2)`) are left out. They render a float-converted amount as text. The tests that compare display strings are checked on the exact amounts instead.
- `lib/ubergeld.rb` is left out. It is an obsolete stub `Money` with a no-op `conversion_rates` and no validation.
- `lib/money/errors.rb` and `lib/money/version.rb` are not part of this model. The error classes become the constructors of `MoneyErrors.Error`.
- Parsing of inputs is left out. Currency codes are strings already (`to_s`), and amounts and factors are exact reals already (`to_d`). A rate is a `RateValue`. A non-numeric rate reads as zero, as the lenient `BigDecimal.new` did, and so fails the zero check with the same `ArgumentError`.
- The input hash is a sequence of pairs in insertion order. Two keys that stringify to the same code are two entries, and the later one wins.
- BigDecimal's finite-precision division is left out. `1.to_d / rate` is exact here, so `RateInverse`, `RateChain`, `ConvertRoundTrip`, `ConvertThrough` and `PlusCommutesInValue` hold in the model but not bit-for-bit in the library. The same goes for `ExampleConversions`' exactly 50 EUR from 55.5 USD: the library multiplies 55.5 by a rounded 1/1.11.
- BigDecimal's special values NaN, Infinity and -Infinity are left out: a rate is a real number or non-numeric. The library's constructor accepts them, since none of them equals zero (lib/money/conversion_rates.rb:12-17). With an infinite rate, `to_base_rate` returns 0 (line 34), and with NaN every rate through that currency is NaN. So for such a table the library's conversion rates can be zero, and `ConversionRates.RateTable.ConversionRate`'s non-zero clause, `RateInverse` and `RateChain` do not hold there.
- `ConversionRates.RateTable.ConversionRate`: requires both currencies to be known unless they are equal. For an unknown currency the library fails with a `nil` error. Every caller checks first, and `ConvertTo` models that failure as `UndefinedRate`.
- The operations of a `Money` take a `RateTable`, not the optional slot. A `Money` can only be built once a table is configured, and `Money.conversion_rates` never clears the slot. So the `nil`-table branch of `convert_to` cannot be reached.
- The frozen checks on `base_currency` and `rates` are left out. Dafny values are immutable.
- The plain attribute readers (`amount`, `currency`, `Money.rates`, `base_currency`, `rates`) are field reads of the datatypes and the class.
- Thread-safety of the class-level slot is left out.
- Ruby's dynamic typing is left out: a non-`Money` right operand of `+`/`-`, or a non-numeric factor or divisor.
