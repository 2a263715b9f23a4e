/** The errors the money library raises, one constructor per Ruby exception. */
module MoneyErrors {

  /** The two messages of the ArgumentError raised while building a rate table. */
  datatype ConfigurationProblem =
    | BaseCurrencyNotProvided   // "base_currency is not provided"
    | RatesNotValid             // "rates are not valid"

  datatype Error =
    /** ArgumentError from Money::ConversionRates.new. */
    | InvalidConfiguration(problem: ConfigurationProblem)
    /** Money::ConversionRatesNotSet: no table has been configured. */
    | ConversionRatesNotSet
    /** Money::InvalidCurrency: the currency is neither the base currency nor a rate key. */
    | InvalidCurrency
    /** ZeroDivisionError from Money#/. */
    | ZeroDivision
    /** TypeError Ruby raises when a conversion looks up a currency the current
        table does not know (the rate is nil); reachable only for a Money built
        against a table that has since been replaced. */
    | UndefinedRate
}
