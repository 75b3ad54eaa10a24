/** Money amounts as fixed-point integers. The prices are decimals with four
    places (`decimal_places=4`), so an amount is a whole number of
    ten-thousandths of the single currency the model assumes. */
module Money {

  /** Minor units per currency unit. */
  const MinorPerUnit: int := 10000

  type Amount = int

  /** A whole number of currency units, in minor units. */
  function Units(units: int): Amount
  {
    units * MinorPerUnit
  }

  /** `number_of_items * selling_price`, taken exactly: the 28-digit rounding
      of Python's default `Decimal` context is not modelled. */
  function LineTotal(quantity: int, price: Amount): Amount
  {
    quantity * price
  }
}
