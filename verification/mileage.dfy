/** The mileage rule both lease apps apply to a residual: one point more for
    10,000 miles a year on a 33 to 48 month lease, two points less for
    15,000 miles a year, nothing otherwise. */
module Mileage {

  /** The mileage options the apps quote, in the order they list them. */
  const MilesOptions: seq<int> := [10000, 12000, 15000]

  /** A lease of 33 to 48 months, the band the low-mileage bonus needs. */
  predicate MidTerm(months: int) {
    33 <= months <= 48
  }

  /** The change to the residual fraction for `miles` a year, given whether
      the lease is in the 33 to 48 month band. */
  function Adjustment(midTerm: bool, miles: int): (d: real)
    ensures d == 0.01 || d == 0.0 || d == -0.02
    ensures d == 0.01 <==> miles == 10000 && midTerm
    ensures d == -0.02 <==> miles == 15000
  {
    if miles == 10000 && midTerm then 0.01
    else if miles == 15000 then -0.02
    else 0.0
  }

  /** The residual fraction `pct` after the mileage rule. */
  function AdjustedRate(pct: real, midTerm: bool, miles: int): (r: real)
    ensures miles == 10000 && midTerm ==> r == pct + 0.01
    ensures miles == 15000 ==> r == pct - 0.02
    ensures !(miles == 10000 && midTerm) && miles != 15000 ==> r == pct
  {
    pct + Adjustment(midTerm, miles)
  }
}
