/** A car record and the range test used to select cars. */
module CarModel {

  /** `struct Car`: its constructor stores the five fields unchanged, which a
      datatype constructor does by definition. */
  datatype Car = Car(brand: string, price: int, mileage: int, bodyType: string, year: int)
  {
    /** `matchesCriteria`: the price lies in [minPrice, maxPrice], the mileage
        is at most maxMileage and the year is at least minYear. A `const`
        member: a datatype value cannot be changed. */
    predicate MatchesCriteria(minPrice: int, maxPrice: int, maxMileage: int, minYear: int)
    {
      (price >= minPrice && price <= maxPrice) && (mileage <= maxMileage) && (year >= minYear)
    }
  }

  /** An inverted price range admits no car. */
  lemma EmptyPriceRange(c: Car, minPrice: int, maxPrice: int, maxMileage: int, minYear: int)
    requires minPrice > maxPrice
    ensures !c.MatchesCriteria(minPrice, maxPrice, maxMileage, minYear)
  {
  }

  /** Loosening the criteria (lower minPrice or minYear, higher maxPrice or
      maxMileage) never turns a match into a non-match. */
  lemma Loosening(c: Car, minPrice: int, maxPrice: int, maxMileage: int, minYear: int,
                  minPrice': int, maxPrice': int, maxMileage': int, minYear': int)
    requires minPrice' <= minPrice && maxPrice <= maxPrice'
    requires maxMileage <= maxMileage' && minYear' <= minYear
    ensures c.MatchesCriteria(minPrice, maxPrice, maxMileage, minYear) ==>
            c.MatchesCriteria(minPrice', maxPrice', maxMileage', minYear')
  {
  }
}
