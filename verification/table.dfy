/** The daily temperature table both views load: one row per day with the date
    as written and the two temperatures already read as numbers. */
module Table {

  datatype Row = Row(date: string, maxTemperature: real, minTemperature: real)
}
