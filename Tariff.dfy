/** The legacy time-of-use tariff classifier of `src-tauri/src/lib.rs`:
    a total decision table from (month, hour) to a period category. */
module Tariff {

  /** The four tariff periods of the legacy scheme. */
  datatype PeriodCategory = Peak | OffPeak | Sharp | Other

  /** Calendar month as chrono's `month()` returns it. */
  type Month = m: int | 1 <= m <= 12 witness 1

  /** Hour of day as chrono's `hour()` returns it. */
  type Hour = h: int | 0 <= h < 24

  /** Months whose peak hours are replaced by "sharp" hours. */
  const SharpMonths: seq<int> := [1, 7, 8, 11]

  /** Classifies a timestamp, given by its month and hour, into a tariff period.
      Each ensures gives the exact set of (month, hour) pairs of one category,
      so together they state that the four categories partition the day. */
  function Categorize(month: Month, hour: Hour): (c: PeriodCategory)
    ensures c == OffPeak <==> hour < 8 || 11 <= hour < 13
    ensures c == Sharp <==> month in SharpMonths && (9 <= hour < 11 || 15 <= hour < 17)
    ensures c == Peak <==> month !in SharpMonths && (8 <= hour < 11 || 13 <= hour < 17)
    ensures c == Other <==>
              17 <= hour || (month in SharpMonths && (hour == 8 || hour == 13 || hour == 14))
  {
    if hour < 8 || (11 <= hour && hour < 13) then
      OffPeak
    else if month in SharpMonths then
      if (9 <= hour && hour < 11) || (15 <= hour && hour < 17) then Sharp else Other
    else
      if (8 <= hour && hour < 11) || (13 <= hour && hour < 17) then Peak else Other
  }

  /** Reference table: the 24 hourly categories of a month with sharp hours. */
  const SharpMonthDay: seq<PeriodCategory> :=
    [OffPeak, OffPeak, OffPeak, OffPeak, OffPeak, OffPeak, OffPeak, OffPeak,  // 00-07
     Other, Sharp, Sharp,                                                     // 08-10
     OffPeak, OffPeak,                                                        // 11-12
     Other, Other, Sharp, Sharp,                                              // 13-16
     Other, Other, Other, Other, Other, Other, Other]                         // 17-23

  /** Reference table: the 24 hourly categories of every other month. */
  const OrdinaryMonthDay: seq<PeriodCategory> :=
    [OffPeak, OffPeak, OffPeak, OffPeak, OffPeak, OffPeak, OffPeak, OffPeak,  // 00-07
     Peak, Peak, Peak,                                                        // 08-10
     OffPeak, OffPeak,                                                        // 11-12
     Peak, Peak, Peak, Peak,                                                  // 13-16
     Other, Other, Other, Other, Other, Other, Other]                         // 17-23

  /** The classifier agrees, hour by hour and month by month, with the
      explicit tables above. */
  lemma CategorizeMatchesTable(month: Month, hour: Hour)
    ensures |SharpMonthDay| == 24 && |OrdinaryMonthDay| == 24  // so that the indexing below is in range
    ensures Categorize(month, hour) ==
              (if month in SharpMonths then SharpMonthDay else OrdinaryMonthDay)[hour]
  {
  }
}
