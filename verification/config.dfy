/** config.py: the constants the processing pipeline reads. */
module Config {

  /** The search terms the crawl walks through, in order. */
  const SearchTerms: seq<string> := [
    "truck", "freight", "transport", "excavation", "trailer",
    "ltl", "haul", "grading", "sitework", "aggregates",
    "paving", "asphalt", "concrete", "diesel", "towing"
  ]

  /** The columns written to the final data file, in order. */
  const DisplayColumns: seq<string> := ["business_name", "previous_name", "address", "agent", "status"]

  /** The registry statuses that count as an active business (compared exactly). */
  const ActiveStatuses: seq<string> := ["Good Standing", "Active"]
}
