/**
 * The shapes of the data that flows through the pipeline: a scraped row of
 * the progress file, with `None` standing for a missing (NaN) cell, and a
 * data frame whose rows and helper column a method may replace in place.
 */
module Records {

  datatype Option<+T> = None | Some(value: T)

  /** One row of the progress file (columns business_name … search_term). */
  datatype Row = Row(
    businessName: Option<string>,
    previousName: Option<string>,
    address: Option<string>,
    agent: Option<string>,
    status: Option<string>,
    searchTerm: Option<string>)

  /**
   * A pandas data frame held by reference. `normalized` is the helper column
   * that deduplication adds while it runs: `None` when the frame has no such
   * column, otherwise one cell per row.
   */
  class Frame {
    var rows: seq<Row>
    var normalized: Option<seq<string>>

    constructor (rows: seq<Row>)
      ensures this.rows == rows && normalized == None
    {
      this.rows := rows;
      normalized := None;
    }
  }
}
