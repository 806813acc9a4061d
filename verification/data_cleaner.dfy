/**
 * data_cleaner.py: the in-place variant of `clean_business_data`. Its field
 * cleaners are the same code as those of cleaner.py and are modelled once,
 * in the Cleaner module; what differs is that this variant cleans the frame
 * it is given and returns that same frame, where cleaner.py cleans a copy.
 */
module DataCleaner {
  import opened Records
  import Cleaner

  /**
   * `clean_business_data` of data_cleaner.py: the caller's frame itself is
   * cleaned, column by column, and returned, so the caller sees the cleaned
   * rows through its own reference.
   */
  method CleanBusinessData(df: Frame) returns (same: Frame)
    modifies df
    ensures same == df
    ensures df.rows == Cleaner.CleanRows(old(df.rows))
    ensures df.normalized == old(df.normalized)
  {
    Cleaner.CleanColumns(df);
    same := df;
  }
}
