/** The exceptions the script raises before it writes anything. */
module Errors {

  datatype Error =
    /** `FileNotFoundError` from `get_latest_csv`: no `.CSV` or `.csv` file in the input folder. */
    | NoCsvFile
    /** `KeyError` from `process_csv_file`: the looked-up header `column` is not among the normalized headers. */
    | MissingColumn(column: string)
}
