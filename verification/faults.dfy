/** The ways the script stops before it shows the data. In the script each of
    these is an uncaught Python exception; the model names them. */
module Faults {

  datatype Fault =
    | MissingMarker                // data_parts[1] raises IndexError: no header marker
    | UnreadableCsv                // pd.read_csv raises: EmptyDataError on an empty body, or a parser error
    | MissingColumn(name: string)  // df[name] raises KeyError
    | BadDate                      // pd.to_datetime cannot read a row's date text
    | EmptyTable                   // iloc[-1] on an empty column raises IndexError
}
