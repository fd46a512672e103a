/**
 * Cells, rows and the failures the cleaning pipeline can end in.
 */
module Cells {
  import opened Schema

  /** One table cell: missing (NaN), a number, or a text label. */
  datatype Cell = Missing | Num(x: real) | Text(s: string)

  /** A row, keyed by column. */
  type Row = map<Column, Cell>

  datatype Option<T> = None | Some(value: T)

  /** Why a run stops. Each stands for an exception the pipeline raises. */
  datatype Error =
    | MissingColumn(column: Column)         // KeyError on a column lookup
    | NonNumericComparison(column: Column)  // TypeError comparing a text cell with a number
    | NoBodyTempBelow30                     // IndexError: the first hit of an empty search
    | NonNumericFeature                     // ValueError: the imputer cannot read a text cell as a number
    | ImputationFailed                      // any other error raised by the imputer
    | ShapeMismatch                         // ValueError: imputer output does not fit the frame

  datatype Result<T> = Ok(value: T) | Err(error: Error) {
    predicate IsFailure() {
      Err?
    }

    function PropagateFailure<U>(): Result<U>
      requires Err?
    {
      Err(error)
    }

    function Extract(): T
      requires Ok?
    {
      value
    }
  }
}
