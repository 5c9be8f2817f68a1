/**
 * The Python values that can sit in one cell of the label columns of the
 * loader: a string activity name, an integer (activity id or binary flag),
 * or the missing value NaN that `Series.map` produces for an unmapped key.
 * Python equality between cells of different kinds is always false, which
 * is what structural equality on this datatype gives.
 */
module Cells {

  datatype Value = Str(text: string) | Int(number: int) | NaN

}
