/** The optional value used for a missing candlestick frame and for a volatility score
    that is not a number (NaN in the scanner). */
module Wrappers {

  datatype Option<+T> = None | Some(value: T)
}
