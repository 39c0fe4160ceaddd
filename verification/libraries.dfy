/** The foreign libraries the report engine calls, as parameters: the
    `encoding_rs` Shift_JIS decoder, the `chardetng` guess-then-decode step,
    the `csv` crate's tokenizer, and Rust's `f64` parser. */
module Libraries {
  import opened Wrappers
  import opened Numbers
  import opened Common

  /** A decoded text and whether any malformed input was replaced. */
  datatype Decoded = Decoded(text: string, hadErrors: bool)

  datatype Libraries = Libraries(
    /** `SHIFT_JIS.decode(&bytes)`. */
    shiftJisDecode: seq<byte> -> Decoded,
    /** `EncodingDetector` fed with all the bytes, then the guessed encoding's
        `decode`. */
    sniffDecode: seq<byte> -> string,
    /** The records `csv::ReaderBuilder` yields over a text; the flag is
        `has_headers`, which when set consumes the first row as the header. */
    csvRecords: (string, bool) -> seq<Result<StringRecord, string>>,
    /** `str::parse::<f64>`. */
    parseF64: string -> Option<F64>)
}
