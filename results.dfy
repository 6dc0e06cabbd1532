/** Outcomes shared by the whole model: an optional value, and a result that
    is either a value or the Python exception the scripts would raise. */
module Results {

  datatype Option<+T> = None | Some(value: T)

  /** The exceptions the scripts let escape (or, for InputExhausted, the
      point where the interactive prompt would keep waiting for input). */
  datatype Failure =
    | KeyError         // a TOC href that names no document (idx[curr])
    | IndexError       // a list index out of range (pos[end+1], ch_links[sel], chapters[0])
    | ValueError       // int() applied to a string that is not an integer
    | AttributeError   // a TOC nested deeper than the two-level flatten expects
    | InputExhausted   // every supplied answer to a prompt was rejected

  datatype Result<+T> = Ok(value: T) | Err(error: Failure)
}
