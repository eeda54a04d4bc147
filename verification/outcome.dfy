/** How building the document can fail. The image normaliser and the page layout both
    report through these, and the submit handler turns either into one error message
    for the whole document (abcd.py:367-369). */
module Outcome {

  /** `w / h` with `h == 0` raises ZeroDivisionError while normalising a picture
      (line 86), and a grid with no rows is refused by the table it is handed to
      (line 234). */
  datatype Error = ZeroHeight | EmptyTable

  datatype Result<T> = Ok(value: T) | Err(error: Error)
}
