/** Outcomes of the operations that the Python code can abort with an exception. */
module Results {

  /** The Python exceptions the modelled code raises or lets through. */
  datatype Error =
    | ValueError   // raised by numpy (`np.stack`, `np.array`) and by scikit-learn's fit
    | IndexError   // raised by indexing an empty Python list

  datatype Result<+R> = Ok(value: R) | Err(error: Error)

  /** A value that may be Python's `None`. */
  datatype Option<+R> = None | Some(value: R)
}
