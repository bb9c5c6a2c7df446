/** Option and Result values, standing for the NaN cells and the raised
    exceptions of the scripts being modelled. */
module Results {

  datatype Option<+T> = None | Some(value: T)

  datatype Result<+T, +E> = Ok(value: T) | Err(error: E)
}
