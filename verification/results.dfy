/** Success/failure carriers shared by the modules of this model. A Java `null`
    argument becomes `None`; a thrown exception becomes `Failure`. */
module Results {

  datatype Option<+T> = None | Some(value: T)

  datatype Result<+T, +E> = Success(value: T) | Failure(error: E)
}
