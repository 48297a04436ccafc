/** How a call that can throw or find nothing ends. */
module Results {
  /** InvalidData stands for whichever exception the source throws. */
  datatype Result<T> = Ok(value: T) | InvalidData

  datatype Option<T> = Some(value: T) | None
}
