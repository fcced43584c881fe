/** Results of turning a catalog string into a value, in the shape the
    deserializer's visitors return them: a value, or an error naming the
    rejected input. */
module De {

  /** The one error a string visitor in this catalog raises: an unknown
      variant, carrying the rejected string and the accepted literals. */
  datatype DeError = UnknownVariant(variant: string, expected: seq<string>)

  datatype Result<T> = Ok(value: T) | Err(error: DeError)

  datatype Option<T> = None | Some(value: T)
}
