/** The value the ETag client keeps in its cache slot: a validator and the payload
    it was served with, stored and replaced as one unit. */
module EtaggedValues {
  import opened Wrappers

  /** The pair is generic in its payload. The etag is a Java `String` that may be
      `null` (a response without an `ETag` header), hence `Option<string>`. The
      no-args constructor of the source (both fields `null`) is never used by the
      client, so it has no counterpart here. */
  datatype EtaggedValue<T> = EtaggedValue(etag: Option<string>, value: T)

  /** The all-args constructor keeps both arguments, and the getters give them back
      unchanged. */
  lemma AccessorsReturnConstructorArguments<T>(etag: Option<string>, value: T)
    ensures EtaggedValue(etag, value).etag == etag
    ensures EtaggedValue(etag, value).value == value
  {
  }

  /** The generated `equals`: two pairs are equal exactly when their etags are
      equal and their payloads are equal. */
  lemma EqualityIsFieldwise<T>(a: EtaggedValue<T>, b: EtaggedValue<T>)
    ensures a == b <==> a.etag == b.etag && a.value == b.value
  {
  }
}
