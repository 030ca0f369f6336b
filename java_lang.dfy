/** The few pieces of Java's value model that the adapter relies on. */
module JavaLang {

  /** A Java reference that may be null. */
  datatype Nullable<+T> = Null | NonNull(value: T)

  /** Java's 32-bit `int`, the type of `Object.hashCode()`. */
  newtype int32 = x: int | -0x8000_0000 <= x < 0x8000_0000
}
