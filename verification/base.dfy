/** Small wrappers shared by the whole model. */
module Base {

  /** A value that may be absent; `None` stands for Java's `null`. */
  datatype Option<+T> = None | Some(value: T)

  /** The argument of a Java `equals(Object other)`: either an instance of the
      receiver's class, or anything else (null or an object of another class). */
  datatype Other<+C> = Instance(value: C) | NotInstance
}
