/** Java values as the registry and the status bag see them.

    Both components store untyped `Object` references and treat `null` as a
    value like any other when storing, but as "absent" when reading. */
module JavaValues {

  /** A possibly-null reference of a known type: `None` is Java's `null`. */
  datatype Option<+T> = None | Some(value: T)

  /** What `Class.forName` hands back: a class object, identified by the
      class name it was loaded for. */
  datatype ClassHandle = ClassHandle(className: string)

  /** A `java.lang.Object` reference: `null`, an arbitrary caller-supplied
      object (identified only by its address), or a class object. */
  datatype Obj = Null | Ref(address: nat) | Class(handle: ClassHandle)

  /** The exceptions the model distinguishes: the one the registry catches
      when a class name cannot be resolved, and any other exception a caller
      stores into a status bag. */
  datatype Exception =
    | ClassNotFoundException(className: string)
    | OtherException(address: nat)
}
