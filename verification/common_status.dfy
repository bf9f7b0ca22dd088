/** `net.verymuchme.commonstatus.CommonStatus`: a container for the several
    parts of a complex return value — a tri-state status, an optional
    exception and two independent name-to-value tables, one holding strings
    and one holding arbitrary objects.

    The Java class is mutable; here each setter returns the updated bag. */
module CommonStatus {
  import opened JavaValues
  import JavaHashMap

  /** The four fields of the Java object (the console-tracing flag, which
      nothing reads, is not modelled). `returnStatus` is a `Boolean` object:
      `None` is its `null`, the "never set" state. String property values may
      themselves be `null`, hence `Option<string>`. */
  datatype CommonStatus = CommonStatus(
    returnStatus: Option<bool>,
    returnException: Option<Exception>,
    stringProperties: map<string, Option<string>>,
    objectProperties: map<string, Obj>)

  /** The constructor's field initialisers: status unset, no exception and
      both property tables empty. */
  function New(): (s: CommonStatus)
    ensures !GetStatus(s)
    ensures GetException(s) == None
    ensures forall n :: GetProperty(s, n) == None
    ensures forall n :: GetObjectProperty(s, n) == Null
  {
    CommonStatus(None, None, map[], map[])
  }

  /** `getStatus`: an unset status reads as `false`; otherwise the stored
      value. The result is `true` only when `true` was actually stored. */
  function GetStatus(s: CommonStatus): (b: bool)
    ensures b <==> s.returnStatus == Some(true)
  {
    match s.returnStatus
    case None => false
    case Some(v) => v
  }

  /** `setStatus(boolean)`: the primitive overload always leaves the status
      set, to exactly the value given; nothing else changes. */
  function SetStatus(s: CommonStatus, newStatus: bool): (r: CommonStatus)
    ensures r.returnStatus.Some?
    ensures GetStatus(r) == newStatus
    ensures r.(returnStatus := s.returnStatus) == s
  {
    if newStatus then s.(returnStatus := Some(true)) else s.(returnStatus := Some(false))
  }

  /** `setStatus(Boolean)`: the boxed overload stores its argument as is, so
      passing `null` returns the status to unset, which reads as `false`. */
  function SetStatusBoxed(s: CommonStatus, newStatus: Option<bool>): (r: CommonStatus)
    ensures GetStatus(r) <==> newStatus == Some(true)
    ensures newStatus == None ==> r.returnStatus == New().returnStatus
    ensures r.(returnStatus := s.returnStatus) == s
  {
    s.(returnStatus := newStatus)
  }

  /** `getException`: the stored exception, or `null`. */
  function GetException(s: CommonStatus): (e: Option<Exception>)
  {
    s.returnException
  }

  /** `setException`: the exception (possibly `null`) is stored; the status
      and both property tables are untouched. */
  function SetException(s: CommonStatus, newException: Option<Exception>): (r: CommonStatus)
    ensures GetException(r) == newException
    ensures r.returnStatus == s.returnStatus
    ensures r.stringProperties == s.stringProperties
    ensures r.objectProperties == s.objectProperties
  {
    s.(returnException := newException)
  }

  /** `getProperty`: the string stored under `name`, `null` when the name is
      unknown (or was stored with a `null` value). */
  function GetProperty(s: CommonStatus, name: string): (v: Option<string>)
    ensures name !in s.stringProperties ==> v == None
    ensures name in s.stringProperties ==> v == s.stringProperties[name]
  {
    JavaHashMap.Get(s.stringProperties, name, None)
  }

  /** `setProperty`: the string table now answers `value` for `name` and
      still answers as before for every other name; the object table, status
      and exception are untouched. */
  function SetProperty(s: CommonStatus, name: string, value: Option<string>): (r: CommonStatus)
    ensures GetProperty(r, name) == value
    ensures forall n :: n != name ==> GetProperty(r, n) == GetProperty(s, n)
    ensures forall n :: GetObjectProperty(r, n) == GetObjectProperty(s, n)
    ensures r.returnStatus == s.returnStatus && r.returnException == s.returnException
  {
    s.(stringProperties := JavaHashMap.Put(s.stringProperties, name, value))
  }

  /** `getObjectProperty`: the object stored under `name`, `null` when the
      name is unknown. */
  function GetObjectProperty(s: CommonStatus, name: string): (v: Obj)
    ensures name !in s.objectProperties ==> v == Null
    ensures name in s.objectProperties ==> v == s.objectProperties[name]
  {
    JavaHashMap.Get(s.objectProperties, name, Null)
  }

  /** `setOjectProperty` (so spelled in the Java source): the object table
      now answers `value` for `name` and still answers as before for every
      other name; the string table, status and exception are untouched. */
  function SetObjectProperty(s: CommonStatus, name: string, value: Obj): (r: CommonStatus)
    ensures GetObjectProperty(r, name) == value
    ensures forall n :: n != name ==> GetObjectProperty(r, n) == GetObjectProperty(s, n)
    ensures forall n :: GetProperty(r, n) == GetProperty(s, n)
    ensures r.returnStatus == s.returnStatus && r.returnException == s.returnException
  {
    s.(objectProperties := JavaHashMap.Put(s.objectProperties, name, value))
  }

  /** The two `setStatus` overloads agree on every non-null argument. */
  lemma SetStatusOverloadsAgree(s: CommonStatus, b: bool)
    ensures SetStatus(s, b) == SetStatusBoxed(s, Some(b))
  {
  }

  /** Setting a string property and an object property under the same name
      in either order gives the same bag, and each reads back its own value. */
  lemma PropertyNamespacesIndependent(s: CommonStatus, name: string, str: Option<string>, obj: Obj)
    ensures SetObjectProperty(SetProperty(s, name, str), name, obj)
         == SetProperty(SetObjectProperty(s, name, obj), name, str)
    ensures GetProperty(SetObjectProperty(SetProperty(s, name, str), name, obj), name) == str
    ensures GetObjectProperty(SetObjectProperty(SetProperty(s, name, str), name, obj), name) == obj
  {
  }
}
