/** `net.verymuchme.registry.ThreadSafeRegistry`: a process-wide table from
    names to objects. Every operation's body runs under one class-wide lock,
    so each call is a single atomic step; the table is threaded through
    explicitly, and an operation that writes returns the new table beside
    its answer. */
module ThreadSafeRegistry {
  import opened JavaValues
  import JavaHashMap

  /** The registry's `HashMap<String,Object>`; a name may be mapped to `null`. */
  type Table = map<string, Obj>

  /** The table as the class initialiser creates it. */
  const Empty: Table := map[]

  /** What the code visibly sets on the `CommonReturn` it hands back: the
      returned object, the status, the exception and the `defaultUsed` flag.
      For the object-default overload `defaultUsed` is the method's local
      flag, which that overload computes but never publishes. */
  datatype Outcome = Outcome(obj: Obj, status: bool, exception: Option<Exception>, defaultUsed: bool)

  /** The test both get-or-install overloads make: a name counts as present
      only when it is mapped to a non-null object. */
  predicate Present(t: Table, name: string)
  {
    name in t && t[name] != Null
  }

  /** `register`: the name's entry becomes `value` (which may be `null`),
      whatever it was before; no other name's entry changes. */
  function Register(t: Table, name: string, value: Obj): (t': Table)
    ensures JavaHashMap.Entry(t', name) == Some(value)
    ensures forall n :: n != name ==> JavaHashMap.Entry(t', n) == JavaHashMap.Entry(t, n)
  {
    JavaHashMap.Put(t, name, value)
  }

  /** `retrieve(String)`: the registered object when there is a non-null
      one, otherwise `null` — a name never registered and a name registered
      with `null` look the same. The table is only read. */
  function Retrieve(t: Table, name: string): (r: Obj)
    ensures Present(t, name) ==> r == t[name]
    ensures !Present(t, name) ==> r == Null
  {
    JavaHashMap.Get(t, name, Null)
  }

  /** `retrieve(String, Object)`: get-or-install-default. A present name is
      answered from the table, which stays as it was; otherwise the default
      is registered under the name and returned. The status is always
      success with no exception, and the local `defaultUsed` is `false` on
      both paths. Afterwards the table answers the returned object for the
      name, and no other name's entry has changed. */
  function RetrieveWithDefault(t: Table, name: string, defaultObject: Obj): (r: (Table, Outcome))
    ensures Present(t, name) ==> r.0 == t && r.1.obj == t[name]
    ensures !Present(t, name) ==> r.0 == Register(t, name, defaultObject) && r.1.obj == defaultObject
    ensures Retrieve(r.0, name) == r.1.obj
    ensures forall n :: n != name ==> JavaHashMap.Entry(r.0, n) == JavaHashMap.Entry(t, n)
    ensures r.1.status && r.1.exception == None && !r.1.defaultUsed
  {
    var registered := Retrieve(t, name);
    if registered == Null then
      (Register(t, name, defaultObject), Outcome(defaultObject, true, None, false))
    else
      (t, Outcome(registered, true, None, false))
  }

  /** `retrieve(String, String)`: get-or-install-resolved-class. `resolve`
      stands for `Class.forName`; `None` is its `ClassNotFoundException`.
      - a present name is answered from the unchanged table: status true,
        `defaultUsed` false, no exception;
      - an absent name whose class resolves gets the class object
        registered and returned: status true, `defaultUsed` true;
      - an absent name whose class does not resolve leaves the table as it
        was and is answered with `null`, status false, `defaultUsed` false
        and the caught exception; nothing is thrown. */
  function RetrieveWithClassName(t: Table, name: string, defaultObjectClassName: string,
                                 resolve: string -> Option<ClassHandle>): (r: (Table, Outcome))
    ensures Present(t, name) ==> r == (t, Outcome(t[name], true, None, false))
    ensures !Present(t, name) && resolve(defaultObjectClassName).Some? ==>
      var c := Class(resolve(defaultObjectClassName).value);
      r == (Register(t, name, c), Outcome(c, true, None, true))
    ensures !Present(t, name) && resolve(defaultObjectClassName).None? ==>
      r == (t, Outcome(Null, false, Some(ClassNotFoundException(defaultObjectClassName)), false))
    ensures r.1.status <==> Present(r.0, name)
    ensures r.1.status <==> r.1.exception == None
    ensures r.1.defaultUsed <==> r.0 != t
    ensures Retrieve(r.0, name) == r.1.obj
    ensures forall n :: n != name ==> JavaHashMap.Entry(r.0, n) == JavaHashMap.Entry(t, n)
  {
    var registered := Retrieve(t, name);
    if registered == Null then
      match resolve(defaultObjectClassName)
      case Some(handle) =>
        (Register(t, name, Class(handle)), Outcome(Class(handle), true, None, true))
      case None =>
        (t, Outcome(Null, false, Some(ClassNotFoundException(defaultObjectClassName)), false))
    else
      (t, Outcome(registered, true, None, false))
  }

  /** Get-after-put: once `register(name, value)` has run, `retrieve` answers
      `value` for that name (`null` when `value` is `null`) and answers as
      before for every other name. */
  lemma RetrieveAfterRegister(t: Table, name: string, value: Obj, other: string)
    ensures Retrieve(Register(t, name, value), name) == value
    ensures other != name ==> Retrieve(Register(t, name, value), other) == Retrieve(t, other)
  {
  }

  /** Get-or-default is idempotent once it has installed a non-null value:
      a later call with any other default gets the first value back and
      changes nothing. */
  lemma RetrieveWithDefaultSticks(t: Table, name: string, d1: Obj, d2: Obj)
    requires Present(t, name) || d1 != Null
    ensures var (t1, o1) := RetrieveWithDefault(t, name, d1);
            RetrieveWithDefault(t1, name, d2) == (t1, o1)
  {
  }

  /** A `null` default is installed but does not count as present, so the
      next get-or-default call installs its own default instead. */
  lemma NullDefaultDoesNotStick(t: Table, name: string, d2: Obj)
    requires !Present(t, name) && d2 != Null
    ensures var (t1, o1) := RetrieveWithDefault(t, name, Null);
            o1.obj == Null && name in t1 &&
            RetrieveWithDefault(t1, name, d2).1.obj == d2
  {
  }

  /** The `defaultUsed` flag of the object-default overload does not say
      whether the default was installed: installing a non-null default into
      an absent slot changes the table yet leaves the flag `false`. */
  lemma DefaultUsedNotReportedOnInstall(t: Table, name: string, d: Obj)
    requires !Present(t, name) && d != Null
    ensures var (t1, o1) := RetrieveWithDefault(t, name, d);
            t1 != t && !o1.defaultUsed
  {
  }

  /** Resolving a class name twice for the same absent name: the first call
      installs and reports `defaultUsed`, the second returns the same class
      object from the unchanged table without it. */
  lemma RetrieveWithClassNameTwice(t: Table, name: string, cls: string,
                                   resolve: string -> Option<ClassHandle>)
    requires !Present(t, name) && resolve(cls).Some?
    ensures var (t1, o1) := RetrieveWithClassName(t, name, cls, resolve);
            var (t2, o2) := RetrieveWithClassName(t1, name, cls, resolve);
            o1.defaultUsed && !o2.defaultUsed && o2.status && o2.exception == None &&
            o1.obj == o2.obj == Class(resolve(cls).value) && t2 == t1
  {
  }

  /** No registration on failure: when the class name does not resolve, a
      following `retrieve` still answers as it did before the call. */
  lemma FailedResolutionRegistersNothing(t: Table, name: string, cls: string,
                                         resolve: string -> Option<ClassHandle>, other: string)
    requires !Present(t, name) && resolve(cls).None?
    ensures var (t1, o1) := RetrieveWithClassName(t, name, cls, resolve);
            !o1.status && o1.exception.Some? && Retrieve(t1, other) == Retrieve(t, other)
  {
  }
}
