# Registry and CommonStatus, modelled in Dafny

This project models the two small utility classes of the `net.verymuchme` registry library.

- **`ThreadSafeRegistry`** is a process-wide `HashMap<String,Object>`. It offers four operations, each running its whole body under one class-wide lock:
  - `register` overwrites a name's entry;
  - `retrieve(name)` looks a name up;
  - `retrieve(name, defaultObject)` gets the entry or installs a default;
  - `retrieve(name, className)` gets the entry or installs a class that it resolves by name.
- **`CommonStatus`** is a value object for multi-part return values. It holds a tri-state status, an optional exception, and two independent name-to-value tables: one for strings and one for objects.

Each locked body becomes one atomic, pure state transition. The registry table is passed in explicitly, and a writing operation returns the new table beside its answer. A sequence of such steps (`RegistryHistory.Run`) stands for any concurrent execution, because the single lock serialises every call. Java's `null` is `Obj.Null` or `Option.None`. `HashMap.get` answers `null` both for a missing key and for a key mapped to `null`. The model keeps that conflation: `Present` is the "non-null entry" test that both get-or-install overloads make.

Files:
- `java_values.dfy`: `Option`, `Obj`, `ClassHandle`, `Exception`.
- `java_hash_map.dfy`: `HashMap.get`/`put`.
- `common_status.dfy`: the `CommonStatus` class.
- `thread_safe_registry.dfy`: the four registry operations.
- `registry_history.dfy`: serialised call histories.

`Class.forName` is a parameter `resolve: string -> Option<ClassHandle>`. `None` stands for its `ClassNotFoundException`. The `CommonReturn` class that the registry returns is not part of this model. The model records only what the registry code visibly sets on it, as the `Outcome` record: the returned object, the status, the exception and the `defaultUsed` flag.

The Javadoc of `retrieve(name, defaultObject)` promises a boolean property `"defaultUsed"` that says whether the default was registered and returned (ThreadSafeRegistry.java line 54). The code does not keep that promise, and the model follows the code. The local `defaultUsed` is initialised `false` and assigned `false` again on the install path (line 70). The line that would publish it is commented out (line 76). So the model's `Outcome.defaultUsed` is `false` on both paths of that overload, and `DefaultUsedNotReportedOnInstall` states this. Only the class-name overload ever reports `true`.

## Model

| member | source | states |
|---|---|---|
| CommonStatus.New | src/main/java/net/verymuchme/commonstatus/CommonStatus.java:28-51 | a fresh bag reads status false, no exception, and null for every string and every object property name |
| CommonStatus.GetStatus | src/main/java/net/verymuchme/commonstatus/CommonStatus.java:69-75 | the status reads true exactly when true was stored; unset (null) and false both read false |
| CommonStatus.SetStatus | src/main/java/net/verymuchme/commonstatus/CommonStatus.java:83-90 | the primitive overload leaves the status set, reading back exactly the given boolean; nothing else changes |
| CommonStatus.SetStatusBoxed | src/main/java/net/verymuchme/commonstatus/CommonStatus.java:97-99 | the boxed overload reads back true only for a stored true; passing null returns the status to the unset state of a fresh bag, which reads false; nothing else changes |
| CommonStatus.SetStatusOverloadsAgree | src/main/java/net/verymuchme/commonstatus/CommonStatus.java:83-99 | both setStatus overloads give the same bag for every non-null argument |
| CommonStatus.SetException | src/main/java/net/verymuchme/commonstatus/CommonStatus.java:106-117 | getException returns the exception just set (possibly null); the status and both property tables are unchanged |
| CommonStatus.GetProperty | src/main/java/net/verymuchme/commonstatus/CommonStatus.java:136-138 | an unknown name reads null; a known name reads its stored string |
| CommonStatus.SetProperty | src/main/java/net/verymuchme/commonstatus/CommonStatus.java:125-127 | get-after-set returns the value; every other string name reads as before; every object property, the status and the exception are unchanged |
| CommonStatus.GetObjectProperty | src/main/java/net/verymuchme/commonstatus/CommonStatus.java:157-159 | an unknown name reads null; a known name reads its stored object |
| CommonStatus.SetObjectProperty | src/main/java/net/verymuchme/commonstatus/CommonStatus.java:146-148 | get-after-set returns the object; every other object name reads as before; every string property, the status and the exception are unchanged |
| CommonStatus.PropertyNamespacesIndependent | src/main/java/net/verymuchme/commonstatus/CommonStatus.java:125-148 | a string property and an object property of the same name commute and each reads back its own value |
| ThreadSafeRegistry.Register | src/main/java/net/verymuchme/registry/ThreadSafeRegistry.java:127-131 | the name's entry becomes the given object, even null; every other name's entry is unchanged |
| ThreadSafeRegistry.Retrieve | src/main/java/net/verymuchme/registry/ThreadSafeRegistry.java:42-46 | returns the non-null registered object, otherwise null: missing and null-mapped names look the same |
| ThreadSafeRegistry.RetrieveAfterRegister | src/main/java/net/verymuchme/registry/ThreadSafeRegistry.java:127-131 | after register(n, v), retrieve(n) returns v and retrieve of any other name is unchanged |
| ThreadSafeRegistry.RetrieveWithDefault | src/main/java/net/verymuchme/registry/ThreadSafeRegistry.java:62-79 | a present name returns its object and leaves the table unchanged; otherwise it registers and returns the default; the table then answers the returned object; other names are untouched; status success, no exception, defaultUsed false on every path |
| ThreadSafeRegistry.RetrieveWithDefaultSticks | src/main/java/net/verymuchme/registry/ThreadSafeRegistry.java:66-71 | once a non-null value is present or installed, a later call with any default returns that value and changes nothing |
| ThreadSafeRegistry.NullDefaultDoesNotStick | src/main/java/net/verymuchme/registry/ThreadSafeRegistry.java:66-69 | a null default is registered but still counts as absent, so the next call installs and returns its own default |
| ThreadSafeRegistry.DefaultUsedNotReportedOnInstall | src/main/java/net/verymuchme/registry/ThreadSafeRegistry.java:65-76 | installing a non-null default changes the table, yet the defaultUsed flag stays false |
| ThreadSafeRegistry.RetrieveWithClassName | src/main/java/net/verymuchme/registry/ThreadSafeRegistry.java:95-118 | present: the existing object with status true, no exception, defaultUsed false, table unchanged. Absent and resolvable: the class object is registered and returned with status true, defaultUsed true. Absent and unresolvable: the table is unchanged, with null, status false, a ClassNotFoundException and defaultUsed false. Also: status holds iff the name is present afterwards iff there is no exception; defaultUsed holds iff the table changed; other names are untouched |
| ThreadSafeRegistry.RetrieveWithClassNameTwice | src/main/java/net/verymuchme/registry/ThreadSafeRegistry.java:100-105 | two identical class-name calls on an absent name: the first installs and reports defaultUsed; the second returns the same class object without defaultUsed, error-free, with the table unchanged |
| ThreadSafeRegistry.FailedResolutionRegistersNothing | src/main/java/net/verymuchme/registry/ThreadSafeRegistry.java:106-111 | an unresolvable class name gives status false with an exception, and retrieve of every name answers as before |
| RegistryHistory.Step | src/main/java/net/verymuchme/registry/ThreadSafeRegistry.java:42-131 | one locked call touches only its own name's entry; only register, or an install into an absent slot, changes the table; retrieve(name) never does |
| RegistryHistory.Run | src/main/java/net/verymuchme/registry/ThreadSafeRegistry.java:33 | a serialised history yields one reply per call, the first being the first call's own reply |
| RegistryHistory.RunSnoc | src/main/java/net/verymuchme/registry/ThreadSafeRegistry.java:42-131 | appending a call runs it, as one atomic step, on the table the earlier calls left, and appends its reply; with the empty history this determines every final table and reply |
| RegistryHistory.RunReply | src/main/java/net/verymuchme/registry/ThreadSafeRegistry.java:42-131 | reply i is what call i answers on the table left by calls 0..i-1 |
| RegistryHistory.RunFrame | src/main/java/net/verymuchme/registry/ThreadSafeRegistry.java:127-131 | a history that never names a key leaves that key's entry exactly as it was |
| RegistryHistory.NeverRegisteredStaysAbsent | src/main/java/net/verymuchme/registry/ThreadSafeRegistry.java:42-131 | a name not present stays not present through any history that only looks it up, fails to resolve a class for it, or gives it null |
| RegistryHistory.NeverRegisteredRetrievesNull | src/main/java/net/verymuchme/registry/ThreadSafeRegistry.java:33-45 | from the initial empty table, after any history that never offers a name a non-null object (lookups, failed class resolutions and null registrations allowed), retrieve of that name answers null |
| RegistryHistory.DefaultCallsOnPresentName | src/main/java/net/verymuchme/registry/ThreadSafeRegistry.java:66-72 | get-or-default calls with non-null defaults on a present name all return the stored object, and the table never changes |
| RegistryHistory.ContendedDefaultsAgree | src/main/java/net/verymuchme/registry/ThreadSafeRegistry.java:62-79 | in any lock order, contending get-or-default calls with non-null defaults all return one value, the Winner, which is stored afterwards: the value already present, or else the first caller's default |

## Left out

- Locking and thread interleaving: each `synchronized` body is one atomic step, and a concurrent run is a sequence of steps (`RegistryHistory`). Linearizability itself is not proved.
- The static, process-wide nature of the registry: the table is explicit state, and `ThreadSafeRegistry.Empty` is the table the class initialiser creates.
- `Class.forName`: runtime class loading is a reflection call, replaced by the `resolve` parameter. Linkage and initialisation errors that `Class.forName` can throw are not caught by the source. They are not modelled, because `resolve` is total.
- `CommonReturn` and `Status`: their classes are not part of this model. `Outcome` holds only what the registry code sets. The class-name overload stores the returned object as the object property named by the registry name (line 114), and `defaultUsed` as the boolean property `"defaultUsed"` (line 115). `Outcome` flattens both into plain fields.
- `CommonStatus.configure` and the `consoleTracing` flag: they read a JVM system property, and nothing else reads the flag.
- ThreadSafeRegistry.RetrieveWithDefault: here `Outcome.obj` is the object passed to the `CommonReturn` constructor (line 72). The object property named by the registry name is never set, because line 75 is commented out, so the Javadoc promise at line 55 is not kept; the model has no field for that missing property. In the class-name overload, by contrast, `Outcome.obj` is that object property (line 114), and nothing goes through the constructor (line 97).
- `CommonStatus.GetException` has no contract of its own: it returns the stored field, and `CommonStatus.SetException` states the read-back.
- Java `null` used as a registry name or property name: names are modelled as non-null strings.
- ThreadSafeRegistry.RetrieveWithClassName: the class name is a non-null string, so the null-class-name path is not modelled. In Java, `retrieve(name, null)` selects this overload. For an absent name, `Class.forName(null)` at line 103 throws a `NullPointerException`, which the `ClassNotFoundException` handler at line 106 does not catch, so it escapes to the caller.
- RegistryHistory.Run: its own contract gives only the reply count and the first reply; `RegistryHistory.RunSnoc` and `RegistryHistory.RunReply` state the rest (final table and every reply).
