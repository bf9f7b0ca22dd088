/** Histories of registry calls. Because every operation of
    `ThreadSafeRegistry` holds the one class lock for its whole body, any
    concurrent run is equivalent to some sequence of whole calls; this
    module runs such sequences and states what holds for every one of them. */
module RegistryHistory {
  import opened JavaValues
  import JavaHashMap
  import Reg = ThreadSafeRegistry

  /** One call of one of the four public operations. */
  datatype Call =
    | Register(name: string, value: Obj)
    | Retrieve(name: string)
    | RetrieveWithDefault(name: string, defaultObject: Obj)
    | RetrieveWithClassName(name: string, defaultObjectClassName: string)

  /** What a call hands back: nothing (`register` is `void`), a bare object
      (`retrieve(String)`), or a `CommonReturn`. */
  datatype Reply = Void | Value(obj: Obj) | Returned(outcome: Reg.Outcome)

  /** One atomic step. Each call touches at most its own name's entry, and
      only `register` or an install into an absent slot changes the table. */
  function Step(t: Reg.Table, c: Call, resolve: string -> Option<ClassHandle>): (r: (Reg.Table, Reply))
    ensures forall n :: n != c.name ==> JavaHashMap.Entry(r.0, n) == JavaHashMap.Entry(t, n)
    ensures r.0 != t ==> c.Register? || !Reg.Present(t, c.name)
    ensures c.Retrieve? ==> r.0 == t
  {
    match c
    case Register(n, v) => (Reg.Register(t, n, v), Void)
    case Retrieve(n) => (t, Value(Reg.Retrieve(t, n)))
    case RetrieveWithDefault(n, d) =>
      var (t', o) := Reg.RetrieveWithDefault(t, n, d); (t', Returned(o))
    case RetrieveWithClassName(n, cls) =>
      var (t', o) := Reg.RetrieveWithClassName(t, n, cls, resolve); (t', Returned(o))
  }

  /** Runs the calls in order from table `t`: the final table and one reply
      per call. */
  function Run(t: Reg.Table, calls: seq<Call>, resolve: string -> Option<ClassHandle>): (r: (Reg.Table, seq<Reply>))
    ensures |r.1| == |calls|
    ensures |calls| > 0 ==> r.1[0] == Step(t, calls[0], resolve).1
    decreases |calls|
  {
    if |calls| == 0 then (t, [])
    else
      var (t1, reply) := Step(t, calls[0], resolve);
      var (t2, replies) := Run(t1, calls[1..], resolve);
      (t2, [reply] + replies)
  }

  /** No call in `calls` names `name`. */
  predicate Untouched(calls: seq<Call>, name: string)
  {
    forall i :: 0 <= i < |calls| ==> calls[i].name != name
  }

  /** Frame: a history that never names `name` leaves its entry exactly as
      it was, whatever the other calls do. */
  lemma {:induction false} RunFrame(t: Reg.Table, calls: seq<Call>, resolve: string -> Option<ClassHandle>, name: string)
    requires Untouched(calls, name)
    ensures JavaHashMap.Entry(Run(t, calls, resolve).0, name) == JavaHashMap.Entry(t, name)
    decreases |calls|
  {
    if |calls| > 0 {
      var t1 := Step(t, calls[0], resolve).0;
      assert Untouched(calls[1..], name) by {
        forall i | 0 <= i < |calls[1..]| ensures calls[1..][i].name != name {
          assert calls[1..][i] == calls[i + 1];
        }
      }
      RunFrame(t1, calls[1..], resolve, name);
    }
  }

  /** No call in `calls` can leave a non-null object under `name`: every call
      naming it is a `retrieve(name)`, a class-name call whose class does not
      resolve, or a `register` or get-or-default call whose object is `null`. */
  predicate NeverRegistersNonNull(calls: seq<Call>, name: string, resolve: string -> Option<ClassHandle>)
  {
    forall i :: 0 <= i < |calls| && calls[i].name == name ==>
      match calls[i]
      case Retrieve(_) => true
      case RetrieveWithClassName(_, cls) => resolve(cls).None?
      case Register(_, v) => v == Null
      case RetrieveWithDefault(_, d) => d == Null
  }

  /** A name that is not present stays not present through any history that
      never offers it a non-null object. */
  lemma {:induction false} NeverRegisteredStaysAbsent(t: Reg.Table, calls: seq<Call>,
                                                      resolve: string -> Option<ClassHandle>, name: string)
    requires !Reg.Present(t, name)
    requires NeverRegistersNonNull(calls, name, resolve)
    ensures !Reg.Present(Run(t, calls, resolve).0, name)
    decreases |calls|
  {
    if |calls| > 0 {
      var t1 := Step(t, calls[0], resolve).0;
      if calls[0].name != name {
        assert JavaHashMap.Entry(t1, name) == JavaHashMap.Entry(t, name);
      }
      assert !Reg.Present(t1, name);
      assert NeverRegistersNonNull(calls[1..], name, resolve) by {
        forall i | 0 <= i < |calls[1..]| && calls[1..][i].name == name
          ensures match calls[1..][i]
                  case Retrieve(_) => true
                  case RetrieveWithClassName(_, cls) => resolve(cls).None?
                  case Register(_, v) => v == Null
                  case RetrieveWithDefault(_, d) => d == Null
        {
          assert calls[1..][i] == calls[i + 1];
        }
      }
      NeverRegisteredStaysAbsent(t1, calls[1..], resolve, name);
    }
  }

  /** A name never registered: starting from the initial empty table, after
      any history that never offers the name a non-null object — it may be
      looked up, fail to resolve a class, or be given `null` — `retrieve`
      answers `null`. */
  lemma NeverRegisteredRetrievesNull(calls: seq<Call>, resolve: string -> Option<ClassHandle>, name: string)
    requires NeverRegistersNonNull(calls, name, resolve)
    ensures Reg.Retrieve(Run(Reg.Empty, calls, resolve).0, name) == Null
  {
    NeverRegisteredStaysAbsent(Reg.Empty, calls, resolve, name);
  }

  /** Appending a call runs it on the table the earlier calls left and adds
      its reply at the end: with `Run(t, []) == (t, [])` this pins down
      `Run` completely. */
  lemma {:induction false} RunSnoc(t: Reg.Table, calls: seq<Call>, c: Call,
                                   resolve: string -> Option<ClassHandle>)
    ensures var before := Run(t, calls, resolve);
            var last := Step(before.0, c, resolve);
            Run(t, calls + [c], resolve) == (last.0, before.1 + [last.1])
    decreases |calls|
  {
    if |calls| > 0 {
      var t1 := Step(t, calls[0], resolve).0;
      assert (calls + [c])[0] == calls[0];
      assert (calls + [c])[1..] == calls[1..] + [c];
      var r0 := Step(t, calls[0], resolve).1;
      RunSnoc(t1, calls[1..], c, resolve);
      var rest := Run(t1, calls[1..], resolve);
      var last := Step(rest.0, c, resolve);
      assert Run(t, calls, resolve) == (rest.0, [r0] + rest.1);
      assert Run(t, calls + [c], resolve) == (last.0, [r0] + (rest.1 + [last.1]));
      assert [r0] + (rest.1 + [last.1]) == ([r0] + rest.1) + [last.1];
    } else {
      assert calls + [c] == [c];
      assert [c][1..] == [];
      var last := Step(t, c, resolve);
      assert Run(t, [c], resolve) == (last.0, [last.1] + []);
      assert [last.1] + [] == [] + [last.1];
    }
  }

  /** Reply `i` of a history is what call `i` answers on the table that the
      calls before it left. */
  lemma {:induction false} RunReply(t: Reg.Table, calls: seq<Call>,
                                    resolve: string -> Option<ClassHandle>, i: nat)
    requires i < |calls|
    ensures Run(t, calls, resolve).1[i] == Step(Run(t, calls[..i], resolve).0, calls[i], resolve).1
    decreases i
  {
    if i > 0 {
      var t1 := Step(t, calls[0], resolve).0;
      assert calls[1..][i - 1] == calls[i];
      assert calls[..i][0] == calls[0];
      assert calls[..i][1..] == calls[1..][..i - 1];
      RunReply(t1, calls[1..], resolve, i - 1);
    }
  }

  /** Contended get-or-default calls on one name, each with a non-null
      candidate default. */
  predicate DefaultCallsOn(calls: seq<Call>, name: string)
  {
    forall i :: 0 <= i < |calls| ==>
      calls[i].RetrieveWithDefault? && calls[i].name == name && calls[i].defaultObject != Null
  }

  /** When the name is already present, every contending get-or-default call
      gets the stored object back and the table never changes. */
  lemma {:induction false} DefaultCallsOnPresentName(t: Reg.Table, calls: seq<Call>,
                                                     resolve: string -> Option<ClassHandle>, name: string)
    requires Reg.Present(t, name)
    requires DefaultCallsOn(calls, name)
    ensures Run(t, calls, resolve).0 == t
    ensures forall i :: 0 <= i < |calls| ==>
      Run(t, calls, resolve).1[i] == Returned(Reg.Outcome(t[name], true, None, false))
    decreases |calls|
  {
    if |calls| > 0 {
      assert calls[0].RetrieveWithDefault? && calls[0].name == name;
      assert Step(t, calls[0], resolve) == (t, Returned(Reg.Outcome(t[name], true, None, false)));
      assert DefaultCallsOn(calls[1..], name) by {
        forall i | 0 <= i < |calls[1..]|
          ensures calls[1..][i].RetrieveWithDefault? && calls[1..][i].name == name
                  && calls[1..][i].defaultObject != Null
        {
          assert calls[1..][i] == calls[i + 1];
        }
      }
      DefaultCallsOnPresentName(t, calls[1..], resolve, name);
      var rest := Run(t, calls[1..], resolve);
      assert Run(t, calls, resolve) == (rest.0, [Returned(Reg.Outcome(t[name], true, None, false))] + rest.1);
    }
  }

  /** The one value contending get-or-default calls settle on: the value
      already present, or else the first caller's default. */
  function Winner(t: Reg.Table, calls: seq<Call>, name: string): (w: Obj)
    requires |calls| > 0 && calls[0].RetrieveWithDefault?
  {
    if Reg.Present(t, name) then t[name] else calls[0].defaultObject
  }

  /** Linearised contention: whatever order the lock admits N get-or-default
      calls in, exactly one candidate ends up stored — the `Winner` — and
      every caller is handed that one value. */
  lemma ContendedDefaultsAgree(t: Reg.Table, calls: seq<Call>,
                               resolve: string -> Option<ClassHandle>, name: string)
    requires |calls| > 0
    requires DefaultCallsOn(calls, name)
    ensures Reg.Retrieve(Run(t, calls, resolve).0, name) == Winner(t, calls, name)
    ensures forall i :: 0 <= i < |calls| ==> Run(t, calls, resolve).1[i].Returned?
    ensures forall i :: 0 <= i < |calls| ==> Run(t, calls, resolve).1[i].outcome.obj == Winner(t, calls, name)
  {
    var t1 := Step(t, calls[0], resolve).0;
    assert Reg.Present(t1, name);
    assert DefaultCallsOn(calls[1..], name) by {
      forall i | 0 <= i < |calls[1..]|
        ensures calls[1..][i].RetrieveWithDefault? && calls[1..][i].name == name
                && calls[1..][i].defaultObject != Null
      {
        assert calls[1..][i] == calls[i + 1];
      }
    }
    DefaultCallsOnPresentName(t1, calls[1..], resolve, name);
  }
}
