/**
 * Sequences of mutating calls on the session store. The store outlives a
 * single call, so the pruning invariant and the independence of namespaces
 * are stated over every history of `clear`, `set` and `delete` calls.
 */
module History {
  import opened Session

  /** One mutating call on the store, with its namespace made explicit. */
  datatype Call =
    | ClearCall(ns: string)
    | SetCall(name: string, value: Value, ns: string)
    | DeleteCall(name: string, ns: string)

  /** The contents after one call. */
  function Apply(s: Contents, c: Call): (r: Contents)
    ensures forall other :: other != c.ns ==> GetArray(r, other) == GetArray(s, other)
    ensures Pruned(s) ==> Pruned(r)
  {
    match c
    case ClearCall(ns) => Cleared(s, ns)
    case SetCall(name, value, ns) => Assigned(s, name, value, ns)
    case DeleteCall(name, ns) => Deleted(s, name, ns)
  }

  /** The contents after the calls of `calls`, in order. */
  function Run(s: Contents, calls: seq<Call>): (r: Contents)
    decreases |calls|
  {
    if calls == [] then s else Run(Apply(s, calls[0]), calls[1..])
  }

  /** Every history of calls keeps the store pruned. */
  lemma {:induction false} RunKeepsPruned(s: Contents, calls: seq<Call>)
    requires Pruned(s)
    ensures Pruned(Run(s, calls))
    decreases |calls|
  {
    if calls != [] {
      RunKeepsPruned(Apply(s, calls[0]), calls[1..]);
    }
  }

  /** Calls on other namespaces never change what a namespace holds. */
  lemma {:induction false} RunIsolatesNamespace(s: Contents, calls: seq<Call>, ns: string)
    requires forall i :: 0 <= i < |calls| ==> calls[i].ns != ns
    ensures GetArray(Run(s, calls), ns) == GetArray(s, ns)
    decreases |calls|
  {
    if calls != [] {
      RunIsolatesNamespace(Apply(s, calls[0]), calls[1..], ns);
    }
  }
}
