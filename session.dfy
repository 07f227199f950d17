/**
 * The namespaced session store of `Session`.
 *
 * PHP's `$_SESSION` superglobal is a map from namespace to a map from
 * variable name to value. The queries are pure functions of that map; the
 * mutators are methods of the class `Store`, which holds the map in a field,
 * each specified by a function of the old contents.
 */
module Session {
  import opened Options

  /** The values a session variable can hold (floats and objects are not modelled). */
  datatype Value =
    | Null
    | Bool(b: bool)
    | Int(i: int)
    | Str(s: string)
    | List(items: seq<Value>)
      /** The array `['token' => ..., 'time' => ..., 'lifetime' => ...]` written by `Token::create`. */
    | TokenRecord(token: string, time: int, lifetime: int)

  /** The contents of `$_SESSION`: namespace -> name -> value. */
  type Contents = map<string, map<string, Value>>

  /** The namespace used when the caller gives none. */
  const DefaultNamespace: string := "*"

  /** The store-wide invariant: no namespace maps to an empty sub-map. */
  predicate Pruned(s: Contents) {
    forall ns :: ns in s ==> s[ns] != map[]
  }

  /** `Session::getArray`: the sub-map of `ns`, or the empty map when `ns` is absent. */
  function GetArray(s: Contents, ns: string := DefaultNamespace): (r: map<string, Value>)
    ensures ns in s ==> r == s[ns]
    ensures ns !in s ==> r == map[]
    ensures Pruned(s) ==> (r == map[] <==> ns !in s)
  {
    if ns in s then s[ns] else map[]
  }

  /**
   * `Session::has`: presence of `name` as a key of namespace `ns`, not the
   * truthiness of its value; a missing namespace gives false.
   */
  function Has(s: Contents, name: string, ns: string := DefaultNamespace): (r: bool)
    ensures ns !in s ==> !r
    ensures r <==> name in GetArray(s, ns)
  {
    ns in s && name in s[ns]
  }

  /** `Session::get`: the stored value when `has` holds, otherwise the default. */
  function Get(s: Contents, name: string, defaultValue: Value := Null, ns: string := DefaultNamespace): (r: Value)
    ensures !Has(s, name, ns) ==> r == defaultValue
    ensures Has(s, name, ns) ==> r == GetArray(s, ns)[name]
  {
    if Has(s, name, ns) then s[ns][name] else defaultValue
  }

  /** PHP's `isset($_SESSION[$ns][$name])`: present and not null. */
  predicate IsSet(s: Contents, name: string, ns: string)
    ensures IsSet(s, name, ns) <==> Has(s, name, ns) && Get(s, name, Null, ns) != Null
  {
    ns in s && name in s[ns] && s[ns][name] != Null
  }

  /** The contents after `Session::clear(ns)`. */
  function Cleared(s: Contents, ns: string := DefaultNamespace): (r: Contents)
    ensures ns !in r && GetArray(r, ns) == map[]
    ensures forall name :: !Has(r, name, ns)
    ensures forall other :: other != ns ==> GetArray(r, other) == GetArray(s, other)
    ensures ns !in s ==> r == s
    ensures Pruned(s) ==> Pruned(r)
  {
    if ns in s then s - {ns} else s
  }

  /** The contents after `Session::set(name, value, ns)`; the namespace is created when absent. */
  function Assigned(s: Contents, name: string, value: Value, ns: string := DefaultNamespace): (r: Contents)
    ensures Has(r, name, ns)
    ensures forall d :: Get(r, name, d, ns) == value
    ensures GetArray(r, ns) == GetArray(s, ns)[name := value]
    ensures forall other :: other != ns ==> GetArray(r, other) == GetArray(s, other)
    ensures Pruned(s) ==> Pruned(r)
  {
    var bucket := if ns in s then s[ns] else map[];
    s[ns := bucket[name := value]]
  }

  /**
   * The contents after `Session::delete(name, ns)`. The guard is `isset`, so a
   * name whose value is null is left in place; removing the last name of a
   * namespace removes the namespace.
   */
  function Deleted(s: Contents, name: string, ns: string := DefaultNamespace): (r: Contents)
    ensures !IsSet(s, name, ns) ==> r == s
    ensures IsSet(s, name, ns) ==> !Has(r, name, ns) && GetArray(r, ns) == GetArray(s, ns) - {name}
    ensures IsSet(s, name, ns) ==> (ns in r <==> GetArray(s, ns).Keys != {name})
    ensures forall other :: other != ns ==> GetArray(r, other) == GetArray(s, other)
    ensures Pruned(s) ==> Pruned(r)
  {
    if IsSet(s, name, ns) then
      var bucket := s[ns] - {name};
      if |bucket| == 0 then s - {ns} else s[ns := bucket]
    else
      s
  }

  /** The namespace of a `page*` call: the page when one is given, the current page otherwise. */
  function PageNamespace(currentPage: string, page: Option<string>): (ns: string)
    ensures page.Some? ==> ns == page.value
    ensures page.None? ==> ns == currentPage
  {
    if page.None? then currentPage else page.value
  }

  /** `Session::pageGetArray`. */
  function PageGetArray(s: Contents, currentPage: string, page: Option<string> := None): (r: map<string, Value>)
    ensures page.Some? ==> r == GetArray(s, page.value)
    ensures page.None? ==> r == GetArray(s, currentPage)
  {
    GetArray(s, PageNamespace(currentPage, page))
  }

  /** `Session::pageHas`. */
  function PageHas(s: Contents, currentPage: string, name: string, page: Option<string> := None): (r: bool)
    ensures page.Some? ==> (r <==> Has(s, name, page.value))
    ensures page.None? ==> (r <==> Has(s, name, currentPage))
  {
    Has(s, name, PageNamespace(currentPage, page))
  }

  /** `Session::pageGet`. */
  function PageGet(s: Contents, currentPage: string, name: string, defaultValue: Value := Null,
                   page: Option<string> := None): (r: Value)
    ensures page.Some? ==> r == Get(s, name, defaultValue, page.value)
    ensures page.None? ==> r == Get(s, name, defaultValue, currentPage)
  {
    Get(s, name, defaultValue, PageNamespace(currentPage, page))
  }

  /**
   * Under the invariant a namespace is present exactly when some name is
   * present in it, so a namespace drained by `delete` cannot be told apart
   * from one that was never created.
   */
  lemma PresentIffSomeName(s: Contents, ns: string)
    requires Pruned(s)
    ensures ns in s <==> exists name :: Has(s, name, ns)
  {
    if ns in s {
      var name :| name in s[ns];
      assert Has(s, name, ns);
    }
  }

  /**
   * Setting a name that was absent and deleting it again restores the store
   * exactly, provided the value is not null (a null value survives `delete`).
   */
  lemma SetThenDeleteRestores(s: Contents, name: string, value: Value, ns: string)
    requires Pruned(s) && !Has(s, name, ns) && value != Null
    ensures Deleted(Assigned(s, name, value, ns), name, ns) == s
  {
    var t := Assigned(s, name, value, ns);
    assert IsSet(t, name, ns);
    if ns in s {
      assert t[ns] - {name} == s[ns];
    } else {
      assert t[ns] - {name} == map[];
    }
  }

  /** The `$_SESSION` superglobal, assumed already started. */
  class Store {
    var data: Contents

    ghost predicate Valid()
      reads this
    {
      Pruned(data)
    }

    constructor ()
      ensures data == map[] && Valid()
    {
      data := map[];
    }

    /** `Session::clear`. */
    method Clear(ns: string := DefaultNamespace)
      modifies this
      ensures data == Cleared(old(data), ns)
      ensures old(Valid()) ==> Valid()
    {
      if ns in data {
        data := data - {ns};
      }
    }

    /** `Session::set`. */
    method Set(name: string, value: Value, ns: string := DefaultNamespace)
      modifies this
      ensures data == Assigned(old(data), name, value, ns)
      ensures old(Valid()) ==> Valid()
    {
      var bucket := if ns in data then data[ns] else map[];
      data := data[ns := bucket[name := value]];
    }

    /** `Session::delete`. */
    method Delete(name: string, ns: string := DefaultNamespace)
      modifies this
      ensures data == Deleted(old(data), name, ns)
      ensures old(Valid()) ==> Valid()
    {
      if ns in data && name in data[ns] && data[ns][name] != Null {
        data := data[ns := data[ns] - {name}];
        if |data[ns]| == 0 {
          data := data - {ns};
        }
      }
    }

    /** `Session::pageClear`. */
    method PageClear(currentPage: string, page: Option<string> := None)
      modifies this
      ensures page.Some? ==> data == Cleared(old(data), page.value)
      ensures page.None? ==> data == Cleared(old(data), currentPage)
      ensures old(Valid()) ==> Valid()
    {
      var p := if page.None? then currentPage else page.value;
      Clear(p);
    }

    /** `Session::pageSet`. */
    method PageSet(currentPage: string, name: string, value: Value, page: Option<string> := None)
      modifies this
      ensures page.Some? ==> data == Assigned(old(data), name, value, page.value)
      ensures page.None? ==> data == Assigned(old(data), name, value, currentPage)
      ensures old(Valid()) ==> Valid()
    {
      var p := if page.None? then currentPage else page.value;
      Set(name, value, p);
    }

    /** `Session::pageDelete`. */
    method PageDelete(currentPage: string, name: string, page: Option<string> := None)
      modifies this
      ensures page.Some? ==> data == Deleted(old(data), name, page.value)
      ensures page.None? ==> data == Deleted(old(data), name, currentPage)
      ensures old(Valid()) ==> Valid()
    {
      var p := if page.None? then currentPage else page.value;
      Delete(name, p);
    }
  }
}
