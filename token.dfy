/**
 * The token manager of `Token`: records `{token, time, lifetime}` kept in the
 * reserved namespace of the session store. The token string and the clock
 * are inputs.
 */
module Token {
  import opened Options
  import Session

  /** The reserved namespace `Token::$namespace`. */
  const Namespace: string := "-token-"

  /** The lifetime, in seconds, when `create` is given none. */
  const DefaultLifetime: int := 300

  /** `Token::has`: a value is stored under `name`, token record or not, expired or not. */
  function Has(s: Session.Contents, name: string): (r: bool)
    ensures r <==> name in Session.GetArray(s, Namespace)
  {
    Session.Has(s, name, Namespace)
  }

  /**
   * `Token::get`: the stored token string, or null when nothing is stored
   * under `name` or what is stored is not a token record. Expiry is ignored.
   */
  function Get(s: Session.Contents, name: string): (r: Option<string>)
    ensures !Has(s, name) ==> r == None
    ensures r.Some? <==> Session.Get(s, name, Session.Null, Namespace).TokenRecord?
    ensures r.Some? ==> Session.GetArray(s, Namespace)[name].token == r.value
  {
    match Session.Get(s, name, Session.Null, Namespace)
    case TokenRecord(token, _, _) => Some(token)
    case _ => None
  }

  /** A record has expired once `now` reaches its issue time plus its lifetime. */
  predicate Expired(v: Session.Value, now: int)
    requires v.TokenRecord?
  {
    now >= v.time + v.lifetime
  }

  /**
   * `Token::isValid` at time `now`: false without a token record; otherwise
   * `submitted` is compared with the stored token, which counts as the empty
   * string once the record has expired.
   */
  function IsValid(s: Session.Contents, name: string, submitted: string, now: int): (r: bool)
    ensures Get(s, name).None? ==> !r
    ensures Get(s, name).Some? ==>
      var v := Session.GetArray(s, Namespace)[name];
      (!Expired(v, now) ==> (r <==> submitted == Get(s, name).value)) &&
      (Expired(v, now) ==> (r <==> submitted == ""))
  {
    var saved := Session.Get(s, name, Session.Null, Namespace);
    if saved.TokenRecord? then
      var token := if Expired(saved, now) then "" else saved.token;
      submitted == token
    else
      false
  }

  /** The contents after `Token::create(name, lifetime)` issued `token` at time `now`. */
  function Created(s: Session.Contents, name: string, token: string, now: int,
                   lifetime: int := DefaultLifetime): (r: Session.Contents)
    ensures Has(r, name) && Get(r, name) == Some(token)
    ensures forall submitted, later :: IsValid(r, name, submitted, later) <==>
      if later < now + lifetime then submitted == token else submitted == ""
    ensures Session.GetArray(r, Namespace) ==
      Session.GetArray(s, Namespace)[name := Session.TokenRecord(token, now, lifetime)]
    ensures forall other :: other != name ==> Get(r, other) == Get(s, other) && Has(r, other) == Has(s, other)
    ensures forall other, submitted, later :: other != name ==>
      IsValid(r, other, submitted, later) == IsValid(s, other, submitted, later)
    ensures forall ns :: ns != Namespace ==> Session.GetArray(r, ns) == Session.GetArray(s, ns)
    ensures Session.Pruned(s) ==> Session.Pruned(r)
  {
    Session.Assigned(s, name, Session.TokenRecord(token, now, lifetime), Namespace)
  }

  /** `Token::clear`: drops every token. */
  method Clear(store: Session.Store)
    modifies store
    ensures store.data == Session.Cleared(old(store.data), Namespace)
    ensures forall name :: !Has(store.data, name)
    ensures old(store.Valid()) ==> store.Valid()
  {
    store.Clear(Namespace);
  }

  /** `Token::create`, with the fresh token string and the clock given as inputs. */
  method Create(store: Session.Store, name: string, token: string, now: int,
                lifetime: int := DefaultLifetime) returns (t: string)
    modifies store
    ensures t == token
    ensures store.data == Created(old(store.data), name, token, now, lifetime)
    ensures old(store.Valid()) ==> store.Valid()
  {
    var tokenData := Session.TokenRecord(token, now, lifetime);
    store.Set(name, tokenData, Namespace);
    t := token;
  }

  /** `Token::delete`. */
  method Delete(store: Session.Store, name: string)
    modifies store
    ensures store.data == Session.Deleted(old(store.data), name, Namespace)
    ensures old(store.Valid()) ==> store.Valid()
  {
    store.Delete(name, Namespace);
  }

  /**
   * Deleting a token record revokes it: the name is absent, no submission
   * validates, other namespaces are untouched, and deleting the last token
   * removes the reserved namespace.
   */
  lemma DeleteRevokes(s: Session.Contents, name: string)
    requires Get(s, name).Some?
    ensures var r := Session.Deleted(s, name, Namespace);
      && !Has(r, name)
      && (forall submitted, now :: !IsValid(r, name, submitted, now))
      && (forall ns :: ns != Namespace ==> Session.GetArray(r, ns) == Session.GetArray(s, ns))
      && (Session.GetArray(s, Namespace).Keys == {name} ==> Namespace !in r)
  {
  }

  /**
   * Once a record has expired its real token is refused and the empty
   * submission is accepted, as the comparison with `''` implies.
   */
  lemma ExpiredRefusesToken(s: Session.Contents, name: string, now: int)
    requires Get(s, name).Some? && Get(s, name).value != ""
    requires Expired(Session.GetArray(s, Namespace)[name], now)
    ensures !IsValid(s, name, Get(s, name).value, now)
    ensures IsValid(s, name, "", now)
  {
  }

  /**
   * A token whose record is moved 500 seconds into the past, with the default
   * 300-second lifetime, no longer validates (a non-empty token is assumed).
   */
  lemma BackdatedTokenRefused(s: Session.Contents, name: string, token: string, now: int)
    requires token != ""
    ensures var issued := Created(s, name, token, now);
      var v := Session.Get(issued, name, Session.Null, Namespace);
      var backdated := Session.Assigned(issued, name, v.(time := v.time - 500), Namespace);
      Get(backdated, name) == Some(token) && !IsValid(backdated, name, token, now)
  {
  }
}
