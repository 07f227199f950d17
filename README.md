# corex/session — a Dafny model

This project models the two classes of the `corex/session` PHP library:

- `Session` — namespaced storage over PHP's `$_SESSION`. The store maps a namespace to a map from
  variable name to value. Every operation takes a namespace, `'*'` by default. The `page*` variants
  use the current page (`$_SERVER['PHP_SELF']`) as the namespace when no page is given.
- `Token` — expiring tokens kept as records `{token, time, lifetime}` in the reserved namespace
  `'-token-'` of that store.

Files:

- `options.dfy`: the `Option` datatype, standing for PHP's nullable strings.
- `session.dfy`: module `Session`. It defines a `Value` datatype and `Contents`, the type of the
  `$_SESSION` map. It defines the queries `get`, `getArray`, `has` and their `page*` forms as functions
  of the contents. It defines the class `Store`, which holds the contents in its field `data` and
  changes them in place with `Clear`, `Set`, `Delete` and their `Page*` forms. Each mutator is
  specified by a function of the old contents (`Cleared`, `Assigned`, `Deleted`). `Store.Valid()` is
  the pruning invariant: no namespace maps to an empty sub-map.
- `history.dfy`: module `History`. It covers sequences of mutating calls, and proves that every
  history keeps the store pruned and that calls on one namespace never change another.
- `token.dfy`: module `Token`. It defines `get`, `has` and `isValid` as functions of the store contents,
  and `clear`, `create` and `delete` as methods on a `Session.Store`. `Created` specifies `Create`.

The current page, the clock (`time()`) and the freshly generated token (`sha1(microtime())`) are
parameters: `currentPage`, `now` and `token`.

Two details of the code are kept as written:

- `Session::delete` guards with `isset` (src/Session.php:89). So a name whose stored value is null
  is left in place, and its namespace stays.
- `Token::isValid` blanks an expired record's token to `''` before comparing (src/Token.php:76-79).
  So an empty submission is accepted after expiry. `ExpiredRefusesToken` proves this.

## Model

| member | source | states |
|---|---|---|
| `Session.GetArray` | src/Session.php:58-65 | The result is the namespace's sub-map when the namespace is present, and the empty map when it is absent. Under the pruning invariant the result is empty exactly when the namespace is absent. |
| `Session.Has` | src/Session.php:74-78 | True iff `name` is a key of `getArray(ns)`. This is presence, not truthiness: a stored null or false counts. A missing namespace gives false. |
| `Session.Get` | src/Session.php:43-50 | Returns the default exactly when `has` is false. Otherwise returns the stored value, null included. |
| `Session.IsSet` | src/Session.php:89 | The guard of `delete` holds iff the name is present and its value is not null. |
| `Session.Cleared` | src/Session.php:14-20 | After `clear(ns)`, `ns` is absent, `getArray(ns)` is empty and `has(x, ns)` is false for every `x`. Every other namespace is unchanged, clearing an absent namespace changes nothing, and the pruning invariant is preserved. |
| `Session.Assigned` | src/Session.php:29-33 | After `set(n, v, ns)`, `has(n, ns)` holds and `get(n, d, ns) == v` for every default `d`, even when `v` is null. `getArray(ns)` is the old sub-map with `n` mapped to `v`. Other namespaces are unchanged and the pruning invariant is preserved. |
| `Session.Deleted` | src/Session.php:86-95 | When the `isset` guard fails (absent name, or a null value), nothing changes. Otherwise `n` is removed, the rest of `getArray(ns)` stays, and `ns` stays iff other names remain in it. Other namespaces are unchanged and the pruning invariant is preserved. |
| `Session.PageNamespace` | src/Session.php:104-106 | A page argument, when given, is used verbatim. Otherwise the current page is used. |
| `Session.PageGetArray` | src/Session.php:147-153 | Equals `getArray(page)` when a page is given, and `getArray(currentPage)` otherwise. |
| `Session.PageHas` | src/Session.php:162-168 | Equals `has(name, page)` when a page is given, and `has(name, currentPage)` otherwise. |
| `Session.PageGet` | src/Session.php:133-139 | Equals `get(name, d, page)` when a page is given, and `get(name, d, currentPage)` otherwise. |
| `Session.PresentIffSomeName` | src/Session.php:89-93 | Under the pruning invariant, a namespace is present iff some name is present in it. So a drained namespace is indistinguishable from one never created. |
| `Session.SetThenDeleteRestores` | src/Session.php:86-95 | From a pruned store, setting an absent name to a non-null value and deleting it again restores the store exactly. |
| `Session.Store.Clear` | src/Session.php:14-20 | The new contents are `Cleared` of the old contents. The pruning invariant is kept. |
| `Session.Store.Set` | src/Session.php:29-33 | The new contents are `Assigned` of the old contents. The pruning invariant is kept. |
| `Session.Store.Delete` | src/Session.php:86-95 | The new contents are `Deleted` of the old contents. The pruning invariant is kept. |
| `Session.Store.PageClear` | src/Session.php:102-108 | Acts as `clear(page)` when a page is given, and as `clear(currentPage)` otherwise. |
| `Session.Store.PageSet` | src/Session.php:117-123 | Acts as `set(name, value, page)` when a page is given, and as `set(name, value, currentPage)` otherwise. |
| `Session.Store.PageDelete` | src/Session.php:176-182 | Acts as `delete(name, page)` when a page is given, and as `delete(name, currentPage)` otherwise. |
| `History.Apply` | src/Session.php:14-95 | A single `clear`, `set` or `delete` call leaves every other namespace unchanged and keeps the store pruned. |
| `History.RunKeepsPruned` | src/Session.php:14-95 | Every sequence of `clear`, `set` and `delete` calls that starts from a pruned store ends in a pruned store. |
| `History.RunIsolatesNamespace` | src/Session.php:14-95 | Calls that all address other namespaces leave `getArray(ns)` unchanged. |
| `Token.Has` | src/Token.php:60-63 | True iff something is stored under `name` in `'-token-'`, whether or not it has expired. |
| `Token.Get` | src/Token.php:45-52 | Null when nothing is stored under `name`. Null when the stored value is not a token record. Otherwise the record's token. Expiry is not checked. |
| `Token.IsValid` | src/Token.php:72-82 | False when there is no token record. While `now < time + lifetime`, true iff the submission equals the stored token. Once expired, true iff the submission is `''`. |
| `Token.Created` | src/Token.php:27-37 | `create` stores the record `{token, time: now, lifetime}` under `name` in `'-token-'`, overwriting any earlier record, and leaves every other token record as it was. After `create`, `has(name)` holds and `get(name)` returns the issued token. `isValid(name, x)` at a later time `t` is `x == token` while `t < now + lifetime`, and `x == ''` afterwards. For other token names, `get`, `has` and `isValid` are unchanged, and other namespaces are unchanged. The pruning invariant is preserved. |
| `Token.Create` | src/Token.php:27-37 | Returns the issued token. The new contents are `Created` of the old contents, so any earlier record under `name` is overwritten. |
| `Token.Clear` | src/Token.php:15-18 | Only the `'-token-'` namespace is cleared, after which no token name is present. |
| `Token.Delete` | src/Token.php:89-92 | The new contents are `Session.Deleted` of the old contents in the `'-token-'` namespace. |
| `Token.DeleteRevokes` | src/Token.php:89-92 | Deleting a token record makes `has(name)` false and every later `isValid(name, x)` false. Other namespaces are untouched. Deleting the last token removes `'-token-'`. |
| `Token.ExpiredRefusesToken` | src/Token.php:76-79 | Once a record has expired, its non-empty token is refused and the empty submission is accepted. |
| `Token.BackdatedTokenRefused` | tests/TokenTest.php:82-90 | A token whose record is moved 500 seconds back, with the default 300-second lifetime, is still returned by `get` but no longer validates. |

## Left out

- `Session::initialize` (src/Session.php:187-194) is not modelled. It starts the host's PHP session. The store is treated as already started, and a new `Store` is empty.
- `$_SERVER['PHP_SELF']` is not read. The current page is the `currentPage` parameter of the `page*` members.
- `sha1(microtime())` and `time()` are not modelled. The token string and the clock are the `token` and `now` parameters. So the token length above 30 and the distinctness of two tokens (tests/TokenTest.php:26-33) are not proved: both depend on the hash and the clock.
- Floats, objects and general PHP arrays are not modelled. `Value` has null, booleans, integers, strings and lists, and `TokenRecord` stands for the array that `create` writes. An array that has a `'token'` key but comes from elsewhere is not modelled.
- Token.Get: declares `?string`. A `'token'` entry that is not a string would raise a type error in PHP. That case cannot arise, because a `TokenRecord` token is always a string.
- Token.IsValid: `time + lifetime` is an unbounded integer sum. PHP's integer overflow to float is not modelled.
- `Token::$namespace` is a public static property in PHP. Nothing in the library reassigns it, so it is the constant `Token.Namespace`.
- The key order of `getArray`'s result is not modelled. A Dafny `map` has no order.
- `get`, `has`, `getArray` and the token queries are functions of the store contents. So they cannot change the store, and the token `get` and `has` ignore the clock because they do not take one.
- Cross-request races on the session belong to the host session transport and are not modelled.
