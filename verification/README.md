# untypy checkers: Literal and Interface construction and acceptance

untypy enforces type annotations at run time. A factory turns an annotation
into a *checker*. A checker's `check_and_wrap(value, ctx)` either returns the
accepted value or raises a type error carrying the value, the checker's
description and the execution context. This project models two checker kinds
and proves their properties:

- **Literal** (`untypy/impl/literal.py`). `Literal[a, b, ...]` accepts a value
  iff it is `==` to one of the arguments, and returns the value unchanged. Its
  description is `Literal[` + `str` of the argument tuple + `]`, so
  `Literal[42]` describes itself as `Literal[(42,)]`. Python's `==` lets
  `True` pass `Literal[1]`.
- **Interface** (`untypy/impl/interface.py`). For `dict[K, V]`, `list[T]` and
  `set[T]`, the factory does these steps in order:
  1. It looks the origin up in the interface table.
  2. It resolves every type argument through the creation context's
     `find_checker`. The first argument that does not resolve is an error.
  3. It checks the argument count against the protocol's parameters.
  4. It names the checker `origin[d1, d2, ...]`.
  5. It binds the protocol's type variables to the arguments by position.

  `check_and_wrap` refuses a value whose class is not a subclass of the
  origin. Otherwise it allocates a fresh proxy that refers to the value itself
  and reports later failures under the checker's name. It never looks at the
  elements.
- **Any** appears only as a leaf checker that returns its input.

Modules:
- `Wrappers` (Option).
- `Python`: values, classes, `==`, `repr`, `str.join`, `dict(zip(...))`.
- `Checkers`: annotations, checkers, `describe`, `may_change_identity`, contexts.
- `Literal`.
- `Interface`.

Modelling choices:
- Annotations are the tagged `Spec` instead of attribute probing.
- The registry lookup `find_checker` is a function carried by the creation
  context.
- `create_from` is a loop method proved equal to the function
  `FactoryResult`, which states the factory's behaviour.
- The interface table is modelled twice: as written (`AsWritten`) and with
  its Iterable entry corrected (`IterableFixed`). All factory lemmas hold for
  both; see Findings.

## Model

| member | source | states |
|---|---|---|
| `Checkers.AnyCheckAndWrap` | test/impl/test_any.py:8-14 | the Any checker accepts every value and returns that very value |
| `Literal.FactoryKeepsArguments` | untypy/impl/literal.py:10-14 | the literal factory builds a checker iff the annotation is a Literal (None otherwise), and its allowed values are the annotation's arguments in order |
| `Literal.CheckAndWrap` | untypy/impl/literal.py:23-30 | an accepted value is returned unchanged; a rejection raises an error carrying the value, the checker's description and the context |
| `Literal.AcceptsExactlyTheArguments` | untypy/impl/literal.py:23-25 | a checker built from `Literal[vs]` returns the argument iff some element of vs is `==` to it |
| `Literal.EveryArgumentAccepted` | untypy/impl/literal.py:24-25 | every argument of the literal passes its checker and comes back unchanged |
| `Literal.RejectionNamesEveryArgument` | untypy/impl/literal.py:26-33 | a rejection carries the offending value, and its description contains the repr of every allowed value |
| `Literal.VerdictIgnoresContext` | untypy/impl/literal.py:23-30 | the verdict and the returned value are the same under any execution context; only the error records the context |
| `Literal.MembershipIsByEquality` | untypy/impl/literal.py:24 | membership uses `==`, not kind: `Literal[1]` accepts and returns `True` and rejects `"1"` |
| `Literal.FortyTwoDescription` | untypy/impl/literal.py:32-33 | `Literal[42]` describes itself as `Literal[(42,)]`, the str of a one-element tuple |
| `Literal.PairDescription` | untypy/impl/literal.py:32-33 | `Literal[1, 'a']` describes itself as `Literal[(1, 'a')]` |
| `Literal.IdentityFlagMatchesBehaviour` | untypy/impl/literal.py:23-25 | Any and Literal checkers say they cannot change identity, and every value they accept is returned unchanged |
| `Literal.CreateFrom` | untypy/impl/literal.py:10-14 | the literal factory; `Literal.FactoryKeepsArguments` and `Literal.AcceptsExactlyTheArguments` state that it builds a checker exactly for Literal annotations, over their arguments in order |
| `Literal.Contains` | untypy/impl/literal.py:24 | `arg in self.inner` by Python `==`; `Literal.AcceptsExactlyTheArguments`, `Literal.EveryArgumentAccepted`, `Literal.MembershipIsByEquality` and `Literal.BytesMembershipIsByContents` state what it admits |
| `Checkers.Describe` | untypy/impl/literal.py:32-33 | `describe()` of every checker kind (the interface case is interface.py:111-112); `Literal.RejectionNamesEveryArgument`, `Literal.FortyTwoDescription`, `Literal.PairDescription`, `Literal.BytesDescription`, `Interface.CreatedDescription` and `Interface.DescriptionNamesArguments` state its results |
| `Checkers.MayChangeIdentity` | untypy/impl/interface.py:99-100 | `may_change_identity()`; `Interface.InterfaceCheckersChangeIdentity` and `Literal.IdentityFlagMatchesBehaviour` state that it is true for interface checkers and false, matching behaviour, for Any and Literal |
| `Checkers.Parameters` | untypy/impl/interface.py:9-46 | `protocol.__parameters__` (read at line 68): (K, V) for WDict and a distinct `I` each for WList, WSet, WIterable; `Interface.ProtocolArities` and `Interface.CreatedBindings` state its use |
| `Literal.BytesMembershipIsByContents` | untypy/impl/literal.py:24 | bytes compare by contents and never equal a string: `Literal[b'a']` accepts `bytes([97])` and refuses `'a'` |
| `Literal.BytesDescription` | untypy/impl/literal.py:32-33 | `Literal[b'a']` describes itself as `Literal[(b'a',)]` |
| `Python.TupleReprNamesItems` | untypy/impl/literal.py:33 | `str` of a tuple contains the repr of each item |
| `Python.JoinContainsParts` | untypy/impl/interface.py:80 | `sep.join(parts)` contains every part |
| `Python.ZipDictPairs` | untypy/impl/interface.py:82 | `dict(zip(ks, vs))` with distinct keys of equal number maps each `ks[i]` to `vs[i]`, has no other keys and has one entry per key |
| `Interface.ResolveArgsFindsFirstFailure` | untypy/impl/interface.py:71-76 | resolving the arguments in order succeeds iff every argument resolves, and then yields their checkers in order; otherwise it reports the first argument that does not resolve |
| `Interface.FirstUnresolvedIsReported` | untypy/impl/interface.py:72-75 | the argument reported is the first one `find_checker` leaves unresolved |
| `Interface.CreateFrom` | untypy/impl/interface.py:64-88 | the loop that resolves arguments into a growing list, stopping at the first unresolved one, computes exactly `FactoryResult` |
| `Interface.DeclinesExactlyUntabled` | untypy/impl/interface.py:64-66 | the factory returns None exactly for annotations that are not generic or whose origin is not a key of the table |
| `Interface.UnresolvedArgumentComesFirst` | untypy/impl/interface.py:72-78 | an unresolved argument makes construction fail, naming the first such argument, whatever the argument count: this check precedes the arity check |
| `Interface.WrongArityFails` | untypy/impl/interface.py:77-78 | when every argument resolves but their number differs from the protocol's parameter count, construction fails, reporting the expected count |
| `Interface.ProtocolArities` | untypy/impl/interface.py:51-57 | dict takes two type arguments, list and set one each |
| `Interface.CreatedExactly` | untypy/impl/interface.py:64-86 | construction yields a checker iff the origin is tabled and unpackable, every argument resolves and the count matches |
| `Interface.CreatedDescription` | untypy/impl/interface.py:80-86 | a built checker is well formed, keeps the origin and protocol, and `describe()` is the origin name, `[`, the argument checkers' descriptions in order joined by `, `, then `]` |
| `Interface.CreatedBindings` | untypy/impl/interface.py:68-84 | a built checker's bindings pair each protocol parameter with the argument at the same position, one binding per parameter |
| `Interface.DescriptionNamesArguments` | untypy/impl/interface.py:80 | a built checker's description contains each argument checker's description |
| `Interface.InterfaceCheckersChangeIdentity` | untypy/impl/interface.py:99-100 | `may_change_identity()` is true for every interface checker |
| `Interface.IterableNeverBuilds` | untypy/impl/interface.py:58-67 | as written, every `Iterable[...]` annotation fails at the unpacking of its table entry, before any argument is resolved |
| `Interface.IterableFixedBuilds` | untypy/impl/interface.py:58-67 | with the entry written `(WIterable,)`, `Iterable[T]` builds a well-formed checker binding `I` to T, described as `Iterable[<T's description>]` |
| `Interface.CheckAndWrap` | untypy/impl/interface.py:102-109 | refuses exactly the values whose class is not a subclass of the origin, with an error carrying the value and the description; otherwise returns a fresh proxy of the template whose inner reference is the value itself and whose return context replaces the type with the checker's name |
| `Interface.Proxy.constructor` | untypy/impl/interface.py:106-108 | a proxy holds the template, the inner value and the return context it was given |
| `Interface.Lookup` | untypy/impl/interface.py:51-59 | the interface table, as written or with the Iterable entry fixed; `Interface.DeclinesExactlyUntabled`, `Interface.ProtocolArities` and `Interface.IterableNeverBuilds` state its content |
| `Interface.ResolveArgs` | untypy/impl/interface.py:71-76 | resolution of the type arguments in order; `Interface.ResolveArgsFindsFirstFailure` and `Interface.FirstUnresolvedIsReported` state its result |
| `Interface.GenericName` | untypy/impl/interface.py:80 | the checker's name; `Interface.CreatedDescription` and `Interface.DescriptionNamesArguments` state its form |
| `Interface.FactoryResult` | untypy/impl/interface.py:64-88 | the factory's outcome; `Interface.DeclinesExactlyUntabled`, `Interface.UnresolvedArgumentComesFirst`, `Interface.WrongArityFails`, `Interface.CreatedExactly`, `Interface.CreatedDescription` and `Interface.CreatedBindings` state it, and `Interface.CreateFrom` is proved equal to it |
| `Interface.IsSubclass` | untypy/impl/interface.py:103 | `issubclass(type(arg), self.origin)` for the tabled origins; `Interface.CheckAndWrap` refuses exactly the values it rejects |

## Left out

- Lazy enforcement by the proxy is not modelled. That covers element reads and writes, iteration and membership. It lives in `WrappedType`, and untypy/impl/wrappedclass.py is not part of this model. A proxy here is a record of its template, inner value and return context.
- Python's typing introspection is replaced by the tagged `Spec`. That covers the `hasattr(..., '__origin__')` probing and `type(Literal[42])`. The table's typing-alias keys (`Dict`, `List`, `Set`) share their entries with `dict`, `list` and `set`. A subscripted annotation's `__origin__` is always the builtin, so one `Origin` stands for each pair.
- `find_checker`, `with_typevars` and `declared_location` of the creation context are not modelled; the context carries a function and a location instead. The template records the bindings passed to `with_typevars` instead of the context it returns. The discarded `ctx.with_typevars(bindings)` call at interface.py:83 has no effect and is omitted. A `find_checker` that raises is not modelled.
- `ctx.wrap` and `ReplaceTypeExecutionContext` (untypy/util.py is not part of this model) become plain records. The error keeps the value, the description and the context. The proxy's context is a `ReplaceType` frame around the caller's context.
- The factory registry and its order are not modelled. That file is not part of this model.
- Error message texts are not modelled, only the fields they carry.
- The Any checker's source (untypy/impl/any.py) is not part of this model. Its description "Any" is assumed.
- The TypeChecker base class is not part of this model. `may_change_identity()` of the Literal checker is taken to be False, the base default for checkers that return their input.
- `Python.StrRepr` handles quote choice, backslash, `\n`, `\r`, `\t` and `\xNN` for ASCII control characters. It does not model `repr`'s escaping of non-ASCII characters that Python deems unprintable.
- `Python.Equal`: every value other than None, bool, int, str and bytes is an object compared by identity. So the model loses the built-in value equality of floats (`1.0 == 1`, so `Literal[1]` accepts `1.0`), of int and str subclasses such as IntEnum members or str-mixin Enum members (equal to their int or str value), and of user-defined `__eq__`. Floating point is not modelled at all. User-defined `__repr__` is reduced to the text an object carries.
- `Interface.IsSubclass` follows a class's built-in layout base and whether it defines `__iter__`. It does not model `Iterable.register` or other virtual subclasses.
- `__new__` followed by name-mangled attribute assignment (interface.py:106-108) becomes a constructor that sets the proxy's three fields.

## Findings

| source | as written | input that shows it | evidently intended | confidence | as-written member | corrected member |
|---|---|---|---|---|---|---|
| untypy/impl/interface.py:58 | `Iterable: (WIterable)` stores the class, not a one-element tuple. So `(protocol,) = InterfaceMapping[...]` at line 67 raises TypeError | the annotation `Iterable[int]` (any arguments) | `(WIterable,)`, so that `Iterable[T]` builds a checker backed by `WIterable` like the other origins | medium, not executed; a factory registered ahead of this one, which this model does not see, could claim `Iterable` first | `Interface.IterableNeverBuilds` | `Interface.IterableFixedBuilds` |
