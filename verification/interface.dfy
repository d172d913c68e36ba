/**
 * untypy's Interface checker: for `dict[K, V]`, `list[T]`, `set[T]` (and,
 * in intent, `Iterable[T]`) it resolves the type arguments to checkers at
 * construction time and, at check time, wraps an accepted container in a
 * proxy that enforces those checkers lazily on access.
 */
module Interface {
  import opened Wrappers
  import opened Python
  import opened Checkers

  /**
   * What the interface table stores under an origin. Dict, List and Set map to
   * one-element tuples `(WDict,)`, `(WList,)`, `(WSet,)`. The Iterable entry is
   * written `(WIterable)`, which is the class itself, not a tuple.
   */
  datatype Entry = OneTuple(protocol: Protocol) | BareClass(protocol: Protocol)

  /** The interface table as written, or with Iterable's entry written as the tuple `(WIterable,)`. */
  datatype Table = AsWritten | IterableFixed

  /**
   * `InterfaceMapping[origin]`. Its keys `dict`, `Dict`, `list`, `List`,
   * `set`, `Set` share entries pairwise, and a subscripted annotation's
   * `__origin__` is always the builtin, so one Origin stands for each pair.
   */
  function Lookup(table: Table, origin: Origin): Option<Entry>
  {
    match origin
    case Dict => Some(OneTuple(WDict))
    case List => Some(OneTuple(WList))
    case Set => Some(OneTuple(WSet))
    case Iterable => if table == AsWritten then Some(BareClass(WIterable)) else Some(OneTuple(WIterable))
    case Unmapped(_) => None
  }

  /** The errors `InterfaceFactory.create_from` raises. */
  datatype CreationError =
      /** the TypeError of `(protocol,) = entry` when the entry is not a one-element tuple */
    | NotUnpackable(entry: Entry)
      /** the UntypyAttributeError for a type argument that no factory resolves */
    | UnresolvedArgument(param: Spec, annotation: Spec)
      /** the UntypyAttributeError for a wrong number of type arguments */
    | ArityMismatch(expected: nat, annotation: Spec)

  /** The outcome of `create_from`: None, a raised error, or a checker. */
  datatype Creation = Declined | Failed(error: CreationError) | Created(checker: Checker)

  /** Resolving the type arguments in order: all of their checkers, or the first argument left unresolved. */
  datatype Resolution = AllResolved(checkers: seq<Checker>) | Unresolved(param: Spec)

  function ResolveArgs(args: seq<Spec>, find: Spec -> Option<Checker>): Resolution
  {
    if |args| == 0 then AllResolved([])
    else match find(args[0])
      case None => Unresolved(args[0])
      case Some(c) =>
        match ResolveArgs(args[1..], find)
        case AllResolved(cs) => AllResolved([c] + cs)
        case Unresolved(p) => Unresolved(p)
  }

  /**
   * Resolution succeeds iff every argument resolves, and then yields their
   * checkers in argument order; otherwise it reports the first argument that
   * does not resolve.
   */
  lemma {:induction false} ResolveArgsFindsFirstFailure(args: seq<Spec>, find: Spec -> Option<Checker>)
    ensures ResolveArgs(args, find).AllResolved? <==> forall i :: 0 <= i < |args| ==> find(args[i]).Some?
    ensures ResolveArgs(args, find).AllResolved? ==>
              |ResolveArgs(args, find).checkers| == |args| &&
              forall i :: 0 <= i < |args| ==> find(args[i]) == Some(ResolveArgs(args, find).checkers[i])
    ensures ResolveArgs(args, find).Unresolved? ==>
              exists j :: 0 <= j < |args| && args[j] == ResolveArgs(args, find).param && find(args[j]).None? &&
                          forall k :: 0 <= k < j ==> find(args[k]).Some?
  {
    if |args| > 0 {
      ResolveArgsFindsFirstFailure(args[1..], find);
      if find(args[0]).Some? {
        var rest := ResolveArgs(args[1..], find);
        if rest.AllResolved? {
          forall i | 0 <= i < |args| ensures find(args[i]) == Some(ResolveArgs(args, find).checkers[i]) {
            if i > 0 {
              assert args[i] == args[1..][i - 1];
            }
          }
        } else {
          var j :| 0 <= j < |args[1..]| && args[1..][j] == rest.param && find(args[1..][j]).None? &&
                   forall k :: 0 <= k < j ==> find(args[1..][k]).Some?;
          assert args[j + 1] == rest.param && find(args[j + 1]).None?;
          forall k | 0 <= k < j + 1 ensures find(args[k]).Some? {
            if k > 0 {
              assert args[k] == args[1..][k - 1];
            }
          }
        }
      } else {
        assert find(args[0]).None?;
      }
    }
  }

  /** The same argument comes out of resolution whenever it is the first one that fails. */
  lemma FirstUnresolvedIsReported(args: seq<Spec>, find: Spec -> Option<Checker>, j: nat)
    requires j < |args| && find(args[j]).None?
    requires forall k :: 0 <= k < j ==> find(args[k]).Some?
    ensures ResolveArgs(args, find) == Unresolved(args[j])
  {
    ResolveArgsFindsFirstFailure(args, find);
    var r := ResolveArgs(args, find);
    assert !r.AllResolved?;
    var j' :| 0 <= j' < |args| && args[j'] == r.param && find(args[j']).None? &&
              forall k :: 0 <= k < j' ==> find(args[k]).Some?;
    assert !(j' < j);
    assert !(j < j');
  }

  /** The descriptions of a sequence of checkers, in order. */
  function Descriptions(cs: seq<Checker>): seq<string>
  {
    seq(|cs|, i requires 0 <= i < |cs| => Describe(cs[i]))
  }

  /** `f"{origin.__name__}[" + ', '.join(inner descriptions) + "]"`. */
  function GenericName(origin: Origin, inner: seq<Checker>): string
  {
    OriginName(origin) + "[" + Join(", ", Descriptions(inner)) + "]"
  }

  /**
   * What `InterfaceFactory.create_from` does for an annotation, in the
   * source's order: decline unless the annotation is generic with an origin
   * in the table; unpack the table entry; resolve every argument; compare the
   * argument count with the protocol's parameters; build the name, the
   * positional bindings and the proxy template.
   */
  function FactoryResult(table: Table, annotation: Spec, ctx: CreationContext): Creation
  {
    if !annotation.GenericSpec? || Lookup(table, annotation.origin).None? then Declined
    else
      var entry := Lookup(table, annotation.origin).value;
      if !entry.OneTuple? then Failed(NotUnpackable(entry))
      else
        var params := Parameters(entry.protocol);
        match ResolveArgs(annotation.args, ctx.findChecker)
        case Unresolved(param) => Failed(UnresolvedArgument(param, annotation))
        case AllResolved(inner) =>
          if |inner| != |params| then Failed(ArityMismatch(|params|, annotation))
          else
            var name := GenericName(annotation.origin, inner);
            var template := Template(entry.protocol, ZipDict(params, annotation.args), name, annotation.origin, ctx.declared);
            Created(InterfaceChecker(annotation.origin, template, name))
  }

  /**
   * `InterfaceFactory.create_from`: looks the origin up, resolves the type
   * arguments one by one into a growing list of checkers, stopping at the
   * first that does not resolve, then checks the count and builds the checker.
   */
  method CreateFrom(table: Table, annotation: Spec, ctx: CreationContext) returns (r: Creation)
    ensures r == FactoryResult(table, annotation, ctx)
  {
    if !annotation.GenericSpec? || Lookup(table, annotation.origin).None? {
      return Declined;
    }
    var entry := Lookup(table, annotation.origin).value;
    if !entry.OneTuple? {
      return Failed(NotUnpackable(entry));
    }
    var protocol := entry.protocol;
    var params := Parameters(protocol);
    var origin := annotation.origin;
    var args := annotation.args;

    var inner: seq<Checker> := [];
    var i := 0;
    while i < |args|
      invariant 0 <= i <= |args|
      invariant |inner| == i
      invariant forall k :: 0 <= k < i ==> ctx.findChecker(args[k]) == Some(inner[k])
    {
      var ch := ctx.findChecker(args[i]);
      if ch.None? {
        FirstUnresolvedIsReported(args, ctx.findChecker, i);
        return Failed(UnresolvedArgument(args[i], annotation));
      }
      inner := inner + [ch.value];
      i := i + 1;
    }
    ResolveArgsFindsFirstFailure(args, ctx.findChecker);
    assert ResolveArgs(args, ctx.findChecker) == AllResolved(inner);
    if |inner| != |params| {
      return Failed(ArityMismatch(|params|, annotation));
    }
    var name := GenericName(origin, inner);
    var bindings := ZipDict(params, args);
    var template := Template(protocol, bindings, name, origin, ctx.declared);
    return Created(InterfaceChecker(origin, template, name));
  }

  /** An interface checker as the factory builds it: a tabled origin, and a template named after the checker. */
  predicate WellFormed(c: Checker)
  {
    c.InterfaceChecker? && !c.origin.Unmapped? &&
    c.template.name == c.name && c.template.implementation == c.origin
  }

  /** The factory declines exactly the annotations that are not generic or whose origin is not in the table. */
  lemma DeclinesExactlyUntabled(table: Table, annotation: Spec, ctx: CreationContext)
    ensures FactoryResult(table, annotation, ctx).Declined? <==>
            !annotation.GenericSpec? || annotation.origin.Unmapped?
  {
  }

  /**
   * An argument that does not resolve makes construction fail naming the
   * first such argument, whatever the number of arguments: this check comes
   * before the arity check.
   */
  lemma UnresolvedArgumentComesFirst(table: Table, origin: Origin, args: seq<Spec>, ctx: CreationContext, j: nat)
    requires Lookup(table, origin).Some? && Lookup(table, origin).value.OneTuple?
    requires j < |args| && ctx.findChecker(args[j]).None?
    requires forall k :: 0 <= k < j ==> ctx.findChecker(args[k]).Some?
    ensures FactoryResult(table, GenericSpec(origin, args), ctx) ==
            Failed(UnresolvedArgument(args[j], GenericSpec(origin, args)))
  {
    FirstUnresolvedIsReported(args, ctx.findChecker, j);
  }

  /**
   * When every argument resolves but their number differs from the
   * protocol's parameter count (two for dict, one for list and set),
   * construction fails with the expected count.
   */
  lemma WrongArityFails(table: Table, origin: Origin, args: seq<Spec>, ctx: CreationContext)
    requires Lookup(table, origin).Some? && Lookup(table, origin).value.OneTuple?
    requires forall i :: 0 <= i < |args| ==> ctx.findChecker(args[i]).Some?
    requires |args| != |Parameters(Lookup(table, origin).value.protocol)|
    ensures FactoryResult(table, GenericSpec(origin, args), ctx) ==
            Failed(ArityMismatch(|Parameters(Lookup(table, origin).value.protocol)|, GenericSpec(origin, args)))
  {
    ResolveArgsFindsFirstFailure(args, ctx.findChecker);
  }

  /** dict takes two type arguments; list and set take one. */
  lemma ProtocolArities()
    ensures |Parameters(Lookup(AsWritten, Dict).value.protocol)| == 2
    ensures |Parameters(Lookup(AsWritten, List).value.protocol)| == 1
    ensures |Parameters(Lookup(AsWritten, Set).value.protocol)| == 1
  {
  }

  /**
   * Construction succeeds exactly for a tabled, unpackable origin whose
   * arguments all resolve and match the protocol's parameters in number.
   */
  lemma CreatedExactly(table: Table, annotation: Spec, ctx: CreationContext)
    ensures FactoryResult(table, annotation, ctx).Created? <==>
              annotation.GenericSpec? && Lookup(table, annotation.origin).Some? &&
              Lookup(table, annotation.origin).value.OneTuple? &&
              (forall i :: 0 <= i < |annotation.args| ==> ctx.findChecker(annotation.args[i]).Some?) &&
              |annotation.args| == |Parameters(Lookup(table, annotation.origin).value.protocol)|
  {
    if annotation.GenericSpec? {
      ResolveArgsFindsFirstFailure(annotation.args, ctx.findChecker);
    }
  }

  /**
   * A built checker is well formed, keeps the annotation's origin and the
   * protocol the table gives it, and its description is the origin's name
   * followed by the argument checkers' descriptions, in argument order,
   * between brackets and separated by ", "; `describe()` returns exactly it.
   */
  lemma CreatedDescription(table: Table, annotation: Spec, ctx: CreationContext)
    requires FactoryResult(table, annotation, ctx).Created?
    ensures var c := FactoryResult(table, annotation, ctx).checker;
            var inner := ResolveArgs(annotation.args, ctx.findChecker).checkers;
            && WellFormed(c)
            && annotation.GenericSpec? && c.origin == annotation.origin
            && Lookup(table, c.origin) == Some(OneTuple(c.template.protocol))
            && c.template.declared == ctx.declared
            && |inner| == |annotation.args|
            && (forall i :: 0 <= i < |inner| ==> ctx.findChecker(annotation.args[i]) == Some(inner[i]))
            && Describe(c) == OriginName(c.origin) + "[" + Join(", ", Descriptions(inner)) + "]"
  {
    ResolveArgsFindsFirstFailure(annotation.args, ctx.findChecker);
  }

  /**
   * A built checker's bindings pair each parameter of its protocol with the
   * annotation's argument at the same position, one binding per parameter.
   */
  lemma CreatedBindings(table: Table, annotation: Spec, ctx: CreationContext)
    requires FactoryResult(table, annotation, ctx).Created?
    ensures var c := FactoryResult(table, annotation, ctx).checker;
            var params := Parameters(c.template.protocol);
            && annotation.GenericSpec?
            && |params| == |annotation.args|
            && (forall i :: 0 <= i < |params| ==>
                  params[i] in c.template.bindings && c.template.bindings[params[i]] == annotation.args[i])
            && (forall t :: t in c.template.bindings ==> t in params)
            && |c.template.bindings| == |params|
  {
    var params := Parameters(Lookup(table, annotation.origin).value.protocol);
    ResolveArgsFindsFirstFailure(annotation.args, ctx.findChecker);
    ZipDictPairs(params, annotation.args);
  }

  /** The description of a built checker names each argument checker's description (blame names the whole generic). */
  lemma DescriptionNamesArguments(table: Table, annotation: Spec, ctx: CreationContext, i: nat)
    requires FactoryResult(table, annotation, ctx).Created?
    requires i < |annotation.args|
    ensures ctx.findChecker(annotation.args[i]).Some?
    ensures Occurs(Describe(ctx.findChecker(annotation.args[i]).value),
                   Describe(FactoryResult(table, annotation, ctx).checker))
  {
    CreatedDescription(table, annotation, ctx);
    var inner := ResolveArgs(annotation.args, ctx.findChecker).checkers;
    JoinContainsParts(", ", Descriptions(inner), i);
    OccursWithin(Describe(inner[i]), Join(", ", Descriptions(inner)), OriginName(annotation.origin) + "[", "]");
  }

  /** Every interface checker says that checking may change identity. */
  lemma InterfaceCheckersChangeIdentity(c: Checker)
    requires c.InterfaceChecker?
    ensures MayChangeIdentity(c)
  {
  }

  // ---------------------------------------------------------------- Findings

  /**
   * As written, no `Iterable[T]` annotation yields a checker: unpacking the
   * entry `(WIterable)` fails before any argument is looked at, even when the
   * single argument resolves.
   */
  lemma IterableNeverBuilds(args: seq<Spec>, ctx: CreationContext)
    ensures FactoryResult(AsWritten, GenericSpec(Iterable, args), ctx) == Failed(NotUnpackable(BareClass(WIterable)))
  {
  }

  /**
   * With the entry written `(WIterable,)`, `Iterable[T]` builds like the
   * other origins: one parameter `I`, bound to T, and the description
   * `Iterable[<T's description>]`.
   */
  lemma IterableFixedBuilds(arg: Spec, ctx: CreationContext)
    requires ctx.findChecker(arg).Some?
    ensures var r := FactoryResult(IterableFixed, GenericSpec(Iterable, [arg]), ctx);
            r.Created? && WellFormed(r.checker) &&
            r.checker.template.protocol == WIterable &&
            r.checker.template.bindings == map[TypeVar("I", 43) := arg] &&
            Describe(r.checker) == "Iterable[" + Describe(ctx.findChecker(arg).value) + "]"
  {
    var inner := [ctx.findChecker(arg).value];
    assert ResolveArgs([arg], ctx.findChecker) == AllResolved(inner) by {
      assert [arg][1..] == [];
    }
    assert Join(", ", Descriptions(inner)) == Describe(inner[0]);
    var params := Parameters(WIterable);
    assert ZipDict(params, [arg]) == map[TypeVar("I", 43) := arg] by {
      assert ZipDict(params, [arg]) == ZipDict(params[..0], [arg][..0])[params[0] := arg];
    }
  }

  // ---------------------------------------------------------------- checking

  /** `issubclass(cls, origin)` for the tabled origins. */
  predicate IsSubclass(cls: Class, origin: Origin)
    requires !origin.Unmapped?
  {
    match origin
    case Dict => cls.base == DictBase
    case List => cls.base == ListBase
    case Set => cls.base == SetBase
    case Iterable => cls.definesIter || cls.base in {StrBase, BytesBase, TupleBase, ListBase, DictBase, SetBase, FrozenSetBase}
  }

  /**
   * An instance of a checker's proxy class: it refers to the checked value
   * itself (it copies nothing) and keeps the execution context under which
   * later accesses report failures.
   */
  class Proxy {
    const template: Template
    const inner: Val
    const returnCtx: ExecutionContext

    constructor (template: Template, inner: Val, returnCtx: ExecutionContext)
      ensures this.template == template && this.inner == inner && this.returnCtx == returnCtx
    {
      this.template := template;
      this.inner := inner;
      this.returnCtx := returnCtx;
    }
  }

  /** What interface `check_and_wrap` gives: a new proxy, or the error it raises. */
  datatype Wrapped = Proxied(proxy: Proxy) | Refused(error: TypeError)

  /**
   * `InterfaceChecker.check_and_wrap`: refuses a value whose class is not a
   * subclass of the origin, with an error carrying the value and the
   * checker's description; otherwise allocates a proxy of the template whose
   * inner reference is the value itself and whose return context reports
   * under the checker's name. Only the value's class is consulted.
   */
  method CheckAndWrap(c: Checker, arg: Val, ctx: ExecutionContext) returns (r: Wrapped)
    requires WellFormed(c)
    ensures r.Refused? <==> !IsSubclass(TypeOf(arg), c.origin)
    ensures r.Refused? ==> r.error == TypeError(arg, Describe(c), ctx)
    ensures r.Proxied? ==> fresh(r.proxy) && r.proxy.template == c.template && r.proxy.inner == arg
                           && r.proxy.returnCtx == ReplaceType(ctx, c.name)
  {
    if !IsSubclass(TypeOf(arg), c.origin) {
      return Refused(TypeError(arg, Describe(c), ctx));
    }
    var instance := new Proxy(c.template, arg, ReplaceType(ctx, c.name));
    return Proxied(instance);
  }
}
