/**
 * The checker abstraction of untypy: the annotations a factory is given, the
 * checkers it builds, their descriptions and identity flags, the contexts
 * threaded through construction and checking, and the Any checker.
 */
module Checkers {
  import opened Wrappers
  import opened Python

  /**
   * `annotation.__origin__` of a generic annotation: `Dict[K, V]`, `dict[K, V]`
   * have origin `dict`, `List[T]` has `list`, `Set[T]` has `set`, and
   * `Iterable[T]` has `collections.abc.Iterable`. Any other generic origin
   * (`tuple`, `Callable`, ...) is Unmapped.
   */
  datatype Origin = Dict | List | Set | Iterable | Unmapped(name: string)

  /** `origin.__name__`. */
  function OriginName(o: Origin): string
  {
    match o
    case Dict => "dict"
    case List => "list"
    case Set => "set"
    case Iterable => "Iterable"
    case Unmapped(name) => name
  }

  /** A type annotation, by its shape: `Literal[v, ...]`, a generic `origin[args]`, or anything else. */
  datatype Spec =
    | LiteralSpec(values: seq<Val>)
    | GenericSpec(origin: Origin, args: seq<Spec>)
    | OtherSpec(name: string)

  /** A `TypeVar`, known by its name and the line of interface.py that creates it. */
  datatype TypeVar = TypeVar(name: string, line: nat)

  /** The protocol classes of interface.py that a proxy implements. */
  datatype Protocol = WDict | WList | WSet | WIterable

  /**
   * `protocol.__parameters__`: the type variables of its `Generic[...]` base.
   * Each of WList, WSet and WIterable uses its own `I`, created anew just
   * before the class.
   */
  function Parameters(p: Protocol): seq<TypeVar>
  {
    match p
    case WDict => [TypeVar("K", 9), TypeVar("V", 10)]
    case WList => [TypeVar("I", 21)]
    case WSet => [TypeVar("I", 32)]
    case WIterable => [TypeVar("I", 43)]
  }

  /** The declared location a creation context reports. */
  datatype Location = Location(text: string)

  /**
   * The proxy class (`WrappedType`) an interface checker instantiates: its
   * protocol, the type-variable bindings it is built with, the generic's full
   * name, the implementation template (the origin) and the declared location.
   */
  datatype Template = Template(
    protocol: Protocol,
    bindings: map<TypeVar, Spec>,
    name: string,
    implementation: Origin,
    declared: Location)

  /**
   * A checker. Checkers keep what construction derived and never change
   * afterwards. ForeignChecker stands for every checker kind outside this
   * model (the ones the registry may return for `int`, classes, ...).
   */
  datatype Checker =
    | AnyChecker
    | LiteralChecker(inner: seq<Val>)
    | InterfaceChecker(origin: Origin, template: Template, name: string)
    | ForeignChecker(description: string, changesIdentity: bool)

  /** `checker.describe()`. */
  function Describe(c: Checker): string
  {
    match c
    case AnyChecker => "Any"
    case LiteralChecker(inner) => "Literal[" + TupleRepr(inner) + "]"
    case InterfaceChecker(_, _, name) => name
    case ForeignChecker(description, _) => description
  }

  /** `checker.may_change_identity()`. */
  predicate MayChangeIdentity(c: Checker)
  {
    match c
    case AnyChecker => false
    case LiteralChecker(_) => false
    case InterfaceChecker(_, _, _) => true
    case ForeignChecker(_, changesIdentity) => changesIdentity
  }

  /**
   * An execution context: the boundary where a check happens, possibly under
   * frames that replace the reported type with another description.
   */
  datatype ExecutionContext =
    | Boundary(location: Location)
    | ReplaceType(upper: ExecutionContext, name: string)

  /** `ctx.wrap(UntypyTypeError(value, expected))`: the failure together with the context it arose in. */
  datatype TypeError = TypeError(value: Val, expected: string, ctx: ExecutionContext)

  /** What `check_and_wrap` of a value-returning checker gives: the accepted value, or the error it raises. */
  datatype Checked = Accepted(value: Val) | Rejected(error: TypeError)

  /**
   * A creation context: `find_checker`, which resolves a nested annotation
   * through the factory registry (None when no factory applies), and
   * `declared_location()`.
   */
  datatype CreationContext = CreationContext(findChecker: Spec -> Option<Checker>, declared: Location)

  /** `AnyChecker.check_and_wrap`: every value passes, and the very value passed in comes back. */
  function AnyCheckAndWrap(arg: Val, ctx: ExecutionContext): (r: Checked)
    ensures r.Accepted? && r.value == arg
  {
    Accepted(arg)
  }
}
