/** untypy's Literal checker: a value passes when it is `==` to one of the literal's arguments. */
module Literal {
  import opened Wrappers
  import opened Python
  import opened Checkers

  /** `LiteralFactory.create_from`: a checker over the arguments of a `Literal[...]` annotation; None for any other annotation. */
  function CreateFrom(annotation: Spec, ctx: CreationContext): Option<Checker>
  {
    if annotation.LiteralSpec? then Some(LiteralChecker(annotation.values)) else None
  }

  /** `arg in inner`: some allowed value is `==` to arg, whatever its kind. */
  predicate Contains(inner: seq<Val>, arg: Val)
  {
    exists i | 0 <= i < |inner| :: Equal(inner[i], arg)
  }

  /**
   * `LiteralChecker.check_and_wrap`: an accepted value is returned as it is;
   * a rejected one raises a type error carrying the value, the checker's
   * description and the context. The context plays no part in the verdict.
   */
  function CheckAndWrap(c: Checker, arg: Val, ctx: ExecutionContext): (r: Checked)
    requires c.LiteralChecker?
    ensures r.Accepted? ==> r.value == arg
    ensures r.Rejected? ==> r.error == TypeError(arg, Describe(c), ctx)
  {
    if Contains(c.inner, arg) then Accepted(arg) else Rejected(TypeError(arg, Describe(c), ctx))
  }

  /** The factory builds a checker exactly for Literal annotations, and its allowed values are the arguments, in order. */
  lemma FactoryKeepsArguments(annotation: Spec, ctx: CreationContext)
    ensures CreateFrom(annotation, ctx).Some? <==> annotation.LiteralSpec?
    ensures annotation.LiteralSpec? ==>
              CreateFrom(annotation, ctx).value.LiteralChecker? && CreateFrom(annotation, ctx).value.inner == annotation.values
  {
  }

  /** A built checker accepts a value iff some argument of the annotation equals it, and then returns that value unchanged. */
  lemma AcceptsExactlyTheArguments(values: seq<Val>, arg: Val, cctx: CreationContext, ctx: ExecutionContext)
    ensures CreateFrom(LiteralSpec(values), cctx).Some?
    ensures CheckAndWrap(CreateFrom(LiteralSpec(values), cctx).value, arg, ctx) == Accepted(arg)
            <==> exists i :: 0 <= i < |values| && Equal(values[i], arg)
  {
  }

  /** Each argument of the literal passes its own checker. */
  lemma EveryArgumentAccepted(values: seq<Val>, i: nat, ctx: ExecutionContext)
    requires i < |values|
    ensures CheckAndWrap(LiteralChecker(values), values[i], ctx) == Accepted(values[i])
  {
  }

  /** A rejection carries the offending value, and its description names every allowed value. */
  lemma RejectionNamesEveryArgument(values: seq<Val>, arg: Val, ctx: ExecutionContext)
    ensures var r := CheckAndWrap(LiteralChecker(values), arg, ctx);
            r.Rejected? ==> r.error.value == arg
                            && forall i :: 0 <= i < |values| ==> Occurs(Repr(values[i]), r.error.expected)
  {
    var r := CheckAndWrap(LiteralChecker(values), arg, ctx);
    if r.Rejected? {
      forall i | 0 <= i < |values| ensures Occurs(Repr(values[i]), r.error.expected) {
        TupleReprNamesItems(values, i);
        OccursWithin(Repr(values[i]), TupleRepr(values), "Literal[", "]");
      }
    }
  }

  /** The verdict and the returned value do not depend on the execution context; only the error records it. */
  lemma VerdictIgnoresContext(c: Checker, arg: Val, ctx1: ExecutionContext, ctx2: ExecutionContext)
    requires c.LiteralChecker?
    ensures CheckAndWrap(c, arg, ctx1).Accepted? == CheckAndWrap(c, arg, ctx2).Accepted?
    ensures CheckAndWrap(c, arg, ctx1).Accepted? ==> CheckAndWrap(c, arg, ctx1) == CheckAndWrap(c, arg, ctx2)
    ensures CheckAndWrap(c, arg, ctx1).Rejected? ==>
              CheckAndWrap(c, arg, ctx1).error.(ctx := ctx2) == CheckAndWrap(c, arg, ctx2).error
  {
  }

  /**
   * Membership is by `==`, not by kind: `Literal[1]` lets `True` through and
   * returns `True`, while it refuses the string "1".
   */
  lemma MembershipIsByEquality(ctx: ExecutionContext)
    ensures CheckAndWrap(LiteralChecker([IntV(1)]), BoolV(true), ctx) == Accepted(BoolV(true))
    ensures CheckAndWrap(LiteralChecker([IntV(1)]), StrV("1"), ctx).Rejected?
  {
  }

  /** Bytes compare by contents and never equal a string: `Literal[b'a']` accepts `bytes([97])` and refuses `'a'`. */
  lemma BytesMembershipIsByContents(ctx: ExecutionContext)
    ensures CheckAndWrap(LiteralChecker([BytesV([97])]), BytesV([97]), ctx) == Accepted(BytesV([97]))
    ensures CheckAndWrap(LiteralChecker([BytesV([97])]), StrV("a"), ctx).Rejected?
  {
  }

  /**
   * The description puts `str` of the argument tuple inside `Literal[...]`,
   * so a single argument keeps the tuple's trailing comma: `Literal[42]`
   * describes itself as `Literal[(42,)]`.
   */
  lemma FortyTwoDescription()
    ensures Describe(LiteralChecker([IntV(42)])) == "Literal[(42,)]"
  {
  }

  /** `Literal[1, 'a']` describes itself as `Literal[(1, 'a')]`. */
  lemma PairDescription()
    ensures Describe(LiteralChecker([IntV(1), StrV("a")])) == "Literal[(1, 'a')]"
  {
    var q := '\'';
    assert EscapeAll("a", q) == "a" by {
      assert EscapeAll("a", q) == EscapeChar('a', q) + EscapeAll([], q);
    }
    assert !(q in "a");
    assert Repr(StrV("a")) == "'a'";
    assert Repr(IntV(1)) == "1";
    var parts := Reprs([IntV(1), StrV("a")]);
    assert parts == ["1", "'a'"];
    assert Join(", ", parts) == "1" + ", " + Join(", ", parts[1..]);
  }

  /** `Literal[b'a']` describes itself as `Literal[(b'a',)]`. */
  lemma BytesDescription()
    ensures Describe(LiteralChecker([BytesV([97])])) == "Literal[(b'a',)]"
  {
    var q := '\'';
    assert EscapeBytes([97], q) == "a" by {
      assert EscapeBytes([97], q) == EscapeByte(97, q) + EscapeBytes([], q);
    }
    assert !(0x27 in [97 as Byte]);
    assert Repr(BytesV([97])) == "b'a'";
  }

  /**
   * Any and Literal checkers say they keep identity, and indeed every value
   * they accept comes back unchanged.
   */
  lemma IdentityFlagMatchesBehaviour(c: Checker, arg: Val, ctx: ExecutionContext)
    requires c.AnyChecker? || c.LiteralChecker?
    ensures !MayChangeIdentity(c)
    ensures var r := if c.AnyChecker? then AnyCheckAndWrap(arg, ctx) else CheckAndWrap(c, arg, ctx);
            r.Accepted? ==> r.value == arg
  {
  }
}
