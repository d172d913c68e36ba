/**
 * The part of Python's runtime that the checkers observe: values and their
 * classes, the `==` operator used by `in`, `repr`/`str` of the values a
 * `Literal` may hold, `str.join`, and `dict(zip(keys, values))`.
 */
module Python {

  /**
   * The built-in class whose instance layout a class extends. CPython lets a
   * class extend at most one of these, so `issubclass(C, dict)` holds exactly
   * when C's layout base is `dict`.
   */
  datatype Base = NoneBase | IntBase | StrBase | BytesBase | TupleBase | ListBase | DictBase | SetBase | FrozenSetBase | ObjectBase

  /** A runtime class: its name, its layout base, and whether it defines or inherits a non-None `__iter__`. */
  datatype Class = Class(name: string, base: Base, definesIter: bool)

  /** A byte of a `bytes` value. */
  newtype Byte = x: int | 0 <= x < 256

  /**
   * A runtime value. `None`, `bool`, `int`, `str` and `bytes` are values;
   * everything else (containers, enum members, user objects) is an object
   * known by its class, its identity `ref` and the text its `repr` gives.
   */
  datatype Val =
    | NoneV
    | BoolV(b: bool)
    | IntV(i: int)
    | StrV(s: string)
    | BytesV(bytes: seq<Byte>)
    | ObjV(cls: Class, ref: nat, text: string)

  /** `type(v)`. `bool` is a subclass of `int`, so it shares int's layout. */
  function TypeOf(v: Val): Class
  {
    match v
    case NoneV => Class("NoneType", NoneBase, false)
    case BoolV(_) => Class("bool", IntBase, false)
    case IntV(_) => Class("int", IntBase, false)
    case StrV(_) => Class("str", StrBase, true)
    case BytesV(_) => Class("bytes", BytesBase, true)
    case ObjV(cls, _, _) => cls
  }

  predicate IsNumber(v: Val)
  {
    v.BoolV? || v.IntV?
  }

  /** The integer a number stands for: `True == 1` and `False == 0`. */
  function AsInt(v: Val): int
    requires IsNumber(v)
  {
    if v.BoolV? then (if v.b then 1 else 0) else v.i
  }

  /**
   * Python's `a == b` on these values: numbers compare by value across `bool`
   * and `int`, strings and bytes by contents (a string never equals bytes),
   * `None` with itself, and objects by identity (the default `__eq__`, which
   * plain enum members keep).
   */
  predicate Equal(a: Val, b: Val)
  {
    if IsNumber(a) || IsNumber(b) then IsNumber(a) && IsNumber(b) && AsInt(a) == AsInt(b)
    else a == b
  }

  // ---------------------------------------------------------------- repr

  function DigitChar(d: nat): char
    requires d < 10
  {
    "0123456789"[d]
  }

  function HexDigit(d: nat): char
    requires d < 16
  {
    "0123456789abcdef"[d]
  }

  function NatRepr(n: nat): string
    decreases n
  {
    if n < 10 then [DigitChar(n)] else NatRepr(n / 10) + [DigitChar(n % 10)]
  }

  function IntRepr(i: int): string
  {
    if i < 0 then "-" + NatRepr(-i) else NatRepr(i)
  }

  /** How `repr` writes one character of a string quoted with `quote`. */
  function EscapeChar(c: char, quote: char): string
  {
    if c == '\\' then "\\\\"
    else if c == quote then ['\\', c]
    else if c == '\n' then "\\n"
    else if c == '\r' then "\\r"
    else if c == '\t' then "\\t"
    else if (c as int) < 0x20 || c as int == 0x7F then "\\x" + [HexDigit(c as int / 16), HexDigit(c as int % 16)]
    else [c]
  }

  function EscapeAll(s: string, quote: char): string
  {
    if s == [] then [] else EscapeChar(s[0], quote) + EscapeAll(s[1..], quote)
  }

  /** `repr(s)`: single quotes unless the text holds a single quote and no double quote. */
  function StrRepr(s: string): string
  {
    var quote := if '\'' in s && '"' !in s then '"' else '\'';
    [quote] + EscapeAll(s, quote) + [quote]
  }

  /** How `repr` writes one byte of a bytes value quoted with `quote`. */
  function EscapeByte(b: Byte, quote: char): string
  {
    var c := b as int as char;
    if c == '\\' then "\\\\"
    else if c == quote then ['\\', c]
    else if c == '\n' then "\\n"
    else if c == '\r' then "\\r"
    else if c == '\t' then "\\t"
    else if b < 0x20 || b >= 0x7F then "\\x" + [HexDigit(b as int / 16), HexDigit(b as int % 16)]
    else [c]
  }

  function EscapeBytes(bs: seq<Byte>, quote: char): string
  {
    if bs == [] then [] else EscapeByte(bs[0], quote) + EscapeBytes(bs[1..], quote)
  }

  /** `repr(b)`: `b` and the same choice of quotes as for strings. */
  function BytesRepr(bs: seq<Byte>): string
  {
    var quote := if 0x27 in bs && 0x22 !in bs then '"' else '\'';
    "b" + [quote] + EscapeBytes(bs, quote) + [quote]
  }

  function Repr(v: Val): string
  {
    match v
    case NoneV => "None"
    case BoolV(b) => if b then "True" else "False"
    case IntV(i) => IntRepr(i)
    case StrV(s) => StrRepr(s)
    case BytesV(bs) => BytesRepr(bs)
    case ObjV(_, _, text) => text
  }

  function Reprs(vs: seq<Val>): seq<string>
  {
    seq(|vs|, i requires 0 <= i < |vs| => Repr(vs[i]))
  }

  /** `sep.join(parts)`. */
  function Join(sep: string, parts: seq<string>): string
  {
    if |parts| == 0 then ""
    else if |parts| == 1 then parts[0]
    else parts[0] + sep + Join(sep, parts[1..])
  }

  /** `str(t)` of a tuple: a one-element tuple keeps its trailing comma. */
  function TupleRepr(vs: seq<Val>): string
  {
    if |vs| == 1 then "(" + Repr(vs[0]) + ",)"
    else "(" + Join(", ", Reprs(vs)) + ")"
  }

  // ---------------------------------------------------------------- substrings

  predicate IsAt(part: string, whole: string, k: int)
  {
    0 <= k && k + |part| <= |whole| && whole[k..k + |part|] == part
  }

  /** `part in whole` for strings. */
  predicate Occurs(part: string, whole: string)
  {
    exists k | 0 <= k <= |whole| :: IsAt(part, whole, k)
  }

  lemma OccursWithin(part: string, whole: string, pre: string, post: string)
    requires Occurs(part, whole)
    ensures Occurs(part, pre + whole + post)
  {
    var k :| 0 <= k <= |whole| && IsAt(part, whole, k);
    var w := pre + whole + post;
    assert w[|pre| + k..|pre| + k + |part|] == whole[k..k + |part|];
    assert IsAt(part, w, |pre| + k);
  }

  /** Every part of a join appears in the joined text. */
  lemma {:induction false} JoinContainsParts(sep: string, parts: seq<string>, i: nat)
    requires i < |parts|
    ensures Occurs(parts[i], Join(sep, parts))
  {
    var w := Join(sep, parts);
    if |parts| == 1 {
      assert w[0..|parts[0]|] == parts[0];
      assert IsAt(parts[i], w, 0);
    } else if i == 0 {
      assert w == parts[0] + (sep + Join(sep, parts[1..]));
      assert w[0..|parts[0]|] == parts[0];
      assert IsAt(parts[i], w, 0);
    } else {
      JoinContainsParts(sep, parts[1..], i - 1);
      OccursWithin(parts[i], Join(sep, parts[1..]), parts[0] + sep, "");
      assert w == (parts[0] + sep) + Join(sep, parts[1..]) + "";
    }
  }

  /** The text of a tuple names each of its items. */
  lemma TupleReprNamesItems(vs: seq<Val>, i: nat)
    requires i < |vs|
    ensures Occurs(Repr(vs[i]), TupleRepr(vs))
  {
    if |vs| == 1 {
      assert IsAt(Repr(vs[0]), Repr(vs[0]), 0);
      OccursWithin(Repr(vs[0]), Repr(vs[0]), "(", ",)");
    } else {
      JoinContainsParts(", ", Reprs(vs), i);
      OccursWithin(Repr(vs[i]), Join(", ", Reprs(vs)), "(", ")");
    }
  }

  // ---------------------------------------------------------------- dict(zip(..))

  /** `dict(zip(ks, vs))`: zip stops at the shorter input, and a later key overwrites an earlier one. */
  function ZipDict<K(==), V>(ks: seq<K>, vs: seq<V>): map<K, V>
    decreases |ks|
  {
    var n := if |ks| < |vs| then |ks| else |vs|;
    if n == 0 then map[] else ZipDict(ks[..n - 1], vs[..n - 1])[ks[n - 1] := vs[n - 1]]
  }

  predicate Distinct<K(==)>(ks: seq<K>)
  {
    forall i, j :: 0 <= i < j < |ks| ==> ks[i] != ks[j]
  }

  /** With distinct keys of the same number as the values, the dict pairs them positionally, one entry per key. */
  lemma {:induction false} ZipDictPairs<K, V>(ks: seq<K>, vs: seq<V>)
    requires |ks| == |vs| && Distinct(ks)
    ensures forall i :: 0 <= i < |ks| ==> ks[i] in ZipDict(ks, vs) && ZipDict(ks, vs)[ks[i]] == vs[i]
    ensures forall k :: k in ZipDict(ks, vs) ==> k in ks
    ensures |ZipDict(ks, vs)| == |ks|
    decreases |ks|
  {
    if |ks| > 0 {
      var n := |ks|;
      var ks', vs' := ks[..n - 1], vs[..n - 1];
      assert Distinct(ks') by {
        forall i, j | 0 <= i < j < |ks'| ensures ks'[i] != ks'[j] {
          assert ks'[i] == ks[i] && ks'[j] == ks[j];
        }
      }
      ZipDictPairs(ks', vs');
      var m' := ZipDict(ks', vs');
      var last := ks[n - 1];
      assert ZipDict(ks, vs) == m'[last := vs[n - 1]];
      assert last !in m' by {
        forall j | 0 <= j < |ks'| ensures ks'[j] != last {
          assert ks'[j] == ks[j];
        }
      }
      assert |m'[last := vs[n - 1]]| == |m'| + 1;
      forall i | 0 <= i < n - 1 ensures ks[i] in m'[last := vs[n - 1]] && m'[last := vs[n - 1]][ks[i]] == vs[i] {
        assert ks'[i] == ks[i] && vs'[i] == vs[i];
      }
      forall k | k in m'[last := vs[n - 1]] ensures k in ks {
        if k != last {
          var j :| 0 <= j < |ks'| && ks'[j] == k;
          assert ks[j] == k;
        }
      }
    }
  }
}
