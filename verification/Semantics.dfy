/** The recursive semantic types, the table of named declarations they refer to, and
    the dynamic values both conversion directions look at. */
module Semantics {
  import opened Wrappers

  datatype ScalarKind = BoolKind | Int32Kind | Int64Kind | Float32Kind | Float64Kind | StringKind | BytesKind

  datatype SemanticType =
    | VoidType
    | ScalarType(scalar: ScalarKind)
    | EnumRef(id: string)
    | ValueRef(id: string)
    | ObjectRef(id: string)
    | ArrayOf(element: SemanticType)
    | NullableOf(element: SemanticType)

  datatype FieldDeclaration = FieldDeclaration(name: string, typ: SemanticType)

  datatype Declaration =
    | EnumDeclaration(name: string, constants: seq<string>)
    | ObjectDeclaration(name: string)
    | ValueDeclaration(name: string, fields: seq<FieldDeclaration>)

  /** Declarations by type identity; nothing prevents the references from being cyclic. */
  type Table = map<string, Declaration>

  /** What the semantic model guarantees of a type: void is never nested. */
  predicate NoNestedVoid(t: SemanticType) {
    match t
    case ArrayOf(e) => !e.VoidType? && NoNestedVoid(e)
    case NullableOf(e) => !e.VoidType? && NoNestedVoid(e)
    case _ => true
  }

  /** What the semantic model guarantees of a declaration: field names are unique and
      no field is void. */
  ghost predicate ValidDeclaration(d: Declaration) {
    d.ValueDeclaration? ==>
      && (forall i, j :: 0 <= i < j < |d.fields| ==> d.fields[i].name != d.fields[j].name)
      && (forall i :: 0 <= i < |d.fields| ==> !d.fields[i].typ.VoidType? && NoNestedVoid(d.fields[i].typ))
  }

  ghost predicate ValidTable(table: Table) {
    forall id :: id in table ==> ValidDeclaration(table[id])
  }

  type Byte = x: int | 0 <= x < 256

  /** A finite double is modelled by its exact value. */
  datatype Double = Finite(r: real) | NotANumber | PositiveInfinity | NegativeInfinity

  datatype View = View(buffer: seq<Byte>, offset: nat, length: nat)

  /** A Uint8Array view never exceeds its ArrayBuffer. */
  type ArrayView = v: View | v.offset + v.length <= |v.buffer| witness View([], 0, 0)

  function VisibleBytes(v: ArrayView): seq<Byte> {
    v.buffer[v.offset..v.offset + v.length]
  }

  datatype Token = Token(typeId: string, backend: string, instance: nat)

  /** The values `_convert` may meet: JavaScript snapshots, native values, and anything else. */
  datatype Value =
    | Undefined
    | ArrayHole
    | Null
    | Boolean(b: bool)
    | Integer(i: int)
    | Float(d: Double)
    | BigInt(i: int)
    | Str(s: string)
    | Uint8Array(view: ArrayView)
    | Buffer(bytes: seq<Byte>)
    | Native(token: Token)
    | List(items: seq<Value>)
    | Tuple(items: seq<Value>)
    | Mapping(entries: map<string, Value>)
    | Foreign(tag: string)

  /** The bytes one Unicode scalar value takes in UTF-8 (section 3 of RFC 3629). */
  function Utf8Width(c: char): (n: nat)
    ensures 1 <= n <= 4
  {
    var code := c as int;
    if code < 0x80 then 1 else if code < 0x800 then 2 else if code < 0x1_0000 then 3 else 4
  }

  function Utf8Length(s: string): nat {
    if s == "" then 0 else Utf8Width(s[0]) + Utf8Length(s[1..])
  }

  // ---------------------------------------------------------------- integers to doubles

  function Pow2(e: nat): (p: nat)
    ensures p > 0
  {
    if e == 0 then 1 else 2 * Pow2(e - 1)
  }

  const SIGNIFICAND: int := 0x20_0000_0000_0000

  /** 2 to the 1024th: the first magnitude beyond every finite double. */
  const DOUBLE_LIMIT: int := SIGNIFICAND * Pow2(971)

  /** The spacing of doubles around n. */
  function Spacing(n: nat): (q: nat)
    ensures q > 0
  {
    if n < SIGNIFICAND then 1 else 2 * Spacing(n / 2)
  }

  /** Round to the nearest double, ties to the even significand. */
  function RoundMagnitude(n: nat): nat {
    var q := Spacing(n);
    var k, rest := n / q, n % q;
    if 2 * rest > q || (2 * rest == q && k % 2 == 1) then (k + 1) * q else k * q
  }

  function RoundToDouble(i: int): int {
    if i < 0 then 0 - RoundMagnitude(-i) else RoundMagnitude(i)
  }

  /** `float(value)` on a number; None stands for the host's own overflow error. */
  function ToDouble(v: Value): Option<Double>
    requires v.Integer? || v.Float?
  {
    if v.Float? then Some(v.d)
    else
      var rounded := RoundToDouble(v.i);
      if -DOUBLE_LIMIT < rounded < DOUBLE_LIMIT then Some(Finite(rounded as real)) else None
  }

  lemma {:induction false} SpacingIsSmall(n: nat)
    requires n >= SIGNIFICAND
    ensures Spacing(n) * (SIGNIFICAND / 2) <= n
  {
    if n / 2 >= SIGNIFICAND {
      SpacingIsSmall(n / 2);
    } else {
      assert Spacing(n / 2) == 1;
    }
  }

  lemma QuotientBounds(n: nat, q: nat)
    requires q > 0
    ensures n - q < (n / q) * q <= n
    ensures (n / q + 1) * q > n
  {
    assert n == q * (n / q) + n % q;
  }

  lemma RoundingIsClose(n: nat)
    ensures n < SIGNIFICAND ==> RoundMagnitude(n) == n
    ensures RoundMagnitude(n) > n - Spacing(n)
  {
    if n < SIGNIFICAND {
      assert n / 1 == n && n % 1 == 0;
    }
    QuotientBounds(n, Spacing(n));
  }

  /** Rounding is exact on significand-sized integers and never brings a larger one down
      into the 32-bit range. */
  lemma RoundingKeepsInt32(i: int)
    ensures -SIGNIFICAND < i < SIGNIFICAND ==> RoundToDouble(i) == i
    ensures i >= SIGNIFICAND ==> RoundToDouble(i) > 0x8000_0000
    ensures i <= -SIGNIFICAND ==> RoundToDouble(i) < -0x8000_0000
  {
    var n: nat := if i < 0 then -i else i;
    RoundingIsClose(n);
    if n >= SIGNIFICAND {
      SpacingIsSmall(n);
    }
  }

  /** An integer becomes the same double when it fits the significand, and otherwise
      overflows the host or stays outside the 32-bit range. */
  lemma IntegerToDouble(i: int)
    ensures -SIGNIFICAND < i < SIGNIFICAND ==> ToDouble(Integer(i)) == Some(Finite(i as real))
    ensures i >= SIGNIFICAND && ToDouble(Integer(i)).Some? ==>
      ToDouble(Integer(i)).value.Finite? && ToDouble(Integer(i)).value.r > 0x8000_0000 as real
    ensures i <= -SIGNIFICAND && ToDouble(Integer(i)).Some? ==>
      ToDouble(Integer(i)).value.Finite? && ToDouble(Integer(i)).value.r < -0x8000_0000 as real
  {
    RoundingKeepsInt32(i);
    assert SIGNIFICAND * Pow2(971) >= SIGNIFICAND;
  }
}
