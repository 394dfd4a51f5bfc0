/** JSON-like values as the matcher sees them, with the part of
    JavaScript's `==`, `<` and truthiness that the matcher relies on. */
module Json {
  import opened Outcomes

  /** A record, a criteria object, or any value inside either. An object's
      fields are listed in the order `_.keys` reports them: integer-like
      keys first in ascending order, then the others in insertion order;
      the model walks them in the order given and does not reorder them.
      Nothing here makes the keys distinct: with a repeated key the walker
      checks every binding, while a property lookup reads the first. */
  datatype JVal =
    | Null
    | Bool(b: bool)
    | Num(n: int)
    | Str(s: string)
    | Arr(items: seq<JVal>)
    | Obj(fields: seq<(string, JVal)>)

  /** The host behaviours the matcher calls into but this model does not
      define, supplied by the caller:
      - `evalWhere(record, body)`: the truthiness of running a `$where` body
        with the record's top-level fields bound (failures give false);
      - `crossEq(a, b)`: `a == b` for two non-nullish values of different
        kinds that are not both objects;
      - `crossLess(a, b)`: the abstract relational comparison `a < b` when
        the operands are neither both numeric-like nor both strings
        (None stands for JavaScript's "undefined" comparison result). */
  datatype Host = Host(
    evalWhere: (JVal, JVal) -> bool,
    crossEq: (JVal, JVal) -> bool,
    crossLess: (JVal, JVal) -> Option<bool>)

  /** Arrays and objects: the values whose `typeof` is "object". */
  predicate IsObjectLike(v: JVal) {
    v.Arr? || v.Obj?
  }

  /** Booleans, numbers and strings. */
  predicate IsScalar(v: JVal) {
    v.Bool? || v.Num? || v.Str?
  }

  /** JavaScript truthiness, as the ternary on `$exists`'s operand uses it. */
  predicate Truthy(v: JVal) {
    match v
    case Null => false
    case Bool(b) => b
    case Num(n) => n != 0
    case Str(s) => s != ""
    case Arr(_) => true
    case Obj(_) => true
  }

  /** `undefined` or `null`. */
  predicate IsNullish(x: Option<JVal>) {
    x.None? || x.value.Null?
  }

  /** Loose equality `a == b` between two JavaScript values (None is
      `undefined`). Arrays and objects compare by reference; the record and
      the criteria never share a reference, so two of them are unequal. */
  function LooseEq(h: Host, a: Option<JVal>, b: Option<JVal>): (r: bool)
    ensures IsNullish(a) && IsNullish(b) ==> r
    ensures IsNullish(a) != IsNullish(b) ==> !r
    ensures a.Some? && b.Some? && IsObjectLike(a.value) && IsObjectLike(b.value) ==> !r
  {
    if IsNullish(a) || IsNullish(b) then IsNullish(a) && IsNullish(b)
    else
      match (a.value, b.value)
      case (Bool(x), Bool(y)) => x == y
      case (Num(x), Num(y)) => x == y
      case (Str(x), Str(y)) => x == y
      case (x, y) =>
        if IsObjectLike(x) && IsObjectLike(y) then false else h.crossEq(x, y)
  }

  /** The number a value converts to when JavaScript compares it
      relationally and it is null, a boolean or a number. */
  function NumberOf(v: JVal): Option<int> {
    match v
    case Null => Some(0)
    case Bool(b) => Some(if b then 1 else 0)
    case Num(n) => Some(n)
    case _ => None
  }

  /** Code-point order on strings: a proper prefix is smaller, otherwise
      the first differing character decides. */
  predicate LexLess(s: string, t: string)
    decreases |s|
  {
    if s == [] then t != []
    else if t == [] then false
    else if s[0] != t[0] then s[0] < t[0]
    else LexLess(s[1..], t[1..])
  }

  /** The abstract relational comparison `a < b`: Some(answer), or None
      when it is "undefined" (a NaN operand, which is what `undefined`
      converts to). */
  function LessThan(h: Host, a: Option<JVal>, b: Option<JVal>): (r: Option<bool>)
    ensures a.None? || b.None? ==> r.None?
  {
    if a.None? || b.None? then None
    else if NumberOf(a.value).Some? && NumberOf(b.value).Some? then
      Some(NumberOf(a.value).value < NumberOf(b.value).value)
    else if a.value.Str? && b.value.Str? then
      Some(LexLess(a.value.s, b.value.s))
    else h.crossLess(a.value, b.value)
  }

  /** `a < b`. */
  predicate JsLt(h: Host, a: Option<JVal>, b: Option<JVal>) {
    LessThan(h, a, b) == Some(true)
  }

  /** `a <= b`: the comparison `b < a` is made and must be definitely false. */
  predicate JsLte(h: Host, a: Option<JVal>, b: Option<JVal>) {
    LessThan(h, b, a) == Some(false)
  }

  /** `a > b`, that is `b < a`. */
  predicate JsGt(h: Host, a: Option<JVal>, b: Option<JVal>) {
    LessThan(h, b, a) == Some(true)
  }

  /** `a >= b`: the comparison `a < b` must be definitely false. */
  predicate JsGte(h: Host, a: Option<JVal>, b: Option<JVal>) {
    LessThan(h, a, b) == Some(false)
  }

  /** On values of one scalar kind loose equality is plain identity. */
  lemma LooseEqSameKind(h: Host, a: JVal, b: JVal)
    requires (a.Bool? && b.Bool?) || (a.Num? && b.Num?) || (a.Str? && b.Str?)
    ensures LooseEq(h, Some(a), Some(b)) <==> a == b
  {
  }

  /** `undefined` compares false under all four relational operators,
      whatever stands on the other side. */
  lemma UndefinedNeverCompares(h: Host, b: JVal)
    ensures !JsLt(h, None, Some(b)) && !JsLte(h, None, Some(b))
    ensures !JsGt(h, None, Some(b)) && !JsGte(h, None, Some(b))
  {
  }

  /** On two numbers the four operators are the integer order, and
      `<` and `>=` are complementary. */
  lemma NumbersCompare(h: Host, x: int, y: int)
    ensures JsLt(h, Some(Num(x)), Some(Num(y))) <==> x < y
    ensures JsLte(h, Some(Num(x)), Some(Num(y))) <==> x <= y
    ensures JsGt(h, Some(Num(x)), Some(Num(y))) <==> x > y
    ensures JsGte(h, Some(Num(x)), Some(Num(y))) <==> x >= y
  {
  }

  /** Exactly one of s < t, s == t, t < s holds for strings, so on two
      strings `<` and `>=` are complementary and `<=` is `<` or equal. */
  lemma {:induction false} LexLessTrichotomy(s: string, t: string)
    ensures s == t ==> !LexLess(s, t) && !LexLess(t, s)
    ensures s != t ==> LexLess(s, t) != LexLess(t, s)
    decreases |s|
  {
    if s != [] && t != [] && s[0] == t[0] {
      LexLessTrichotomy(s[1..], t[1..]);
      assert s == [s[0]] + s[1..] && t == [t[0]] + t[1..];
    }
  }

  lemma {:induction false} LexLessTransitive(s: string, t: string, u: string)
    requires LexLess(s, t) && LexLess(t, u)
    ensures LexLess(s, u)
    decreases |s|
  {
    if s != [] && t != [] && u != [] && s[0] == t[0] && t[0] == u[0] {
      LexLessTransitive(s[1..], t[1..], u[1..]);
    }
  }
}
