/** The criteria walker of mongo-json-query: `_doEvery`, `_callOr`,
    `_callNor`, `_checkTrue`, and the public `match` and `find`. The
    callback style of the source becomes an `Outcome`: the value handed
    to the callback, no callback at all, or a thrown TypeError. The
    `async` iterators are read left to right, and the first entry that
    decides (or gives no answer) ends the walk. */
module Matcher {
  import opened Outcomes
  import opened Json
  import opened Accessor

  /** The eight operator names the `switch` on a single-key object knows. */
  predicate IsOperator(op: string) {
    op in {"$exists", "$lt", "$lte", "$gt", "$gte", "$ne", "$in", "$nin"}
  }

  /** How many keys `_.keys` reports: an object's fields, an array's
      positions, none for anything else (`null` included). */
  function Count(node: JVal): nat {
    match node
    case Obj(fs) => |fs|
    case Arr(xs) => |xs|
    case _ => 0
  }

  /** A criteria value that the walker re-reads as a criteria node: an
      object with two or more keys, or with one key that is not an
      operator. */
  predicate IsNestedNode(v: JVal) {
    v.Obj? && (|v.fields| >= 2 || (|v.fields| == 1 && !IsOperator(v.fields[0].0)))
  }

  /** The elements of a `$in` operand as the scan reads them through
      `.length` and `[i]`: an array's items, a string's characters, and
      nothing for a number, a boolean or an object (whose `.length` is
      `undefined`). */
  function InItems(operand: JVal): (items: seq<JVal>)
    ensures operand.Arr? ==> items == operand.items
    ensures operand.Str? ==> |items| == |operand.s|
    ensures operand.Str? ==> forall i :: 0 <= i < |items| ==> items[i] == Str([operand.s[i]])
    ensures !operand.Arr? && !operand.Str? ==> items == []
  {
    match operand
    case Arr(xs) => xs
    case Str(s) => seq(|s|, i requires 0 <= i < |s| => Str([s[i]]))
    case _ => []
  }

  /** The result of the `$in` case: true when some element loosely equals
      the resolved value; reading `.length` of a `null` operand throws. */
  function InResult(h: Host, operand: JVal, x: Option<JVal>): (o: Outcome<bool>)
    ensures operand.Null? <==> o == Raised
    ensures o != Stuck
  {
    if operand.Null? then Raised
    else
      var items := InItems(operand);
      Answer(exists i :: 0 <= i < |items| && LooseEq(h, Some(items[i]), x))
  }

  /** The `$in` scan as the source writes it: a loop that sets the result
      and breaks at the first equal element. */
  method InScan(h: Host, operand: JVal, x: Option<JVal>) returns (o: Outcome<bool>)
    ensures o == InResult(h, operand, x)
  {
    if operand.Null? {
      return Raised;
    }
    var items := InItems(operand);
    var retValue := false;
    var i := 0;
    while i < |items|
      invariant 0 <= i <= |items|
      invariant !retValue
      invariant forall j :: 0 <= j < i ==> !LooseEq(h, Some(items[j]), x)
    {
      if LooseEq(h, Some(items[i]), x) {
        retValue := true;
        break;
      }
      i := i + 1;
    }
    o := Answer(retValue);
  }

  /** One operator case of the `switch`, with `key` as the field path and
      `operand` as the operator's value. The path is resolved first, so a
      TypeError from the accessor wins over every case. */
  function Leaf(h: Host, rec: JVal, key: string, op: string, operand: JVal): (o: Outcome<bool>)
    requires IsOperator(op)
    ensures ResolvePath(rec, key).TypeError? ==> o == Raised
    ensures op == "$nin" ==> o == Raised
    ensures op != "$in" && op != "$nin" && !ResolvePath(rec, key).TypeError? ==> o.Answer?
    ensures o != Stuck
  {
    var r := ResolvePath(rec, key);
    if r.TypeError? then Raised
    else
      var x := ValueOf(r);
      if op == "$exists" then Answer(if Truthy(operand) then r.Found? else !r.Found?)
      else if op == "$lt" then Answer(JsLt(h, x, Some(operand)))
      else if op == "$lte" then Answer(JsLte(h, x, Some(operand)))
      else if op == "$gt" then Answer(JsGt(h, x, Some(operand)))
      else if op == "$gte" then Answer(JsGte(h, x, Some(operand)))
      else if op == "$ne" then Answer(!LooseEq(h, x, Some(operand)))
      else if op == "$in" then InResult(h, operand, x)
      // `$nin` reads the `$in` member of its own single-key object, which
      // is `undefined`, and takes its `.length`
      else Raised
  }

  /** `_checkTrue` for the key `key` whose criteria value is `v`. The
      shape of `v` is tested in the source's order: an array, the key
      `$where`, an object (or null), anything else. */
  function CheckTrue(h: Host, rec: JVal, key: string, v: JVal): (o: Outcome<bool>)
    ensures v.Arr? && key != "$and" && key != "$or" && key != "$nor" ==> o == Stuck
    ensures !v.Arr? && key == "$where" ==> o == Answer(h.evalWhere(rec, v))
    ensures IsScalar(v) && key != "$where" ==> o != Stuck
    ensures IsScalar(v) && key != "$where" ==> (o == Raised <==> ResolvePath(rec, key).TypeError?)
    decreases v, 1, 0, 0
  {
    if v.Arr? then
      if key == "$and" then Every(h, rec, v, 0)
      else if key == "$or" then Detect(h, rec, v, 0)
      else if key == "$nor" then Negate(Detect(h, rec, v, 0))
      // an array under any other key: no branch calls back
      else Stuck
    else if key == "$where" then Answer(h.evalWhere(rec, v))
    else if v.Obj? || v.Null? then
      if Count(v) == 1 && IsOperator(v.fields[0].0) then
        Leaf(h, rec, key, v.fields[0].0, v.fields[0].1)
      else if Count(v) >= 1 then Every(h, rec, v, 0)
      // zero keys: neither the `== 1` nor the `> 1` branch fires
      else Stuck
    else
      var r := ResolvePath(rec, key);
      if r.TypeError? then Raised else Answer(LooseEq(h, ValueOf(r), Some(v)))
  }

  /** `_checkTrue` on entry i of a node: key i and the value stored there. */
  function EntryOutcome(h: Host, rec: JVal, node: JVal, i: nat): Outcome<bool>
    requires i < Count(node)
    decreases node, 0, Count(node) - i, 0
  {
    match node
    case Obj(fs) => CheckTrue(h, rec, fs[i].0, fs[i].1)
    case Arr(xs) => CheckTrue(h, rec, IndexKey(i), xs[i])
  }

  /** `_doEvery` from entry i on: every remaining entry must hold. */
  function Every(h: Host, rec: JVal, node: JVal, i: nat): Outcome<bool>
    decreases node, 0, Count(node) - i, 1
  {
    if i >= Count(node) then Answer(true)
    else
      match EntryOutcome(h, rec, node, i)
      case Answer(b) => if b then Every(h, rec, node, i + 1) else Answer(false)
      case Stuck => Stuck
      case Raised => Raised
  }

  /** `_callOr` from entry i on: `async.detect` for the first entry that
      holds; false when none does. */
  function Detect(h: Host, rec: JVal, node: JVal, i: nat): Outcome<bool>
    decreases node, 0, Count(node) - i, 1
  {
    if i >= Count(node) then Answer(false)
    else
      match EntryOutcome(h, rec, node, i)
      case Answer(b) => if b then Answer(true) else Detect(h, rec, node, i + 1)
      case Stuck => Stuck
      case Raised => Raised
  }

  /** `match(record, criteria, cb)`: the record must satisfy every key of
      the criteria object (a criteria value with no keys matches). */
  function Match(h: Host, rec: JVal, criteria: JVal): Outcome<bool> {
    Every(h, rec, criteria, 0)
  }

  /** `find(records, criteria, cb)`: the records that match, in their
      order; a record without an answer leaves `find` without one. */
  function Find(h: Host, recs: seq<JVal>, criteria: JVal): Outcome<seq<JVal>>
    decreases |recs|
  {
    if recs == [] then Answer([])
    else
      match Match(h, recs[0], criteria)
      case Stuck => Stuck
      case Raised => Raised
      case Answer(b) =>
        match Find(h, recs[1..], criteria)
        case Answer(rest) => Answer(if b then [recs[0]] + rest else rest)
        case Stuck => Stuck
        case Raised => Raised
  }
}
