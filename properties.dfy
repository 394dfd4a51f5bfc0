/** What the matcher promises, proved about the model in matcher.dfy. */
module MatcherProperties {
  import opened Outcomes
  import opened Json
  import opened Accessor
  import opened Matcher

  // ---------------------------------------------------------------------
  // The walker: `_doEvery` and `_callOr` over the entries of a node.

  /** Every entry of the node from position i on has outcome x. */
  predicate AllFrom(h: Host, rec: JVal, node: JVal, i: nat, x: Outcome<bool>) {
    forall j :: i <= j < Count(node) ==> EntryOutcome(h, rec, node, j) == x
  }

  /** Entry j is the first from position i on whose outcome is not `pass`,
      and its outcome is x. */
  predicate FirstOtherAt(h: Host, rec: JVal, node: JVal, i: nat, j: nat, pass: Outcome<bool>, x: Outcome<bool>) {
    i <= j < Count(node) && EntryOutcome(h, rec, node, j) == x &&
    forall k :: i <= k < j ==> EntryOutcome(h, rec, node, k) == pass
  }

  /** Skipping an entry whose outcome is `pass` does not change where the
      first other outcome x sits. */
  lemma FirstOtherShift(h: Host, rec: JVal, node: JVal, i: nat, next: nat, pass: Outcome<bool>, x: Outcome<bool>)
    requires i < Count(node) && next == i + 1
    requires EntryOutcome(h, rec, node, i) == pass && pass != x
    ensures (exists j :: FirstOtherAt(h, rec, node, i, j, pass, x)) <==>
      (exists j :: FirstOtherAt(h, rec, node, next, j, pass, x))
  {
    if j :| FirstOtherAt(h, rec, node, i, j, pass, x) {
      assert FirstOtherAt(h, rec, node, next, j, pass, x);
    }
    if j :| FirstOtherAt(h, rec, node, next, j, pass, x) {
      assert FirstOtherAt(h, rec, node, i, j, pass, x);
    }
  }

  /** `_doEvery` holds exactly when every remaining entry holds. */
  lemma {:induction false} EveryTrueIff(h: Host, rec: JVal, node: JVal, i: nat)
    ensures Every(h, rec, node, i) == Answer(true) <==> AllFrom(h, rec, node, i, Answer(true))
    decreases Count(node) - i
  {
    if i < Count(node) {
      if EntryOutcome(h, rec, node, i) == Answer(true) {
        EveryTrueIff(h, rec, node, i + 1);
      } else {
        assert Every(h, rec, node, i) != Answer(true);
      }
    }
  }

  /** Any other outcome of `_doEvery` (false, no callback, a TypeError) is
      the outcome of the first entry that does not hold. */
  lemma {:induction false} EveryStopsAt(h: Host, rec: JVal, node: JVal, i: nat, x: Outcome<bool>)
    requires x != Answer(true)
    ensures Every(h, rec, node, i) == x <==> exists j :: FirstOtherAt(h, rec, node, i, j, Answer(true), x)
    decreases Count(node) - i
  {
    if i < Count(node) {
      var e := EntryOutcome(h, rec, node, i);
      if e == Answer(true) {
        EveryStopsAt(h, rec, node, i + 1, x);
        FirstOtherShift(h, rec, node, i, i + 1, Answer(true), x);
        assert Every(h, rec, node, i) == Every(h, rec, node, i + 1);
      } else if e == x {
        assert Every(h, rec, node, i) == x;
        assert FirstOtherAt(h, rec, node, i, i, Answer(true), x);
      } else {
        assert Every(h, rec, node, i) == e;
        forall j ensures !FirstOtherAt(h, rec, node, i, j, Answer(true), x) {
        }
      }
    }
  }

  /** `_callOr` is false exactly when every remaining entry is false. */
  lemma {:induction false} DetectFalseIff(h: Host, rec: JVal, node: JVal, i: nat)
    ensures Detect(h, rec, node, i) == Answer(false) <==> AllFrom(h, rec, node, i, Answer(false))
    decreases Count(node) - i
  {
    if i < Count(node) {
      if EntryOutcome(h, rec, node, i) == Answer(false) {
        DetectFalseIff(h, rec, node, i + 1);
      } else {
        assert Detect(h, rec, node, i) != Answer(false);
        assert !AllFrom(h, rec, node, i, Answer(false));
      }
    }
  }

  /** Any other outcome of `_callOr` (true, no callback, a TypeError) is
      the outcome of the first entry that is not false. */
  lemma {:induction false} DetectStopsAt(h: Host, rec: JVal, node: JVal, i: nat, x: Outcome<bool>)
    requires x != Answer(false)
    ensures Detect(h, rec, node, i) == x <==> exists j :: FirstOtherAt(h, rec, node, i, j, Answer(false), x)
    decreases Count(node) - i
  {
    if i < Count(node) {
      var e := EntryOutcome(h, rec, node, i);
      if e == Answer(false) {
        DetectStopsAt(h, rec, node, i + 1, x);
        FirstOtherShift(h, rec, node, i, i + 1, Answer(false), x);
        assert Detect(h, rec, node, i) == Detect(h, rec, node, i + 1);
      } else if e == x {
        assert Detect(h, rec, node, i) == x;
        assert FirstOtherAt(h, rec, node, i, i, Answer(false), x);
      } else {
        assert Detect(h, rec, node, i) == e;
        forall j ensures !FirstOtherAt(h, rec, node, i, j, Answer(false), x) {
        }
      }
    }
  }

  // ---------------------------------------------------------------------
  // The public entry points.

  /** The empty criteria object matches every record. */
  lemma EmptyCriteriaMatches(h: Host, rec: JVal)
    ensures Match(h, rec, Obj([])) == Answer(true)
  {
  }

  /** A criteria object with one key is that key's check. */
  lemma SingleKeyMatch(h: Host, rec: JVal, k: string, v: JVal)
    ensures Match(h, rec, Obj([(k, v)])) == CheckTrue(h, rec, k, v)
  {
    var node := Obj([(k, v)]);
    assert Count(node) == 1 && [(k, v)][0] == (k, v);
    assert EntryOutcome(h, rec, node, 0) == CheckTrue(h, rec, k, v);
    assert Every(h, rec, node, 1) == Answer(true);
  }

  /** `find` answers exactly when `match` answers for every record. */
  lemma {:induction false} FindAnswersIff(h: Host, recs: seq<JVal>, c: JVal)
    ensures Find(h, recs, c).Answer? <==> forall i :: 0 <= i < |recs| ==> Match(h, recs[i], c).Answer?
    decreases |recs|
  {
    if recs != [] {
      FindAnswersIff(h, recs[1..], c);
      assert forall i :: 1 <= i < |recs| ==> recs[i] == recs[1..][i - 1];
    }
  }

  /** What `find` returns holds exactly the records that match. */
  lemma {:induction false} FindSelectsMatches(h: Host, recs: seq<JVal>, c: JVal)
    requires Find(h, recs, c).Answer?
    ensures forall x :: x in Find(h, recs, c).value <==> x in recs && Match(h, x, c) == Answer(true)
    decreases |recs|
  {
    if recs != [] {
      FindSelectsMatches(h, recs[1..], c);
      assert recs == [recs[0]] + recs[1..];
    }
  }

  /** `find` keeps the input order: on a concatenation it returns the
      selection from the first part followed by that from the second. */
  lemma {:induction false} FindPreservesOrder(h: Host, a: seq<JVal>, b: seq<JVal>, c: JVal)
    requires Find(h, a, c).Answer? && Find(h, b, c).Answer?
    ensures Find(h, a + b, c) == Answer(Find(h, a, c).value + Find(h, b, c).value)
    decreases |a|
  {
    if a == [] {
      assert a + b == b && Find(h, a, c) == Answer([]);
      assert Find(h, a, c).value + Find(h, b, c).value == Find(h, b, c).value;
    } else {
      var ab := a + b;
      assert ab != [] && ab[0] == a[0] && ab[1..] == a[1..] + b;
      FindFirst(h, a, c);
      FindPreservesOrder(h, a[1..], b, c);
      FindFirst(h, ab, c);
      SelectAppend(a[0], Match(h, a[0], c).value, Find(h, a[1..], c).value, Find(h, b, c).value);
    }
  }

  /** Prepending a kept record commutes with appending the rest. */
  lemma SelectAppend(x: JVal, keep: bool, ra: seq<JVal>, rb: seq<JVal>)
    ensures (if keep then [x] + (ra + rb) else ra + rb) == (if keep then [x] + ra else ra) + rb
  {
    if keep {
      assert [x] + (ra + rb) == ([x] + ra) + rb;
    }
  }

  /** One step of `find` on a record list that answers: the first record
      heads the selection exactly when it matches. */
  lemma FindFirst(h: Host, recs: seq<JVal>, c: JVal)
    requires recs != [] && Find(h, recs, c).Answer?
    ensures Match(h, recs[0], c).Answer? && Find(h, recs[1..], c).Answer?
    ensures Find(h, recs, c).value ==
      if Match(h, recs[0], c).value then [recs[0]] + Find(h, recs[1..], c).value
      else Find(h, recs[1..], c).value
  {
  }

  // ---------------------------------------------------------------------
  // The combinators. Element j of a list is checked as the value at
  // key IndexKey(j), i.e. "0", "1", ...

  lemma ListEntries(h: Host, rec: JVal, L: seq<JVal>)
    ensures forall j :: 0 <= j < |L| ==>
      EntryOutcome(h, rec, Arr(L), j) == CheckTrue(h, rec, IndexKey(j), L[j])
  {
  }

  /** `{$and: L}` holds iff every element holds; it is true for []. */
  lemma AndCombinator(h: Host, rec: JVal, L: seq<JVal>)
    ensures Match(h, rec, Obj([("$and", Arr(L))])) == Answer(true) <==>
      forall j :: 0 <= j < |L| ==> CheckTrue(h, rec, IndexKey(j), L[j]) == Answer(true)
    ensures L == [] ==> Match(h, rec, Obj([("$and", Arr(L))])) == Answer(true)
  {
    SingleKeyMatch(h, rec, "$and", Arr(L));
    EveryTrueIff(h, rec, Arr(L), 0);
    ListEntries(h, rec, L);
  }

  /** Any other outcome of `{$and: L}` comes from its first element that
      does not hold; in particular it is false iff some element is false
      and all before it are true. */
  lemma AndStopsAt(h: Host, rec: JVal, L: seq<JVal>, x: Outcome<bool>)
    requires x != Answer(true)
    ensures Match(h, rec, Obj([("$and", Arr(L))])) == x <==>
      exists j :: 0 <= j < |L| && CheckTrue(h, rec, IndexKey(j), L[j]) == x &&
        forall k :: 0 <= k < j ==> CheckTrue(h, rec, IndexKey(k), L[k]) == Answer(true)
  {
    SingleKeyMatch(h, rec, "$and", Arr(L));
    EveryStopsAt(h, rec, Arr(L), 0, x);
    ListEntries(h, rec, L);
    if Match(h, rec, Obj([("$and", Arr(L))])) == x {
      var j: nat :| FirstOtherAt(h, rec, Arr(L), 0, j, Answer(true), x);
      assert CheckTrue(h, rec, IndexKey(j), L[j]) == x;
    }
    if j :| (0 <= j < |L| && CheckTrue(h, rec, IndexKey(j), L[j]) == x &&
             forall k :: 0 <= k < j ==> CheckTrue(h, rec, IndexKey(k), L[k]) == Answer(true)) {
      assert FirstOtherAt(h, rec, Arr(L), 0, j, Answer(true), x);
    }
  }

  /** `{$or: L}` holds iff some element holds (with every element before it
      false); it is false iff every element is false, so false for []. */
  lemma OrCombinator(h: Host, rec: JVal, L: seq<JVal>)
    ensures Match(h, rec, Obj([("$or", Arr(L))])) == Answer(true) <==>
      exists j :: 0 <= j < |L| && CheckTrue(h, rec, IndexKey(j), L[j]) == Answer(true) &&
        forall k :: 0 <= k < j ==> CheckTrue(h, rec, IndexKey(k), L[k]) == Answer(false)
    ensures Match(h, rec, Obj([("$or", Arr(L))])) == Answer(false) <==>
      forall j :: 0 <= j < |L| ==> CheckTrue(h, rec, IndexKey(j), L[j]) == Answer(false)
    ensures L == [] ==> Match(h, rec, Obj([("$or", Arr(L))])) == Answer(false)
  {
    SingleKeyMatch(h, rec, "$or", Arr(L));
    DetectStopsAt(h, rec, Arr(L), 0, Answer(true));
    DetectFalseIff(h, rec, Arr(L), 0);
    ListEntries(h, rec, L);
    if Match(h, rec, Obj([("$or", Arr(L))])) == Answer(true) {
      var j: nat :| FirstOtherAt(h, rec, Arr(L), 0, j, Answer(false), Answer(true));
      assert CheckTrue(h, rec, IndexKey(j), L[j]) == Answer(true);
    }
    if j :| (0 <= j < |L| && CheckTrue(h, rec, IndexKey(j), L[j]) == Answer(true) &&
             forall k :: 0 <= k < j ==> CheckTrue(h, rec, IndexKey(k), L[k]) == Answer(false)) {
      assert FirstOtherAt(h, rec, Arr(L), 0, j, Answer(false), Answer(true));
    }
  }

  /** `{$nor: L}` is always the negation of `{$or: L}`; true for []. */
  lemma NorIsNegatedOr(h: Host, rec: JVal, L: seq<JVal>)
    ensures Match(h, rec, Obj([("$nor", Arr(L))])) == Negate(Match(h, rec, Obj([("$or", Arr(L))])))
    ensures L == [] ==> Match(h, rec, Obj([("$nor", Arr(L))])) == Answer(true)
  {
    SingleKeyMatch(h, rec, "$nor", Arr(L));
    SingleKeyMatch(h, rec, "$or", Arr(L));
  }

  // ---------------------------------------------------------------------
  // Nested nodes: objects that are not a single-operator comparison.

  /** For a nested node N, `{k: N}` is N on its own: the key k is ignored
      and N's keys are resolved from the record's root. */
  lemma NestedNodeIgnoresKey(h: Host, rec: JVal, k: string, n: JVal)
    requires k != "$where" && IsNestedNode(n)
    ensures CheckTrue(h, rec, k, n) == Match(h, rec, n)
    ensures Match(h, rec, Obj([(k, n)])) == Match(h, rec, n)
  {
    SingleKeyMatch(h, rec, k, n);
  }

  lemma IndexKeyIsNotWhere(j: nat)
    ensures IndexKey(j) != "$where"
  {
    assert IsDigit(IndexKey(j)[0]);
  }

  /** A list element that is a nested node (this covers nested `$and`,
      `$or` and `$nor` objects) is equivalent to matching the record
      against that element. */
  lemma ListElementIsNode(h: Host, rec: JVal, L: seq<JVal>, j: nat)
    requires j < |L| && IsNestedNode(L[j])
    ensures CheckTrue(h, rec, IndexKey(j), L[j]) == Match(h, rec, L[j])
  {
    IndexKeyIsNotWhere(j);
  }

  /** For a list of nested nodes, `{$and: L}` holds iff the record matches
      every element of L. */
  lemma AndOfNodes(h: Host, rec: JVal, L: seq<JVal>)
    requires forall j :: 0 <= j < |L| ==> IsNestedNode(L[j])
    ensures Match(h, rec, Obj([("$and", Arr(L))])) == Answer(true) <==>
      forall j :: 0 <= j < |L| ==> Match(h, rec, L[j]) == Answer(true)
  {
    AndCombinator(h, rec, L);
    forall j | 0 <= j < |L| ensures CheckTrue(h, rec, IndexKey(j), L[j]) == Match(h, rec, L[j]) {
      ListElementIsNode(h, rec, L, j);
    }
  }

  /** For a list of nested nodes, `{$or: L}` is false iff the record
      matches no element of L, and true iff it matches one (with every
      element before it answering false). */
  lemma OrOfNodes(h: Host, rec: JVal, L: seq<JVal>)
    requires forall j :: 0 <= j < |L| ==> IsNestedNode(L[j])
    ensures Match(h, rec, Obj([("$or", Arr(L))])) == Answer(false) <==>
      forall j :: 0 <= j < |L| ==> Match(h, rec, L[j]) == Answer(false)
    ensures Match(h, rec, Obj([("$or", Arr(L))])) == Answer(true) <==>
      exists j :: 0 <= j < |L| && Match(h, rec, L[j]) == Answer(true) &&
        forall k :: 0 <= k < j ==> Match(h, rec, L[k]) == Answer(false)
  {
    OrCombinator(h, rec, L);
    forall j | 0 <= j < |L| ensures CheckTrue(h, rec, IndexKey(j), L[j]) == Match(h, rec, L[j]) {
      ListElementIsNode(h, rec, L, j);
    }
  }

  /** `{k: {$gte: x, $lte: y}}` is not a range test on k: it compares the
      record's own "$gte" and "$lte" fields with x and y. */
  lemma TwoOperatorObjectReadsFields(h: Host, rec: JVal, k: string, x: JVal, y: JVal)
    requires k != "$where"
    ensures Match(h, rec, Obj([(k, Obj([("$gte", x), ("$lte", y)]))]))
         == Match(h, rec, Obj([("$gte", x), ("$lte", y)]))
  {
    NestedNodeIgnoresKey(h, rec, k, Obj([("$gte", x), ("$lte", y)]));
  }

  /** So `{a: {$gte: 1, $lte: 10}}` rejects `{a: 5}`: the record has no
      "$gte" field. */
  lemma RangeLookalikeRejects(h: Host)
    ensures Match(h, Obj([("a", Num(5))]), Obj([("a", Obj([("$gte", Num(1)), ("$lte", Num(10))]))]))
         == Answer(false)
  {
    var rec := Obj([("a", Num(5))]);
    TwoOperatorObjectReadsFields(h, rec, "a", Num(1), Num(10));
    UndottedPathIsOneLookup(rec, "$gte");
    assert ResolvePath(rec, "$gte") == Undefined;
    assert CheckTrue(h, rec, "$gte", Num(1)) == Answer(false);
    assert EntryOutcome(h, rec, Obj([("$gte", Num(1)), ("$lte", Num(10))]), 0) == Answer(false);
  }

  // ---------------------------------------------------------------------
  // Leaf comparisons.

  /** `{k: {$exists: a}}` for a truthy and a falsy a always disagree, and
      each says whether the path resolves. */
  lemma ExistsOpposite(h: Host, rec: JVal, k: string, a: JVal, b: JVal)
    requires k != "$where" && Truthy(a) && !Truthy(b)
    ensures CheckTrue(h, rec, k, Obj([("$exists", a)])) == Negate(CheckTrue(h, rec, k, Obj([("$exists", b)])))
    ensures !ResolvePath(rec, k).TypeError? ==>
      CheckTrue(h, rec, k, Obj([("$exists", a)])) == Answer(ResolvePath(rec, k).Found?)
  {
  }

  /** `{k: {$ne: v}}` is the negation of the literal test `{k: v}` for every
      non-null scalar v. */
  lemma NeNegatesLiteral(h: Host, rec: JVal, k: string, v: JVal)
    requires k != "$where" && IsScalar(v)
    ensures CheckTrue(h, rec, k, Obj([("$ne", v)])) == Negate(CheckTrue(h, rec, k, v))
  {
  }

  /** `$lt`, `$lte`, `$gt` and `$gte` on an absent path are false. */
  lemma ComparisonOnAbsentPathFails(h: Host, rec: JVal, k: string, op: string, v: JVal)
    requires k != "$where" && op in {"$lt", "$lte", "$gt", "$gte"}
    requires ResolvePath(rec, k) == Undefined
    ensures CheckTrue(h, rec, k, Obj([(op, v)])) == Answer(false)
  {
    UndefinedNeverCompares(h, v);
  }

  /** On a path holding a number and a numeric operand the four operators
      are the integer order, and `$lt` and `$gte` are complementary. */
  lemma ComparisonOnNumbers(h: Host, rec: JVal, k: string, m: int, n: int)
    requires k != "$where" && ResolvePath(rec, k) == Found(Num(m))
    ensures CheckTrue(h, rec, k, Obj([("$lt", Num(n))])) == Answer(m < n)
    ensures CheckTrue(h, rec, k, Obj([("$lte", Num(n))])) == Answer(m <= n)
    ensures CheckTrue(h, rec, k, Obj([("$gt", Num(n))])) == Answer(m > n)
    ensures CheckTrue(h, rec, k, Obj([("$gte", Num(n))])) == Answer(m >= n)
  {
    NumbersCompare(h, m, n);
  }

  /** `{k: {$in: xs}}` holds iff some element of xs loosely equals the
      resolved value; an empty list never holds. */
  lemma InMembership(h: Host, rec: JVal, k: string, xs: seq<JVal>)
    requires k != "$where"
    ensures !ResolvePath(rec, k).TypeError? ==>
      CheckTrue(h, rec, k, Obj([("$in", Arr(xs))])) ==
        Answer(exists j :: 0 <= j < |xs| && LooseEq(h, Some(xs[j]), ValueOf(ResolvePath(rec, k))))
    ensures ResolvePath(rec, k).TypeError? ==> CheckTrue(h, rec, k, Obj([("$in", Arr(xs))])) == Raised
    ensures xs == [] ==> CheckTrue(h, rec, k, Obj([("$in", Arr(xs))])) != Answer(true)
  {
  }

  /** `$nin` never answers: it takes the length of the missing `$in`
      operand and throws. */
  lemma NinNeverAnswers(h: Host, rec: JVal, k: string, v: JVal)
    requires k != "$where"
    ensures CheckTrue(h, rec, k, Obj([("$nin", v)])) == Raised
    ensures Match(h, rec, Obj([(k, Obj([("$nin", v)]))])) == Raised
  {
    SingleKeyMatch(h, rec, k, Obj([("$nin", v)]));
  }

  // ---------------------------------------------------------------------
  // Shapes that never produce an answer.

  /** An array under any key other than `$and`/`$or`/`$nor` makes no
      callback. */
  lemma ArrayUnderOrdinaryKeyIsStuck(h: Host, rec: JVal, k: string, xs: seq<JVal>)
    requires k != "$and" && k != "$or" && k != "$nor"
    ensures CheckTrue(h, rec, k, Arr(xs)) == Stuck
    ensures Match(h, rec, Obj([(k, Arr(xs))])) == Stuck
  {
    SingleKeyMatch(h, rec, k, Arr(xs));
  }

  /** A `null` or `{}` criteria value has no keys and makes no callback. */
  lemma EmptyValueIsStuck(h: Host, rec: JVal, k: string)
    requires k != "$where"
    ensures CheckTrue(h, rec, k, Null) == Stuck && CheckTrue(h, rec, k, Obj([])) == Stuck
    ensures Match(h, rec, Obj([(k, Null)])) == Stuck && Match(h, rec, Obj([(k, Obj([]))])) == Stuck
  {
    SingleKeyMatch(h, rec, k, Null);
    SingleKeyMatch(h, rec, k, Obj([]));
  }

  /** A `null` met half-way along a path makes the rest of the path throw. */
  lemma NullOnPathRaises(h: Host, rec: JVal, p: string, q: string, v: JVal)
    requires ResolvePath(rec, p) == Found(Null) && IsScalar(v)
    ensures ResolvePath(rec, p + "." + q) == TypeError
    ensures p + "." + q != "$where" ==> CheckTrue(h, rec, p + "." + q, v) == Raised
  {
    DottedPathComposes(rec, p, q);
    var sq := Split(q);
    assert Resolve(Null, sq) == TypeError;
  }
}
