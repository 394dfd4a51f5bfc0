# mongo-json-query in Dafny

This project models `lib/mongo-json-query.js`, a MongoDB-style query
matcher. The matcher decides whether an in-memory JSON record satisfies a
criteria object (`match`), and picks out the records of a list that do
(`find`). The model covers:

- the criteria walker: `_doEvery` and the dispatch in `_checkTrue`;
- the combinators `$and`, `$or` and `$nor` (`_callOr`, `_callNor`);
- the leaf operators `$exists`, `$lt`, `$lte`, `$gt`, `$gte`, `$ne`, `$in`
  and `$nin`, plus implicit equality;
- the dotted-path accessor `_objAccessor`.

Files:

- `outcomes.dfy` (module `Outcomes`): `Option` and `Outcome`.
- `json.dfy` (module `Json`): the value type `JVal`, plus loose `==` and
  the relational comparison as the matcher uses them.
- `accessor.dfy` (module `Accessor`): splitting a path on `.`, array
  index keys, and the accessor as a loop proved against a recursive
  definition.
- `matcher.dfy` (module `Matcher`): the walker, the leaf operators, the
  `$in` scan as a loop, and `Match` and `Find`.
- `properties.dfy` (module `MatcherProperties`): lemmas about the walker,
  the combinators, nested nodes and the leaf operators.

How the model reads the source:

- **Values.** Records and criteria are one raw datatype, `JVal`. Objects
  list their fields in the order `_.keys` reports them: integer-like keys
  first in ascending order, then the others in insertion order. The
  walker takes the fields in the order given. An array's keys are `"0"`, `"1"`, …, produced by
  `IndexKey`. Criteria are not pre-parsed: `_checkTrue` re-reads the shape
  of each value, as the code does.
- **Callbacks become outcomes.** The code answers through callbacks. An
  evaluation is therefore an `Outcome`:
  - `Answer(b)`: the callback is called with `b`;
  - `Stuck`: no callback is ever made;
  - `Raised`: a TypeError is thrown.
- **The async iterators.** `async.every` and `async.detect` are read left
  to right. The first entry that decides, or that gives no answer, ends
  the walk.
- **Host oracles.** The model does not define the behaviour of three host
  facilities. A `Host` value supplies each of them:
  - the result of a `$where` body;
  - `==` between values of different kinds;
  - `<` between operands that are neither both numeric-like nor both
    strings.
  Same-kind equality, `null`/`undefined` equality, reference inequality
  of two objects, numeric order and code-point string order are all
  defined in the model.

Where the code's behaviour differs from what the MongoDB operator names
suggest, the model follows the code. The first four points are proved:

- `{a: {$gte: 1, $lte: 10}}` is not a range test, because a criteria
  object with two keys is re-read as a nested node against the same
  record. It therefore compares the record's own `"$gte"` and `"$lte"`
  fields. `{a: 5}` does not match it (`RangeLookalikeRejects`).
- `$nin` reads the `$in` member of its own one-key object. That member is
  `undefined`, so taking its `.length` throws (`NinNeverAnswers`).
- The matcher can throw. Reading a property of a `null` met part-way
  along a path raises a TypeError (`NullOnPathRaises`).
- Some shapes never call back: an array under an ordinary key, and a
  `null` or `{}` criteria value (`ArrayUnderOrdinaryKeyIsStuck`,
  `EmptyValueIsStuck`).
- Cross-type `==` is not "always false" in the code: JavaScript coerces
  the operands. The model does not define that coercion; it leaves the
  answer to the `Host.crossEq` oracle, so nothing about it is proved.

## Model

| member | source | states |
|---|---|---|
| Outcomes.Negate | lib/mongo-json-query.js:30-35 | `cb(!result)` around an evaluation: an answer is flipped; no callback and a thrown error pass through unchanged |
| Outcomes.NegateInvolutive | lib/mongo-json-query.js:30-35 | negating twice gives back the original outcome |
| Json.LooseEq | lib/mongo-json-query.js:96 | `undefined`/`null` are equal to each other and to nothing else; two arrays or objects (distinct references) are never equal |
| Json.LooseEqSameKind | lib/mongo-json-query.js:131 | on two booleans, two numbers or two strings, `==` is identity |
| Json.Truthy | lib/mongo-json-query.js:81 | the truthiness the `$exists` ternary tests: false for `null`, `false`, `0` and `""`, true otherwise |
| Json.LexLess | lib/mongo-json-query.js:83-94 | string `<`: a proper prefix is smaller, otherwise the first differing character decides |
| Json.JsLt | lib/mongo-json-query.js:84 | `a < b` holds when the relational comparison of a with b is definitely true |
| Json.JsLte | lib/mongo-json-query.js:87 | `a <= b` holds when the comparison of b with a is definitely false |
| Json.JsGt | lib/mongo-json-query.js:90 | `a > b` holds when the comparison of b with a is definitely true |
| Json.JsGte | lib/mongo-json-query.js:93 | `a >= b` holds when the comparison of a with b is definitely false |
| Json.LessThan | lib/mongo-json-query.js:83-94 | the abstract relational comparison is undefined (NaN) when an operand is `undefined` |
| Json.UndefinedNeverCompares | lib/mongo-json-query.js:83-94 | `undefined <`, `<=`, `>` and `>=` anything are all false |
| Json.NumbersCompare | lib/mongo-json-query.js:83-94 | on numbers, `<`, `<=`, `>` and `>=` are the integer order |
| Json.LexLessTrichotomy | lib/mongo-json-query.js:83-94 | on strings exactly one of s<t, s==t, t<s holds, so `<` and `>=` are complementary |
| Json.LexLessTransitive | lib/mongo-json-query.js:83-94 | string order is transitive |
| Accessor.ValueOf | lib/mongo-json-query.js:139-146 | a resolution that did not throw is a value exactly when one was found, and `undefined` otherwise |
| Accessor.Split | lib/mongo-json-query.js:137 | `split('.')` yields at least one segment, and no segment contains a dot |
| Accessor.JoinSplit | lib/mongo-json-query.js:137 | joining the segments with `.` gives the path back |
| Accessor.SplitJoin | lib/mongo-json-query.js:137 | splitting a join of dot-free segments gives the segments back |
| Accessor.SplitNoDot | lib/mongo-json-query.js:137 | a path without a dot is a single segment |
| Accessor.SplitDotAfter | lib/mongo-json-query.js:137 | splitting `a + "." + t` for dot-free a gives a followed by the segments of t |
| Accessor.SplitConcat | lib/mongo-json-query.js:137 | the segments of `p.q` are those of p followed by those of q |
| Accessor.DigitChar | lib/mongo-json-query.js:24-25 | the character of a digit is a decimal digit of that value |
| Accessor.DigitValue | lib/mongo-json-query.js:139-140 | the value of a digit character is below ten and maps back to the character |
| Accessor.IndexKey | lib/mongo-json-query.js:24-25 | `_.keys` of an array names position n by a non-empty decimal numeral with no leading zero |
| Accessor.IndexKeyRoundTrip | lib/mongo-json-query.js:24-25 | reading a position's key back as an array index gives that position |
| Accessor.LeadingDigitPositive | lib/mongo-json-query.js:139-140 | a numeral that does not start with 0 is at least 1 |
| Accessor.ArrayIndex | lib/mongo-json-query.js:139-140 | a property name is an array index exactly when it is a canonical decimal numeral |
| Accessor.ArrayIndexRoundTrip | lib/mongo-json-query.js:139-140 | every array-index name is the key `_.keys` gives that position |
| Accessor.Lookup | lib/mongo-json-query.js:139-140 | an object property is found exactly when some field has that key, and its value is that field's value |
| Accessor.Property | lib/mongo-json-query.js:139-140 | `obj[seg]`: object fields by key, array (and string) positions by canonical index within bounds, nothing on numbers and booleans |
| Accessor.Step | lib/mongo-json-query.js:139-144 | one segment throws exactly when the current value is `null` |
| Accessor.Resolve | lib/mongo-json-query.js:138-146 | the walk over the segments: each segment is one property step, `undefined` on the first missing one, a TypeError on `null`; the value reached otherwise |
| Accessor.ResolvePath | lib/mongo-json-query.js:136-147 | `_objAccessor(obj, path)`: the walk over `path.split('.')` |
| Accessor.ObjAccessor | lib/mongo-json-query.js:136-147 | the segment loop gives what the recursive walk of the split path gives: a found value, `undefined` on the first missing segment, or a TypeError on `null` |
| Accessor.UndottedPathIsOneLookup | lib/mongo-json-query.js:136-147 | a path with no dot is a single property lookup |
| Accessor.ResolveAppend | lib/mongo-json-query.js:138-146 | walking a + b is walking a and then continuing with b |
| Accessor.DottedPathComposes | lib/mongo-json-query.js:136-147 | resolving `p.q` is resolving q inside the result of resolving p |
| Accessor.UndefinedIffMissingSegment | lib/mongo-json-query.js:139-144 | the path is `undefined` exactly when some segment is missing from a non-null value reached by the segments before it |
| Accessor.UndefinedPrefixStaysUndefined | lib/mongo-json-query.js:142-144 | once a prefix of the path is `undefined`, so is the whole path |
| Matcher.IsOperator | lib/mongo-json-query.js:78-120 | the eight names the `switch` knows; any other single key falls to `default` |
| Matcher.Count | lib/mongo-json-query.js:74 | the number of keys `_.keys` reports: an object's fields, an array's positions, none otherwise |
| Matcher.IsNestedNode | lib/mongo-json-query.js:118-127 | an object that is re-read as a node: two or more keys, or one key that is not an operator |
| Matcher.InItems | lib/mongo-json-query.js:100-101 | what `.length` and `[i]` read from the `$in` operand: an array's items, a string's characters, nothing otherwise |
| Matcher.InResult | lib/mongo-json-query.js:98-106 | `$in` throws exactly when its operand is `null`, and otherwise answers |
| Matcher.InScan | lib/mongo-json-query.js:98-106 | the scan loop with its `break` gives true exactly when some element loosely equals the resolved value |
| Matcher.Leaf | lib/mongo-json-query.js:78-124 | a TypeError from the accessor wins over every operator; `$nin` always throws; every operator other than `$in`/`$nin` answers |
| Matcher.CheckTrue | lib/mongo-json-query.js:44-134 | `_checkTrue` in the source's order of tests; an array under an ordinary key makes no callback, `$where` answers with the oracle, and a literal answers unless the path throws |
| Matcher.EntryOutcome | lib/mongo-json-query.js:24-25 | `_checkTrue` bound to a node and called on its key i: an object's i-th field, or an array's element i under the key "i" |
| Matcher.Every | lib/mongo-json-query.js:23-28 | `_doEvery` from entry i on: true past the last entry, false at the first false entry, the outcome of the first entry that gives no answer or throws |
| Matcher.Detect | lib/mongo-json-query.js:37-42 | `_callOr` from entry i on: false past the last entry, true at the first true entry, the outcome of the first entry that gives no answer or throws |
| Matcher.Match | lib/mongo-json-query.js:12-21 | `match`: `_doEvery` of the record against the criteria |
| Matcher.Find | lib/mongo-json-query.js:5-10 | `find`: the records whose `match` is true, in order; no answer when some record's `match` gives none |
| MatcherProperties.FirstOtherShift | lib/mongo-json-query.js:23-42 | skipping an entry with the passing outcome does not move the first deciding entry |
| MatcherProperties.EveryTrueIff | lib/mongo-json-query.js:23-28 | `_doEvery` holds exactly when every remaining entry holds |
| MatcherProperties.EveryStopsAt | lib/mongo-json-query.js:23-28 | any other outcome of `_doEvery` is that of the first entry that does not hold |
| MatcherProperties.DetectFalseIff | lib/mongo-json-query.js:37-42 | `_callOr` is false exactly when every remaining entry is false |
| MatcherProperties.DetectStopsAt | lib/mongo-json-query.js:37-42 | any other outcome of `_callOr` is that of the first entry that is not false |
| MatcherProperties.EmptyCriteriaMatches | lib/mongo-json-query.js:12-28 | `match(D, {})` is true for every record |
| MatcherProperties.SingleKeyMatch | lib/mongo-json-query.js:12-28 | a criteria object with one key is that key's check |
| MatcherProperties.FindAnswersIff | lib/mongo-json-query.js:5-10 | `find` answers exactly when `match` answers for every record |
| MatcherProperties.FindSelectsMatches | lib/mongo-json-query.js:5-10 | `find` returns exactly the records whose `match` is true |
| MatcherProperties.FindPreservesOrder | lib/mongo-json-query.js:5-10 | on a concatenation, `find` returns the selection from the first part followed by that from the second |
| MatcherProperties.AndCombinator | lib/mongo-json-query.js:46-49 | `{$and: L}` holds iff every element of L holds; true for `[]` |
| MatcherProperties.AndStopsAt | lib/mongo-json-query.js:46-49 | any other outcome of `{$and: L}` is that of its first element that does not hold |
| MatcherProperties.OrCombinator | lib/mongo-json-query.js:50-52 | `{$or: L}` holds iff some element holds with all before it false, is false iff every element is false, and is false for `[]` |
| MatcherProperties.NorIsNegatedOr | lib/mongo-json-query.js:30-55 | `{$nor: L}` is the negation of `{$or: L}`; true for `[]` |
| MatcherProperties.NestedNodeIgnoresKey | lib/mongo-json-query.js:73-128 | for a nested node N, `{k: N}` and the check of k against N are both `match` against N: k is ignored and N's keys are resolved from the root |
| MatcherProperties.IndexKeyIsNotWhere | lib/mongo-json-query.js:57 | no list position's key is `$where` |
| MatcherProperties.ListElementIsNode | lib/mongo-json-query.js:118-127 | a list element that is a nested node is checked as `match` against that element |
| MatcherProperties.AndOfNodes | lib/mongo-json-query.js:46-49 | for a list of nested nodes, `{$and: L}` holds iff the record matches every element |
| MatcherProperties.OrOfNodes | lib/mongo-json-query.js:50-52 | for a list of nested nodes, `{$or: L}` is false iff the record matches no element, and true iff it first matches one |
| MatcherProperties.TwoOperatorObjectReadsFields | lib/mongo-json-query.js:126-131 | `{k: {$gte: x, $lte: y}}` is the same as `{$gte: x, $lte: y}`, which tests the record's "$gte" and "$lte" fields |
| MatcherProperties.RangeLookalikeRejects | lib/mongo-json-query.js:126-131 | `{a: 5}` does not match `{a: {$gte: 1, $lte: 10}}` |
| MatcherProperties.ExistsOpposite | lib/mongo-json-query.js:79-82 | `$exists` with a truthy and a falsy operand give opposite results, and the truthy one says whether the path resolves |
| MatcherProperties.NeNegatesLiteral | lib/mongo-json-query.js:95-132 | `{k: {$ne: v}}` is the negation of `{k: v}` for every non-null scalar v |
| MatcherProperties.ComparisonOnAbsentPathFails | lib/mongo-json-query.js:83-94 | `$lt`, `$lte`, `$gt` and `$gte` on an absent path are false |
| MatcherProperties.ComparisonOnNumbers | lib/mongo-json-query.js:83-94 | on a number and a numeric operand the four operators are the integer order |
| MatcherProperties.InMembership | lib/mongo-json-query.js:98-106 | `$in` over a list holds iff some element loosely equals the resolved value, throws on a TypeError path, and never holds for `[]` |
| MatcherProperties.NinNeverAnswers | lib/mongo-json-query.js:107-117 | `$nin` always throws, so `{k: {$nin: v}}` never answers |
| MatcherProperties.ArrayUnderOrdinaryKeyIsStuck | lib/mongo-json-query.js:46-56 | an array under a key other than `$and`/`$or`/`$nor` makes no callback |
| MatcherProperties.EmptyValueIsStuck | lib/mongo-json-query.js:73-128 | a `null` or `{}` criteria value makes no callback |
| MatcherProperties.NullOnPathRaises | lib/mongo-json-query.js:139 | a `null` reached part-way along a path makes the rest of the path throw, and a literal test on it too |

## Left out

- `$where` (lib/mongo-json-query.js:57-72): it builds source text and runs it with `vm.runInThisContext`. Its result is the `Host.evalWhere` oracle applied to the record and the body.
- The concurrency of `async.every`, `async.detect` and `async.filter`. Those start every entry; the model walks the entries in order and stops at the first that decides or gives no answer. So an entry that makes no callback ends the model's walk with no answer even when a later entry would decide: `{$or: [{b: []}, {a: 1}]}` on `{a: 1}` gives no answer in the model, while `async.detect` would still see element 1 hold. Which outcome wins when a thrown error and an early `false` coexist is not modelled either.
- Cross-type `==` and `<` (string vs number, array vs scalar, and so on) are the `Host.crossEq` and `Host.crossLess` oracles, not JavaScript's coercion rules.
- Floating-point numbers: numbers are unbounded integers.
- Prototype properties in the accessor and in the `$in` operand (`length`, `constructor`, and so on). `"a.length"` resolves to `undefined`, and an object operand with a `length` field is read as empty.
- A top-level criteria value that is not an object or array (a string, for instance): it is read as having no keys, so it matches. The keys lodash reports for such a value depend on its version.
- Strings are sequences of Unicode code points, not UTF-16 code units. Indexing a string does not split surrogate pairs, and `LexLess` orders strings by code point: `"\u{10000}" < "\uFFFF"` is true in JavaScript (0xD800 < 0xFFFF) but false in the model.
- The order of an object's fields: the model takes the fields in the order given and assumes it is the order `_.keys` reports. It does not sort integer-like keys ahead of the others itself, and the walk's outcome can depend on that order.
- Shared references between the record and the criteria: two objects are never loosely equal.
- Duplicate keys in an object: nothing makes keys distinct. With a repeated key the walker checks every binding and `Lookup` returns the first, whereas a parsed JavaScript object keeps only the last.
