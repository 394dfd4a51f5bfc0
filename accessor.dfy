/** The dotted field-path accessor `_objAccessor`: a path is split on '.'
    and its segments are read one property at a time, starting at the
    record. */
module Accessor {
  import opened Outcomes
  import opened Json

  /** What reading a path gives: a value, `undefined`, or the TypeError
      JavaScript throws when a property of `null` is read. */
  datatype Resolution = Found(value: JVal) | Undefined | TypeError

  /** The JavaScript value of a resolution that did not throw. */
  function ValueOf(r: Resolution): (x: Option<JVal>)
    requires !r.TypeError?
    ensures x.Some? <==> r.Found?
    ensures x.Some? ==> x.value == r.value
  {
    if r.Found? then Some(r.value) else None
  }

  // ---------------------------------------------------------------------
  // `String.prototype.split('.')` and its inverse `join('.')`.

  /** `s.split('.')`: never empty; a dot ends one segment and starts the next. */
  function Split(s: string): (r: seq<string>)
    ensures |r| >= 1
    ensures forall k :: 0 <= k < |r| ==> '.' !in r[k]
    decreases |s|
  {
    if s == [] then [""]
    else
      var rest := Split(s[1..]);
      if s[0] == '.' then [""] + rest
      else [[s[0]] + rest[0]] + rest[1..]
  }

  /** `segs.join('.')`. */
  function Join(segs: seq<string>): string
    decreases |segs|
  {
    if |segs| == 0 then ""
    else if |segs| == 1 then segs[0]
    else segs[0] + "." + Join(segs[1..])
  }

  /** Joining the segments of a path gives the path back. */
  lemma {:induction false} JoinSplit(s: string)
    ensures Join(Split(s)) == s
    decreases |s|
  {
    if s != [] {
      JoinSplit(s[1..]);
      var rest := Split(s[1..]);
      if s[0] == '.' {
        assert Split(s) == [""] + rest;
        assert Join(Split(s)) == "" + "." + Join(rest);
      } else if |rest| == 1 {
        assert Split(s) == [[s[0]] + rest[0]];
      } else {
        assert Split(s) == [[s[0]] + rest[0]] + rest[1..];
        assert (Split(s))[1..] == rest[1..];
        assert Join(rest) == rest[0] + "." + Join(rest[1..]);
      }
    }
  }

  /** Splitting a path made of dot-free segments gives the segments back. */
  lemma {:induction false} SplitJoin(segs: seq<string>)
    requires |segs| >= 1
    requires forall k :: 0 <= k < |segs| ==> '.' !in segs[k]
    ensures Split(Join(segs)) == segs
    decreases |segs|
  {
    if |segs| == 1 {
      SplitNoDot(segs[0]);
    } else {
      SplitJoin(segs[1..]);
      SplitDotAfter(segs[0], Join(segs[1..]));
      assert segs == [segs[0]] + segs[1..];
    }
  }

  /** A path without a dot is a single segment. */
  lemma {:induction false} SplitNoDot(a: string)
    requires '.' !in a
    ensures Split(a) == [a]
    decreases |a|
  {
    if a != [] {
      assert '.' !in a[1..] by {
        forall k | 0 <= k < |a[1..]| ensures a[1..][k] != '.' {
          assert a[1..][k] == a[k + 1];
        }
      }
      SplitNoDot(a[1..]);
      assert [a[0]] + a[1..] == a;
    }
  }

  lemma {:induction false} SplitDotAfter(a: string, t: string)
    requires '.' !in a
    ensures Split(a + "." + t) == [a] + Split(t)
    decreases |a|
  {
    if a == [] {
      assert (a + "." + t)[1..] == t;
    } else {
      assert (a + "." + t)[1..] == a[1..] + "." + t;
      assert '.' !in a[1..] by {
        forall k | 0 <= k < |a[1..]| ensures a[1..][k] != '.' {
          assert a[1..][k] == a[k + 1];
        }
      }
      SplitDotAfter(a[1..], t);
      assert [a[0]] + a[1..] == a;
    }
  }

  /** The segments of "p.q" are those of p followed by those of q. */
  lemma {:induction false} SplitConcat(p: string, q: string)
    ensures Split(p + "." + q) == Split(p) + Split(q)
    decreases |p|
  {
    var s := p + "." + q;
    if p == [] {
      assert s[0] == '.' && s[1..] == q;
    } else {
      assert s[0] == p[0] && s[1..] == p[1..] + "." + q;
      SplitConcat(p[1..], q);
      var sp, t := Split(p[1..]), Split(q);
      if p[0] != '.' {
        assert Split(s) == [[p[0]] + (sp + t)[0]] + (sp + t)[1..];
        assert Split(p) == [[p[0]] + sp[0]] + sp[1..];
        ExtendHead([p[0]], sp, t);
      } else {
        assert Split(s) == [""] + (sp + t);
        assert Split(p) == [""] + sp;
      }
    }
  }

  /** Extending the first segment commutes with appending more segments. */
  lemma ExtendHead(c: string, sp: seq<string>, t: seq<string>)
    requires |sp| >= 1
    ensures [c + (sp + t)[0]] + (sp + t)[1..] == ([c + sp[0]] + sp[1..]) + t
  {
    assert (sp + t)[0] == sp[0] && (sp + t)[1..] == sp[1..] + t;
  }

  // ---------------------------------------------------------------------
  // Array indices: the canonical decimal numerals "0", "1", ..., "10", ...

  predicate IsDigit(c: char) {
    '0' <= c <= '9'
  }

  function DigitChar(d: nat): (c: char)
    requires d < 10
    ensures IsDigit(c)
    ensures (c as int) - ('0' as int) == d
  {
    (('0' as int) + d) as char
  }

  function DigitValue(c: char): (d: nat)
    requires IsDigit(c)
    ensures d < 10 && DigitChar(d) == c
  {
    (c as int) - ('0' as int)
  }

  predicate AllDigits(s: string) {
    forall k :: 0 <= k < |s| ==> IsDigit(s[k])
  }

  /** The property name of array position n, as `_.keys` reports it and
      as `String(n)` writes it. */
  function IndexKey(n: nat): (s: string)
    ensures |s| >= 1 && AllDigits(s)
    ensures s[0] != '0' || s == "0"
    decreases n
  {
    if n < 10 then [DigitChar(n)]
    else IndexKey(n / 10) + [DigitChar(n % 10)]
  }

  /** The number a string of digits denotes. */
  function DigitsValue(s: string): nat
    requires AllDigits(s)
    decreases |s|
  {
    if s == [] then 0
    else 10 * DigitsValue(s[..|s| - 1]) + DigitValue(s[|s| - 1])
  }

  /** Decimal numerals without a superfluous leading zero: the property
      names that address an array element or a string character. */
  predicate IsCanonicalIndex(s: string) {
    |s| >= 1 && AllDigits(s) && (s[0] != '0' || |s| == 1)
  }

  function ArrayIndex(s: string): (r: Option<nat>)
    ensures r.Some? <==> IsCanonicalIndex(s)
  {
    if IsCanonicalIndex(s) then Some(DigitsValue(s)) else None
  }

  /** Every position's property name reads back as that position. */
  lemma {:induction false} IndexKeyRoundTrip(n: nat)
    ensures ArrayIndex(IndexKey(n)) == Some(n)
    decreases n
  {
    var s := IndexKey(n);
    if n >= 10 {
      IndexKeyRoundTrip(n / 10);
      assert s[..|s| - 1] == IndexKey(n / 10);
      assert DigitValue(s[|s| - 1]) == n % 10;
    } else {
      assert s[..|s| - 1] == [] && DigitsValue([]) == 0;
      assert DigitValue(s[0]) == n;
    }
  }

  lemma {:induction false} LeadingDigitPositive(s: string)
    requires |s| >= 1 && AllDigits(s) && s[0] != '0'
    ensures DigitsValue(s) >= 1
    decreases |s|
  {
    if |s| > 1 {
      LeadingDigitPositive(s[..|s| - 1]);
    }
  }

  /** Every property name that reads as a position is that position's
      canonical name, so "01" or "1.0" never address an element. */
  lemma {:induction false} ArrayIndexRoundTrip(s: string)
    requires ArrayIndex(s).Some?
    ensures IndexKey(ArrayIndex(s).value) == s
    decreases |s|
  {
    var n := DigitsValue(s);
    if |s| > 1 {
      var init := s[..|s| - 1];
      assert IsCanonicalIndex(init);
      LeadingDigitPositive(init);
      ArrayIndexRoundTrip(init);
      assert n / 10 == DigitsValue(init) && n % 10 == DigitValue(s[|s| - 1]);
      assert s == init + [s[|s| - 1]];
    } else {
      assert s[..|s| - 1] == [] && DigitsValue([]) == 0;
      assert n == DigitValue(s[0]);
      assert s == [s[0]];
    }
  }

  // ---------------------------------------------------------------------
  // Reading one property, then a whole path.

  /** `obj[key]` on an object's own fields: the first binding of `key`. */
  function Lookup(fs: seq<(string, JVal)>, key: string): (r: Option<JVal>)
    ensures r.Some? <==> exists i :: 0 <= i < |fs| && fs[i].0 == key
    ensures r.Some? ==> exists i :: 0 <= i < |fs| && fs[i] == (key, r.value)
  {
    if fs == [] then None
    else if fs[0].0 == key then Some(fs[0].1)
    else
      var r := Lookup(fs[1..], key);
      assert forall i :: 1 <= i < |fs| ==> fs[i] == fs[1..][i - 1];
      r
  }

  /** `v[key]` on a value other than null: a field of an object, an
      element of an array, a one-character string of a string, or
      `undefined`. */
  function Property(v: JVal, key: string): (r: Option<JVal>)
    requires !v.Null?
    ensures v.Bool? || v.Num? ==> r.None?
    ensures v.Obj? ==> (r.Some? <==> exists i :: 0 <= i < |v.fields| && v.fields[i].0 == key)
    ensures v.Obj? && r.Some? ==> exists i :: 0 <= i < |v.fields| && v.fields[i] == (key, r.value)
    ensures v.Arr? ==> (r.Some? <==> ArrayIndex(key).Some? && ArrayIndex(key).value < |v.items|)
    ensures v.Arr? && r.Some? ==> r.value == v.items[ArrayIndex(key).value]
    ensures v.Str? ==> (r.Some? <==> ArrayIndex(key).Some? && ArrayIndex(key).value < |v.s|)
    ensures v.Str? && r.Some? ==> r.value == Str([v.s[ArrayIndex(key).value]])
  {
    match v
    case Obj(fs) => Lookup(fs, key)
    case Arr(xs) =>
      var i := ArrayIndex(key);
      if i.Some? && i.value < |xs| then Some(xs[i.value]) else None
    case Str(s) =>
      var i := ArrayIndex(key);
      if i.Some? && i.value < |s| then Some(Str([s[i.value]])) else None
    case _ => None
  }

  /** One iteration of the accessor's loop: reading a property of `null`
      throws, an `undefined` property ends the walk. */
  function Step(v: JVal, seg: string): (r: Resolution)
    ensures r.TypeError? <==> v.Null?
  {
    if v.Null? then TypeError
    else
      match Property(v, seg)
      case Some(w) => Found(w)
      case None => Undefined
  }

  /** Reading the segments one after the other. */
  function Resolve(v: JVal, segs: seq<string>): Resolution
    decreases |segs|
  {
    if segs == [] then Found(v)
    else
      match Step(v, segs[0])
      case Found(w) => Resolve(w, segs[1..])
      case Undefined => Undefined
      case TypeError => TypeError
  }

  /** `_objAccessor(v, path)`. */
  function ResolvePath(v: JVal, path: string): Resolution {
    Resolve(v, Split(path))
  }

  /** Continues a walk that has reached `r` with the segments `rest`. */
  function Then(r: Resolution, rest: seq<string>): Resolution {
    match r
    case Found(w) => Resolve(w, rest)
    case Undefined => Undefined
    case TypeError => TypeError
  }

  /** The accessor as the source writes it: a loop over the segments that
      reassigns the current value and returns as soon as a segment is
      missing. */
  method ObjAccessor(obj: JVal, path: string) returns (r: Resolution)
    ensures r == ResolvePath(obj, path)
  {
    var segs := Split(path);
    var cur := obj;
    for i := 0 to |segs|
      invariant Resolve(obj, segs) == Resolve(cur, segs[i..])
    {
      assert segs[i..][0] == segs[i] && segs[i..][1..] == segs[i + 1..];
      if cur.Null? {
        return TypeError;
      }
      var p := Property(cur, segs[i]);
      if p.Some? {
        cur := p.value;
      } else {
        return Undefined;
      }
    }
    r := Found(cur);
  }

  /** A path without a dot is a single property lookup. */
  lemma UndottedPathIsOneLookup(v: JVal, key: string)
    requires '.' !in key
    ensures ResolvePath(v, key) == Step(v, key)
  {
    SplitNoDot(key);
    assert [key][0] == key && [key][1..] == [];
    match Step(v, key)
    case Found(w) => assert Resolve(w, []) == Found(w);
    case Undefined =>
    case TypeError =>
  }

  /** Walking a + b is walking a and then b from wherever a ended. */
  lemma {:induction false} ResolveAppend(v: JVal, a: seq<string>, b: seq<string>)
    ensures Resolve(v, a + b) == Then(Resolve(v, a), b)
    decreases |a|
  {
    if a != [] {
      assert (a + b)[0] == a[0] && (a + b)[1..] == a[1..] + b;
      match Step(v, a[0])
      case Found(w) => ResolveAppend(w, a[1..], b);
      case Undefined =>
      case TypeError =>
    } else {
      assert a + b == b;
    }
  }

  /** Resolving "p.q" is resolving q inside whatever p resolves to. */
  lemma DottedPathComposes(v: JVal, p: string, q: string)
    ensures ResolvePath(v, p + "." + q) == Then(ResolvePath(v, p), Split(q))
  {
    SplitConcat(p, q);
    ResolveAppend(v, Split(p), Split(q));
  }

  /** Segment k is where the walk finds nothing: the walk got through the
      first k segments to a non-null value that lacks segment k. */
  predicate MissingAt(v: JVal, segs: seq<string>, k: nat)
    requires k < |segs|
  {
    var r := Resolve(v, segs[..k]);
    r.Found? && !r.value.Null? && Property(r.value, segs[k]).None?
  }

  /** A walk ends in `undefined` exactly when some segment is missing, and
      once one is missing the rest of the path is never read. */
  lemma {:induction false} UndefinedIffMissingSegment(v: JVal, segs: seq<string>)
    ensures Resolve(v, segs) == Undefined <==> exists k :: 0 <= k < |segs| && MissingAt(v, segs, k)
    decreases |segs|
  {
    if segs != [] {
      var rest := segs[1..];
      assert segs[..0] == [];
      forall k | 1 <= k <= |segs|
        ensures segs[..k][0] == segs[0] && segs[..k][1..] == rest[..k - 1]
      {
      }
      match Step(v, segs[0])
      case TypeError =>
        forall k | 0 <= k < |segs| ensures !MissingAt(v, segs, k) {
          if k > 0 {
            assert Resolve(v, segs[..k]) == TypeError;
          }
        }
      case Undefined =>
        assert MissingAt(v, segs, 0);
      case Found(w) =>
        UndefinedIffMissingSegment(w, rest);
        forall k | 1 <= k < |segs|
          ensures MissingAt(v, segs, k) == MissingAt(w, rest, k - 1)
        {
          assert Resolve(v, segs[..k]) == Resolve(w, rest[..k - 1]);
          assert segs[k] == rest[k - 1];
        }
        assert !MissingAt(v, segs, 0);
        if Resolve(v, segs) == Undefined {
          var k' :| 0 <= k' < |rest| && MissingAt(w, rest, k');
          assert MissingAt(v, segs, k' + 1);
        }
        if exists k :: 0 <= k < |segs| && MissingAt(v, segs, k) {
          var k :| 0 <= k < |segs| && MissingAt(v, segs, k);
          assert MissingAt(w, rest, k - 1);
        }
    }
  }

  /** Once a prefix of the path resolves to `undefined`, so does the path. */
  lemma UndefinedPrefixStaysUndefined(v: JVal, segs: seq<string>, k: nat)
    requires k <= |segs| && Resolve(v, segs[..k]) == Undefined
    ensures Resolve(v, segs) == Undefined
  {
    ResolveAppend(v, segs[..k], segs[k..]);
    assert segs[..k] + segs[k..] == segs;
  }
}
