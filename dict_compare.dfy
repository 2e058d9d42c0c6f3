/**
 * recursive_compare_dicts (hera_qm/tests/__init__.py lines 24-66): the
 * check the test suite uses to decide that a nested metrics mapping
 * survived a write and a reload. It succeeds (returns None) or fails (an
 * assertion, or an error the comparison itself raises); here that is a
 * bool. np.allclose is modelled by an injected elementwise closeness
 * `close` together with numpy's broadcasting of one-dimensional shapes.
 */
module DictCompare {
  import opened Wrappers

  type Key = string

  /** A floating-point number: finite, NaN, or an infinity of either sign. */
  datatype Num = Finite(r: real) | NaN | Inf(negative: bool)

  /** The values a metrics mapping holds. StrArr is an ndarray of dtype np.string_; NumArr a numeric ndarray. */
  datatype Value =
    | Dict(entries: map<Key, Value>)
    | List(items: seq<Value>)
    | Float(x: Num)
    | StrArr(strs: seq<string>)
    | NumArr(nums: seq<Num>)
    | Str(s: string)
    | Int(i: int)
    | Bool(b: bool)

  /** np.allclose on two numbers: never true for NaN, always true for a number and itself otherwise. */
  ghost predicate CloseLaw(close: (Num, Num) -> bool) {
    && (forall x, y :: close(x, y) ==> x != NaN && y != NaN)
    && (forall x :: x != NaN ==> close(x, x))
  }

  /** Python's == on two floats. */
  predicate NumEq(x: Num, y: Num) {
    match x
    case Finite(r) => y.Finite? && y.r == r
    case Inf(n) => y.Inf? && y.negative == n
    case NaN => false
  }

  /** A Python int, bool or float, as the number it compares as. */
  function AsNum(v: Value): Option<Num> {
    match v
    case Int(i) => Some(Finite(i as real))
    case Bool(b) => Some(Finite(if b then 1.0 else 0.0))
    case Float(x) => Some(x)
    case _ => None
  }

  /** Python's == on two values; comparing ndarrays element by element is not a bool, so it fails. */
  predicate PyEq(a: Value, b: Value)
    decreases a
  {
    if AsNum(a).Some? && AsNum(b).Some? then NumEq(AsNum(a).value, AsNum(b).value)
    else match a
      case Str(s) => b.Str? && b.s == s
      case List(xs) => b.List? && |xs| == |b.items| && forall i :: 0 <= i < |xs| ==> PyEq(xs[i], b.items[i])
      case Dict(m) => b.Dict? && m.Keys == b.entries.Keys && forall k :: k in m ==> PyEq(m[k], b.entries[k])
      case _ => false
  }

  /** list(s) for a string s: its characters, each a one-character string. */
  function Chars(s: string): seq<Value> {
    seq(|s|, i requires 0 <= i < |s| => Str([s[i]]))
  }

  /** list(v): the elements of a list, an array or a string; None where Python raises TypeError. */
  function ToList(v: Value): Option<seq<Value>> {
    match v
    case List(ys) => Some(ys)
    case NumArr(ns) => Some(seq(|ns|, i requires 0 <= i < |ns| => Float(ns[i])))
    case Str(s) => Some(Chars(s))
    case StrArr(ss) => if ss == [] then Some([]) else None
    case _ => None
  }

  /**
   * np.asarray(v) as np.array_equal sees it against a bytes-string array: the
   * strings of another such array. Every other modelled value fails, even an
   * empty one: a list of Python strings becomes a unicode array and an empty
   * list a float array, and comparing either with a bytes array element by
   * element fails and yields a scalar False.
   */
  function AsStrs(v: Value): Option<seq<string>> {
    match v
    case StrArr(ss) => Some(ss)
    case _ => None
  }

  /** np.asarray(v) for a numeric comparison: a number is a one-element array. */
  function AsNums(v: Value): Option<seq<Num>> {
    match v
    case NumArr(ns) => Some(ns)
    case List(ys) =>
      if forall i :: 0 <= i < |ys| ==> AsNum(ys[i]).Some? then Some(seq(|ys|, i requires 0 <= i < |ys| => AsNum(ys[i]).value))
      else None
    case _ => if AsNum(v).Some? then Some([AsNum(v).value]) else None
  }

  /** np.allclose(a, b): the shapes must broadcast (equal, or one of them a single element), and every pair is close. */
  predicate AllClose(close: (Num, Num) -> bool, a: seq<Num>, b: Option<seq<Num>>) {
    match b
    case None => false
    case Some(b) =>
      if |a| == |b| then forall i :: 0 <= i < |a| ==> close(a[i], b[i])
      else if |b| == 1 then forall i :: 0 <= i < |a| ==> close(a[i], b[0])
      else if |a| == 1 then forall i :: 0 <= i < |b| ==> close(a[0], b[i])
      else false
  }

  /** recursive_compare_dicts(d1, d2): the key sets agree, and every value of d1 passes against d2's. */
  predicate CompareDicts(close: (Num, Num) -> bool, d1: map<Key, Value>, d2: map<Key, Value>)
    decreases Dict(d1), 0
  {
    d1.Keys == d2.Keys && forall k :: k in d1 ==> CompareValue(close, d1[k], d2[k])
  }

  /** The test one key gets, chosen by the type of d1's value alone (lines 33, 42, 43, 54, 56, 58). */
  predicate CompareValue(close: (Num, Num) -> bool, v1: Value, v2: Value)
    decreases v1, 1
  {
    match v1
    case List(xs) => ToList(v2).Some? && PyEq(v1, List(ToList(v2).value))
    case StrArr(ss) => AsStrs(v2) == Some(ss)
    case NumArr(ns) => AllClose(close, ns, AsNums(v2))
    case Dict(m) => v2.Dict? && CompareDicts(close, m, v2.entries)
    case Float(x) => AllClose(close, [x], AsNums(v2))
    case _ => PyEq(v1, v2)
  }

  // ---------------------------------------------------------------------
  // Properties
  // ---------------------------------------------------------------------

  /** The dict reached from d by following the keys of path through nested dicts, if there is one. */
  function At(d: map<Key, Value>, path: seq<Key>): Option<map<Key, Value>>
    decreases path
  {
    if path == [] then Some(d)
    else if path[0] in d && d[path[0]].Dict? then At(d[path[0]].entries, path[1..])
    else None
  }

  /**
   * A passing comparison passes at every depth: wherever d1 has a nested
   * dict, d2 has one under the same keys, with the same key set, and the
   * two compare.
   */
  lemma {:induction false} CompareAtDepth(close: (Num, Num) -> bool, d1: map<Key, Value>, d2: map<Key, Value>, path: seq<Key>)
    requires CompareDicts(close, d1, d2) && At(d1, path).Some?
    ensures At(d2, path).Some?
    ensures At(d1, path).value.Keys == At(d2, path).value.Keys
    ensures CompareDicts(close, At(d1, path).value, At(d2, path).value)
    decreases path
  {
    if path != [] {
      var k := path[0];
      assert CompareValue(close, d1[k], d2[k]);
      CompareAtDepth(close, d1[k].entries, d2[k].entries, path[1..]);
    }
  }

  /** So a key-set mismatch at any depth fails the whole comparison. */
  lemma MismatchBelowFails(close: (Num, Num) -> bool, d1: map<Key, Value>, d2: map<Key, Value>, path: seq<Key>)
    requires At(d1, path).Some? && At(d2, path).Some?
    requires At(d1, path).value.Keys != At(d2, path).value.Keys
    ensures !CompareDicts(close, d1, d2)
  {
    if CompareDicts(close, d1, d2) {
      CompareAtDepth(close, d1, d2, path);
    }
  }

  /** A value Python's == finds equal to itself: no NaN and no ndarray anywhere inside. */
  predicate SelfEqual(v: Value)
    decreases v
  {
    match v
    case Float(x) => x != NaN
    case List(xs) => forall i :: 0 <= i < |xs| ==> SelfEqual(xs[i])
    case Dict(m) => forall k :: k in m ==> SelfEqual(m[k])
    case StrArr(_) => false
    case NumArr(_) => false
    case _ => true
  }

  /** A value the comparison accepts against itself: no NaN, and no ndarray inside a list. */
  predicate SelfComparable(v: Value)
    decreases v
  {
    match v
    case Float(x) => x != NaN
    case NumArr(ns) => forall i :: 0 <= i < |ns| ==> ns[i] != NaN
    case List(xs) => forall i :: 0 <= i < |xs| ==> SelfEqual(xs[i])
    case Dict(m) => forall k :: k in m ==> SelfComparable(m[k])
    case _ => true
  }

  lemma {:induction false} PyEqReflexive(v: Value)
    requires SelfEqual(v)
    ensures PyEq(v, v)
    decreases v
  {
    match v
    case List(xs) =>
      forall i | 0 <= i < |xs| ensures PyEq(xs[i], xs[i]) {
        PyEqReflexive(xs[i]);
      }
    case Dict(m) =>
      forall k | k in m ensures PyEq(m[k], m[k]) {
        PyEqReflexive(m[k]);
      }
    case _ =>
  }

  /** A mapping free of NaN, and of arrays inside lists, compares equal to itself. */
  lemma {:induction false} CompareReflexive(close: (Num, Num) -> bool, d: map<Key, Value>)
    requires CloseLaw(close)
    requires forall k :: k in d ==> SelfComparable(d[k])
    ensures CompareDicts(close, d, d)
    decreases Dict(d), 0
  {
    forall k | k in d ensures CompareValue(close, d[k], d[k]) {
      CompareValueReflexive(close, d[k]);
    }
  }

  lemma {:induction false} CompareValueReflexive(close: (Num, Num) -> bool, v: Value)
    requires CloseLaw(close) && SelfComparable(v)
    ensures CompareValue(close, v, v)
    decreases v, 1
  {
    match v
    case List(xs) => PyEqReflexive(v);
    case Dict(m) => CompareReflexive(close, m);
    case NumArr(ns) =>
      assert forall i :: 0 <= i < |ns| ==> close(ns[i], ns[i]);
    case Float(x) =>
      assert close(x, x);
    case StrArr(_) =>
    case _ =>
      PyEqReflexive(v);
  }

  /**
   * A NaN float never passes, except against an empty array or list, which
   * np.allclose broadcasts to an empty comparison.
   */
  lemma NaNFails(close: (Num, Num) -> bool, d1: map<Key, Value>, d2: map<Key, Value>, k: Key)
    requires CloseLaw(close) && k in d1 && d1[k] == Float(NaN)
    requires k in d2 ==> AsNums(d2[k]) != Some([])
    ensures !CompareDicts(close, d1, d2)
  {
    if k in d2 && AsNums(d2[k]).Some? {
      var b := AsNums(d2[k]).value;
      assert !close(NaN, b[0]);
    }
  }

  /** A float passes against an array exactly when it is close to every element, so any float passes against []. */
  lemma FloatAgainstArray(close: (Num, Num) -> bool, x: Num, ns: seq<Num>)
    ensures CompareValue(close, Float(x), NumArr(ns)) <==> forall i :: 0 <= i < |ns| ==> close(x, ns[i])
  {
  }

  /** The rule is chosen from d1's value: a list passes against the string of its characters, but not the reverse. */
  lemma CompareNotSymmetric(close: (Num, Num) -> bool, s: string, k: Key)
    ensures CompareDicts(close, map[k := List(Chars(s))], map[k := Str(s)])
    ensures !CompareDicts(close, map[k := Str(s)], map[k := List(Chars(s))])
  {
    var d1, d2 := map[k := List(Chars(s))], map[k := Str(s)];
    forall i | 0 <= i < |s| ensures PyEq(Chars(s)[i], Chars(s)[i]) {
      PyEqReflexive(Chars(s)[i]);
    }
    assert CompareValue(close, d1[k], d2[k]);
    assert !CompareValue(close, d2[k], d1[k]);
  }

  /** Exact equality in the last branch is Python's ==: an int passes against any int, bool or float of the same value. */
  lemma IntExact(close: (Num, Num) -> bool, i: int, v2: Value)
    ensures CompareValue(close, Int(i), v2) <==> AsNum(v2) == Some(Finite(i as real))
  {
  }

  /** So True passes against 1 and 1.0, and 1 against True. */
  lemma BoolIntConflated(close: (Num, Num) -> bool)
    ensures CompareValue(close, Bool(true), Int(1))
    ensures CompareValue(close, Bool(true), Float(Finite(1.0)))
    ensures CompareValue(close, Int(1), Bool(true))
  {
  }

  /** A string passes only against the same string. */
  lemma StrExact(close: (Num, Num) -> bool, s: string, v2: Value)
    ensures CompareValue(close, Str(s), v2) <==> v2 == Str(s)
  {
  }

  /** String arrays are compared exactly, whatever the closeness. */
  lemma StrArrExact(close: (Num, Num) -> bool, ss: seq<string>, tt: seq<string>)
    ensures CompareValue(close, StrArr(ss), StrArr(tt)) <==> ss == tt
  {
  }

  /** A string array never passes against a list or a numeric array, not even when both sides are empty. */
  lemma StrArrAgainstList(close: (Num, Num) -> bool, ss: seq<string>, ys: seq<Value>, ns: seq<Num>)
    ensures !CompareValue(close, StrArr(ss), List(ys))
    ensures !CompareValue(close, StrArr(ss), NumArr(ns))
  {
  }

  /** What a Python call ends in: an exception, or a returned value (None, or a bool). */
  datatype Outcome = Raised | Returned(value: Option<bool>)

  /** `assert e` passes only when e returns a truthy value; None is falsy. */
  predicate AssertPasses(o: Outcome) {
    o.Returned? && o.value == Some(true)
  }

  /** recursive_compare_dicts as written: it has no return statement, so a passing comparison returns None. */
  function CallAsWritten(close: (Num, Num) -> bool, d1: map<Key, Value>, d2: map<Key, Value>): (o: Outcome)
    ensures o.Returned? <==> CompareDicts(close, d1, d2)
    ensures o.Returned? ==> o.value == None
  {
    if CompareDicts(close, d1, d2) then Returned(None) else Raised
  }

  /**
   * So a caller that writes `assert recursive_compare_dicts(d1, d2)` fails
   * whatever its inputs, even for two empty mappings, which compare equal.
   */
  lemma AssertedCallAlwaysFails(close: (Num, Num) -> bool, d1: map<Key, Value>, d2: map<Key, Value>)
    ensures !AssertPasses(CallAsWritten(close, d1, d2))
    ensures CompareDicts(close, map[], map[]) && !AssertPasses(CallAsWritten(close, map[], map[]))
  {
  }

  /** recursive_compare_dicts as its asserting callers use it: True on a passing comparison. */
  function CallCorrected(close: (Num, Num) -> bool, d1: map<Key, Value>, d2: map<Key, Value>): (o: Outcome)
    ensures AssertPasses(o) <==> CompareDicts(close, d1, d2)
    ensures !AssertPasses(o) ==> o == Raised
  {
    if CompareDicts(close, d1, d2) then Returned(Some(true)) else Raised
  }

  /** With the corrected return, an asserted call of a mapping against itself passes (no NaN, no array inside a list). */
  lemma CorrectedSelfCallPasses(close: (Num, Num) -> bool, d: map<Key, Value>)
    requires CloseLaw(close)
    requires forall k :: k in d ==> SelfComparable(d[k])
    ensures AssertPasses(CallCorrected(close, d, d))
  {
    CompareReflexive(close, d);
  }

  /** One closeness is looser than another when it accepts every pair the other does. */
  ghost predicate Looser(close: (Num, Num) -> bool, close': (Num, Num) -> bool) {
    forall x, y :: close(x, y) ==> close'(x, y)
  }

  lemma AllCloseLooser(close: (Num, Num) -> bool, close': (Num, Num) -> bool, a: seq<Num>, b: Option<seq<Num>>)
    requires Looser(close, close') && AllClose(close, a, b)
    ensures AllClose(close', a, b)
  {
  }

  /** A comparison that passes under a closeness passes under any looser one: tolerances act only on floats and numeric arrays. */
  lemma {:induction false} LooserDicts(close: (Num, Num) -> bool, close': (Num, Num) -> bool, d1: map<Key, Value>, d2: map<Key, Value>)
    requires Looser(close, close') && CompareDicts(close, d1, d2)
    ensures CompareDicts(close', d1, d2)
    decreases Dict(d1), 0
  {
    forall k | k in d1 ensures CompareValue(close', d1[k], d2[k]) {
      LooserValue(close, close', d1[k], d2[k]);
    }
  }

  lemma {:induction false} LooserValue(close: (Num, Num) -> bool, close': (Num, Num) -> bool, v1: Value, v2: Value)
    requires Looser(close, close') && CompareValue(close, v1, v2)
    ensures CompareValue(close', v1, v2)
    decreases v1, 1
  {
    match v1
    case Dict(m) => LooserDicts(close, close', m, v2.entries);
    case NumArr(ns) => AllCloseLooser(close, close', ns, AsNums(v2));
    case Float(x) => AllCloseLooser(close, close', [x], AsNums(v2));
    case _ =>
  }
}
