/**
 * The key enumeration of index.ts: iterateObject (index.ts:17-34) walks
 * the parsed document depth-first and yields one result per string leaf,
 * its path kept as an array of keys; processKV and trSimple (index.ts:52-226)
 * pass the keys and value through next to a fixed translation.
 */
module KeyWalk {
  import opened Wrappers
  import opened JsonDoc
  import opened DottedPath
  import opened Flatten

  /** A translation and its score (index.ts:44-47). */
  datatype Translation = Translation(tr: string, score: int)

  /** What processKV resolves to (index.ts:36-42); func and aiCtx are never set. */
  datatype TrResult = TrResult(keys: seq<string>, value: string, simple: Translation)

  /** The translation trSimple returns. */
  const Untranslated := Translation("", 0)

  /**
   * trSimple: whatever the model chain produced (`produced`, the result of
   * the foreign calls), the translation returned is empty with score 0.
   */
  function TrSimple(keys: seq<string>, value: string, langCode: string, produced: string): (t: Translation)
    ensures t.tr == "" && t.score == 0
  {
    Untranslated
  }

  /** processKV: the keys and value come back unchanged beside the translation. */
  function ProcessKV(keys: seq<string>, value: string, produced: string): (r: TrResult)
    ensures r.keys == keys && r.value == value
    ensures r.simple == Untranslated
  {
    TrResult(keys, value, TrSimple(keys, value, "zh-CN", produced))
  }

  /** The decimal text of an index, as Object.entries gives array keys: its value, no leading zero. */
  function Decimal(n: nat): (s: string)
    ensures |s| >= 1
    ensures forall i :: 0 <= i < |s| ==> '0' <= s[i] <= '9'
    ensures DigitsValue(s) == n
    ensures |s| > 1 ==> s[0] != '0'
  {
    var d := ['0' + (n % 10) as char];
    if n < 10 then d
    else
      var s := Decimal(n / 10) + d;
      assert s[..|s| - 1] == Decimal(n / 10);
      s
  }

  /** The number a string of decimal digits spells, most significant first. */
  function DigitsValue(s: string): int
  {
    if s == [] then 0 else DigitsValue(s[..|s| - 1]) * 10 + (s[|s| - 1] as int - '0' as int)
  }

  /** A digit string without a leading zero is the decimal text of the number it spells. */
  lemma {:induction false} DecimalOfDigits(s: string)
    requires s != [] && forall i :: 0 <= i < |s| ==> '0' <= s[i] <= '9'
    requires |s| > 1 ==> s[0] != '0'
    ensures DigitsValue(s) >= 0 && Decimal(DigitsValue(s)) == s
  {
    var t, c := s[..|s| - 1], s[|s| - 1];
    if t != [] {
      assert t[0] == s[0];
      DecimalOfDigits(t);
      var m := DigitsValue(t);
      assert Decimal(0) == "0";
      assert t != "0";
      assert m != 0;
      var v := m * 10 + (c as int - '0' as int);
      assert v / 10 == m && v % 10 == c as int - '0' as int;
      assert Decimal(v) == t + [c];
      assert s == t + [c];
    }
  }

  /** How many entries Object.entries yields for a value. */
  function EntryCount(v: Json): nat
  {
    match v
    case JObject(ms, _) => |ms|
    case JArray(es, _) => |es|
    case JString(s) => |s|
    case _ => 0
  }

  /** A value iterateObject recurses into (typeof "object", not null). */
  predicate IsContainer(v: Json)
  {
    v.JObject? || v.JArray?
  }

  /**
   * The results of the first `n` entries of `v`, visited in order, below
   * `path`.  The model's output for a string leaf is `produced`, which
   * trSimple then discards.
   */
  function Walk(v: Json, n: nat, path: seq<string>, produced: string): (rs: seq<TrResult>)
    requires n <= EntryCount(v)
    ensures forall i :: 0 <= i < |rs| ==> |rs[i].keys| > |path| && rs[i].keys[..|path|] == path
    ensures forall i :: 0 <= i < |rs| ==> rs[i].simple == Untranslated
    decreases v, n
  {
    if n == 0 then []
    else
      var front := Walk(v, n - 1, path, produced);
      match v
      case JObject(ms, _) => front + Visit(ms[n - 1].key, ms[n - 1].value, path, produced)
      case JArray(es, _) => front + Visit(Decimal(n - 1), es[n - 1], path, produced)
      case JString(s) => front + [ProcessKV(path + [Decimal(n - 1)], [s[n - 1]], produced)]
  }

  /** One entry: a string is one result, a container is walked, anything else is skipped. */
  function Visit(key: string, value: Json, path: seq<string>, produced: string): (rs: seq<TrResult>)
    ensures forall i :: 0 <= i < |rs| ==> |rs[i].keys| > |path| && rs[i].keys[..|path|] == path
    ensures forall i :: 0 <= i < |rs| ==> rs[i].simple == Untranslated
    decreases value, EntryCount(value) + 1
  {
    var currentPath := path + [key];
    if value.JString? then [ProcessKV(currentPath, value.text, produced)]
    else if IsContainer(value) then
      var rs := Walk(value, EntryCount(value), currentPath, produced);
      assert forall i :: 0 <= i < |rs| ==> rs[i].keys[..|path|] == rs[i].keys[..|currentPath|][..|path|];
      rs
    else []
  }

  /**
   * Object.entries(null) throws a TypeError. Its message is worded by the
   * JavaScript engine, so only the error's type is kept.
   */
  const NullEntries := "TypeError"

  /** What iterateObject(obj, path) returns, or the error it throws. */
  function Enumerate(obj: Json, path: seq<string>, produced: string): Result<seq<TrResult>, string>
  {
    if obj.JNull? then Failure(NullEntries) else Success(Walk(obj, EntryCount(obj), path, produced))
  }

  /** iterateObject: a loop over the entries pushing results, spreading in the recursive ones. */
  method IterateObject(obj: Json, path: seq<string>, produced: string) returns (r: Result<seq<TrResult>, string>)
    ensures r == Enumerate(obj, path, produced)
    decreases obj
  {
    if obj.JNull? {
      return Failure(NullEntries);
    }
    var promises: seq<TrResult> := [];
    for i := 0 to EntryCount(obj)
      invariant promises == Walk(obj, i, path, produced)
    {
      var key: string;
      var value: Json;
      if obj.JObject? {
        key, value := obj.members[i].key, obj.members[i].value;
      } else if obj.JArray? {
        key, value := Decimal(i), obj.elements[i];
      } else {
        key, value := Decimal(i), JString([obj.text[i]]);
      }
      var currentPath := path + [key];
      assert Walk(obj, i + 1, path, produced) == promises + Visit(key, value, path, produced);
      if value.JString? {
        promises := promises + [ProcessKV(currentPath, value.text, produced)];
      } else if IsContainer(value) {
        var nested := IterateObject(value, currentPath, produced);
        assert nested.value == Visit(key, value, path, produced);
        promises := promises + nested.value;
      } else {
        assert Visit(key, value, path, produced) == [];
      }
    }
    r := Success(promises);
  }

  /**
   * Entry `i` of `v` holds the string `s` at the key path `p` (relative to
   * `v`): a string entry at `[key]`, or a string below a container entry.
   */
  predicate Holds(v: Json, i: nat, p: seq<string>, s: string)
    requires i < EntryCount(v)
    decreases v, 0
  {
    match v
    case JObject(ms, _) => Below(ms[i].key, ms[i].value, p, s)
    case JArray(es, _) => Below(Decimal(i), es[i], p, s)
    case JString(t) => p == [Decimal(i)] && s == [t[i]]
  }

  /** The entry `key: value` holds `s` at `p`. */
  predicate Below(key: string, value: Json, p: seq<string>, s: string)
    decreases value, 2
  {
    && |p| >= 1 && p[0] == key
    && if |p| == 1 then value == JString(s)
       else IsContainer(value) && StringIn(value, EntryCount(value), p[1..], s)
  }

  /** One of the first `n` entries of `v` holds `s` at `p`. */
  predicate StringIn(v: Json, n: nat, p: seq<string>, s: string)
    requires n <= EntryCount(v)
    decreases v, 1
  {
    exists i | 0 <= i < n :: Holds(v, i, p, s)
  }

  /** Some result has these keys and this value. */
  predicate Found(rs: seq<TrResult>, keys: seq<string>, s: string)
  {
    exists j | 0 <= j < |rs| :: rs[j].keys == keys && rs[j].value == s
  }

  lemma FoundAppend(a: seq<TrResult>, b: seq<TrResult>, keys: seq<string>, s: string)
    ensures Found(a + b, keys, s) <==> Found(a, keys, s) || Found(b, keys, s)
  {
    forall j | 0 <= j < |a| ensures (a + b)[j] == a[j] { }
    forall j | 0 <= j < |b| ensures (a + b)[|a| + j] == b[j] { }
    forall j | |a| <= j < |a + b| ensures (a + b)[j] == b[j - |a|] { }
  }

  lemma FoundSingle(r: TrResult, keys: seq<string>, s: string)
    ensures Found([r], keys, s) <==> r.keys == keys && r.value == s
  {
    assert [r][0] == r;
  }

  /**
   * The walk yields a result for the key path `path + p` with value `s`
   * exactly when `v` holds the string `s` at `p` among its first `n`
   * entries: nothing is invented and no string leaf is missed.
   */
  lemma {:induction false} WalkExact(v: Json, n: nat, path: seq<string>, produced: string, p: seq<string>, s: string)
    requires n <= EntryCount(v)
    ensures Found(Walk(v, n, path, produced), path + p, s) <==> StringIn(v, n, p, s)
    decreases v, n
  {
    if n > 0 {
      var front := Walk(v, n - 1, path, produced);
      WalkExact(v, n - 1, path, produced, p, s);
      assert StringIn(v, n, p, s) <==> StringIn(v, n - 1, p, s) || Holds(v, n - 1, p, s);
      match v
      case JObject(ms, _) =>
        FoundAppend(front, Visit(ms[n - 1].key, ms[n - 1].value, path, produced), path + p, s);
        VisitExact(ms[n - 1].key, ms[n - 1].value, path, produced, p, s);
      case JArray(es, _) =>
        FoundAppend(front, Visit(Decimal(n - 1), es[n - 1], path, produced), path + p, s);
        VisitExact(Decimal(n - 1), es[n - 1], path, produced, p, s);
      case JString(t) =>
        var r := ProcessKV(path + [Decimal(n - 1)], [t[n - 1]], produced);
        FoundAppend(front, [r], path + p, s);
        FoundSingle(r, path + p, s);
        SnocEq(path, p, [Decimal(n - 1)]);
    }
  }

  /** `path + p == path + q` exactly when `p == q`. */
  lemma SnocEq(path: seq<string>, p: seq<string>, q: seq<string>)
    ensures path + p == path + q <==> p == q
  {
    if path + p == path + q {
      assert p == (path + p)[|path|..];
    }
  }

  /** One entry yields a result for `path + p` and `s` exactly when it holds `s` at `p`. */
  lemma {:induction false} VisitExact(key: string, value: Json, path: seq<string>, produced: string, p: seq<string>, s: string)
    ensures Found(Visit(key, value, path, produced), path + p, s) <==> Below(key, value, p, s)
    decreases value, EntryCount(value) + 1
  {
    if value.JString? {
      var rs := Visit(key, value, path, produced);
      FoundSingle(rs[0], path + p, s);
      SnocEq(path, p, [key]);
    } else if IsContainer(value) {
      if |p| >= 1 {
        WalkExact(value, EntryCount(value), path + [key], produced, p[1..], s);
      }
      VisitContainerExact(key, value, path, produced, p, s);
    }
  }

  /** The container case of VisitExact, given the walk's exactness one level down. */
  lemma VisitContainerExact(key: string, value: Json, path: seq<string>, produced: string, p: seq<string>, s: string)
    requires IsContainer(value)
    requires |p| >= 1 ==>
      (Found(Walk(value, EntryCount(value), path + [key], produced), (path + [key]) + p[1..], s) <==>
       StringIn(value, EntryCount(value), p[1..], s))
    ensures Found(Visit(key, value, path, produced), path + p, s) <==> Below(key, value, p, s)
  {
    var rs := Walk(value, EntryCount(value), path + [key], produced);
    assert Visit(key, value, path, produced) == rs;
    if |p| >= 1 && p[0] == key {
      assert path + p == (path + [key]) + p[1..];
    }
    forall j | 0 <= j < |rs| && rs[j].keys == path + p
      ensures |p| > 1 && p[0] == key
    {
      assert rs[j].keys[..|path| + 1][|path|] == (path + p)[|path|];
    }
  }

  /**
   * The string leaves among the first `n` entries of `v`: a string entry
   * counts once, a container entry by the leaves below it, anything else
   * not at all.
   */
  function LeafCount(v: Json, n: nat): nat
    requires n <= EntryCount(v)
    decreases v, n
  {
    if n == 0 then 0
    else
      match v
      case JObject(ms, _) => LeafCount(v, n - 1) + EntryLeaves(ms[n - 1].value)
      case JArray(es, _) => LeafCount(v, n - 1) + EntryLeaves(es[n - 1])
      case JString(_) => LeafCount(v, n - 1) + 1
  }

  function EntryLeaves(value: Json): nat
    decreases value, EntryCount(value) + 1
  {
    if value.JString? then 1
    else if IsContainer(value) then LeafCount(value, EntryCount(value))
    else 0
  }

  /** The walk yields exactly one result per string leaf. */
  lemma {:induction false} WalkCount(v: Json, n: nat, path: seq<string>, produced: string)
    requires n <= EntryCount(v)
    ensures |Walk(v, n, path, produced)| == LeafCount(v, n)
    decreases v, n
  {
    if n > 0 {
      WalkCount(v, n - 1, path, produced);
      match v
      case JObject(ms, _) => VisitCount(ms[n - 1].key, ms[n - 1].value, path, produced);
      case JArray(es, _) => VisitCount(Decimal(n - 1), es[n - 1], path, produced);
      case JString(_) =>
    }
  }

  lemma {:induction false} VisitCount(key: string, value: Json, path: seq<string>, produced: string)
    ensures |Visit(key, value, path, produced)| == EntryLeaves(value)
    decreases value, EntryCount(value) + 1
  {
    if IsContainer(value) {
      WalkCount(value, EntryCount(value), path + [key], produced);
    }
  }

  /** iterateObject returns one result per string leaf of a non-null value. */
  lemma EnumerateCount(obj: Json, path: seq<string>, produced: string)
    requires !obj.JNull?
    ensures Enumerate(obj, path, produced).Success?
    ensures |Enumerate(obj, path, produced).value| == LeafCount(obj, EntryCount(obj))
  {
    WalkCount(obj, EntryCount(obj), path, produced);
  }

  /** The key Object.entries gives entry `i`: a member's key, or the index for arrays and strings. */
  function EntryKey(v: Json, i: nat): string
    requires i < EntryCount(v)
  {
    if v.JObject? then v.members[i].key else Decimal(i)
  }

  /**
   * Every object at or below `v`, inside arrays too, has pairwise distinct
   * member keys, as JSON.parse leaves them.
   */
  predicate DistinctSiblings(v: Json)
    decreases v
  {
    match v
    case JObject(ms, _) =>
      && (forall i, j :: 0 <= i < j < |ms| ==> ms[i].key != ms[j].key)
      && (forall i :: 0 <= i < |ms| ==> DistinctSiblings(ms[i].value))
    case JArray(es, _) => forall i :: 0 <= i < |es| ==> DistinctSiblings(es[i])
    case _ => true
  }

  /** No two results share a key path. */
  predicate DistinctPaths(rs: seq<TrResult>)
  {
    forall i, j :: 0 <= i < j < |rs| ==> rs[i].keys != rs[j].keys
  }

  /** Different entries have different keys. */
  lemma EntryKeysDiffer(v: Json, a: nat, b: nat)
    requires DistinctSiblings(v) && a < b < EntryCount(v)
    ensures EntryKey(v, a) != EntryKey(v, b)
  {
    if !v.JObject? {
      assert DigitsValue(Decimal(a)) != DigitsValue(Decimal(b));
    }
  }

  /**
   * With distinct sibling keys the walk yields each key path at most once,
   * and no result of the first `n` entries lies below a later entry's key.
   */
  lemma {:induction false} WalkDistinct(v: Json, n: nat, path: seq<string>, produced: string)
    requires n <= EntryCount(v) && DistinctSiblings(v)
    ensures DistinctPaths(Walk(v, n, path, produced))
    ensures forall i, m :: 0 <= i < |Walk(v, n, path, produced)| && n <= m < EntryCount(v) ==>
      Walk(v, n, path, produced)[i].keys[|path|] != EntryKey(v, m)
    decreases v, n, 1
  {
    if n > 0 {
      var front := Walk(v, n - 1, path, produced);
      WalkDistinct(v, n - 1, path, produced);
      var last := LastEntryDistinct(v, n, path, produced);
      WalkDistinctStep(v, n, path, produced, front, last);
    }
  }

  /** The results of entry `n - 1`: distinct, and all below that entry's key. */
  lemma LastEntryDistinct(v: Json, n: nat, path: seq<string>, produced: string) returns (last: seq<TrResult>)
    requires 0 < n <= EntryCount(v) && DistinctSiblings(v)
    ensures Walk(v, n, path, produced) == Walk(v, n - 1, path, produced) + last
    ensures DistinctPaths(last)
    ensures forall i :: 0 <= i < |last| ==> |last[i].keys| > |path| && last[i].keys[|path|] == EntryKey(v, n - 1)
    decreases v, n, 0
  {
    var key := EntryKey(v, n - 1);
    match v {
      case JObject(ms, _) =>
        last := Visit(key, ms[n - 1].value, path, produced);
        VisitDistinct(key, ms[n - 1].value, path, produced);
      case JArray(es, _) =>
        last := Visit(key, es[n - 1], path, produced);
        VisitDistinct(key, es[n - 1], path, produced);
      case JString(t) =>
        last := [ProcessKV(path + [key], [t[n - 1]], produced)];
        assert last[0].keys[|path|] == key;
    }
  }

  /** The step of WalkDistinct: the last entry's results, all below its own key, join the earlier ones. */
  lemma WalkDistinctStep(v: Json, n: nat, path: seq<string>, produced: string, front: seq<TrResult>, last: seq<TrResult>)
    requires 0 < n <= EntryCount(v) && DistinctSiblings(v)
    requires Walk(v, n, path, produced) == front + last
    requires DistinctPaths(front) && DistinctPaths(last)
    requires forall i :: 0 <= i < |front| ==> |front[i].keys| > |path|
    requires forall i, m :: 0 <= i < |front| && n - 1 <= m < EntryCount(v) ==> front[i].keys[|path|] != EntryKey(v, m)
    requires forall i :: 0 <= i < |last| ==> |last[i].keys| > |path| && last[i].keys[|path|] == EntryKey(v, n - 1)
    ensures DistinctPaths(Walk(v, n, path, produced))
    ensures forall i, m :: 0 <= i < |Walk(v, n, path, produced)| && n <= m < EntryCount(v) ==>
      Walk(v, n, path, produced)[i].keys[|path|] != EntryKey(v, m)
  {
    var key := EntryKey(v, n - 1);
    assert forall i :: 0 <= i < |front| ==> front[i].keys[|path|] != EntryKey(v, n - 1);
    AppendDistinct(front, last, |path|, key);
    forall i, m | 0 <= i < |front + last| && n <= m < EntryCount(v)
      ensures (front + last)[i].keys[|path|] != EntryKey(v, m)
    {
      if i >= |front| {
        assert (front + last)[i] == last[i - |front|];
        EntryKeysDiffer(v, n - 1, m);
      } else {
        assert (front + last)[i] == front[i];
      }
    }
  }

  /** One entry's results are distinct and all lie below its key. */
  lemma {:induction false} VisitDistinct(key: string, value: Json, path: seq<string>, produced: string)
    requires DistinctSiblings(value)
    ensures DistinctPaths(Visit(key, value, path, produced))
    ensures forall i :: 0 <= i < |Visit(key, value, path, produced)| ==>
      Visit(key, value, path, produced)[i].keys[|path|] == key
    decreases value, EntryCount(value) + 1
  {
    var rs := Visit(key, value, path, produced);
    if IsContainer(value) {
      WalkDistinct(value, EntryCount(value), path + [key], produced);
      forall i | 0 <= i < |rs|
        ensures rs[i].keys[|path|] == key
      {
        assert rs[i].keys[..|path| + 1][|path|] == (path + [key])[|path|];
      }
    } else if value.JString? {
      assert rs[0].keys == path + [key];
    }
  }

  /** Results below `key` appended to distinct results below other keys stay distinct. */
  lemma AppendDistinct(front: seq<TrResult>, last: seq<TrResult>, d: nat, key: string)
    requires DistinctPaths(front) && DistinctPaths(last)
    requires forall i :: 0 <= i < |front| ==> |front[i].keys| > d && front[i].keys[d] != key
    requires forall i :: 0 <= i < |last| ==> |last[i].keys| > d && last[i].keys[d] == key
    ensures DistinctPaths(front + last)
  {
    var rs := front + last;
    forall i, j | 0 <= i < j < |rs|
      ensures rs[i].keys != rs[j].keys
    {
      if j < |front| {
        assert rs[i] == front[i] && rs[j] == front[j];
      } else if i >= |front| {
        assert rs[i] == last[i - |front|] && rs[j] == last[j - |front|];
      } else {
        assert rs[i] == front[i] && rs[j] == last[j - |front|];
      }
    }
  }

  /**
   * For a value that is not null, with distinct sibling keys, iterateObject
   * yields one result per string leaf, each at its own key path.
   */
  lemma EnumerateDistinct(obj: Json, path: seq<string>, produced: string)
    requires !obj.JNull? && DistinctSiblings(obj)
    ensures Enumerate(obj, path, produced).Success?
    ensures DistinctPaths(Enumerate(obj, path, produced).value)
  {
    WalkDistinct(obj, EntryCount(obj), path, produced);
  }

  /** Every key non-empty and no array anywhere: where the two flattenings can agree. */
  predicate PlainObjects(ms: seq<Member>)
    decreases ms
  {
    forall i :: 0 <= i < |ms| ==>
      && ms[i].key != ""
      && !ms[i].value.JArray?
      && (ms[i].value.JObject? ==> PlainObjects(ms[i].value.members))
  }

  /** The string-valued entries of a flattening, in order. */
  function StringEntries(es: seq<OrderedKV>): (r: seq<OrderedKV>)
    ensures |r| <= |es|
    ensures forall i :: 0 <= i < |r| ==> r[i].value.JString?
  {
    if es == [] then []
    else
      var last := es[|es| - 1];
      StringEntries(es[..|es| - 1]) + (if last.value.JString? then [last] else [])
  }

  lemma {:induction false} StringEntriesAppend(a: seq<OrderedKV>, b: seq<OrderedKV>)
    ensures StringEntries(a + b) == StringEntries(a) + StringEntries(b)
    decreases |b|
  {
    if b == [] {
      assert a + b == a;
    } else {
      assert (a + b)[..|a + b| - 1] == a + b[..|b| - 1];
      StringEntriesAppend(a, b[..|b| - 1]);
    }
  }

  /** Results read as flattened entries: keys dot-joined, value a string. */
  function AsEntries(rs: seq<TrResult>): (es: seq<OrderedKV>)
    ensures |es| == |rs|
    ensures forall i :: 0 <= i < |rs| ==> es[i] == OrderedKV(Dotted(rs[i].keys), JString(rs[i].value))
  {
    seq(|rs|, i requires 0 <= i < |rs| => OrderedKV(Dotted(rs[i].keys), JString(rs[i].value)))
  }

  lemma AsEntriesAppend(a: seq<TrResult>, b: seq<TrResult>)
    ensures AsEntries(a + b) == AsEntries(a) + AsEntries(b)
  {
    assert forall i :: 0 <= i < |a + b| ==> AsEntries(a + b)[i] == (AsEntries(a) + AsEntries(b))[i];
  }

  /** What flattenJSON emits for one member below `prefix`. */
  function MemberFlat(key: string, value: Json, prefix: string): seq<OrderedKV>
  {
    if value.JObject? then Flattened(value.members, JoinKey(prefix, key))
    else [OrderedKV(JoinKey(prefix, key), value)]
  }

  /**
   * On plain objects the walk of the first `n` members, read as dotted
   * entries, is exactly the string part of flattenJSON's output for them.
   */
  lemma {:induction false} WalkFlattens(ms: seq<Member>, raw: string, n: nat, path: seq<string>, produced: string)
    requires n <= |ms| && PlainObjects(ms)
    requires forall i :: 0 <= i < |path| ==> path[i] != ""
    ensures AsEntries(Walk(JObject(ms, raw), n, path, produced)) == StringEntries(Flattened(ms[..n], Dotted(path)))
    decreases JObject(ms, raw), n
  {
    if n > 0 {
      var kv := ms[n - 1];
      assert kv.key != "" && !kv.value.JArray? && (kv.value.JObject? ==> PlainObjects(kv.value.members));
      WalkFlattens(ms, raw, n - 1, path, produced);
      VisitFlattens(kv.key, kv.value, path, produced);
      WalkFlattensStep(ms, raw, n, path, produced);
    }
  }

  /** The step of WalkFlattens: the results for member n - 1 follow those for the members before it. */
  lemma WalkFlattensStep(ms: seq<Member>, raw: string, n: nat, path: seq<string>, produced: string)
    requires 0 < n <= |ms|
    requires AsEntries(Walk(JObject(ms, raw), n - 1, path, produced)) == StringEntries(Flattened(ms[..n - 1], Dotted(path)))
    requires AsEntries(Visit(ms[n - 1].key, ms[n - 1].value, path, produced))
               == StringEntries(MemberFlat(ms[n - 1].key, ms[n - 1].value, Dotted(path)))
    ensures AsEntries(Walk(JObject(ms, raw), n, path, produced)) == StringEntries(Flattened(ms[..n], Dotted(path)))
  {
    var kv := ms[n - 1];
    var front := Walk(JObject(ms, raw), n - 1, path, produced);
    var tail := Visit(kv.key, kv.value, path, produced);
    assert Walk(JObject(ms, raw), n, path, produced) == front + tail;
    var prefix := Dotted(path);
    var before := Flattened(ms[..n - 1], prefix);
    var last := MemberFlat(kv.key, kv.value, prefix);
    assert ms[..n][..n - 1] == ms[..n - 1];
    assert Flattened(ms[..n], prefix) == before + last;
    AsEntriesAppend(front, tail);
    StringEntriesAppend(before, last);
  }

  /** One plain member: its walk, read as dotted entries, is the string part of its flattening. */
  lemma {:induction false} VisitFlattens(key: string, value: Json, path: seq<string>, produced: string)
    requires key != "" && !value.JArray? && (value.JObject? ==> PlainObjects(value.members))
    requires forall i :: 0 <= i < |path| ==> path[i] != ""
    ensures AsEntries(Visit(key, value, path, produced)) == StringEntries(MemberFlat(key, value, Dotted(path)))
    decreases value, EntryCount(value) + 1
  {
    DottedSnoc(path, key);
    var one := [OrderedKV(JoinKey(Dotted(path), key), value)];
    assert one[..0] == [];
    if value.JObject? {
      var cs := value.members;
      WalkFlattens(cs, value.raw, |cs|, path + [key], produced);
      assert cs[..|cs|] == cs;
    }
  }

  /**
   * iterateObject on a plain document yields, in order, one result per
   * string entry of flattenJSON's output, at the same dotted path and with
   * the same text; so the key count logged equals that number.
   */
  lemma AgreesWithFlatten(ms: seq<Member>, raw: string, produced: string)
    requires PlainObjects(ms)
    ensures Enumerate(JObject(ms, raw), [], produced).Success?
    ensures AsEntries(Enumerate(JObject(ms, raw), [], produced).value) == StringEntries(Flattened(ms, ""))
    ensures |Enumerate(JObject(ms, raw), [], produced).value| == |StringEntries(Flattened(ms, ""))|
  {
    var doc := JObject(ms, raw);
    var w := Walk(doc, |ms|, [], produced);
    assert Enumerate(doc, [], produced) == Success(w);
    WalkFlattens(ms, raw, |ms|, [], produced);
    assert ms[..|ms|] == ms;
    assert Dotted([]) == "";
    assert AsEntries(w) == StringEntries(Flattened(ms, ""));
    assert |AsEntries(w)| == |w|;
  }

  /**
   * The two flattenings differ: for {"n": 1, "a": ["x"]} flattenJSON emits
   * the number and the whole array, iterateObject only the string inside
   * the array, under the index key "0".
   */
  lemma FlatteningsDiffer(produced: string)
    ensures
      var doc := [Member("n", JNumber("1")), Member("a", JArray([JString("x")], "[\"x\"]"))];
      && Flattened(doc, "") == [OrderedKV("n", JNumber("1")), OrderedKV("a", JArray([JString("x")], "[\"x\"]"))]
      && Enumerate(JObject(doc, "{\"n\":1,\"a\":[\"x\"]}"), [], produced)
           == Success([TrResult(["a", "0"], "x", Untranslated)])
  {
    MixedFlattened();
    MixedEnumerated(produced);
  }

  lemma MixedFlattened()
    ensures
      var doc := [Member("n", JNumber("1")), Member("a", JArray([JString("x")], "[\"x\"]"))];
      Flattened(doc, "") == [OrderedKV("n", JNumber("1")), OrderedKV("a", JArray([JString("x")], "[\"x\"]"))]
  {
    var doc := [Member("n", JNumber("1")), Member("a", JArray([JString("x")], "[\"x\"]"))];
    assert doc[..1] == [Member("n", JNumber("1"))] && doc[..1][..0] == [];
  }

  lemma MixedEnumerated(produced: string)
    ensures
      var doc := [Member("n", JNumber("1")), Member("a", JArray([JString("x")], "[\"x\"]"))];
      Enumerate(JObject(doc, "{\"n\":1,\"a\":[\"x\"]}"), [], produced) == Success([TrResult(["a", "0"], "x", Untranslated)])
  {
    var arr := JArray([JString("x")], "[\"x\"]");
    var doc := [Member("n", JNumber("1")), Member("a", arr)];
    var obj := JObject(doc, "{\"n\":1,\"a\":[\"x\"]}");
    ArrayOfOneString(produced);
    assert Walk(obj, 1, [], produced) == [];
    assert Walk(obj, 2, [], produced) == Walk(obj, 1, [], produced) + Visit("a", arr, [], produced);
    assert Walk(obj, 2, [], produced) == [TrResult(["a", "0"], "x", Untranslated)];
  }

  /** The array ["x"] below key "a" yields the one result at keys "a", "0". */
  lemma ArrayOfOneString(produced: string)
    ensures Visit("a", JArray([JString("x")], "[\"x\"]"), [], produced) == [TrResult(["a", "0"], "x", Untranslated)]
  {
    var arr := JArray([JString("x")], "[\"x\"]");
    assert Decimal(0) == "0";
    assert ["a"] + [Decimal(0)] == ["a", "0"];
    assert Visit(Decimal(0), JString("x"), ["a"], produced) == [TrResult(["a", "0"], "x", Untranslated)];
    assert Walk(arr, 1, ["a"], produced) == [TrResult(["a", "0"], "x", Untranslated)];
    assert [] + ["a"] == ["a"];
  }
}
