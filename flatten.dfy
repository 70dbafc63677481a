/**
 * flattenJSON (main.go:299-315) over the members gjson yields for an
 * object (parseOrderedJSON, main.go:27-34): a nested document becomes an
 * ordered list of dotted-path / leaf-value pairs.
 */
module Flatten {
  import opened JsonDoc
  import opened DottedPath

  /** A flattened entry: a dotted path and the value found there (main.go:22-25). */
  datatype OrderedKV = OrderedKV(key: string, value: Json)

  /** `key` lies strictly below `prefix`: it starts with `prefix + "."`. */
  predicate Qualified(prefix: string, key: string)
  {
    |key| > |prefix| && key[..|prefix| + 1] == prefix + "."
  }

  /**
   * What flattenJSON(parsed, prefix) returns.  Members are visited in order;
   * an object member is replaced by the entries of its own members, below
   * its path; every other member becomes one entry holding its value.
   */
  function Flattened(parsed: seq<Member>, prefix: string): (r: seq<OrderedKV>)
    ensures forall i :: 0 <= i < |r| ==> !r[i].value.JObject?
    ensures prefix != "" ==> forall i :: 0 <= i < |r| ==> Qualified(prefix, r[i].key)
    decreases parsed
  {
    if parsed == [] then []
    else
      var kv := parsed[|parsed| - 1];
      var newKey := JoinKey(prefix, kv.key);
      var front := Flattened(parsed[..|parsed| - 1], prefix);
      if kv.value.JObject? then
        var child := Flattened(kv.value.members, newKey);
        if prefix != "" then QualifiedBelow(prefix, kv.key, child); front + child
        else front + child
      else
        front + [OrderedKV(newKey, kv.value)]
  }

  /** Entries qualified by `prefix.key` are qualified by `prefix`. */
  lemma QualifiedBelow(prefix: string, key: string, es: seq<OrderedKV>)
    requires prefix != ""
    requires forall i :: 0 <= i < |es| ==> Qualified(prefix + "." + key, es[i].key)
    ensures forall i :: 0 <= i < |es| ==> Qualified(prefix, es[i].key)
  {
    forall i | 0 <= i < |es|
      ensures Qualified(prefix, es[i].key)
    {
      var p := prefix + "." + key;
      assert es[i].key[..|prefix| + 1] == es[i].key[..|p| + 1][..|prefix| + 1];
      assert (p + ".")[..|prefix| + 1] == prefix + ".";
    }
  }

  /** flattenJSON: a loop appending to `flattened`, recursing into objects. */
  method FlattenJSON(parsed: seq<Member>, prefix: string) returns (flattened: seq<OrderedKV>)
    ensures flattened == Flattened(parsed, prefix)
    decreases parsed
  {
    flattened := [];
    for i := 0 to |parsed|
      invariant flattened == Flattened(parsed[..i], prefix)
    {
      var kv := parsed[i];
      var newKey := kv.key;
      if prefix != "" {
        newKey := prefix + "." + kv.key;
      }
      if kv.value.JObject? {
        var childFlattened := FlattenJSON(kv.value.members, newKey);
        flattened := flattened + childFlattened;
      } else {
        flattened := flattened + [OrderedKV(newKey, kv.value)];
      }
      assert parsed[..i + 1][..i] == parsed[..i];
    }
    assert parsed[..|parsed|] == parsed;
  }

  /** The values of the non-object members, depth first in member order. */
  function LeafValues(parsed: seq<Member>): seq<Json>
    decreases parsed
  {
    if parsed == [] then []
    else
      var kv := parsed[|parsed| - 1];
      LeafValues(parsed[..|parsed| - 1])
      + (if kv.value.JObject? then LeafValues(kv.value.members) else [kv.value])
  }

  function Values(es: seq<OrderedKV>): (vs: seq<Json>)
    ensures |vs| == |es|
    ensures forall i :: 0 <= i < |es| ==> vs[i] == es[i].value
  {
    if es == [] then [] else [es[0].value] + Values(es[1..])
  }

  lemma {:induction false} ValuesAppend(a: seq<OrderedKV>, b: seq<OrderedKV>)
    ensures Values(a + b) == Values(a) + Values(b)
  {
  }

  /**
   * Every non-object member is emitted exactly once, in order, with its
   * value unchanged, whatever the prefix; an empty object adds nothing.
   */
  lemma {:induction false} FlattenedValues(parsed: seq<Member>, prefix: string)
    ensures Values(Flattened(parsed, prefix)) == LeafValues(parsed)
    decreases parsed
  {
    if parsed != [] {
      var kv := parsed[|parsed| - 1];
      var front := parsed[..|parsed| - 1];
      FlattenedValues(front, prefix);
      if kv.value.JObject? {
        FlattenedValues(kv.value.members, JoinKey(prefix, kv.key));
        ValuesAppend(Flattened(front, prefix), Flattened(kv.value.members, JoinKey(prefix, kv.key)));
      } else {
        ValuesAppend(Flattened(front, prefix), [OrderedKV(JoinKey(prefix, kv.key), kv.value)]);
      }
    }
  }

  /**
   * Flattening splices: the entries of `a + b` are those of `a` followed by
   * those of `b`, each member's entries standing where the member stood.
   */
  lemma {:induction false} FlattenedAppend(a: seq<Member>, b: seq<Member>, prefix: string)
    ensures Flattened(a + b, prefix) == Flattened(a, prefix) + Flattened(b, prefix)
    decreases b
  {
    if b == [] {
      assert a + b == a;
    } else {
      var last := b[|b| - 1];
      var b' := b[..|b| - 1];
      assert (a + b)[..|a + b| - 1] == a + b';
      assert (a + b)[|a + b| - 1] == last;
      FlattenedAppend(a, b', prefix);
    }
  }

  /** Keys fit for dotted paths: non-empty, dot-free, distinct among siblings, at every level. */
  predicate KeysWellFormed(parsed: seq<Member>)
    decreases parsed
  {
    && (forall i :: 0 <= i < |parsed| ==> parsed[i].key != "" && DotFree(parsed[i].key))
    && (forall i, j :: 0 <= i < j < |parsed| ==> parsed[i].key != parsed[j].key)
    && (forall i :: 0 <= i < |parsed| && parsed[i].value.JObject? ==>
          KeysWellFormed(parsed[i].value.members))
  }

  /** No object, at any level, is empty. */
  predicate NoEmptyObjects(parsed: seq<Member>)
    decreases parsed
  {
    forall i :: 0 <= i < |parsed| && parsed[i].value.JObject? ==>
      |parsed[i].value.members| > 0 && NoEmptyObjects(parsed[i].value.members)
  }

  /** Every entry's path qualified by `k`. */
  function Requalify(k: string, es: seq<OrderedKV>): (r: seq<OrderedKV>)
    ensures |r| == |es|
    ensures forall i :: 0 <= i < |es| ==> r[i] == OrderedKV(k + "." + es[i].key, es[i].value)
  {
    if es == [] then [] else [OrderedKV(k + "." + es[0].key, es[0].value)] + Requalify(k, es[1..])
  }

  lemma RequalifyAppend(k: string, a: seq<OrderedKV>, b: seq<OrderedKV>)
    ensures Requalify(k, a + b) == Requalify(k, a) + Requalify(k, b)
  {
    var l, r := Requalify(k, a + b), Requalify(k, a) + Requalify(k, b);
    assert |l| == |r|;
    forall i | 0 <= i < |l|
      ensures l[i] == r[i]
    {
      if i < |a| {
        assert (a + b)[i] == a[i];
      } else {
        assert (a + b)[i] == b[i - |a|];
      }
    }
  }

  /** Qualifying by `key` and then by `k` is qualifying by `k.key`. */
  lemma RequalifyTwice(k: string, key: string, e: seq<OrderedKV>)
    ensures Requalify(k, Requalify(key, e)) == Requalify(k + "." + key, e)
  {
    forall i | 0 <= i < |e|
      ensures Requalify(k, Requalify(key, e))[i] == Requalify(k + "." + key, e)[i]
    {
      assert k + "." + (key + "." + e[i].key) == (k + "." + key) + "." + e[i].key;
    }
  }

  /**
   * Below a non-empty prefix, flattening is flattening from the root with
   * every path qualified by the prefix.
   */
  lemma {:induction false} FlattenedBelow(parsed: seq<Member>, k: string)
    requires k != ""
    requires KeysWellFormed(parsed)
    ensures Flattened(parsed, k) == Requalify(k, Flattened(parsed, ""))
    decreases parsed
  {
    if parsed != [] {
      var kv := parsed[|parsed| - 1];
      var front := parsed[..|parsed| - 1];
      assert KeysWellFormed(front);
      FlattenedBelow(front, k);
      var ef := Flattened(front, "");
      var tail := if kv.value.JObject? then Flattened(kv.value.members, kv.key)
                  else [OrderedKV(kv.key, kv.value)];
      assert Flattened(parsed, "") == ef + tail;
      RequalifyAppend(k, ef, tail);
      if kv.value.JObject? {
        var cs := kv.value.members;
        assert kv.key != "" && KeysWellFormed(cs);
        FlattenedBelow(cs, k + "." + kv.key);
        FlattenedBelow(cs, kv.key);
        RequalifyTwice(k, kv.key, Flattened(cs, ""));
      }
    }
  }

  function MemberKeys(parsed: seq<Member>): set<string>
  {
    set j | 0 <= j < |parsed| :: parsed[j].key
  }

  /** Every path of a root-level flattening starts with the key of one of the members. */
  lemma {:induction false} FirstSegment(parsed: seq<Member>)
    requires KeysWellFormed(parsed)
    ensures forall i :: 0 <= i < |Flattened(parsed, "")| ==>
      Split(Flattened(parsed, "")[i].key)[0] in MemberKeys(parsed)
    decreases parsed
  {
    if parsed != [] {
      var kv := parsed[|parsed| - 1];
      var front := parsed[..|parsed| - 1];
      var r := Flattened(parsed, "");
      var f := Flattened(front, "");
      assert KeysWellFormed(front);
      FirstSegment(front);
      assert MemberKeys(front) <= MemberKeys(parsed) by {
        forall x | x in MemberKeys(front) ensures x in MemberKeys(parsed) {
          var j :| 0 <= j < |front| && front[j].key == x;
          assert parsed[j] == front[j];
        }
      }
      assert kv.key in MemberKeys(parsed);
      TailFirstSegment(kv, f, r);
    }
  }

  /** The entries a single member adds all start with its key. */
  lemma TailFirstSegment(kv: Member, f: seq<OrderedKV>, r: seq<OrderedKV>)
    requires kv.key != "" && DotFree(kv.key)
    requires kv.value.JObject? ==> KeysWellFormed(kv.value.members)
    requires r == f + (if kv.value.JObject? then Flattened(kv.value.members, kv.key)
                       else [OrderedKV(kv.key, kv.value)])
    ensures forall i :: |f| <= i < |r| ==> Split(r[i].key)[0] == kv.key
  {
    forall i | |f| <= i < |r|
      ensures Split(r[i].key)[0] == kv.key
    {
      if kv.value.JObject? {
        FlattenedBelow(kv.value.members, kv.key);
        SplitCons(kv.key, Flattened(kv.value.members, "")[i - |f|].key);
      } else {
        SplitDotFree(kv.key);
      }
    }
  }

  predicate UniquePaths(es: seq<OrderedKV>)
  {
    forall i, j :: 0 <= i < j < |es| ==> es[i].key != es[j].key
  }

  /** With well-formed keys no two flattened entries share a path. */
  lemma {:induction false} FlattenedUniquePaths(parsed: seq<Member>)
    requires KeysWellFormed(parsed)
    ensures UniquePaths(Flattened(parsed, ""))
    decreases parsed
  {
    if parsed != [] {
      var kv := parsed[|parsed| - 1];
      var front := parsed[..|parsed| - 1];
      var r := Flattened(parsed, "");
      var f := Flattened(front, "");
      assert KeysWellFormed(front);
      FlattenedUniquePaths(front);
      FirstSegment(front);
      var tail := if kv.value.JObject? then Flattened(kv.value.members, kv.key)
                  else [OrderedKV(kv.key, kv.value)];
      assert r == f + tail;
      if kv.value.JObject? {
        var cs := kv.value.members;
        FlattenedUniquePaths(cs);
        FlattenedBelow(cs, kv.key);
        var e := Flattened(cs, "");
        forall i, j | 0 <= i < j < |tail|
          ensures tail[i].key != tail[j].key
        {
          assert e[i].key != e[j].key;
          assert tail[i].key[|kv.key| + 1..] == e[i].key;
          assert tail[j].key[|kv.key| + 1..] == e[j].key;
        }
      }
      assert kv.key !in MemberKeys(front);
      TailFirstSegment(kv, f, r);
      forall i, j | 0 <= i < |f| <= j < |r|
        ensures r[i].key != r[j].key
      {
        assert r[i] == f[i];
      }
    }
  }

  /** When no object is empty, a non-empty document flattens to at least one entry. */
  lemma {:induction false} FlattenedNonEmpty(parsed: seq<Member>, prefix: string)
    requires NoEmptyObjects(parsed) && |parsed| > 0
    ensures |Flattened(parsed, prefix)| > 0
    decreases parsed
  {
    var kv := parsed[|parsed| - 1];
    if kv.value.JObject? {
      FlattenedNonEmpty(kv.value.members, JoinKey(prefix, kv.key));
    }
  }

  /** What well-formedness says of the last member and of the members before it. */
  lemma WellFormedSnoc(parsed: seq<Member>)
    requires |parsed| > 0 && KeysWellFormed(parsed) && NoEmptyObjects(parsed)
    ensures var kv := parsed[|parsed| - 1];
            var front := parsed[..|parsed| - 1];
            && KeysWellFormed(front) && NoEmptyObjects(front)
            && MemberKeys(parsed) == MemberKeys(front) + {kv.key}
            && kv.key != "" && DotFree(kv.key) && kv.key !in MemberKeys(front)
            && (kv.value.JObject? ==>
                  && KeysWellFormed(kv.value.members) && NoEmptyObjects(kv.value.members)
                  && |kv.value.members| > 0)
  {
    var front := parsed[..|parsed| - 1];
    assert forall i :: 0 <= i < |front| ==> front[i] == parsed[i];
  }
}
