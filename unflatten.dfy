/**
 * The tree build of serializeToJSON (main.go:151-175): every record's
 * dotted path is split on "." and its translation is stored at that path
 * of a nested map[string]interface{}, creating the intermediate maps on
 * the way down.
 */
module Unflatten {
  import opened Wrappers
  import opened JsonDoc
  import opened DottedPath
  import opened Flatten
  import opened KeyUsage

  /** A value of the output map: a translation string or a nested map. */
  datatype Node = Text(s: string) | Table(children: map<string, Node>)

  type Tree = map<string, Node>

  /**
   * The panic of the type assertion current[key].(map[string]interface{})
   * (main.go:172) when a path runs through a segment that holds a string.
   */
  const AssertionPanic := "interface conversion: interface {} is string, not map[string]interface {}"

  /** One record as the tree build reads it: FlattenedKey and Tr. */
  datatype Leaf = Leaf(path: string, text: string)

  /** The node found by following `segs` from the root, if any. */
  function Lookup(t: Tree, segs: seq<string>): Option<Node>
    requires |segs| >= 1
    decreases |segs|
  {
    if segs[0] !in t then None
    else if |segs| == 1 then Some(t[segs[0]])
    else match t[segs[0]]
      case Text(_) => None
      case Table(c) => Lookup(c, segs[1..])
  }

  /** `segs` reaches a string in `t`. */
  predicate HoldsText(t: Tree, segs: seq<string>)
    requires |segs| >= 1
  {
    Lookup(t, segs).Some? && Lookup(t, segs).value.Text?
  }

  /** `a` is a proper prefix of `b`. */
  predicate ProperPrefix(a: seq<string>, b: seq<string>)
  {
    |a| < |b| && b[..|a|] == a
  }

  /**
   * What one pass of the inner loop (main.go:154-174) does to the map: the
   * last segment is set to `v`; every earlier segment is followed, a new
   * map being made where it is absent, and a segment holding a string
   * panics.  Only the first segment's entry of the root changes.
   */
  function Insert(t: Tree, segs: seq<string>, v: string): (r: Result<Tree, string>)
    requires |segs| >= 1
    ensures r.Success? ==> r.value.Keys == t.Keys + {segs[0]}
    ensures r.Success? ==> forall k :: k in t && k != segs[0] ==> r.value[k] == t[k]
    ensures r.Failure? ==> r.error == AssertionPanic
    decreases |segs|
  {
    var key := segs[0];
    if |segs| == 1 then Success(t[key := Text(v)])
    else
      match (if key in t then t[key] else Table(map[]))
      case Text(_) => Failure(AssertionPanic)
      case Table(c) =>
        match Insert(c, segs[1..], v)
        case Failure(e) => Failure(e)
        case Success(c') => Success(t[key := Table(c')])
  }

  /** `next` is the map the cursor moves to from `m` on segment `k`. */
  predicate Descends(m: Tree, k: string, next: Tree)
  {
    || (k !in m && next == map[])
    || (k in m && m[k].Table? && next == m[k].children)
  }

  /**
   * The inner loop with its moving `current` cursor.  The maps the cursor
   * passes through are kept in `spine`; since a map is a value here, the
   * changed maps are then put back together from the deepest one up.
   */
  method Plant(root: Tree, segs: seq<string>, v: string) returns (r: Result<Tree, string>)
    requires |segs| >= 1
    ensures r == Insert(root, segs, v)
  {
    var spine := [root];
    var depth := 0;
    var blocked := false;
    while depth < |segs| - 1 && !blocked
      invariant 0 <= depth < |segs|
      invariant |spine| == depth + 1 && spine[0] == root
      invariant forall j :: 0 <= j < depth ==> Descends(spine[j], segs[j], spine[j + 1])
      invariant blocked ==> depth < |segs| - 1 && segs[depth] in spine[depth] && spine[depth][segs[depth]].Text?
      decreases |segs| - depth - (if blocked then 1 else 0)
    {
      var current := spine[depth];
      var key := segs[depth];
      if key !in current {
        spine := spine + [map[]];
        depth := depth + 1;
      } else if current[key].Table? {
        spine := spine + [current[key].children];
        depth := depth + 1;
      } else {
        blocked := true;
      }
    }
    var acc: Result<Tree, string>;
    if blocked {
      acc := Failure(AssertionPanic);
    } else {
      acc := Success(spine[depth][segs[depth] := Text(v)]);
    }
    var level := depth;
    while level > 0
      invariant 0 <= level <= depth
      invariant acc == Insert(spine[level], segs[level..], v)
    {
      level := level - 1;
      assert segs[level..][1..] == segs[level + 1..];
      match acc
      case Failure(e) =>
      case Success(below) =>
        acc := Success(spine[level][segs[level] := Table(below)]);
    }
    assert segs[0..] == segs;
    r := acc;
  }

  /** The outer loop over the records, stopping at the first panic. */
  function Grow(t: Tree, leaves: seq<Leaf>): (r: Result<Tree, string>)
    ensures r.Success? ==> t.Keys <= r.value.Keys
    ensures r.Failure? ==> r.error == AssertionPanic
    decreases |leaves|
  {
    if leaves == [] then Success(t)
    else
      match Grow(t, leaves[..|leaves| - 1])
      case Failure(e) => Failure(e)
      case Success(before) =>
        var last := leaves[|leaves| - 1];
        Insert(before, Split(last.path), last.text)
  }

  /** The path and translation of each record, in order (main.go:153, 158). */
  function LeavesOf(kts: seq<KeyTranslation>): (ls: seq<Leaf>)
    ensures |ls| == |kts|
    ensures forall i :: 0 <= i < |kts| ==> ls[i] == Leaf(kts[i].flattenedKey, kts[i].tr)
  {
    seq(|kts|, i requires 0 <= i < |kts| => Leaf(kts[i].flattenedKey, kts[i].tr))
  }

  /** The map-building loop of serializeToJSON. */
  method SerializeTree(kts: seq<KeyTranslation>) returns (r: Result<Tree, string>)
    ensures r == Grow(map[], LeavesOf(kts))
  {
    var jsonOutput: Tree := map[];
    var ls := LeavesOf(kts);
    for i := 0 to |kts|
      invariant Grow(map[], ls[..i]) == Success(jsonOutput)
    {
      assert ls[..i + 1][..i] == ls[..i];
      var planted := Plant(jsonOutput, Split(kts[i].flattenedKey), kts[i].tr);
      if planted.Failure? {
        GrowFailureSticks(map[], ls[..i + 1], ls[i + 1..]);
        assert ls[..i + 1] + ls[i + 1..] == ls;
        return planted;
      }
      jsonOutput := planted.value;
    }
    assert ls[..|kts|] == ls;
    r := Success(jsonOutput);
  }

  /** Growing by `a + b` is growing by `a`, then by `b`. */
  lemma {:induction false} GrowAppend(t: Tree, a: seq<Leaf>, b: seq<Leaf>)
    ensures Grow(t, a + b) == match Grow(t, a)
                              case Failure(e) => Failure(e)
                              case Success(mid) => Grow(mid, b)
    decreases |b|
  {
    if b == [] {
      assert a + b == a;
    } else {
      assert (a + b)[..|a + b| - 1] == a + b[..|b| - 1];
      GrowAppend(t, a, b[..|b| - 1]);
    }
  }

  /** Once a record has panicked, the records after it change nothing. */
  lemma GrowFailureSticks(t: Tree, a: seq<Leaf>, b: seq<Leaf>)
    requires Grow(t, a).Failure?
    ensures Grow(t, a + b) == Grow(t, a)
  {
    GrowAppend(t, a, b);
  }

  /** After a successful insertion the path leads to the value stored. */
  lemma {:induction false} InsertFindsLeaf(t: Tree, segs: seq<string>, v: string)
    requires |segs| >= 1 && Insert(t, segs, v).Success?
    ensures Lookup(Insert(t, segs, v).value, segs) == Some(Text(v))
    decreases |segs|
  {
    if |segs| > 1 {
      var c := if segs[0] in t then t[segs[0]].children else map[];
      InsertFindsLeaf(c, segs[1..], v);
    }
  }

  /**
   * An insertion panics exactly when one of the path's proper prefixes
   * already leads to a string.
   */
  lemma {:induction false} InsertFailsIff(t: Tree, segs: seq<string>, v: string)
    requires |segs| >= 1
    ensures Insert(t, segs, v).Failure? <==> exists j :: 1 <= j < |segs| && HoldsText(t, segs[..j])
    decreases |segs|
  {
    if |segs| > 1 {
      var key := segs[0];
      if key !in t {
        InsertFailsIff(map[], segs[1..], v);
        assert !exists j :: 1 <= j < |segs| - 1 && HoldsText(map[], segs[1..][..j]);
        forall j | 1 <= j < |segs|
          ensures !HoldsText(t, segs[..j])
        {
          assert segs[..j][0] == key;
        }
      } else if t[key].Text? {
        assert segs[..1][0] == key;
        assert HoldsText(t, segs[..1]);
      } else {
        var c := t[key].children;
        InsertFailsIff(c, segs[1..], v);
        forall j | 1 <= j < |segs|
          ensures HoldsText(t, segs[..j]) <==> j > 1 && HoldsText(c, segs[1..][..j - 1])
        {
          assert segs[..j][0] == key;
          if j > 1 {
            assert segs[..j][1..] == segs[1..][..j - 1];
          }
        }
        if Insert(t, segs, v).Failure? {
          var j' :| 1 <= j' < |segs| - 1 && HoldsText(c, segs[1..][..j']);
          assert HoldsText(t, segs[..j' + 1]);
        }
      }
    }
  }

  /** Inserting at the same path again replaces the earlier value. */
  lemma {:induction false} InsertOverwrites(t: Tree, segs: seq<string>, v1: string, v2: string)
    requires |segs| >= 1 && Insert(t, segs, v1).Success?
    ensures Insert(Insert(t, segs, v1).value, segs, v2) == Insert(t, segs, v2)
    decreases |segs|
  {
    var key := segs[0];
    var t1 := Insert(t, segs, v1).value;
    if |segs| == 1 {
      assert t1[key := Text(v2)] == t[key := Text(v2)];
    } else {
      var c := if key in t then t[key].children else map[];
      InsertOverwrites(c, segs[1..], v1, v2);
      match Insert(c, segs[1..], v2)
      case Failure(_) =>
      case Success(c2) =>
        assert t1[key := Table(c2)] == t[key := Table(c2)];
    }
  }

  /**
   * An insertion at another path leaves a string already stored where it
   * was, unless the new path ends above it (replacing the map holding it).
   */
  lemma {:induction false} InsertKeepsOther(t: Tree, s1: seq<string>, s2: seq<string>, v: string)
    requires |s1| >= 1 && |s2| >= 1 && s1 != s2 && !ProperPrefix(s2, s1)
    requires HoldsText(t, s1) && Insert(t, s2, v).Success?
    ensures Lookup(Insert(t, s2, v).value, s1) == Lookup(t, s1)
    decreases |s1|
  {
    if s1[0] == s2[0] && |s1| > 1 {
      var key := s1[0];
      var c := t[key].children;
      assert s1[..1] == [key];
      assert s1 == [key] + s1[1..] && s2 == [key] + s2[1..];
      if |s2| <= |s1| {
        assert s1[..|s2|] == [key] + s1[1..][..|s2| - 1];
      }
      InsertKeepsOther(c, s1[1..], s2[1..], v);
    }
  }

  /**
   * After the whole loop, a path holds the translation of the last record
   * with that path, provided no later record's path ends above it.
   */
  lemma {:induction false} GrowLastWins(t: Tree, ls: seq<Leaf>, i: nat)
    requires i < |ls| && Grow(t, ls).Success?
    requires forall j :: i < j < |ls| ==>
               ls[j].path != ls[i].path && !ProperPrefix(Split(ls[j].path), Split(ls[i].path))
    ensures Lookup(Grow(t, ls).value, Split(ls[i].path)) == Some(Text(ls[i].text))
    decreases |ls|
  {
    var n := |ls|;
    var front := ls[..n - 1];
    var x := ls[n - 1];
    assert ls == front + [x];
    GrowSnoc(t, front, x);
    assert Grow(t, front).Success?;
    var before := Grow(t, front).value;
    assert Grow(t, ls) == Insert(before, Split(x.path), x.text);
    if i == n - 1 {
      InsertFindsLeaf(before, Split(ls[i].path), ls[i].text);
    } else {
      assert forall j :: i < j < |front| ==> front[j] == ls[j];
      GrowLastWins(t, front, i);
      LaterLeafKeeps(before, ls[i], ls[n - 1]);
    }
  }

  /** A leaf already stored survives the insertion of a later leaf at another path not ending above it. */
  lemma LaterLeafKeeps(t: Tree, l: Leaf, x: Leaf)
    requires Lookup(t, Split(l.path)) == Some(Text(l.text))
    requires x.path != l.path && !ProperPrefix(Split(x.path), Split(l.path))
    requires Insert(t, Split(x.path), x.text).Success?
    ensures Lookup(Insert(t, Split(x.path), x.text).value, Split(l.path)) == Some(Text(l.text))
  {
    JoinSplit(l.path);
    JoinSplit(x.path);
    assert HoldsText(t, Split(l.path));
    InsertKeepsOther(t, Split(l.path), Split(x.path), x.text);
  }

  /** Entries paired with the translation `g` gives their values. */
  function Labelled(es: seq<OrderedKV>, g: Json -> string): (ls: seq<Leaf>)
    ensures |ls| == |es|
    ensures forall i :: 0 <= i < |es| ==> ls[i] == Leaf(es[i].key, g(es[i].value))
  {
    seq(|es|, i requires 0 <= i < |es| => Leaf(es[i].key, g(es[i].value)))
  }

  /** Leaves moved below the segment `k`. */
  function Beneath(k: string, ls: seq<Leaf>): (r: seq<Leaf>)
    ensures |r| == |ls|
    ensures forall i :: 0 <= i < |ls| ==> r[i] == Leaf(k + "." + ls[i].path, ls[i].text)
  {
    seq(|ls|, i requires 0 <= i < |ls| => Leaf(k + "." + ls[i].path, ls[i].text))
  }

  /** The map held below `k`, or the empty map the loop creates there. */
  function Sub(t: Tree, k: string): Tree
  {
    if k in t && t[k].Table? then t[k].children else map[]
  }

  /** Inserting below `k` inserts into the map under `k`. */
  lemma InsertBelow(t: Tree, k: string, rest: seq<string>, v: string)
    requires |rest| >= 1
    requires k in t ==> t[k].Table?
    ensures Insert(t, [k] + rest, v) == match Insert(Sub(t, k), rest, v)
                                        case Failure(e) => Failure(e)
                                        case Success(c) => Success(t[k := Table(c)])
  {
    assert ([k] + rest)[1..] == rest;
  }

  /** What growing by one more leaf does. */
  lemma GrowSnoc(t: Tree, ls: seq<Leaf>, x: Leaf)
    ensures Grow(t, ls + [x]) == match Grow(t, ls)
                                 case Failure(e) => Failure(e)
                                 case Success(before) => Insert(before, Split(x.path), x.text)
  {
    assert (ls + [x])[..|ls|] == ls;
  }

  /** The result of growing `t` below `k` by what grew `Sub(t, k)` into `r`. */
  function Lifted(t: Tree, k: string, r: Result<Tree, string>): Result<Tree, string>
  {
    match r
    case Failure(e) => Failure(e)
    case Success(c) => Success(t[k := Table(c)])
  }

  /** Growing leaves below `k` grows the map under `k` by the same leaves. */
  lemma {:induction false} GrowBeneath(t: Tree, k: string, ls: seq<Leaf>)
    requires DotFree(k) && |ls| >= 1
    requires k in t ==> t[k].Table?
    ensures Grow(t, Beneath(k, ls)) == Lifted(t, k, Grow(Sub(t, k), ls))
    decreases |ls|
  {
    var n := |ls|;
    var x := ls[n - 1];
    var init := ls[..n - 1];
    assert ls == init + [x];
    if n == 1 {
      GrowBeneathSnoc(t, k, init, x);
    } else {
      GrowBeneath(t, k, init);
      GrowBeneathSnoc(t, k, init, x);
    }
  }

  /** One more leaf below `k`, given the claim for the leaves before it (trivial when there are none). */
  lemma GrowBeneathSnoc(t: Tree, k: string, init: seq<Leaf>, x: Leaf)
    requires DotFree(k)
    requires k in t ==> t[k].Table?
    requires init == [] || Grow(t, Beneath(k, init)) == Lifted(t, k, Grow(Sub(t, k), init))
    ensures Grow(t, Beneath(k, init + [x])) == Lifted(t, k, Grow(Sub(t, k), init + [x]))
  {
    var y := Leaf(k + "." + x.path, x.text);
    assert Beneath(k, init + [x]) == Beneath(k, init) + [y];
    SplitCons(k, x.path);
    GrowSnoc(t, Beneath(k, init), y);
    GrowSnoc(Sub(t, k), init, x);
    if init == [] {
      assert Beneath(k, init) == [];
      InsertBelow(t, k, Split(x.path), x.text);
    } else {
      GrowBeneathStep(t, k, Grow(Sub(t, k), init), x);
    }
  }

  lemma GrowBeneathStep(t: Tree, k: string, r: Result<Tree, string>, x: Leaf)
    requires k in t ==> t[k].Table?
    ensures (match Lifted(t, k, r)
             case Failure(e) => Failure(e)
             case Success(before) => Insert(before, [k] + Split(x.path), x.text))
         == Lifted(t, k, match r
                         case Failure(e) => Failure(e)
                         case Success(before) => Insert(before, Split(x.path), x.text))
  {
    if r.Success? {
      var t2 := t[k := Table(r.value)];
      InsertBelow(t2, k, Split(x.path), x.text);
      assert Sub(t2, k) == r.value;
      if Insert(r.value, Split(x.path), x.text).Success? {
        var c' := Insert(r.value, Split(x.path), x.text).value;
        assert t2[k := Table(c')] == t[k := Table(c')];
      }
    }
  }

  /**
   * The document as the output map holds it: each member under its own
   * key, objects as nested maps and every other value as the string `g`
   * gives it.
   */
  function Shape(ms: seq<Member>, g: Json -> string): (t: Tree)
    ensures t.Keys == MemberKeys(ms)
    decreases ms
  {
    if ms == [] then map[]
    else
      var kv := ms[|ms| - 1];
      var front := ms[..|ms| - 1];
      assert MemberKeys(ms) == MemberKeys(front) + {kv.key};
      Shape(front, g)[kv.key := if kv.value.JObject? then Table(Shape(kv.value.members, g)) else Text(g(kv.value))]
  }

  lemma LabelledAppend(a: seq<OrderedKV>, b: seq<OrderedKV>, g: Json -> string)
    ensures Labelled(a + b, g) == Labelled(a, g) + Labelled(b, g)
  {
    assert forall i :: 0 <= i < |a + b| ==> Labelled(a + b, g)[i] == (Labelled(a, g) + Labelled(b, g))[i];
  }

  lemma LabelledBeneath(k: string, es: seq<OrderedKV>, g: Json -> string)
    ensures Labelled(Requalify(k, es), g) == Beneath(k, Labelled(es, g))
  {
  }

  /** The entries flattenJSON emits for one root member. */
  function MemberEntries(kv: Member): seq<OrderedKV>
  {
    if kv.value.JObject? then Flattened(kv.value.members, kv.key) else [OrderedKV(kv.key, kv.value)]
  }

  /** The node the document's shape holds for one member. */
  function MemberNode(kv: Member, g: Json -> string): Node
  {
    if kv.value.JObject? then Table(Shape(kv.value.members, g)) else Text(g(kv.value))
  }

  /** The entries of one new member grow its node under its key. */
  lemma GrowMember(t: Tree, kv: Member, g: Json -> string)
    requires kv.key != "" && DotFree(kv.key) && kv.key !in t
    requires kv.value.JObject? ==>
               && KeysWellFormed(kv.value.members) && NoEmptyObjects(kv.value.members)
               && |kv.value.members| > 0
               && Grow(map[], Labelled(Flattened(kv.value.members, ""), g)) == Success(Shape(kv.value.members, g))
    ensures Grow(t, Labelled(MemberEntries(kv), g)) == Success(t[kv.key := MemberNode(kv, g)])
  {
    if kv.value.JObject? {
      var cs := kv.value.members;
      FlattenedBelow(cs, kv.key);
      var ec := Flattened(cs, "");
      LabelledBeneath(kv.key, ec, g);
      FlattenedNonEmpty(cs, "");
      GrowBeneath(t, kv.key, Labelled(ec, g));
    } else {
      SplitDotFree(kv.key);
      var ls := Labelled(MemberEntries(kv), g);
      assert ls == [Leaf(kv.key, g(kv.value))];
      assert ls[..0] == [];
    }
  }

  /** One step of the round trip: the last member added to the front's map. */
  lemma RoundTripStep(t: Tree, ms: seq<Member>, g: Json -> string)
    requires |ms| > 0
    requires var kv := ms[|ms| - 1];
             && kv.key != "" && DotFree(kv.key) && kv.key !in t
             && kv.key !in MemberKeys(ms[..|ms| - 1])
    requires var kv := ms[|ms| - 1];
             kv.value.JObject? ==>
               && KeysWellFormed(kv.value.members) && NoEmptyObjects(kv.value.members)
               && |kv.value.members| > 0
               && Grow(map[], Labelled(Flattened(kv.value.members, ""), g)) == Success(Shape(kv.value.members, g))
    requires Grow(t, Labelled(Flattened(ms[..|ms| - 1], ""), g)) == Success(t + Shape(ms[..|ms| - 1], g))
    ensures Grow(t, Labelled(Flattened(ms, ""), g)) == Success(t + Shape(ms, g))
  {
    var kv := ms[|ms| - 1];
    var front := ms[..|ms| - 1];
    var ef := Flattened(front, "");
    FlattenedSnoc(ms);
    LabelledAppend(ef, MemberEntries(kv), g);
    GrowAppend(t, Labelled(ef, g), Labelled(MemberEntries(kv), g));
    var t1 := t + Shape(front, g);
    GrowMember(t1, kv, g);
    ShapeSnoc(t, ms, g);
  }

  lemma FlattenedSnoc(ms: seq<Member>)
    requires |ms| > 0
    ensures Flattened(ms, "") == Flattened(ms[..|ms| - 1], "") + MemberEntries(ms[|ms| - 1])
  {
  }

  lemma ShapeSnoc(t: Tree, ms: seq<Member>, g: Json -> string)
    requires |ms| > 0
    ensures t + Shape(ms, g) == (t + Shape(ms[..|ms| - 1], g))[ms[|ms| - 1].key := MemberNode(ms[|ms| - 1], g)]
  {
    var kv := ms[|ms| - 1];
    var front := Shape(ms[..|ms| - 1], g);
    assert Shape(ms, g) == front[kv.key := MemberNode(kv, g)];
    UnionUpdate(t, front, kv.key, MemberNode(kv, g));
  }

  lemma UnionUpdate(t: Tree, a: Tree, k: string, n: Node)
    ensures t + a[k := n] == (t + a)[k := n]
  {
  }

  /**
   * Flattening a well-formed document and building the tree from its
   * paths gives back the document's shape: main.go:151-175 undoes
   * main.go:299-315, added to a map whose keys the document does not use.
   */
  lemma {:induction false} RoundTrip(t: Tree, ms: seq<Member>, g: Json -> string)
    requires KeysWellFormed(ms) && NoEmptyObjects(ms)
    requires t.Keys !! MemberKeys(ms)
    ensures Grow(t, Labelled(Flattened(ms, ""), g)) == Success(t + Shape(ms, g))
    decreases ms, 1
  {
    if ms == [] {
      assert Labelled([], g) == [];
      assert t + map[] == t;
    } else {
      WellFormedSnoc(ms);
      RoundTrip(t, ms[..|ms| - 1], g);
      LastRoundTrip(ms, g);
      RoundTripStep(t, ms, g);
    }
  }

  /** The round trip of the last member's own members, from the empty map. */
  lemma {:induction false} LastRoundTrip(ms: seq<Member>, g: Json -> string)
    requires |ms| > 0
    requires var kv := ms[|ms| - 1];
             kv.value.JObject? ==> KeysWellFormed(kv.value.members) && NoEmptyObjects(kv.value.members)
    ensures var kv := ms[|ms| - 1];
            kv.value.JObject? ==>
              Grow(map[], Labelled(Flattened(kv.value.members, ""), g)) == Success(Shape(kv.value.members, g))
    decreases ms, 0
  {
    var kv := ms[|ms| - 1];
    if kv.value.JObject? {
      RoundTrip(map[], kv.value.members, g);
      assert map[] + Shape(kv.value.members, g) == Shape(kv.value.members, g);
    }
  }

  /** The string every leaf of the written map holds. */
  function Blank(v: Json): string
  {
    ""
  }

  /**
   * What serializeToJSON receives is what createTrContext built: the
   * translations are made on copies (main.go:104, 129) and never stored
   * back.  So for a well-formed document the map written has exactly the
   * document's shape, with the empty string at every leaf.
   */
  lemma SerializedShape(doc: seq<Member>, files: seq<SourceFile>)
    requires KeysWellFormed(doc) && NoEmptyObjects(doc)
    requires TrContext(Flattened(doc, ""), files).Success?
    ensures Grow(map[], LeavesOf(TrContext(Flattened(doc, ""), files).value)) == Success(Shape(doc, Blank))
  {
    var fl := Flattened(doc, "");
    TrContextAligned(fl, files);
    assert LeavesOf(TrContext(fl, files).value) == Labelled(fl, Blank);
    RoundTrip(map[], doc, Blank);
    assert map[] + Shape(doc, Blank) == Shape(doc, Blank);
  }
}
