/**
 * The key-usage matching pass of main.go: createTrContext (339-430),
 * findParentFunction (432-440) and getFunctionName (442-478).
 *
 * Tree-sitter is not modelled.  Each match of the call query arrives as a
 * QueryMatch: the text of the callee identifier, the text of the string
 * fragment passed as the key, and the chain of ancestors of the callee node,
 * starting with that node itself and ending at the root.
 */
module KeyUsage {
  import opened Wrappers
  import opened JsonDoc
  import opened Flatten
  import opened TextReplace

  /** A syntax node: its kind, the text of its `name` and `key` fields when it has them, and its source text. */
  datatype SyntaxNode = SyntaxNode(kind: string, name: Option<string>, key: Option<string>, content: string)

  /** One match of the call query. */
  datatype QueryMatch = QueryMatch(callee: string, fragment: string, ancestors: seq<SyntaxNode>)

  /** A candidate file: the matches found in it, or the error that reading or parsing it gave. */
  datatype SourceFile =
    | Parsed(path: string, matches: seq<QueryMatch>)
    | Unreadable(path: string, error: string)

  /** main.go:36-46.  `functionText` is the Function field: the marked-up body of the enclosing function. */
  datatype KeyTranslation = KeyTranslation(
    flattenedKey: string,
    text: string,
    usageFound: bool,
    file: string,
    functionText: string,
    aiContext: string,
    tr: string,
    trWithFunContext: string,
    trWithAIContext: string)

  predicate IsFunctionLike(kind: string)
  {
    kind == "function_declaration" || kind == "arrow_function" || kind == "method_definition"
  }

  /** The position of the nearest function-like node on the chain, or None when the walk reaches the root. */
  function NearestFunction(chain: seq<SyntaxNode>): (r: Option<nat>)
    ensures r.Some? ==>
      && r.value < |chain|
      && IsFunctionLike(chain[r.value].kind)
      && forall j :: 0 <= j < r.value ==> !IsFunctionLike(chain[j].kind)
    ensures r.None? ==> forall j :: 0 <= j < |chain| ==> !IsFunctionLike(chain[j].kind)
  {
    if chain == [] then None
    else if IsFunctionLike(chain[0].kind) then Some(0)
    else
      match NearestFunction(chain[1..])
      case None => None
      case Some(i) => Some(i + 1)
  }

  /** findParentFunction: walk the parent links until a function-like node or the root. */
  method FindParentFunction(chain: seq<SyntaxNode>) returns (r: Option<nat>)
    ensures r == NearestFunction(chain)
  {
    var i := 0;
    while i < |chain|
      invariant 0 <= i <= |chain|
      invariant forall j :: 0 <= j < i ==> !IsFunctionLike(chain[j].kind)
    {
      if IsFunctionLike(chain[i].kind) {
        return Some(i);
      }
      i := i + 1;
    }
    return None;
  }

  /**
   * getFunctionName for the node at position p of the chain (its parent is
   * at p + 1).  A non-empty name is always the text of a `name` field of the
   * node, or of a `name` or `key` field of its parent.
   */
  function GetFunctionName(chain: seq<SyntaxNode>, p: nat): (name: string)
    requires p < |chain|
    ensures name != "" ==>
      || chain[p].name == Some(name)
      || (p + 1 < |chain| && (chain[p + 1].name == Some(name) || chain[p + 1].key == Some(name)))
  {
    var node := chain[p];
    match node.kind
    case "function_declaration" => node.name.GetOr("")
    case "method_definition" => node.name.GetOr("")
    case "arrow_function" =>
      if p + 1 < |chain| then
        var parent := chain[p + 1];
        match parent.kind
        case "variable_declarator" => parent.name.GetOr("")
        case "pair" => parent.key.GetOr("")
        case _ => ""
      else ""
    case _ => ""
  }

  /** The naming rules as a table keyed on the node's kind and its parent's kind. */
  datatype NameRule = OwnName | DeclaratorName | PropertyKey | Anonymous

  function NameRuleFor(kind: string, parentKind: Option<string>): NameRule
  {
    if kind == "function_declaration" || kind == "method_definition" then OwnName
    else if kind == "arrow_function" && parentKind == Some("variable_declarator") then DeclaratorName
    else if kind == "arrow_function" && parentKind == Some("pair") then PropertyKey
    else Anonymous
  }

  function ApplyNameRule(rule: NameRule, node: SyntaxNode, parent: Option<SyntaxNode>): string
  {
    match rule
    case OwnName => node.name.GetOr("")
    case DeclaratorName => if parent.Some? then parent.value.name.GetOr("") else ""
    case PropertyKey => if parent.Some? then parent.value.key.GetOr("") else ""
    case Anonymous => ""
  }

  function ParentOf(chain: seq<SyntaxNode>, p: nat): Option<SyntaxNode>
    requires p < |chain|
  {
    if p + 1 < |chain| then Some(chain[p + 1]) else None
  }

  /** getFunctionName's nested switch is exactly the (kind, parent kind) dispatch table. */
  lemma NameDispatchAgrees(chain: seq<SyntaxNode>, p: nat)
    requires p < |chain|
    ensures GetFunctionName(chain, p) ==
      ApplyNameRule(NameRuleFor(chain[p].kind, if p + 1 < |chain| then Some(chain[p + 1].kind) else None),
                    chain[p], ParentOf(chain, p))
  {
  }

  /** What a match resolves to: the key it names, its fragment and the enclosing function's text. */
  datatype Usage = Usage(fullKey: string, fragment: string, functionText: string)

  /**
   * Only calls of the identifier `t` count; a call with no enclosing
   * function is dropped.  Otherwise the key is `<function name>.<fragment>`.
   */
  function Resolve(m: QueryMatch): (r: Option<Usage>)
    ensures r.None? <==> m.callee != "t" || NearestFunction(m.ancestors).None?
    ensures r.Some? ==>
      && r.value.fragment == m.fragment
      && |r.value.fullKey| > |m.fragment|
      && r.value.fullKey[|r.value.fullKey| - |m.fragment| - 1..] == "." + m.fragment
  {
    if m.callee != "t" then None
    else
      match NearestFunction(m.ancestors)
      case None => None
      case Some(p) =>
        Some(Usage(GetFunctionName(m.ancestors, p) + "." + m.fragment, m.fragment, m.ancestors[p].content))
  }

  predicate ResolvesTo(m: QueryMatch, key: string)
  {
    Resolve(m).Some? && Resolve(m).value.fullKey == key
  }

  /** The translated text wrapped in the delimiters the prompts refer to. */
  function Delimited(text: string): string
  {
    "---" + text + "---"
  }

  /** The record every key starts with (main.go:344). */
  function InitialRecord(kv: OrderedKV): KeyTranslation
  {
    KeyTranslation(kv.key, StringOf(kv.value), false, "", "", "", "", "", "")
  }

  /** The record written when a usage of the key is found in `file` (main.go:420-421). */
  function UsedRecord(kv: OrderedKV, file: string, u: Usage): KeyTranslation
  {
    var text := StringOf(kv.value);
    KeyTranslation(kv.key, text, true, file, ReplaceAll(u.functionText, u.fragment, Delimited(text)), "", "", "", "")
  }

  function InitialRecords(flattened: seq<OrderedKV>): (rs: seq<KeyTranslation>)
    ensures |rs| == |flattened|
    ensures forall i :: 0 <= i < |flattened| ==> rs[i] == InitialRecord(flattened[i])
  {
    seq(|flattened|, i requires 0 <= i < |flattened| => InitialRecord(flattened[i]))
  }

  /** The effect of one match on the records: every record whose path is the resolved key is overwritten. */
  function ApplyMatch(rs: seq<KeyTranslation>, flattened: seq<OrderedKV>, file: string, m: QueryMatch): (r: seq<KeyTranslation>)
    requires |rs| == |flattened|
    ensures |r| == |rs|
    ensures Resolve(m).None? ==> r == rs
    ensures forall i :: 0 <= i < |rs| && r[i] != rs[i] ==> ResolvesTo(m, flattened[i].key)
  {
    match Resolve(m)
    case None => rs
    case Some(u) =>
      seq(|rs|, i requires 0 <= i < |rs| =>
        if u.fullKey == flattened[i].key then UsedRecord(flattened[i], file, u) else rs[i])
  }

  /** The matches of one file, applied in order. */
  function ApplyMatches(rs: seq<KeyTranslation>, flattened: seq<OrderedKV>, file: string, ms: seq<QueryMatch>): (r: seq<KeyTranslation>)
    requires |rs| == |flattened|
    ensures |r| == |rs|
  {
    if ms == [] then rs
    else ApplyMatch(ApplyMatches(rs, flattened, file, ms[..|ms| - 1]), flattened, file, ms[|ms| - 1])
  }

  /** The files, scanned in order; the first file that cannot be read or parsed ends the scan. */
  function ScanFiles(rs: seq<KeyTranslation>, flattened: seq<OrderedKV>, files: seq<SourceFile>): (r: Result<seq<KeyTranslation>, string>)
    requires |rs| == |flattened|
    ensures r.Success? ==> |r.value| == |rs|
  {
    if files == [] then Success(rs)
    else
      match ScanFiles(rs, flattened, files[..|files| - 1])
      case Failure(e) => Failure(e)
      case Success(before) =>
        var f := files[|files| - 1];
        if f.Unreadable? then Failure(f.error)
        else Success(ApplyMatches(before, flattened, f.path, f.matches))
  }

  /** What createTrContext returns. */
  function TrContext(flattened: seq<OrderedKV>, files: seq<SourceFile>): Result<seq<KeyTranslation>, string>
  {
    ScanFiles(InitialRecords(flattened), flattened, files)
  }

  /** One match applied to the records in place (the body of main.go:403-425). */
  method ApplyMatchInPlace(results: array<KeyTranslation>, flattened: seq<OrderedKV>, file: string, m: QueryMatch)
    requires results.Length == |flattened|
    modifies results
    ensures results[..] == ApplyMatch(old(results[..]), flattened, file, m)
  {
    if m.callee != "t" {
      return;
    }
    var parent := FindParentFunction(m.ancestors);
    if parent.None? {
      return;
    }
    var p := parent.value;
    var parentFunctionName := GetFunctionName(m.ancestors, p);
    var fullKeyName := parentFunctionName + "." + m.fragment;
    var parentFunctionContent := m.ancestors[p].content;
    ghost var u := Usage(fullKeyName, m.fragment, parentFunctionContent);
    assert Resolve(m) == Some(u);
    for i := 0 to |flattened|
      invariant forall j :: 0 <= j < i ==>
        results[j] == if fullKeyName == flattened[j].key then UsedRecord(flattened[j], file, u) else old(results[j])
      invariant forall j :: i <= j < results.Length ==> results[j] == old(results[j])
    {
      if fullKeyName == flattened[i].key {
        var text := StringOf(flattened[i].value);
        var replacedContent := ReplaceAll(parentFunctionContent, m.fragment, Delimited(text));
        results[i] := KeyTranslation(flattened[i].key, text, true, file, replacedContent, "", "", "", "");
      }
    }
  }

  /** createTrContext: fill a pre-sized array, then let every match of every file overwrite its records. */
  method CreateTrContext(flattened: seq<OrderedKV>, files: seq<SourceFile>) returns (r: Result<array<KeyTranslation>, string>)
    ensures r.Success? ==> fresh(r.value)
    ensures r.Success? ==> TrContext(flattened, files) == Success(r.value[..])
    ensures r.Failure? ==> TrContext(flattened, files) == Failure(r.error)
  {
    var results := new KeyTranslation[|flattened|];
    for i := 0 to |flattened|
      invariant forall j :: 0 <= j < i ==> results[j] == InitialRecord(flattened[j])
    {
      results[i] := InitialRecord(flattened[i]);
    }
    ghost var initial := InitialRecords(flattened);
    assert results[..] == initial;
    for f := 0 to |files|
      invariant ScanFiles(initial, flattened, files[..f]) == Success(results[..])
    {
      assert files[..f + 1][..f] == files[..f];
      var file := files[f];
      if file.Unreadable? {
        assert ScanFiles(initial, flattened, files[..f + 1]) == Failure(file.error);
        ScanFailureSticks(initial, flattened, files[..f + 1], files[f + 1..]);
        assert files[..f + 1] + files[f + 1..] == files;
        return Failure(file.error);
      }
      ghost var before := results[..];
      for k := 0 to |file.matches|
        invariant results[..] == ApplyMatches(before, flattened, file.path, file.matches[..k])
      {
        assert file.matches[..k + 1][..k] == file.matches[..k];
        ApplyMatchInPlace(results, flattened, file.path, file.matches[k]);
      }
      assert file.matches[..|file.matches|] == file.matches;
    }
    assert files[..|files|] == files;
    return Success(results);
  }

  /** Once a file has failed, later files change nothing: the first error is the one reported. */
  lemma {:induction false} ScanFailureSticks(rs: seq<KeyTranslation>, flattened: seq<OrderedKV>, a: seq<SourceFile>, b: seq<SourceFile>)
    requires |rs| == |flattened|
    requires ScanFiles(rs, flattened, a).Failure?
    ensures ScanFiles(rs, flattened, a + b) == ScanFiles(rs, flattened, a)
    decreases |b|
  {
    if b == [] {
      assert a + b == a;
    } else {
      ScanFailureSticks(rs, flattened, a, b[..|b| - 1]);
      assert (a + b)[..|a + b| - 1] == a + b[..|b| - 1];
    }
  }

  /** Record i stands for flattened entry i: its path and text, with the translation fields still empty. */
  predicate Aligned(rs: seq<KeyTranslation>, flattened: seq<OrderedKV>)
  {
    && |rs| == |flattened|
    && forall i :: 0 <= i < |rs| ==>
         && rs[i].flattenedKey == flattened[i].key
         && rs[i].text == StringOf(flattened[i].value)
         && rs[i].aiContext == "" && rs[i].tr == ""
         && rs[i].trWithFunContext == "" && rs[i].trWithAIContext == ""
  }

  lemma {:induction false} ApplyMatchesAligned(rs: seq<KeyTranslation>, flattened: seq<OrderedKV>, file: string, ms: seq<QueryMatch>)
    requires Aligned(rs, flattened)
    ensures Aligned(ApplyMatches(rs, flattened, file, ms), flattened)
    decreases |ms|
  {
    if ms != [] {
      ApplyMatchesAligned(rs, flattened, file, ms[..|ms| - 1]);
    }
  }

  lemma {:induction false} ScanAligned(rs: seq<KeyTranslation>, flattened: seq<OrderedKV>, files: seq<SourceFile>)
    requires Aligned(rs, flattened)
    ensures ScanFiles(rs, flattened, files).Success? ==> Aligned(ScanFiles(rs, flattened, files).value, flattened)
    decreases |files|
  {
    if files != [] {
      var front := files[..|files| - 1];
      ScanAligned(rs, flattened, front);
      var f := files[|files| - 1];
      if ScanFiles(rs, flattened, front).Success? && f.Parsed? {
        ApplyMatchesAligned(ScanFiles(rs, flattened, front).value, flattened, f.path, f.matches);
      }
    }
  }

  /**
   * createTrContext returns one record per flattened entry, in the same
   * order, carrying that entry's path and text; it fills no translation.
   */
  lemma TrContextAligned(flattened: seq<OrderedKV>, files: seq<SourceFile>)
    ensures TrContext(flattened, files).Success? ==> Aligned(TrContext(flattened, files).value, flattened)
  {
    ScanAligned(InitialRecords(flattened), flattened, files);
  }

  /**
   * The pass fails exactly when some file cannot be read or parsed, and it
   * reports the error of the first such file.
   */
  lemma {:induction false} ScanFailsIff(rs: seq<KeyTranslation>, flattened: seq<OrderedKV>, files: seq<SourceFile>)
    requires |rs| == |flattened|
    ensures ScanFiles(rs, flattened, files).Failure? <==> exists j :: 0 <= j < |files| && files[j].Unreadable?
    ensures ScanFiles(rs, flattened, files).Failure? ==>
      exists j :: 0 <= j < |files| && files[j].Unreadable? && files[j].error == ScanFiles(rs, flattened, files).error
                  && forall k :: 0 <= k < j ==> files[k].Parsed?
    decreases |files|
  {
    if files != [] {
      var front := files[..|files| - 1];
      ScanFailsIff(rs, flattened, front);
      assert forall j :: 0 <= j < |front| ==> front[j] == files[j];
    }
  }

  lemma TrContextFailsIff(flattened: seq<OrderedKV>, files: seq<SourceFile>)
    ensures TrContext(flattened, files).Failure? <==> exists j :: 0 <= j < |files| && files[j].Unreadable?
  {
    ScanFailsIff(InitialRecords(flattened), flattened, files);
  }

  /** Match k of file j resolves to `key`. */
  predicate UsedAt(files: seq<SourceFile>, j: int, k: int, key: string)
  {
    0 <= j < |files| && files[j].Parsed? && 0 <= k < |files[j].matches| && ResolvesTo(files[j].matches[k], key)
  }

  lemma {:induction false} ApplyMatchesUnused(rs: seq<KeyTranslation>, flattened: seq<OrderedKV>, file: string, ms: seq<QueryMatch>, i: int)
    requires |rs| == |flattened| && 0 <= i < |rs|
    requires forall k :: 0 <= k < |ms| ==> !ResolvesTo(ms[k], flattened[i].key)
    ensures ApplyMatches(rs, flattened, file, ms)[i] == rs[i]
    decreases |ms|
  {
    if ms != [] {
      ApplyMatchesUnused(rs, flattened, file, ms[..|ms| - 1], i);
    }
  }

  lemma {:induction false} ApplyMatchesLast(rs: seq<KeyTranslation>, flattened: seq<OrderedKV>, file: string, ms: seq<QueryMatch>, i: int, k: int)
    requires |rs| == |flattened| && 0 <= i < |rs|
    requires 0 <= k < |ms| && ResolvesTo(ms[k], flattened[i].key)
    requires forall k' :: k < k' < |ms| ==> !ResolvesTo(ms[k'], flattened[i].key)
    ensures ApplyMatches(rs, flattened, file, ms)[i] == UsedRecord(flattened[i], file, Resolve(ms[k]).value)
    decreases |ms|
  {
    if k < |ms| - 1 {
      ApplyMatchesLast(rs, flattened, file, ms[..|ms| - 1], i, k);
    }
  }

  lemma {:induction false} ApplyMatchesFound(rs: seq<KeyTranslation>, flattened: seq<OrderedKV>, file: string, ms: seq<QueryMatch>, i: int)
    requires |rs| == |flattened| && 0 <= i < |rs|
    ensures ApplyMatches(rs, flattened, file, ms)[i].usageFound <==>
      rs[i].usageFound || exists k :: 0 <= k < |ms| && ResolvesTo(ms[k], flattened[i].key)
    decreases |ms|
  {
    if ms != [] {
      var front := ms[..|ms| - 1];
      ApplyMatchesFound(rs, flattened, file, front, i);
      assert forall k :: 0 <= k < |front| ==> front[k] == ms[k];
    }
  }

  /** A record whose path no `t` call resolves to is left as it was. */
  lemma {:induction false} ScanUnused(rs: seq<KeyTranslation>, flattened: seq<OrderedKV>, files: seq<SourceFile>, i: int)
    requires |rs| == |flattened| && 0 <= i < |rs|
    requires ScanFiles(rs, flattened, files).Success?
    requires forall j, k :: !UsedAt(files, j, k, flattened[i].key)
    ensures ScanFiles(rs, flattened, files).value[i] == rs[i]
    decreases |files|
  {
    if files != [] {
      var front := files[..|files| - 1];
      var f := files[|files| - 1];
      assert forall j, k :: UsedAt(front, j, k, flattened[i].key) ==> UsedAt(files, j, k, flattened[i].key);
      ScanUnused(rs, flattened, front, i);
      forall k | 0 <= k < |f.matches|
        ensures !ResolvesTo(f.matches[k], flattened[i].key)
      {
        assert !UsedAt(files, |files| - 1, k, flattened[i].key);
      }
      ApplyMatchesUnused(ScanFiles(rs, flattened, front).value, flattened, f.path, f.matches, i);
    }
  }

  /** The last usage in file and match order decides the record: last writer wins. */
  lemma {:induction false} ScanLastUsage(rs: seq<KeyTranslation>, flattened: seq<OrderedKV>, files: seq<SourceFile>, i: int, j: int, k: int)
    requires |rs| == |flattened| && 0 <= i < |rs|
    requires ScanFiles(rs, flattened, files).Success?
    requires UsedAt(files, j, k, flattened[i].key)
    requires forall j', k' :: UsedAt(files, j', k', flattened[i].key) ==> j' < j || (j' == j && k' <= k)
    ensures ScanFiles(rs, flattened, files).value[i] == UsedRecord(flattened[i], files[j].path, Resolve(files[j].matches[k]).value)
    decreases |files|
  {
    var front := files[..|files| - 1];
    var f := files[|files| - 1];
    var before := ScanFiles(rs, flattened, front).value;
    if j == |files| - 1 {
      assert forall k' :: k < k' < |f.matches| ==> !ResolvesTo(f.matches[k'], flattened[i].key) by {
        forall k' | k < k' < |f.matches|
          ensures !ResolvesTo(f.matches[k'], flattened[i].key)
        {
          assert UsedAt(files, j, k', flattened[i].key) <==> ResolvesTo(f.matches[k'], flattened[i].key);
        }
      }
      ApplyMatchesLast(before, flattened, f.path, f.matches, i, k);
    } else {
      assert files[j] == front[j];
      assert UsedAt(front, j, k, flattened[i].key);
      assert forall j', k' :: UsedAt(front, j', k', flattened[i].key) ==> UsedAt(files, j', k', flattened[i].key);
      ScanLastUsage(rs, flattened, front, i, j, k);
      assert forall k' :: 0 <= k' < |f.matches| ==> !ResolvesTo(f.matches[k'], flattened[i].key) by {
        forall k' | 0 <= k' < |f.matches|
          ensures !ResolvesTo(f.matches[k'], flattened[i].key)
        {
          assert UsedAt(files, |files| - 1, k', flattened[i].key) <==> ResolvesTo(f.matches[k'], flattened[i].key);
        }
      }
      ApplyMatchesUnused(before, flattened, f.path, f.matches, i);
    }
  }

  lemma {:induction false} ScanFound(rs: seq<KeyTranslation>, flattened: seq<OrderedKV>, files: seq<SourceFile>, i: int)
    requires |rs| == |flattened| && 0 <= i < |rs|
    requires ScanFiles(rs, flattened, files).Success?
    ensures ScanFiles(rs, flattened, files).value[i].usageFound <==>
      rs[i].usageFound || exists j, k :: UsedAt(files, j, k, flattened[i].key)
    decreases |files|
  {
    if files != [] {
      var front := files[..|files| - 1];
      var f := files[|files| - 1];
      var before := ScanFiles(rs, flattened, front).value;
      assert ScanFiles(rs, flattened, files) == Success(ApplyMatches(before, flattened, f.path, f.matches));
      ScanFound(rs, flattened, front, i);
      ApplyMatchesFound(before, flattened, f.path, f.matches, i);
      assert files == front + [f];
      UsedAtSnoc(front, f, flattened[i].key);
    }
  }

  /** A usage among some files is a usage among all but the last, or a match of the last. */
  lemma UsedAtSnoc(front: seq<SourceFile>, f: SourceFile, key: string)
    requires f.Parsed?
    ensures (exists j, k :: UsedAt(front + [f], j, k, key)) <==>
      (exists j, k :: UsedAt(front, j, k, key)) || (exists k :: 0 <= k < |f.matches| && ResolvesTo(f.matches[k], key))
  {
    var files := front + [f];
    assert forall j, k :: UsedAt(front, j, k, key) ==> UsedAt(files, j, k, key);
    assert forall j, k :: UsedAt(files, j, k, key) && j < |front| ==> UsedAt(front, j, k, key);
    assert forall k :: UsedAt(files, |front|, k, key) <==> 0 <= k < |f.matches| && ResolvesTo(f.matches[k], key);
  }

  /**
   * UsageFound is set exactly for the keys some `t` call resolves to; any
   * other record keeps its initial state.
   */
  lemma UsageFoundIff(flattened: seq<OrderedKV>, files: seq<SourceFile>, i: int)
    requires TrContext(flattened, files).Success?
    requires 0 <= i < |flattened|
    ensures TrContext(flattened, files).value[i].usageFound <==> exists j, k :: UsedAt(files, j, k, flattened[i].key)
    ensures (forall j, k :: !UsedAt(files, j, k, flattened[i].key)) ==>
      TrContext(flattened, files).value[i] == InitialRecord(flattened[i])
  {
    ScanFound(InitialRecords(flattened), flattened, files, i);
    if forall j, k :: !UsedAt(files, j, k, flattened[i].key) {
      ScanUnused(InitialRecords(flattened), flattened, files, i);
    }
  }

  /** The record of a used key comes from its last usage, with the key's text marked in the function body. */
  lemma LastUsageWins(flattened: seq<OrderedKV>, files: seq<SourceFile>, i: int, j: int, k: int)
    requires TrContext(flattened, files).Success?
    requires 0 <= i < |flattened|
    requires UsedAt(files, j, k, flattened[i].key)
    requires forall j', k' :: UsedAt(files, j', k', flattened[i].key) ==> j' < j || (j' == j && k' <= k)
    ensures TrContext(flattened, files).value[i] ==
      UsedRecord(flattened[i], files[j].path, Resolve(files[j].matches[k]).value)
  {
    ScanLastUsage(InitialRecords(flattened), flattened, files, i, j, k);
  }

  /**
   * When the fragment occurs in the enclosing function's text (the call
   * site itself lies there), the snippet shows the key's text in delimiters.
   */
  lemma SnippetMarksText(kv: OrderedKV, file: string, u: Usage)
    requires Occurs(u.fragment, u.functionText)
    ensures Occurs(Delimited(StringOf(kv.value)), UsedRecord(kv, file, u).functionText)
  {
    ReplaceMarks(u.functionText, u.fragment, Delimited(StringOf(kv.value)));
  }

  /**
   * Each leftmost non-overlapping occurrence of a non-empty fragment is marked:
   * the snippet is the text between those occurrences, no piece of which
   * still holds the fragment, joined by the delimited key text.
   */
  lemma SnippetPieces(kv: OrderedKV, file: string, u: Usage)
    requires u.fragment != ""
    ensures UsedRecord(kv, file, u).functionText ==
      JoinWith(Pieces(u.functionText, u.fragment), Delimited(StringOf(kv.value)))
    ensures JoinWith(Pieces(u.functionText, u.fragment), u.fragment) == u.functionText
    ensures forall k :: 0 <= k < |Pieces(u.functionText, u.fragment)| ==>
      !Occurs(u.fragment, Pieces(u.functionText, u.fragment)[k])
  {
    ReplaceByPieces(u.functionText, u.fragment, Delimited(StringOf(kv.value)));
    PiecesJoin(u.functionText, u.fragment);
    PiecesFree(u.functionText, u.fragment);
  }
}
