/**
 * A worked example of the matching pass: a page component `Home` whose
 * arrow function calls t("title"), against a translation file holding
 * {"Home": {"title": "Welcome"}}.
 */
module Scenarios {
  import opened Wrappers
  import opened JsonDoc
  import opened DottedPath
  import opened Flatten
  import opened KeyUsage
  import opened TextReplace

  /** The source text of the component's arrow function. */
  function HomeArrow(): string
  {
    "() => t(\"title\")"
  }

  /** The ancestors of the `t` identifier, innermost first. */
  function HomeChain(): seq<SyntaxNode>
  {
    [ SyntaxNode("identifier", None, None, "t"),
      SyntaxNode("call_expression", None, None, "t(\"title\")"),
      SyntaxNode("arrow_function", None, None, HomeArrow()),
      SyntaxNode("variable_declarator", Some("Home"), None, "Home = " + HomeArrow()),
      SyntaxNode("program", None, None, "const Home = " + HomeArrow() + ";") ]
  }

  /** The call resolves to the key Home.title, inside the arrow function. */
  lemma HomeResolves()
    ensures Resolve(QueryMatch("t", "title", HomeChain())) == Some(Usage("Home.title", "title", HomeArrow()))
  {
    var chain := HomeChain();
    assert NearestFunction(chain) == Some(2);
    assert GetFunctionName(chain, 2) == "Home";
    assert "Home" + "." + "title" == "Home.title";
  }

  /** One file with one resolving match marks its one record as used there. */
  lemma HomeScan(kv: OrderedKV, m: QueryMatch, u: Usage)
    requires Resolve(m) == Some(u) && u.fullKey == kv.key
    ensures TrContext([kv], [Parsed("web/page.tsx", [m])]) == Success([UsedRecord(kv, "web/page.tsx", u)])
  {
    var fl := [kv];
    var rs := InitialRecords(fl);
    assert rs == [InitialRecord(kv)];
    var used := [UsedRecord(kv, "web/page.tsx", u)];
    assert ApplyMatch(rs, fl, "web/page.tsx", m) == used;
    var ms := [m];
    assert ms[..0] == [];
    assert ApplyMatches(rs, fl, "web/page.tsx", ms) == ApplyMatch(rs, fl, "web/page.tsx", m);
    var files := [Parsed("web/page.tsx", ms)];
    assert files[..0] == [];
    assert ScanFiles(rs, fl, files[..0]) == Success(rs);
    assert ScanFiles(rs, fl, files) == Success(used);
  }

  /**
   * The whole pass: the document flattens to the single path Home.title,
   * whose record is found in web/page.tsx.
   */
  lemma HomeTitleScenario()
    ensures
      var doc := [Member("Home", JObject([Member("title", JString("Welcome"))], "{\"title\":\"Welcome\"}"))];
      var r := TrContext(Flattened(doc, ""), [Parsed("web/page.tsx", [QueryMatch("t", "title", HomeChain())])]);
      && r.Success? && |r.value| == 1
      && r.value[0].flattenedKey == "Home.title" && r.value[0].text == "Welcome"
      && r.value[0].usageFound && r.value[0].file == "web/page.tsx"
      && r.value[0].functionText == "() => t(\"---Welcome---\")"
  {
    HomeTitleFlattened();
    HomeResolves();
    var kv := OrderedKV("Home.title", JString("Welcome"));
    var u := Usage("Home.title", "title", HomeArrow());
    HomeScan(kv, QueryMatch("t", "title", HomeChain()), u);
    HomeSnippet();
  }

  /** The snippet shows the arrow function with "title" replaced by the delimited text. */
  lemma HomeSnippet()
    ensures ReplaceAll(HomeArrow(), "title", Delimited("Welcome")) == "() => t(\"---Welcome---\")"
  {
    var front, after := "() => t(\"", "\")";
    var s := HomeArrow();
    assert s == front + "title" + after;
    assert s[..9] == front && s[14..] == after;
    assert OccursAt("title", s, 9);
    forall j | 0 <= j < 9
      ensures !OccursAt("title", s, j)
    {
      assert s[j..j + 5][0] == s[j] && s[j..j + 5][1] == s[j + 1];
    }
    IndexFirst(s, "title");
    assert Index(s, "title") == 9;
    assert Index(after, "title") == -1;
    var d := Delimited("Welcome");
    assert ReplaceAll(s, "title", d) == front + d + ReplaceAll(after, "title", d);
    assert ReplaceAll(after, "title", d) == after;
    WelcomeSpelled();
  }

  lemma WelcomeSpelled()
    ensures "() => t(\"" + Delimited("Welcome") + "\")" == "() => t(\"---Welcome---\")"
  {
  }

  /** The nested document flattens to one dotted path. */
  lemma HomeTitleFlattened()
    ensures Flattened([Member("Home", JObject([Member("title", JString("Welcome"))], "{\"title\":\"Welcome\"}"))], "")
      == [OrderedKV("Home.title", JString("Welcome"))]
  {
    var doc := [Member("Home", JObject([Member("title", JString("Welcome"))], "{\"title\":\"Welcome\"}"))];
    var inner := [Member("title", JString("Welcome"))];
    assert inner[..0] == [] && doc[..0] == [];
    assert JoinKey("Home", "title") == "Home.title";
    assert Flattened(inner, "Home") == [OrderedKV("Home.title", JString("Welcome"))];
  }
}
