/**
 * How test/index.ts uses the engine: merge the rule files with
 * `combineCheckList`, then check a source text against the merged rules.
 * This module relates the matcher to the merge, records that the engine as
 * written ignores the rules it is handed, and works three small programs
 * through the driver.
 */
module Pipeline {
  import opened Wrappers
  import opened NameType
  import opened Check
  import opened RuleMerge

  /** A node matches a merged rule set iff it matches one of the two. */
  lemma MatchesMerged(node: Node, a: RuleSet, b: RuleSet)
    ensures IsMemberExpressionNodeInFiltList(node, Merge(a, b))
            <==> IsMemberExpressionNodeInFiltList(node, a) || IsMemberExpressionNodeInFiltList(node, b)
  {
  }

  lemma {:induction false} InGather(list: seq<RuleSet>, k: string, x: Rule)
    ensures x in Gather(list, k) <==> exists i :: 0 <= i < |list| && x in Lookup(list[i], k)
  {
    if |list| > 0 {
      InGather(list[1..], k, x);
      if x in Gather(list[1..], k) {
        var i :| 0 <= i < |list[1..]| && x in Lookup(list[1..][i], k);
        assert list[i + 1] == list[1..][i];
      }
      if exists i :: 0 <= i < |list| && x in Lookup(list[i], k) {
        var i :| 0 <= i < |list| && x in Lookup(list[i], k);
        if i > 0 {
          assert list[1..][i - 1] == list[i];
        }
      }
    }
  }

  /** A node matches the combination of rule files iff it matches one of them. */
  lemma MatchesCombined(node: Node, list: seq<RuleSet>)
    ensures IsMemberExpressionNodeInFiltList(node, CombineCheckList(list))
            <==> exists i :: 0 <= i < |list| && IsMemberExpressionNodeInFiltList(node, list[i])
  {
    if node.objectName.Some? && node.propertyName.Some? {
      var x := Rule(node.objectName.value, node.propertyName.value);
      InGather(list, MemberRulesKey, x);
      assert MemberRules(CombineCheckList(list)) == Gather(list, MemberRulesKey);
      if exists i :: 0 <= i < |list| && x in Lookup(list[i], MemberRulesKey) {
        var i :| 0 <= i < |list| && x in Lookup(list[i], MemberRulesKey);
        assert IsMemberExpressionNodeInFiltList(node, list[i]);
      }
    }
  }

  // ---------------------------------------------------------------------
  // The rules argument as written

  /**
   * `checkES5Errors` as written takes the source text only: the merged rule
   * set that test/index.ts passes as a second argument is dropped and the
   * module constant `filtList` is used instead.
   */
  method CheckES5ErrorsAsWritten(visits: seq<Visit>, rules: RuleSet) returns (errorList: seq<Range>)
    ensures errorList == Collect(visits, FiltList)
  {
    errorList := CheckES5Errors(visits, FiltList);
  }

  const ArrayFromCode := "x[Array.from]"
  /** A stand-in rule set with one Array rule under the category the matcher reads. */
  const ArrayRules: RuleSet := map[MemberRulesKey := [Rule("Array", "from")]]

  /** The callbacks for `x[Array.from]`, children before parents, each list ending with its node. */
  function ArrayFromVisits(): (visits: seq<Visit>)
  {
    var program := Node("Program", 0, 13, None, None);
    var statement := Node("ExpressionStatement", 0, 13, None, None);
    var outer := Node(MemberExpressionType, 0, 13, Some("x"), None);
    var inner := Node(MemberExpressionType, 2, 12, Some("Array"), Some("from"));
    [Visit(inner, [program, statement, outer, inner]), Visit(outer, [program, statement, outer])]
  }

  /**
   * With the stand-in rule set `{merberExpression: [Array.from]}` merged
   * with `filtList`, `x[Array.from]` is reported when the merged rules are
   * applied, yet the engine as written reports nothing for it.
   */
  lemma RulesArgumentIgnored()
    ensures var rules := CombineCheckList([ArrayRules, FiltList]);
            Collect(ArrayFromVisits(), FiltList) == []
            && Collect(ArrayFromVisits(), rules) == [Range(0, 13)]
            && PrintError(ArrayFromCode, Collect(ArrayFromVisits(), rules)) == [ArrayFromCode]
  {
    var rules := CombineCheckList([ArrayRules, FiltList]);
    var inner := ArrayFromVisits()[0].node;
    MatchesCombined(inner, [ArrayRules, FiltList]);
    assert IsMemberExpressionNodeInFiltList(inner, ArrayRules);
    assert IsMemberExpressionNodeInFiltList(inner, rules);
    DefaultListMatchesOnlySymbolIterator(inner);
    var tail := ArrayFromVisits()[1..];
    assert Collect(tail[1..], rules) == [] by { assert |tail[1..]| == 0; }
    assert Collect(tail[1..], FiltList) == [] by { assert |tail[1..]| == 0; }
    PrintSingle(ArrayFromCode, Range(0, 13));
  }

  /** A range covering the whole text prints the whole text. */
  lemma PrintSingle(code: string, range: Range)
    requires range == Range(0, |code|)
    ensures PrintError(code, [range]) == [code]
  {
    Range2StringInBounds(code, range);
    assert code[0..|code|] == code;
  }

  // ---------------------------------------------------------------------
  // Worked programs with the default rules

  /** `a[Symbol.iterator]`: the access is read as a property key, so it is reported. */
  lemma SymbolIteratorAsKeyIsReported()
    ensures var code := "a[Symbol.iterator]";
            var program := Node("Program", 0, 18, None, None);
            var statement := Node("ExpressionStatement", 0, 18, None, None);
            var outer := Node(MemberExpressionType, 0, 18, Some("a"), None);
            var inner := Node(MemberExpressionType, 2, 17, Some("Symbol"), Some("iterator"));
            var visits := [Visit(inner, [program, statement, outer, inner]),
                           Visit(outer, [program, statement, outer])];
            Collect(visits, FiltList) == [Range(0, 18)]
            && PrintError(code, Collect(visits, FiltList)) == [code]
  {
    var program := Node("Program", 0, 18, None, None);
    var statement := Node("ExpressionStatement", 0, 18, None, None);
    var outer := Node(MemberExpressionType, 0, 18, Some("a"), None);
    var inner := Node(MemberExpressionType, 2, 17, Some("Symbol"), Some("iterator"));
    var visits := [Visit(inner, [program, statement, outer, inner]), Visit(outer, [program, statement, outer])];
    DefaultListMatchesOnlySymbolIterator(inner);
    DefaultListMatchesOnlySymbolIterator(outer);
    assert Step(visits[0], FiltList) == [Range(0, 18)];
    assert Step(visits[1], FiltList) == [];
    assert Collect(visits[1..][1..], FiltList) == [] by { assert |visits[1..][1..]| == 0; }
    assert Collect(visits, FiltList) == [Range(0, 18)];
    PrintSingle("a[Symbol.iterator]", Range(0, 18));
  }

  /** `typeof Symbol.iterator === "undefined"`: a feature test, not reported. */
  lemma FeatureTestIsNotReported()
    ensures var program := Node("Program", 0, 38, None, None);
            var statement := Node("ExpressionStatement", 0, 38, None, None);
            var comparison := Node("BinaryExpression", 0, 38, None, None);
            var typeofNode := Node("UnaryExpression", 0, 22, None, None);
            var access := Node(MemberExpressionType, 7, 22, Some("Symbol"), Some("iterator"));
            Collect([Visit(access, [program, statement, comparison, typeofNode, access])], FiltList) == []
  {
  }

  /** `Symbol.iterator()`: a call on the access has no rule of its own, so it is not reported. */
  lemma CallPositionIsNotReported()
    ensures var program := Node("Program", 0, 17, None, None);
            var statement := Node("ExpressionStatement", 0, 17, None, None);
            var call := Node(CallExpressionType, 0, 17, None, None);
            var access := Node(MemberExpressionType, 0, 15, Some("Symbol"), Some("iterator"));
            Collect([Visit(access, [program, statement, call, access])], FiltList) == []
  {
  }
}
