/**
 * The rule check of src/check.ts: the member-expression matcher, the
 * context classifier, the extraction of the range to report, the driver
 * that collects those ranges over the walker's callbacks, and the
 * range-to-text slicing used when printing.
 *
 * The parser and the ancestor-tracking walker are not modelled: their output
 * is a finite sequence of visits, each a node together with the list the
 * walker hands to the callback (root first; acorn-walk ends it with the
 * visited node itself).
 */
module Check {
  import opened Wrappers
  import opened NameType

  /** Half-open source offsets `{start, end}`. */
  datatype Range = Range(start: int, end: int)

  /** One entry of the member-expression rule category. */
  datatype Rule = Rule(objectName: string, propertyName: string)

  /** A rule set: category name to its ordered rule entries. */
  type RuleSet = map<string, seq<Rule>>

  /** `parseMermberExpression`'s result: the two `name` fields, possibly undefined. */
  datatype Parsed = Parsed(objectName: Option<string>, propertyName: Option<string>)

  /** One callback of the walker: the node and the walker's list. */
  datatype Visit = Visit(node: Node, ancestors: seq<Node>)

  /** The category the matcher reads, spelled as in the source. */
  const MemberRulesKey := "merberExpression"

  /** The module constant `filtList`: the default rule set. */
  const FiltList: RuleSet := map[MemberRulesKey := [Rule("Symbol", "iterator")]]

  const PrintLevel := 5
  const AncestorNum := 1
  const PrintRange := 0

  // ---------------------------------------------------------------------
  // lodash/fp list helpers used by the source

  /** `_.last`: the last element, if any. */
  function Last<T>(s: seq<T>): (r: Option<T>)
    ensures r.Some? <==> |s| > 0
    ensures r.Some? ==> r.value == s[|s| - 1]
  {
    if |s| == 0 then None else Some(s[|s| - 1])
  }

  /** `_.first`: the first element, if any. */
  function First<T>(s: seq<T>): (r: Option<T>)
    ensures r.Some? <==> |s| > 0
    ensures r.Some? ==> r.value == s[0]
  {
    if |s| == 0 then None else Some(s[0])
  }

  /** `_.dropRight(n)`: all but the last `n` elements. */
  function DropRight<T>(n: nat, s: seq<T>): (r: seq<T>)
    ensures |r| == if n <= |s| then |s| - n else 0
    ensures r == s[..|r|]
  {
    if n <= |s| then s[..|s| - n] else []
  }

  /** `_.takeLast(n)`: the last `n` elements (all of them when fewer). */
  function TakeLast<T>(n: nat, s: seq<T>): (r: seq<T>)
    ensures |r| == if n <= |s| then n else |s|
    ensures r == s[|s| - |r|..]
  {
    if n <= |s| then s[|s| - n..] else s
  }

  function Max(a: int, b: int): (m: int) { if a < b then b else a }

  function Min(a: int, b: int): (m: int) { if a < b then a else b }

  // ---------------------------------------------------------------------
  // Rule matcher

  /** `filtList.merberExpression`, or nothing when the category is absent. */
  function MemberRules(rules: RuleSet): (list: seq<Rule>)
  {
    if MemberRulesKey in rules then rules[MemberRulesKey] else []
  }

  /** `parseMermberExpression`: project a member expression to its two names. */
  function ParseMemberExpression(node: Node): (p: Parsed)
    ensures p.objectName == node.objectName && p.propertyName == node.propertyName
  {
    Parsed(node.objectName, node.propertyName)
  }

  /**
   * The iteratee `_.matches(parsed)`: every field of `parsed` equals the
   * entry's field by `===`; an undefined name never equals a string.
   */
  predicate Matches(p: Parsed, rule: Rule)
  {
    p.objectName == Some(rule.objectName) && p.propertyName == Some(rule.propertyName)
  }

  /** `_.find(parsed)(list)`: the first entry that matches. */
  function Find(p: Parsed, list: seq<Rule>): (r: Option<Rule>)
    ensures r.Some? ==> r.value in list && Matches(p, r.value)
    ensures r.None? ==> forall i :: 0 <= i < |list| ==> !Matches(p, list[i])
  {
    if |list| == 0 then None
    else if Matches(p, list[0]) then Some(list[0])
    else Find(p, list[1..])
  }

  /**
   * `isMemberExpressionNodeInFiltList`: both names are present and the pair
   * is, exactly and case-sensitively, an entry of the member rules.
   */
  function IsMemberExpressionNodeInFiltList(node: Node, rules: RuleSet): (b: bool)
    ensures b <==> node.objectName.Some? && node.propertyName.Some?
                   && Rule(node.objectName.value, node.propertyName.value) in MemberRules(rules)
  {
    var parsed := ParseMemberExpression(node);
    var found := Find(parsed, MemberRules(rules));
    if found.Some? then
      assert Rule(node.objectName.value, node.propertyName.value) == found.value;
      true
    else
      false
  }

  /** With the default rule set only `Symbol.iterator` matches. */
  lemma DefaultListMatchesOnlySymbolIterator(node: Node)
    ensures IsMemberExpressionNodeInFiltList(node, FiltList)
            <==> node.objectName == Some("Symbol") && node.propertyName == Some("iterator")
  {
  }

  /** A member access whose object or property is not a plain identifier never matches. */
  lemma DynamicAccessNeverMatches(node: Node, rules: RuleSet)
    requires node.objectName.None? || node.propertyName.None?
    ensures !IsMemberExpressionNodeInFiltList(node, rules)
  {
  }

  // ---------------------------------------------------------------------
  // Context classifier

  /**
   * `isNodePropertyOfExpression`: drop the last element of the walker's
   * list and ask whether the new last one is a member expression.
   */
  function IsNodePropertyOfExpression(visitors: seq<Node>): (b: bool)
    ensures |visitors| <= 1 ==> !b
    ensures |visitors| >= 2 ==> (b <==> visitors[|visitors| - 2].nodeType == "MemberExpression")
  {
    var ancester := Last(DropRight(AncestorNum, visitors));
    if ancester.None? then false else IsMemberExpression(ancester.value)
  }

  // ---------------------------------------------------------------------
  // Range extraction

  /** `_.first(_.takeLast(PRINT_LEVEL))` picks the element at `max(0, n - 5)` of a non-empty list. */
  lemma FirstOfLastFive<T>(s: seq<T>)
    requires |s| > 0
    ensures First(TakeLast(PrintLevel, s)) == Some(s[Max(0, |s| - 5)])
  {
  }

  /**
   * `extractErrorMemberExpression`: a range exactly when the node matches a
   * rule and sits under a member expression; the range is that of the first
   * of the last five entries of the walker's list.
   */
  function ExtractErrorMemberExpression(node: Node, visitors: seq<Node>, rules: RuleSet): (r: Option<Range>)
    ensures r.Some? <==> IsMemberExpressionNodeInFiltList(node, rules) && IsNodePropertyOfExpression(visitors)
    ensures r.Some? ==> |visitors| >= 2
    ensures r.Some? ==> r.value == Range(visitors[Max(0, |visitors| - 5)].start,
                                         visitors[Max(0, |visitors| - 5)].end)
  {
    if IsMemberExpressionNodeInFiltList(node, rules) && IsNodePropertyOfExpression(visitors) then
      FirstOfLastFive(visitors);
      var printTargetNode := First(TakeLast(PrintLevel, visitors)).value;
      Some(Range(printTargetNode.start, printTargetNode.end))
    else
      None
  }

  /** `outer` covers `inner` in the source text. */
  predicate Encloses(outer: Node, inner: Node)
  {
    outer.start <= inner.start && inner.end <= outer.end
  }

  /** Each entry of the list covers the next one, as a root-to-leaf path does. */
  predicate Nested(chain: seq<Node>)
  {
    forall i :: 0 <= i < |chain| - 1 ==> Encloses(chain[i], chain[i + 1])
  }

  lemma {:induction false} NestedEncloses(chain: seq<Node>, i: nat, j: nat)
    requires Nested(chain) && i <= j < |chain|
    ensures Encloses(chain[i], chain[j])
    decreases j - i
  {
    if i < j {
      NestedEncloses(chain, i + 1, j);
      assert Encloses(chain[i], chain[i + 1]);
    }
  }

  /**
   * On a walker list that is a root-to-node path ending with the visited
   * node, the reported range covers the offending access and belongs to an
   * ancestor at most four levels above it.
   */
  lemma ExtractedRangeCoversNode(node: Node, visitors: seq<Node>, rules: RuleSet)
    requires Nested(visitors) && |visitors| > 0 && visitors[|visitors| - 1] == node
    requires ExtractErrorMemberExpression(node, visitors, rules).Some?
    ensures var r := ExtractErrorMemberExpression(node, visitors, rules).value;
            r.start <= node.start && node.end <= r.end
    ensures exists k :: |visitors| - 5 <= k < |visitors| - 1 && 0 <= k
                        && ExtractErrorMemberExpression(node, visitors, rules).value
                           == Range(visitors[k].start, visitors[k].end)
  {
    var n := |visitors|;
    var k := Max(0, n - 5);
    NestedEncloses(visitors, k, n - 1);
  }

  // ---------------------------------------------------------------------
  // Driver

  /** The ranges one callback contributes: the visitor table registers only `MemberExpression`. */
  function Step(v: Visit, rules: RuleSet): (r: seq<Range>)
    ensures |r| <= 1
    ensures |r| == 1 <==> IsMemberExpression(v.node)
                          && ExtractErrorMemberExpression(v.node, v.ancestors, rules).Some?
    ensures |r| == 1 ==> r[0] == ExtractErrorMemberExpression(v.node, v.ancestors, rules).value
  {
    if IsMemberExpression(v.node) then
      var error := ExtractErrorMemberExpression(v.node, v.ancestors, rules);
      if error.Some? then [error.value] else []
    else
      []
  }

  /** Number of member-expression callbacks in the walk. */
  function MemberVisits(visits: seq<Visit>): (count: nat)
  {
    if |visits| == 0 then 0
    else (if IsMemberExpression(visits[0].node) then 1 else 0) + MemberVisits(visits[1..])
  }

  /** The ranges the driver collects, in callback order. */
  function Collect(visits: seq<Visit>, rules: RuleSet): (r: seq<Range>)
    ensures |r| <= MemberVisits(visits)
  {
    if |visits| == 0 then [] else Step(visits[0], rules) + Collect(visits[1..], rules)
  }

  /** Collection distributes over consecutive stretches of the walk. */
  lemma {:induction false} CollectAppend(a: seq<Visit>, b: seq<Visit>, rules: RuleSet)
    ensures Collect(a + b, rules) == Collect(a, rules) + Collect(b, rules)
  {
    if |a| == 0 {
      assert a + b == b;
    } else {
      assert (a + b)[1..] == a[1..] + b;
      CollectAppend(a[1..], b, rules);
    }
  }

  /** Every collected range comes from a member-expression callback that passed extraction. */
  lemma {:induction false} CollectSound(visits: seq<Visit>, rules: RuleSet, x: Range)
    requires x in Collect(visits, rules)
    ensures exists i :: 0 <= i < |visits| && IsMemberExpression(visits[i].node)
                        && ExtractErrorMemberExpression(visits[i].node, visits[i].ancestors, rules) == Some(x)
  {
    if x in Step(visits[0], rules) {
      assert IsMemberExpression(visits[0].node);
    } else {
      CollectSound(visits[1..], rules, x);
      var i :| 0 <= i < |visits[1..]| && IsMemberExpression(visits[1..][i].node)
               && ExtractErrorMemberExpression(visits[1..][i].node, visits[1..][i].ancestors, rules) == Some(x);
      assert visits[i + 1] == visits[1..][i];
    }
  }

  /** Every member-expression callback that passes extraction has its range collected. */
  lemma {:induction false} CollectComplete(visits: seq<Visit>, rules: RuleSet, i: nat)
    requires i < |visits| && IsMemberExpression(visits[i].node)
    requires ExtractErrorMemberExpression(visits[i].node, visits[i].ancestors, rules).Some?
    ensures ExtractErrorMemberExpression(visits[i].node, visits[i].ancestors, rules).value
            in Collect(visits, rules)
  {
    if i > 0 {
      assert visits[1..][i - 1] == visits[i];
      CollectComplete(visits[1..], rules, i - 1);
    }
  }

  /**
   * `checkES5Errors` with the walker abstracted: for each callback, push the
   * extracted range when there is one.
   */
  method CheckES5Errors(visits: seq<Visit>, rules: RuleSet) returns (errorList: seq<Range>)
    ensures errorList == Collect(visits, rules)
    ensures |errorList| <= MemberVisits(visits)
  {
    errorList := [];
    var i := 0;
    while i < |visits|
      invariant 0 <= i <= |visits|
      invariant errorList == Collect(visits[..i], rules)
    {
      var v := visits[i];
      if IsMemberExpression(v.node) {
        var error := ExtractErrorMemberExpression(v.node, v.ancestors, rules);
        if error.Some? {
          errorList := errorList + [error.value];
        }
      }
      assert visits[..i + 1] == visits[..i] + [v];
      CollectAppend(visits[..i], [v], rules);
      assert Collect([v], rules) == Step(v, rules);
      i := i + 1;
    }
    assert visits[..i] == visits;
  }

  // ---------------------------------------------------------------------
  // Range-to-text slicing (printError)

  /**
   * lodash's `baseSlice` on a string: a negative end counts from the end of
   * the text, an end past the text is clamped, and a start at or after the
   * end gives the empty string. The start is never negative here.
   */
  function Slice(code: string, start: nat, end: int): (r: string)
    ensures 0 <= end ==>
      r == if start < Min(end, |code|) then code[start..Min(end, |code|)] else []
    ensures end < 0 ==>
      r == if start < end + |code| then code[start..end + |code|] else []
    ensures r == [] || SubstringAt(code, r, start)
  {
    var e0 := if end > |code| then |code| else end;
    var e := if e0 < 0 then e0 + |code| else e0;
    if start < e then code[start..e] else []
  }

  /** `code[i..i + |r|] == r`. */
  predicate SubstringAt(code: string, r: string, i: int)
  {
    0 <= i <= |code| - |r| && code[i..i + |r|] == r
  }

  /**
   * `range2String`: the text of the range clamped to `[0, code.length]`
   * (a negative end counting from the back, as lodash's `slice` does);
   * `PRINT_RANGE` is 0, so nothing is added around it.
   */
  function Range2String(code: string, range: Range): (r: string)
    ensures |r| <= |code|
    ensures exists i :: SubstringAt(code, r, i)
    ensures 0 <= range.end ==>
      var s := Max(0, range.start);
      var e := Min(range.end, |code|);
      r == if s < e then code[s..e] else []
    ensures range.end < 0 ==>
      var s := Max(0, range.start);
      r == if s < range.end + |code| then code[s..range.end + |code|] else []
  {
    var trueStart := Max(0, range.start - PrintRange);
    var trueEnd := Min(range.end + PrintRange, |code|);
    var r := Slice(code, trueStart, trueEnd);
    assert SubstringAt(code, r, if r == [] then 0 else trueStart);
    r
  }

  /** A range inside the text prints exactly the text it covers. */
  lemma Range2StringInBounds(code: string, range: Range)
    requires 0 <= range.start <= range.end <= |code|
    ensures Range2String(code, range) == code[range.start..range.end]
  {
  }

  /** `printError` without the logger: the strings handed to `log.info`, one per range, in order. */
  function PrintError(code: string, errList: seq<Range>): (lines: seq<string>)
    ensures |lines| == |errList|
    ensures forall i :: 0 <= i < |lines| ==> lines[i] == Range2String(code, errList[i])
  {
    if |errList| == 0 then [] else [Range2String(code, errList[0])] + PrintError(code, errList[1..])
  }
}
