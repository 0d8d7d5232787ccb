/**
 * Syntax-tree nodes as the analyser sees them, and the node-kind predicates
 * of src/nameType.ts. A node keeps only what the engine reads: its `type`
 * discriminator, its source offsets and, for a member expression, the `name`
 * of its `object` and `property` children (None when that child is not a
 * simple identifier, i.e. when JavaScript would read `undefined`).
 */
module NameType {
  import opened Wrappers

  const IdentifierType := "Identifier"
  const MemberExpressionType := "MemberExpression"
  const CallExpressionType := "CallExpression"

  datatype Node = Node(
    nodeType: string,
    start: nat,
    end: nat,
    objectName: Option<string>,
    propertyName: Option<string>)

  /** `isIdentifier`: the node is an identifier. */
  function IsIdentifier(node: Node): (b: bool)
    ensures b <==> node.nodeType == "Identifier"
  {
    node.nodeType == IdentifierType
  }

  /** `isMemberExpression`: the node is an object-property access. */
  function IsMemberExpression(node: Node): (b: bool)
    ensures b <==> node.nodeType == "MemberExpression"
  {
    node.nodeType == MemberExpressionType
  }

  /** `isCallExpression`: the node is a call. */
  function IsCallExpression(node: Node): (b: bool)
    ensures b <==> node.nodeType == "CallExpression"
  {
    node.nodeType == CallExpressionType
  }

  /** The three enum strings are distinct, so no node has two of the kinds. */
  lemma KindsExclusive(node: Node)
    ensures !(IsIdentifier(node) && IsMemberExpression(node))
    ensures !(IsIdentifier(node) && IsCallExpression(node))
    ensures !(IsMemberExpression(node) && IsCallExpression(node))
  {
  }
}
