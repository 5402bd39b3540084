/**
 The abstract syntax tree the visitor walks. Only the node kinds the visitor
 tells apart are distinguished; every other kind of node is `Other`.
 */
module Syntax {

  /** The name of the pseudo-module that forward-compatibility imports come from. */
  const FutureModule: string := "__future__"

  /** The kinds of node the visitor distinguishes. */
  datatype Kind =
    | Module
      /** `from <moduleName> import <names>` at line `lineno`; its aliases are not nodes the walk can reach. */
    | ImportFrom(moduleName: string, names: seq<string>, lineno: int)
    | Import
      /** A string literal (a `Str` node, or a string `Constant`). */
    | Str
      /** The statement form of print (Python 2 only). */
    | Print
      /** A call; its callee is its first child. */
    | Call
      /** An expression statement; its one child is the expression. */
    | Expr
    | Name(id: string)
      /** The division operator of a binary operation. */
    | Div
    | Other

  /** A node and its children, in the order the tree's fields list them. */
  datatype Node = Node(kind: Kind, children: seq<Node>)

  /** A node the visitor treats as a use of print: the print statement, or a
      call whose callee is the bare name `print`. */
  predicate IsPrint(n: Node)
  {
    || n.kind.Print?
    || (n.kind.Call? && |n.children| > 0 && n.children[0].kind == Name("print"))
  }

  /** A `from __future__ import ...` statement. */
  predicate IsFutureImport(n: Node)
  {
    n.kind.ImportFrom? && n.kind.moduleName == FutureModule
  }

  /** The nodes the visitor dispatches on, in the order it reaches them:
      the node itself, then (unless it is an ImportFrom, whose handler
      does not descend) the nodes reached from each child in turn. */
  function Visited(n: Node): (vs: seq<Node>)
    ensures |vs| >= 1 && vs[0] == n
    decreases n
  {
    [n] + (if n.kind.ImportFrom? then [] else VisitedAll(n.children))
  }

  /** The nodes reached from each of `ns` in turn. */
  function VisitedAll(ns: seq<Node>): (vs: seq<Node>)
    ensures forall n :: n in ns ==> n in vs
    decreases ns
  {
    if ns == [] then [] else Visited(ns[0]) + VisitedAll(ns[1..])
  }
}
