/**
 The single depth-first walk that records the `__future__` imports of a tree
 and five usage flags. `Walk` follows the visitor's dispatch: an ImportFrom
 goes to its own handler, which never descends; every other node updates the
 flags and then has its children walked in order.
 */
module Visitor {
  import opened Syntax

  /** One `from __future__ import ...` statement: its names as written, and its line. */
  datatype FutureImport = FutureImport(names: seq<string>, lineno: int)

  /** The visitor's accumulated state. */
  datatype Scan = Scan(
    futureImports: seq<FutureImport>,
    usesCode: bool,
    usesPrint: bool,
    usesDivision: bool,
    usesImport: bool,
    usesStrLiterals: bool)

  /** The state of a freshly constructed visitor. */
  const Fresh: Scan := Scan([], false, false, false, false, false)

  /** The file counts as code: some node other than a module (or an
      ImportFrom) was dispatched on generically, or some `__future__`
      import was found. */
  predicate UsesCode(s: Scan)
  {
    s.usesCode || |s.futureImports| > 0
  }

  /** A node whose generic handling sets the "uses code" flag. */
  predicate SetsCode(n: Node)
  {
    !n.kind.Module? && !n.kind.ImportFrom?
  }

  /** An expression statement holding only a string literal: a docstring,
      or any other bare string. */
  predicate IsStringStatement(n: Node)
  {
    n.kind.Expr? && |n.children| == 1 && n.children[0].kind.Str?
  }

  /** A node that makes a file more than comments and (doc)strings, as the
      `--require-code` option describes it: any statement or expression
      other than a string literal or a statement holding only one. Unlike
      `SetsCode`, an import from an ordinary module counts. */
  predicate SetsCodeIntended(n: Node)
  {
    !n.kind.Module? && !n.kind.Str? && !IsStringStatement(n)
  }

  /** Whether some node of `vs` makes the file more than (doc)strings. */
  function HasIntendedCode(vs: seq<Node>): (b: bool)
    ensures b <==> exists v :: v in vs && SetsCodeIntended(v)
  {
    if vs == [] then false
    else
      assert forall v :: v in vs <==> v == vs[0] || v in vs[1..];
      SetsCodeIntended(vs[0]) || HasIntendedCode(vs[1..])
  }

  /** A node that sets the "uses import" flag: a plain import, or an
      ImportFrom of any module other than `__future__`. */
  predicate IsPlainImport(n: Node)
  {
    n.kind.Import? || (n.kind.ImportFrom? && !IsFutureImport(n))
  }

  /** What dispatching on `n` does to the state, its children aside: each
      flag becomes set exactly when it was set or `n` has its form, and a
      `__future__` import is appended to the records. */
  function Step(s: Scan, n: Node): (r: Scan)
    ensures r.usesCode <==> s.usesCode || SetsCode(n)
    ensures r.usesStrLiterals <==> s.usesStrLiterals || n.kind.Str?
    ensures r.usesPrint <==> s.usesPrint || IsPrint(n)
    ensures r.usesDivision <==> s.usesDivision || n.kind.Div?
    ensures r.usesImport <==> s.usesImport || IsPlainImport(n)
    ensures r.futureImports == s.futureImports + RecordOf(n)
  {
    match n.kind
    case ImportFrom(m, names, line) =>
      if m == FutureModule then s.(futureImports := s.futureImports + [FutureImport(names, line)])
      else s.(usesImport := true)
    case _ =>
      var s1 := if !n.kind.Module? then s.(usesCode := true) else s;
      if n.kind.Str? then s1.(usesStrLiterals := true)
      else if IsPrint(n) then s1.(usesPrint := true)
      else if n.kind.Div? then s1.(usesDivision := true)
      else if n.kind.Import? then s1.(usesImport := true)
      else s1
  }

  /** Visit `n` starting from state `s`. */
  function Walk(n: Node, s: Scan): Scan
    decreases n
  {
    var s' := Step(s, n);
    if n.kind.ImportFrom? then s' else WalkAll(n.children, s')
  }

  /** Visit each of `ns` in turn. */
  function WalkAll(ns: seq<Node>, s: Scan): Scan
    decreases ns
  {
    if ns == [] then s else WalkAll(ns[1..], Walk(ns[0], s))
  }

  /** Dispatch on each of `vs` in turn, without descending. */
  function StepAll(s: Scan, vs: seq<Node>): Scan
    decreases vs
  {
    if vs == [] then s else StepAll(Step(s, vs[0]), vs[1..])
  }

  /** The record a node contributes: one for a `__future__` import, none otherwise. */
  function RecordOf(n: Node): seq<FutureImport>
  {
    if IsFutureImport(n) then [FutureImport(n.kind.names, n.kind.lineno)] else []
  }

  /** The records of the `__future__` imports among `vs`, in order. */
  function FutureRecords(vs: seq<Node>): (r: seq<FutureImport>)
    ensures |r| <= |vs|
    ensures |r| > 0 <==> exists v :: v in vs && IsFutureImport(v)
  {
    if vs == [] then [] else RecordOf(vs[0]) + FutureRecords(vs[1..])
  }

  /** Each `__future__` import among `vs` has its record among the records. */
  lemma {:induction false} FutureRecordsMembers(vs: seq<Node>, v: Node)
    requires v in vs && IsFutureImport(v)
    ensures FutureImport(v.kind.names, v.kind.lineno) in FutureRecords(vs)
    decreases vs
  {
    if vs[0] != v {
      FutureRecordsMembers(vs[1..], v);
    }
  }

  lemma {:induction false} StepAllAppend(s: Scan, a: seq<Node>, b: seq<Node>)
    ensures StepAll(s, a + b) == StepAll(StepAll(s, a), b)
    decreases a
  {
    if a == [] {
      assert a + b == b;
    } else {
      assert (a + b)[0] == a[0];
      assert (a + b)[1..] == a[1..] + b;
      StepAllAppend(Step(s, a[0]), a[1..], b);
    }
  }

  /** The recursive walk dispatches on exactly the nodes of `Visited`, in that order. */
  lemma {:induction false} WalkIsStepAll(n: Node, s: Scan)
    ensures Walk(n, s) == StepAll(s, Visited(n))
    decreases n
  {
    var rest := if n.kind.ImportFrom? then [] else VisitedAll(n.children);
    assert Visited(n) == [n] + rest;
    assert ([n] + rest)[1..] == rest;
    if !n.kind.ImportFrom? {
      WalkAllIsStepAll(n.children, Step(s, n));
    }
  }

  lemma {:induction false} WalkAllIsStepAll(ns: seq<Node>, s: Scan)
    ensures WalkAll(ns, s) == StepAll(s, VisitedAll(ns))
    decreases ns
  {
    if ns != [] {
      WalkIsStepAll(ns[0], s);
      WalkAllIsStepAll(ns[1..], Walk(ns[0], s));
      StepAllAppend(s, Visited(ns[0]), VisitedAll(ns[1..]));
    }
  }

  /** Each flag ends up set exactly when it was set before or some node
      among `vs` sets it. */
  lemma {:induction false} StepAllFlags(s: Scan, vs: seq<Node>)
    ensures StepAll(s, vs).usesCode <==> s.usesCode || exists v :: v in vs && SetsCode(v)
    ensures StepAll(s, vs).usesStrLiterals <==> s.usesStrLiterals || exists v :: v in vs && v.kind.Str?
    ensures StepAll(s, vs).usesPrint <==> s.usesPrint || exists v :: v in vs && IsPrint(v)
    ensures StepAll(s, vs).usesDivision <==> s.usesDivision || exists v :: v in vs && v.kind.Div?
    ensures StepAll(s, vs).usesImport <==> s.usesImport || exists v :: v in vs && IsPlainImport(v)
    decreases vs
  {
    if vs != [] {
      assert forall v :: v in vs <==> v == vs[0] || v in vs[1..];
      StepAllFlags(Step(s, vs[0]), vs[1..]);
    }
  }

  /** The `__future__` imports among `vs` are appended to the records, in order. */
  lemma {:induction false} StepAllRecords(s: Scan, vs: seq<Node>)
    ensures StepAll(s, vs).futureImports == s.futureImports + FutureRecords(vs)
    decreases vs
  {
    if vs != [] {
      StepAllRecords(Step(s, vs[0]), vs[1..]);
      assert s.futureImports + RecordOf(vs[0]) + FutureRecords(vs[1..])
          == s.futureImports + (RecordOf(vs[0]) + FutureRecords(vs[1..]));
    }
  }

  /** Run a fresh visitor over `tree`. Each flag says whether some node the
      visitor reaches has the matching form; the recorded imports are the
      `__future__` ImportFrom statements it reaches, in discovery order. */
  function ScanTree(tree: Node): (r: Scan)
    ensures r.usesCode <==> exists v :: v in Visited(tree) && SetsCode(v)
    ensures r.usesStrLiterals <==> exists v :: v in Visited(tree) && v.kind.Str?
    ensures r.usesPrint <==> exists v :: v in Visited(tree) && IsPrint(v)
    ensures r.usesDivision <==> exists v :: v in Visited(tree) && v.kind.Div?
    ensures r.usesImport <==> exists v :: v in Visited(tree) && IsPlainImport(v)
    ensures r.futureImports == FutureRecords(Visited(tree))
  {
    WalkIsStepAll(tree, Fresh);
    StepAllFlags(Fresh, Visited(tree));
    StepAllRecords(Fresh, Visited(tree));
    Walk(tree, Fresh)
  }

  /** Flags only ever move from false to true, and imports already
      recorded stay recorded, in place. */
  lemma WalkMonotone(n: Node, s: Scan)
    ensures s.usesCode ==> Walk(n, s).usesCode
    ensures s.usesStrLiterals ==> Walk(n, s).usesStrLiterals
    ensures s.usesPrint ==> Walk(n, s).usesPrint
    ensures s.usesDivision ==> Walk(n, s).usesDivision
    ensures s.usesImport ==> Walk(n, s).usesImport
    ensures s.futureImports <= Walk(n, s).futureImports
  {
    WalkIsStepAll(n, s);
    StepAllFlags(s, Visited(n));
    StepAllRecords(s, Visited(n));
  }

  /** An ImportFrom's handler neither sets the "uses code" flag nor walks
      its children: whatever they are, the walk's result is the same. */
  lemma ImportFromNotDescended(k: Kind, c1: seq<Node>, c2: seq<Node>, s: Scan)
    requires k.ImportFrom?
    ensures Walk(Node(k, c1), s) == Walk(Node(k, c2), s)
    ensures Walk(Node(k, c1), s).usesCode == s.usesCode
    ensures Walk(Node(k, c1), s).usesImport <==> s.usesImport || k.moduleName != FutureModule
  {
  }

  /** A use of print is the print statement or a call whose callee is the
      bare name `print`; any other callee, or the name `print` not being
      called, is not a use. */
  lemma PrintDetection(s: Scan, callee: Node, args: seq<Node>, cs: seq<Node>)
    ensures Step(s, Node(Call, [callee] + args)).usesPrint <==> s.usesPrint || callee.kind == Name("print")
    ensures Step(s, Node(Print, cs)).usesPrint
    ensures Step(s, Node(Name("print"), cs)).usesPrint == s.usesPrint
  {
  }

  /** The file counts as code exactly when the walk reaches a node other
      than the module or an ImportFrom, or reaches a `__future__` import. */
  lemma TreeUsesCode(tree: Node)
    ensures UsesCode(ScanTree(tree))
        <==> exists v :: v in Visited(tree) && (SetsCode(v) || IsFutureImport(v))
  {
    if exists v :: v in Visited(tree) && IsFutureImport(v) {
      var v :| v in Visited(tree) && IsFutureImport(v);
      UsageFlagsSet(tree, v);
    }
  }

  /** A visited node of each usage form sets its flag. */
  lemma UsageFlagsSet(tree: Node, v: Node)
    requires v in Visited(tree)
    ensures v.kind.Str? ==> ScanTree(tree).usesStrLiterals
    ensures IsPrint(v) ==> ScanTree(tree).usesPrint
    ensures v.kind.Div? ==> ScanTree(tree).usesDivision
    ensures v.kind.Import? ==> ScanTree(tree).usesImport
    ensures v.kind.ImportFrom? ==> (ScanTree(tree).usesImport || IsFutureImport(v))
    ensures IsFutureImport(v) ==> UsesCode(ScanTree(tree))
  {
    if IsFutureImport(v) {
      assert |FutureRecords(Visited(tree))| > 0;
    }
  }

  /** A module holding only a docstring counts as code: the expression
      statement wrapping the string is not a module node. */
  lemma DocstringOnlyIsCode(doc: Node)
    requires doc == Node(Module, [Node(Expr, [Node(Str, [])])])
    ensures UsesCode(ScanTree(doc))
    ensures ScanTree(doc).usesStrLiterals
    ensures ScanTree(doc).futureImports == []
  {
    var str := Node(Str, []);
    var stmt := Node(Expr, [str]);
    assert VisitedAll([str]) == [str] by { assert [str][1..] == []; }
    assert VisitedAll([stmt]) == [stmt, str] by { assert [stmt][1..] == []; }
    assert Visited(doc) == [doc, stmt, str];
  }

  /** A module whose only statement imports from an ordinary module does
      not count as code, although it sets the "uses import" flag. */
  lemma PlainImportFromIsNotCode(tree: Node, m: string, names: seq<string>, line: int)
    requires m != FutureModule
    requires tree == Node(Module, [Node(ImportFrom(m, names, line), [])])
    ensures !UsesCode(ScanTree(tree))
    ensures ScanTree(tree).usesImport
  {
    var imp := Node(ImportFrom(m, names, line), []);
    assert Visited(imp) == [imp];
    assert [imp][1..] == [];
    assert VisitedAll([imp]) == [imp];
    assert Visited(tree) == [tree, imp];
    assert imp in Visited(tree);
  }

  /** The visitor's result for a module whose one statement is `a / b`. */
  lemma DivisionOnlyScan(tree: Node)
    requires tree == Node(Module, [Node(Expr, [Node(Other, [Node(Name("a"), []), Node(Div, []), Node(Name("b"), [])])])])
    ensures ScanTree(tree) == Scan([], true, false, true, false, false)
  {
    var a, div, b := Node(Name("a"), []), Node(Div, []), Node(Name("b"), []);
    var expr := Node(Other, [a, div, b]);
    var stmt := Node(Expr, [expr]);
    var s1 := Step(Step(Fresh, tree), stmt);
    assert WalkAll([stmt], Step(Fresh, tree)) == Walk(stmt, Step(Fresh, tree)) by { assert [stmt][1..] == []; }
    assert WalkAll([expr], s1) == Walk(expr, s1) by { assert [expr][1..] == []; }
    var s2 := Step(s1, expr);
    assert s2 == Scan([], true, false, false, false, false);
    assert WalkAll([a, div, b], s2) == WalkAll([div, b], Walk(a, s2)) by { assert [a, div, b][1..] == [div, b]; }
    assert WalkAll([div, b], s2) == WalkAll([b], Walk(div, s2)) by { assert [div, b][1..] == [b]; }
    var s3 := Scan([], true, false, true, false, false);
    assert Walk(div, s2) == s3;
    assert WalkAll([b], s3) == Walk(b, s3) by { assert [b][1..] == []; }
  }

}
