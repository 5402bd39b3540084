/**
 The checker's `run`: from the visitor's result and the two switches
 `requireCode` and `requireUsed`, the ordered diagnostics. First one
 "present" diagnostic per recognised alias, statements in discovery order and
 aliases in written order; then one "missing" diagnostic per catalog entry
 that no statement imported, in catalog order, except those `requireUsed`
 skips as unused.

 The decisions are made on `Notice` values, the arguments `run` hands to
 `GenerateError`; `Report` renders them.
 */
module Checker {
  import opened Wrappers
  import opened Syntax
  import opened Visitor
  import opened Messages

  /** A decision to report catalog entry `directive` at line `lineno`, present or missing. */
  datatype Notice = Notice(directive: Directive, lineno: int, present: bool)

  /** Some statement among `imports` at line `line` writes `name`. */
  predicate ImportedAt(imports: seq<FutureImport>, name: string, line: int)
  {
    exists k :: 0 <= k < |imports| && imports[k].lineno == line && name in imports[k].names
  }

  /** The present notice for one written name: one if the name is in the
      catalog, none otherwise. */
  function NameNotices(name: string, lineno: int): seq<Notice>
  {
    match Lookup(name)
    case Some(d) => [Notice(d, lineno, true)]
    case None => []
  }

  /** The present notices for the names of one statement, in written order. */
  function StatementPresents(names: seq<string>, lineno: int): seq<Notice>
  {
    if names == [] then []
    else NameNotices(names[0], lineno) + StatementPresents(names[1..], lineno)
  }

  /** The present notices of all statements, statement by statement. */
  function Presents(imports: seq<FutureImport>): seq<Notice>
  {
    if imports == [] then []
    else StatementPresents(imports[0].names, imports[0].lineno) + Presents(imports[1..])
  }

  /** The catalog entries some statement imported. */
  function PresentSet(imports: seq<FutureImport>): set<Directive>
  {
    set n | n in Presents(imports) :: n.directive
  }

  /** With `requireUsed`, a missing directive is not reported when the
      behaviour it changes was not seen. */
  predicate SkippedAsUnused(d: Directive, s: Scan, requireUsed: bool)
  {
    && requireUsed
    && match d
       case PrintFunction => !s.usesPrint
       case Division => !s.usesDivision
       case AbsoluteImport => !s.usesImport
       case UnicodeLiterals => !s.usesStrLiterals
       case _ => false
  }

  /** The missing notices for the directives `ds`, in their order. */
  function Missing(ds: seq<Directive>, present: set<Directive>, s: Scan, requireUsed: bool): seq<Notice>
  {
    if ds == [] then []
    else
      (if ds[0] in present || SkippedAsUnused(ds[0], s, requireUsed) then [] else [Notice(ds[0], 1, false)])
      + Missing(ds[1..], present, s, requireUsed)
  }

  /** What `run` decides to report for a visitor result. */
  function Notices(s: Scan, requireCode: bool, requireUsed: bool): seq<Notice>
  {
    if requireCode && !UsesCode(s) then []
    else Presents(s.futureImports) + Missing(Directives, PresentSet(s.futureImports), s, requireUsed)
  }

  /** The diagnostic for one notice. */
  function Render(n: Notice): Diagnostic
  {
    NameIndex(n.directive);
    GenerateError(ImportName(n.directive), n.lineno, n.present)
  }

  /** The diagnostics for `ns`, one each, in order. */
  function RenderAll(ns: seq<Notice>): seq<Diagnostic>
  {
    seq(|ns|, k requires 0 <= k < |ns| => Render(ns[k]))
  }

  /** The diagnostics `run` yields for a visitor result. */
  function Report(s: Scan, requireCode: bool, requireUsed: bool): seq<Diagnostic>
  {
    RenderAll(Notices(s, requireCode, requireUsed))
  }

  /** A diagnostic whose message reports a directive present. */
  predicate IsPresent(d: Diagnostic)
  {
    ParseMessage(d.msg).Some? && ParseMessage(d.msg).value.present
  }

  /** A diagnostic whose message reports a directive missing. */
  predicate IsMissing(d: Diagnostic)
  {
    ParseMessage(d.msg).Some? && !ParseMessage(d.msg).value.present
  }

  /** A notice's diagnostic reads back as its directive's name, its status
      and the code of its catalog index. */
  lemma RenderReadsBack(n: Notice)
    ensures var d := Render(n);
      && d.line == n.lineno && d.col == 0
      && ParseMessage(d.msg) == Some(Parsed(Code(Index(n.directive), n.present), ImportName(n.directive), n.present))
      && (IsPresent(d) <==> n.present)
      && (IsMissing(d) <==> !n.present)
  {
    NameIndex(n.directive);
    GenerateErrorReadsBack(ImportName(n.directive), n.lineno, n.present);
  }

  /** Different notices give different diagnostics. */
  lemma RenderInjective(a: Notice, b: Notice)
    requires Render(a) == Render(b)
    ensures a == b
  {
    NameIndex(a.directive);
    NameIndex(b.directive);
    GenerateErrorInjective(ImportName(a.directive), a.lineno, a.present, ImportName(b.directive), b.lineno, b.present);
  }

  /** Entry `k` of the rendered diagnostics renders notice `k`. */
  lemma RenderAllAt(ns: seq<Notice>, k: nat)
    requires k < |ns|
    ensures RenderAll(ns)[k] == Render(ns[k])
  {
  }

  /** One statement yields a present notice, at its line, for exactly the
      catalog entries whose names it writes. */
  lemma {:induction false} StatementPresentsMembers(names: seq<string>, lineno: int, n: Notice)
    ensures n in StatementPresents(names, lineno) <==> n.present && n.lineno == lineno && ImportName(n.directive) in names
    decreases names
  {
    if names != [] {
      StatementPresentsMembers(names[1..], lineno, n);
      assert ImportName(n.directive) in names <==> ImportName(n.directive) == names[0] || ImportName(n.directive) in names[1..];
    }
  }

  /** One statement yields nothing exactly when it writes no catalog name. */
  lemma {:induction false} StatementPresentsNone(names: seq<string>, lineno: int)
    ensures StatementPresents(names, lineno) == [] <==> forall x :: x in names ==> x !in AvailableImports
    decreases names
  {
    if names != [] {
      StatementPresentsNone(names[1..], lineno);
      assert forall x :: x in names <==> x == names[0] || x in names[1..];
    }
  }

  /** The present notices are the catalog entries written in the statements,
      each with its statement's line. */
  lemma {:induction false} PresentsMembers(imports: seq<FutureImport>, n: Notice)
    ensures n in Presents(imports) <==> n.present && ImportedAt(imports, ImportName(n.directive), n.lineno)
    decreases imports
  {
    if imports != [] {
      PresentsMembers(imports[1..], n);
      StatementPresentsMembers(imports[0].names, imports[0].lineno, n);
      var name := ImportName(n.directive);
      if ImportedAt(imports, name, n.lineno) {
        var k :| 0 <= k < |imports| && imports[k].lineno == n.lineno && name in imports[k].names;
        if k > 0 {
          assert imports[1..][k - 1] == imports[k];
        }
      }
      if ImportedAt(imports[1..], name, n.lineno) {
        var k :| 0 <= k < |imports[1..]| && imports[1..][k].lineno == n.lineno && name in imports[1..][k].names;
        assert imports[k + 1] == imports[1..][k];
      }
    }
  }

  /** Statements contribute their present notices in discovery order: the
      notices of a sequence of statements are those of its parts, joined. */
  lemma {:induction false} PresentsAppend(a: seq<FutureImport>, b: seq<FutureImport>)
    ensures Presents(a + b) == Presents(a) + Presents(b)
    decreases a
  {
    if a == [] {
      assert a + b == b;
    } else {
      var c := a + b;
      assert c[0] == a[0] && c[1..] == a[1..] + b;
      var head := StatementPresents(a[0].names, a[0].lineno);
      var rest, pb := Presents(a[1..]), Presents(b);
      PresentsAppend(a[1..], b);
      calc {
        Presents(c);
        head + Presents(a[1..] + b);
        head + (rest + pb);
        (head + rest) + pb;
      }
    }
  }

  /** Within one statement, names contribute their notices in written
      order: the notices of a list of names are those of its parts, joined. */
  lemma {:induction false} StatementPresentsAppend(a: seq<string>, b: seq<string>, lineno: int)
    ensures StatementPresents(a + b, lineno) == StatementPresents(a, lineno) + StatementPresents(b, lineno)
    decreases a
  {
    if a == [] {
      assert a + b == b;
    } else {
      var c := a + b;
      assert c[0] == a[0] && c[1..] == a[1..] + b;
      var rest, rb := StatementPresents(a[1..], lineno), StatementPresents(b, lineno);
      StatementPresentsAppend(a[1..], b, lineno);
      calc {
        StatementPresents(c, lineno);
        NameNotices(a[0], lineno) + StatementPresents(a[1..] + b, lineno);
        NameNotices(a[0], lineno) + (rest + rb);
        (NameNotices(a[0], lineno) + rest) + rb;
      }
    }
  }

  /** How many of `names` are in the catalog, repeats counted. */
  function KnownCount(names: seq<string>): nat
  {
    if names == [] then 0
    else (if names[0] in AvailableImports then 1 else 0) + KnownCount(names[1..])
  }

  /** How many recognised aliases the statements hold in all. */
  function RecognisedAliases(imports: seq<FutureImport>): nat
  {
    if imports == [] then 0 else KnownCount(imports[0].names) + RecognisedAliases(imports[1..])
  }

  /** There is one present notice per recognised alias, repeats within and
      across statements counted. */
  lemma {:induction false} PresentsCount(imports: seq<FutureImport>)
    ensures |Presents(imports)| == RecognisedAliases(imports)
    decreases imports
  {
    if imports != [] {
      StatementCount(imports[0].names, imports[0].lineno);
      PresentsCount(imports[1..]);
    }
  }

  lemma {:induction false} StatementCount(names: seq<string>, lineno: int)
    ensures |StatementPresents(names, lineno)| == KnownCount(names)
    decreases names
  {
    if names != [] {
      StatementCount(names[1..], lineno);
    }
  }

  /** A catalog entry counts as present exactly when some statement imports
      its name. */
  lemma PresentSetExactly(imports: seq<FutureImport>, d: Directive)
    ensures d in PresentSet(imports) <==> exists k :: 0 <= k < |imports| && ImportName(d) in imports[k].names
  {
    if exists k :: 0 <= k < |imports| && ImportName(d) in imports[k].names {
      var k :| 0 <= k < |imports| && ImportName(d) in imports[k].names;
      PresentsMembers(imports, Notice(d, imports[k].lineno, true));
    }
    if d in PresentSet(imports) {
      var n :| n in Presents(imports) && n.directive == d;
      PresentsMembers(imports, n);
    }
  }

  /** The directives among `ds`. */
  function Elements(ds: seq<Directive>): set<Directive>
  {
    set d | d in ds
  }

  /** The directives of `ds` strictly follow catalog order. */
  predicate Ascending(ds: seq<Directive>)
  {
    forall i, j :: 0 <= i < j < |ds| ==> Index(ds[i]) < Index(ds[j])
  }

  /** The catalog is in catalog order. */
  lemma DirectivesAscending()
    ensures Ascending(Directives)
  {
    forall i, j | 0 <= i < j < |Directives|
      ensures Index(Directives[i]) < Index(Directives[j])
    {
      DirectiveAt(i);
      DirectiveAt(j);
    }
  }

  /** Every directive is in the catalog. */
  lemma InCatalog(d: Directive)
    ensures d in Directives
  {
    assert Directives[Index(d)] == d;
  }

  /** The tail of an ascending sequence is ascending, and every directive in
      it comes after the head. */
  lemma AscendingTail(ds: seq<Directive>)
    requires Ascending(ds) && ds != []
    ensures Ascending(ds[1..])
    ensures forall d :: d in ds[1..] ==> Index(ds[0]) < Index(d)
  {
    forall d | d in ds[1..] ensures Index(ds[0]) < Index(d) {
      var j :| 0 <= j < |ds[1..]| && ds[1..][j] == d;
      assert ds[j + 1] == d;
    }
  }

  /** The missing notices for `ds` are exactly those, at line 1, of the
      directives among `ds` that are neither present nor skipped as unused. */
  lemma {:induction false} MissingMembers(ds: seq<Directive>, present: set<Directive>, s: Scan, requireUsed: bool, n: Notice)
    ensures n in Missing(ds, present, s, requireUsed)
        <==> && n.directive in ds
             && n == Notice(n.directive, 1, false)
             && n.directive !in present && !SkippedAsUnused(n.directive, s, requireUsed)
    decreases ds
  {
    if ds != [] {
      MissingMembers(ds[1..], present, s, requireUsed, n);
      assert n.directive in ds <==> n.directive == ds[0] || n.directive in ds[1..];
    }
  }

  /** The directives of `ns` strictly follow catalog order. */
  predicate InCatalogOrder(ns: seq<Notice>)
  {
    forall i, j :: 0 <= i < j < |ns| ==> Index(ns[i].directive) < Index(ns[j].directive)
  }

  /** A notice placed before notices of later catalog entries keeps the order. */
  lemma ConsInCatalogOrder(n: Notice, rest: seq<Notice>)
    requires InCatalogOrder(rest)
    requires forall m :: m in rest ==> Index(n.directive) < Index(m.directive)
    ensures InCatalogOrder([n] + rest)
  {
    var ns := [n] + rest;
    forall i, j | 0 <= i < j < |ns|
      ensures Index(ns[i].directive) < Index(ns[j].directive)
    {
      assert ns[j] == rest[j - 1] && rest[j - 1] in rest;
      if i > 0 {
        assert ns[i] == rest[i - 1];
      }
    }
  }

  /** The missing notices for directives in catalog order follow catalog
      order too, without repeats. */
  lemma {:induction false} MissingOrdered(ds: seq<Directive>, present: set<Directive>, s: Scan, requireUsed: bool)
    requires Ascending(ds)
    ensures InCatalogOrder(Missing(ds, present, s, requireUsed))
    decreases ds
  {
    if ds != [] {
      AscendingTail(ds);
      MissingOrdered(ds[1..], present, s, requireUsed);
      var rest := Missing(ds[1..], present, s, requireUsed);
      if ds[0] in present || SkippedAsUnused(ds[0], s, requireUsed) {
        assert Missing(ds, present, s, requireUsed) == rest;
      } else {
        assert Missing(ds, present, s, requireUsed) == [Notice(ds[0], 1, false)] + rest;
        forall m | m in rest ensures Index(ds[0]) < Index(m.directive) {
          MissingMembers(ds[1..], present, s, requireUsed, m);
        }
        ConsInCatalogOrder(Notice(ds[0], 1, false), rest);
      }
    }
  }

  /** The directives of a non-empty sequence are its head and those of its tail. */
  lemma ElementsCons(ds: seq<Directive>)
    requires ds != []
    ensures Elements(ds) == {ds[0]} + Elements(ds[1..])
  {
    assert forall d :: d in ds <==> d == ds[0] || d in ds[1..];
  }

  /** Adding a new element `d` to `later` adds one to its overlap with
      `present` when `d` is present, and nothing otherwise. */
  lemma OverlapStep(present: set<Directive>, d: Directive, later: set<Directive>)
    requires d !in later
    ensures d in present ==> |present * ({d} + later)| == |present * later| + 1
    ensures d !in present ==> |present * ({d} + later)| == |present * later|
  {
    if d in present {
      assert present * ({d} + later) == {d} + present * later;
    } else {
      assert present * ({d} + later) == present * later;
    }
  }

  /** `ds` lists no directive twice. */
  predicate Distinct(ds: seq<Directive>)
  {
    forall i, j :: 0 <= i < j < |ds| ==> ds[i] != ds[j]
  }

  /** The tail of a list without repeats has none, and lacks the head. */
  lemma DistinctTail(ds: seq<Directive>)
    requires Distinct(ds) && ds != []
    ensures Distinct(ds[1..]) && ds[0] !in ds[1..]
  {
    forall j | 0 <= j < |ds[1..]| ensures ds[1..][j] != ds[0] {
      assert ds[1..][j] == ds[j + 1];
    }
  }

  /** Without `requireUsed`, the missing notices for distinct directives
      `ds` and the present directives among them number one per directive. */
  lemma {:induction false} MissingCount(ds: seq<Directive>, present: set<Directive>, s: Scan)
    requires Distinct(ds)
    ensures |Missing(ds, present, s, false)| + |present * Elements(ds)| == |ds|
    decreases ds
  {
    if ds == [] {
      assert Elements(ds) == {};
    } else {
      DistinctTail(ds);
      MissingCount(ds[1..], present, s);
      ElementsCons(ds);
      OverlapStep(present, ds[0], Elements(ds[1..]));
    }
  }

  /** A notice's diagnostic is among those rendered from `ns` exactly when
      the notice is among `ns`: rendering loses nothing. */
  lemma RenderMembers(ns: seq<Notice>, n: Notice)
    ensures Render(n) in RenderAll(ns) <==> n in ns
  {
    var r := RenderAll(ns);
    if Render(n) in r {
      var k :| 0 <= k < |r| && r[k] == Render(n);
      RenderAllAt(ns, k);
      RenderInjective(n, ns[k]);
    }
    if n in ns {
      var k :| 0 <= k < |ns| && ns[k] == n;
      RenderAllAt(ns, k);
    }
  }

  /** Every diagnostic is the rendering of one of the notices. */
  lemma RenderedFrom(ns: seq<Notice>, d: Diagnostic)
    ensures d in RenderAll(ns) <==> exists n :: n in ns && d == Render(n)
  {
    var r := RenderAll(ns);
    if d in r {
      var k :| 0 <= k < |r| && r[k] == d;
      RenderAllAt(ns, k);
      assert ns[k] in ns;
    }
    if exists n :: n in ns && d == Render(n) {
      var n :| n in ns && d == Render(n);
      RenderMembers(ns, n);
    }
  }

  /** `run` decides on exactly these notices, unless the file is skipped:
      each catalog entry a statement imports, present at that statement's
      line, and each entry no statement imports and `requireUsed` does not
      skip, missing at line 1. */
  lemma NoticesMembers(s: Scan, requireCode: bool, requireUsed: bool, n: Notice)
    ensures n in Notices(s, requireCode, requireUsed)
        <==> && !(requireCode && !UsesCode(s))
             && (|| (n.present && ImportedAt(s.futureImports, ImportName(n.directive), n.lineno))
                 || (&& n == Notice(n.directive, 1, false)
                     && n.directive !in PresentSet(s.futureImports)
                     && !SkippedAsUnused(n.directive, s, requireUsed)))
  {
    PresentsMembers(s.futureImports, n);
    InCatalog(n.directive);
    MissingMembers(Directives, PresentSet(s.futureImports), s, requireUsed, n);
  }

  /** Every diagnostic names a catalog directive, at column 0, with code
      50 + index when present and 10 + index when missing, so every code
      lies in 10..15 or 50..55. A present diagnostic sits at the line of a
      statement that imports its name; a missing one at line 1, for a name
      no statement imports. */
  lemma ReportCodes(s: Scan, requireCode: bool, requireUsed: bool, d: Diagnostic)
    ensures d in Report(s, requireCode, requireUsed) ==>
      && d.col == 0 && ParseMessage(d.msg).Some?
      && var p := ParseMessage(d.msg).value;
      && p.name in AvailableImports
      && p.code == Code(IndexOf(p.name), p.present)
      && (10 <= p.code <= 15 || 50 <= p.code <= 55)
      && (p.present ==> ImportedAt(s.futureImports, p.name, d.line))
      && (!p.present ==> d.line == 1)
      && (!p.present ==> forall k :: 0 <= k < |s.futureImports| ==> p.name !in s.futureImports[k].names)
  {
    var ns := Notices(s, requireCode, requireUsed);
    RenderedFrom(ns, d);
    if d in RenderAll(ns) {
      var n :| n in ns && d == Render(n);
      RenderReadsBack(n);
      NameIndex(n.directive);
      NoticesMembers(s, requireCode, requireUsed, n);
      PresentSetExactly(s.futureImports, n.directive);
    }
  }

  /** Unless the file is skipped, the notices are the present ones followed
      by the missing ones. */
  lemma NoticesSplit(s: Scan, requireCode: bool, requireUsed: bool)
    requires !(requireCode && !UsesCode(s))
    ensures Notices(s, requireCode, requireUsed)
         == Presents(s.futureImports) + Missing(Directives, PresentSet(s.futureImports), s, requireUsed)
  {
  }

  /** Entry `k` of the report renders notice `k`; its message reads back
      as that notice's name, status and code. */
  lemma ReportEntry(s: Scan, requireCode: bool, requireUsed: bool, k: nat)
    requires k < |Notices(s, requireCode, requireUsed)|
    ensures var ns := Notices(s, requireCode, requireUsed);
      var d := Report(s, requireCode, requireUsed)[k];
      && |ns| == |Report(s, requireCode, requireUsed)|
      && d == Render(ns[k])
      && ParseMessage(d.msg) == Some(Parsed(Code(Index(ns[k].directive), ns[k].present), ImportName(ns[k].directive), ns[k].present))
      && (IsMissing(d) <==> !ns[k].present)
      && (IsPresent(d) <==> ns[k].present)
  {
    var ns := Notices(s, requireCode, requireUsed);
    RenderAllAt(ns, k);
    RenderReadsBack(ns[k]);
  }

  /** In `ns`, every notice after a missing one is missing too, with a
      later catalog index. */
  predicate MissingLast(ns: seq<Notice>)
  {
    forall i, j :: 0 <= i < j < |ns| && !ns[i].present ==>
      !ns[j].present && Index(ns[i].directive) < Index(ns[j].directive)
  }

  /** Present notices followed by missing ones in catalog order keep the
      missing ones last. */
  lemma ConcatMissingLast(p: seq<Notice>, m: seq<Notice>)
    requires forall n :: n in p ==> n.present
    requires forall n :: n in m ==> !n.present
    requires InCatalogOrder(m)
    ensures MissingLast(p + m)
  {
    var ns := p + m;
    forall i, j | 0 <= i < j < |ns| && !ns[i].present
      ensures !ns[j].present && Index(ns[i].directive) < Index(ns[j].directive)
    {
      if i >= |p| {
        var a, b := i - |p|, j - |p|;
        assert ns[i] == m[a] && ns[j] == m[b] && m[b] in m;
      }
    }
  }

  /** All present notices come before all missing ones, and the missing
      ones follow catalog order, each directive once. */
  lemma NoticesOrdered(s: Scan, requireCode: bool, requireUsed: bool)
    ensures MissingLast(Notices(s, requireCode, requireUsed))
  {
    if !(requireCode && !UsesCode(s)) {
      var ps := Presents(s.futureImports);
      var ms := Missing(Directives, PresentSet(s.futureImports), s, requireUsed);
      DirectivesAscending();
      MissingOrdered(Directives, PresentSet(s.futureImports), s, requireUsed);
      forall n | n in ps ensures n.present {
        PresentsMembers(s.futureImports, n);
      }
      forall n | n in ms ensures !n.present {
        MissingMembers(Directives, PresentSet(s.futureImports), s, requireUsed, n);
      }
      NoticesSplit(s, requireCode, requireUsed);
      ConcatMissingLast(ps, ms);
    }
  }

  /** Every diagnostic reads back as present or missing; all present ones
      come before all missing ones, and the missing ones follow catalog
      order, so their codes strictly increase. */
  lemma ReportOrdered(s: Scan, requireCode: bool, requireUsed: bool)
    ensures var r := Report(s, requireCode, requireUsed);
      && (forall d :: d in r ==> IsPresent(d) || IsMissing(d))
      && (forall i, j :: 0 <= i < j < |r| && IsMissing(r[i]) ==>
            IsMissing(r[j]) && ParseMessage(r[i].msg).value.code < ParseMessage(r[j].msg).value.code)
  {
    var r := Report(s, requireCode, requireUsed);
    forall d | d in r
      ensures IsPresent(d) || IsMissing(d)
    {
      var k :| 0 <= k < |r| && r[k] == d;
      ReportEntry(s, requireCode, requireUsed, k);
    }
    NoticesOrdered(s, requireCode, requireUsed);
    forall i, j | 0 <= i < j < |r| && IsMissing(r[i])
      ensures IsMissing(r[j]) && ParseMessage(r[i].msg).value.code < ParseMessage(r[j].msg).value.code
    {
      ReportEntry(s, requireCode, requireUsed, i);
      ReportEntry(s, requireCode, requireUsed, j);
    }
  }

  /** Unless the file is skipped, the report is the present diagnostics,
      one per recognised alias in the order of `Presents` (statements in
      discovery order, names in written order, repeats across statements
      kept), followed by the missing diagnostics. */
  lemma ReportPresentPart(s: Scan, requireCode: bool, requireUsed: bool)
    requires !(requireCode && !UsesCode(s))
    ensures var p := RenderAll(Presents(s.futureImports));
      var m := RenderAll(Missing(Directives, PresentSet(s.futureImports), s, requireUsed));
      && Report(s, requireCode, requireUsed) == p + m
      && (forall d :: d in p ==> IsPresent(d))
      && (forall d :: d in m ==> IsMissing(d))
  {
    var ps := Presents(s.futureImports);
    var ms := Missing(Directives, PresentSet(s.futureImports), s, requireUsed);
    NoticesSplit(s, requireCode, requireUsed);
    RenderAllAppend(ps, ms);
    forall d | d in RenderAll(ps) ensures IsPresent(d) {
      RenderedFrom(ps, d);
      var n :| n in ps && d == Render(n);
      PresentsMembers(s.futureImports, n);
      RenderReadsBack(n);
    }
    forall d | d in RenderAll(ms) ensures IsMissing(d) {
      RenderedFrom(ms, d);
      var n :| n in ms && d == Render(n);
      MissingMembers(Directives, PresentSet(s.futureImports), s, requireUsed, n);
      RenderReadsBack(n);
    }
  }

  /** Rendering keeps order: the diagnostics of joined notices are the
      diagnostics of the parts, joined. */
  lemma RenderAllAppend(a: seq<Notice>, b: seq<Notice>)
    ensures RenderAll(a + b) == RenderAll(a) + RenderAll(b)
  {
    var r, q := RenderAll(a + b), RenderAll(a) + RenderAll(b);
    assert |r| == |q|;
    forall k | 0 <= k < |r| ensures r[k] == q[k] {
      if k < |a| {
        assert (a + b)[k] == a[k];
      } else {
        assert (a + b)[k] == b[k - |a|];
      }
    }
  }

  /** A catalog directive gets a missing diagnostic exactly when the file is
      not skipped, no statement imported it, and `requireUsed` does not
      skip it as unused. */
  lemma MissingExactly(s: Scan, requireCode: bool, requireUsed: bool, d: Directive)
    ensures Render(Notice(d, 1, false)) in Report(s, requireCode, requireUsed)
        <==> && !(requireCode && !UsesCode(s))
             && d !in PresentSet(s.futureImports)
             && !SkippedAsUnused(d, s, requireUsed)
  {
    var n := Notice(d, 1, false);
    RenderMembers(Notices(s, requireCode, requireUsed), n);
    PresentsMembers(s.futureImports, n);
    InCatalog(d);
    MissingMembers(Directives, PresentSet(s.futureImports), s, requireUsed, n);
  }

  /** Without `requireUsed`, a file that is not skipped gets one present
      notice per recognised alias and then 6 minus the number of distinct
      directives imported missing ones. */
  lemma NoticesCount(s: Scan, requireCode: bool)
    requires !(requireCode && !UsesCode(s))
    ensures |Notices(s, requireCode, false)|
         == |Presents(s.futureImports)| + |Directives| - |PresentSet(s.futureImports)|
  {
    var present := PresentSet(s.futureImports);
    DirectivesAscending();
    assert Distinct(Directives);
    MissingCount(Directives, present, s);
    assert present <= Elements(Directives) by {
      forall d | d in present ensures d in Elements(Directives) {
        InCatalog(d);
      }
    }
    assert present * Elements(Directives) == present;
  }

  /** The same count for the diagnostics. */
  lemma ReportCount(s: Scan, requireCode: bool)
    requires !(requireCode && !UsesCode(s))
    ensures |Report(s, requireCode, false)|
         == |Presents(s.futureImports)| + |Directives| - |PresentSet(s.futureImports)|
  {
    NoticesCount(s, requireCode);
  }

  /** `requireUsed` removes exactly the missing notices of directives it
      skips as unused. */
  lemma NoticesRequireUsed(s: Scan, requireCode: bool, n: Notice)
    ensures n in Notices(s, requireCode, true)
        <==> n in Notices(s, requireCode, false) && !(!n.present && SkippedAsUnused(n.directive, s, true))
  {
    PresentsMembers(s.futureImports, n);
    MissingMembers(Directives, PresentSet(s.futureImports), s, true, n);
    MissingMembers(Directives, PresentSet(s.futureImports), s, false, n);
  }

  /** `requireUsed` removes exactly the missing diagnostics of directives
      it skips as unused, and only print_function, division,
      absolute_import and unicode_literals can be skipped: present
      diagnostics, and missing with_statement and generator_stop, stay.
      (Every diagnostic of a report renders some notice, by `RenderedFrom`.) */
  lemma RequireUsedRemovesOnlyUnused(s: Scan, requireCode: bool, n: Notice)
    ensures Render(n) in Report(s, requireCode, true) <==>
        Render(n) in Report(s, requireCode, false) && !(!n.present && SkippedAsUnused(n.directive, s, true))
    ensures SkippedAsUnused(n.directive, s, true) ==>
      ImportName(n.directive) in {"print_function", "division", "absolute_import", "unicode_literals"}
  {
    RenderMembers(Notices(s, requireCode, true), n);
    RenderMembers(Notices(s, requireCode, false), n);
    NoticesRequireUsed(s, requireCode, n);
  }

  /** The report is empty exactly when `requireCode` is on and the file
      does not count as code; otherwise with_statement is reported either
      present or missing. */
  lemma ReportEmptyIff(s: Scan, requireCode: bool, requireUsed: bool)
    ensures |Report(s, requireCode, requireUsed)| == 0 <==> requireCode && !UsesCode(s)
  {
    if !(requireCode && !UsesCode(s)) {
      WithStatementNoticed(s, requireCode, requireUsed);
    }
  }

  /** In a file that is not skipped, with_statement gets a notice, present
      when some statement imported it and missing otherwise. */
  lemma WithStatementNoticed(s: Scan, requireCode: bool, requireUsed: bool)
    requires !(requireCode && !UsesCode(s))
    ensures exists n :: n in Notices(s, requireCode, requireUsed) && n.directive == WithStatement
  {
    var present := PresentSet(s.futureImports);
    NoticesSplit(s, requireCode, requireUsed);
    if WithStatement in present {
      var n :| n in Presents(s.futureImports) && n.directive == WithStatement;
      assert n in Notices(s, requireCode, requireUsed);
    } else {
      var n := Notice(WithStatement, 1, false);
      InCatalog(WithStatement);
      MissingMembers(Directives, present, s, requireUsed, n);
      assert n in Notices(s, requireCode, requireUsed);
    }
  }

  /** A statement importing only names outside the catalog, inserted
      anywhere among the others (between `before` and `after`), changes
      nothing in a report that would not be skipped anyway. */
  lemma UnknownNamesIgnored(s: Scan, before: seq<FutureImport>, after: seq<FutureImport>,
                            names: seq<string>, line: int, requireCode: bool, requireUsed: bool)
    requires s.futureImports == before + after
    requires forall n :: n in names ==> n !in AvailableImports
    requires !requireCode || UsesCode(s)
    ensures Report(s.(futureImports := before + [FutureImport(names, line)] + after), requireCode, requireUsed)
         == Report(s, requireCode, requireUsed)
  {
    var s' := s.(futureImports := before + [FutureImport(names, line)] + after);
    SilentStatement(names, line);
    PresentsDropSilent(before, [FutureImport(names, line)], after);
    assert Presents(s'.futureImports) == Presents(s.futureImports);
    assert PresentSet(s'.futureImports) == PresentSet(s.futureImports);
    MissingReadsFlagsOnly(Directives, PresentSet(s.futureImports), s', s, requireUsed);
    assert Notices(s', requireCode, requireUsed) == Notices(s, requireCode, requireUsed);
  }

  /** Statements that yield no present notice can be dropped from anywhere
      without changing the present notices. */
  lemma PresentsDropSilent(before: seq<FutureImport>, extra: seq<FutureImport>, after: seq<FutureImport>)
    requires Presents(extra) == []
    ensures Presents(before + extra + after) == Presents(before + after)
  {
    PresentsAppend(before + extra, after);
    PresentsAppend(before, extra);
    PresentsAppend(before, after);
    assert Presents(before) + Presents(extra) == Presents(before);
  }

  /** A statement of names outside the catalog yields no present notice. */
  lemma SilentStatement(names: seq<string>, line: int)
    requires forall n :: n in names ==> n !in AvailableImports
    ensures Presents([FutureImport(names, line)]) == []
  {
    var extra := [FutureImport(names, line)];
    StatementPresentsNone(names, line);
    assert extra[1..] == [];
    assert Presents(extra) == StatementPresents(names, line) + Presents([]);
  }

  /** The missing notices depend on the visitor's flags, not on its records. */
  lemma {:induction false} MissingReadsFlagsOnly(ds: seq<Directive>, present: set<Directive>, s1: Scan, s2: Scan, requireUsed: bool)
    requires s1.(futureImports := s2.futureImports) == s2
    ensures Missing(ds, present, s1, requireUsed) == Missing(ds, present, s2, requireUsed)
    decreases ds
  {
    if ds != [] {
      MissingReadsFlagsOnly(ds[1..], present, s1, s2, requireUsed);
    }
  }

  /** `run` on a tree. It yields nothing exactly when `requireCode` is on,
      no node but the module (or an ImportFrom) was reached, and no
      `__future__` import was reached. */
  function Run(tree: Node, requireCode: bool, requireUsed: bool): (r: seq<Diagnostic>)
    ensures |r| == 0 <==>
      && requireCode
      && !(exists v :: v in Visited(tree) && SetsCode(v))
      && !(exists v :: v in Visited(tree) && IsFutureImport(v))
  {
    var s := ScanTree(tree);
    ReportEmptyIff(s, requireCode, requireUsed);
    Report(s, requireCode, requireUsed)
  }

  /** A catalog name imported by a reached `__future__` statement is reported
      present at that statement's line, whatever the switches, and is never
      reported missing. */
  lemma FutureImportReported(tree: Node, v: Node, name: string, requireCode: bool, requireUsed: bool)
    requires v in Visited(tree) && IsFutureImport(v)
    requires name in v.kind.names && name in AvailableImports
    ensures GenerateError(name, v.kind.lineno, true) in Run(tree, requireCode, requireUsed)
    ensures GenerateError(name, 1, false) !in Run(tree, requireCode, requireUsed)
  {
    var s := ScanTree(tree);
    var d := Lookup(name).value;
    var rec := FutureImport(v.kind.names, v.kind.lineno);
    FutureRecordsMembers(Visited(tree), v);
    var k :| 0 <= k < |s.futureImports| && s.futureImports[k] == rec;
    var n := Notice(d, v.kind.lineno, true);
    PresentsMembers(s.futureImports, n);
    NoticesSplit(s, requireCode, requireUsed);
    RenderMembers(Notices(s, requireCode, requireUsed), n);
    PresentSetExactly(s.futureImports, d);
    MissingExactly(s, requireCode, requireUsed, d);
  }

  /** With none of `ds` present and `requireUsed` off, every one of `ds` is
      missing, in order. */
  lemma {:induction false} AllMissing(ds: seq<Directive>, present: set<Directive>, s: Scan)
    requires forall d :: d in ds ==> d !in present
    ensures var m := Missing(ds, present, s, false);
      && |m| == |ds|
      && forall k :: 0 <= k < |m| ==> m[k] == Notice(ds[k], 1, false)
    decreases ds
  {
    if ds != [] {
      AllMissing(ds[1..], present, s);
      var m := Missing(ds, present, s, false);
      var rest := Missing(ds[1..], present, s, false);
      assert m == [Notice(ds[0], 1, false)] + rest;
      forall k | 0 < k < |m|
        ensures m[k] == Notice(ds[k], 1, false)
      {
        assert m[k] == rest[k - 1];
      }
    }
  }

  /** With no `__future__` import, a file that is not skipped gets only
      missing notices, nothing counting as present. */
  lemma NothingPresent(s: Scan, requireCode: bool, requireUsed: bool)
    requires s.futureImports == []
    requires !requireCode || s.usesCode
    ensures Notices(s, requireCode, requireUsed) == Missing(Directives, {}, s, requireUsed)
  {
    assert Presents(s.futureImports) == [];
    assert PresentSet(s.futureImports) == {};
  }

  /** With no `__future__` import and `requireUsed` off, a file that is
      not skipped gets one missing notice per catalog entry, in catalog
      order. */
  lemma NothingImportedNotices(s: Scan, requireCode: bool)
    requires s.futureImports == []
    requires !requireCode || s.usesCode
    ensures var ns := Notices(s, requireCode, false);
      && |ns| == |Directives|
      && forall i :: 0 <= i < |ns| ==> ns[i] == Notice(Directives[i], 1, false)
  {
    NothingPresent(s, requireCode, false);
    AllMissing(Directives, {}, s);
  }

  /** With no `__future__` import and `requireUsed` off, a report that is
      not skipped is the six missing diagnostics FI10 to FI15, in catalog
      order, at line 1. */
  lemma NothingImportedReport(s: Scan, requireCode: bool)
    requires s.futureImports == []
    requires !requireCode || s.usesCode
    ensures var r := Report(s, requireCode, false);
      && |r| == |Directives|
      && forall i :: 0 <= i < |r| ==> r[i] == Render(Notice(Directives[i], 1, false))
  {
    NothingImportedNotices(s, requireCode);
    var ns := Notices(s, requireCode, false);
    forall i | 0 <= i < |ns| ensures RenderAll(ns)[i] == Render(Notice(Directives[i], 1, false)) {
      RenderAllAt(ns, i);
    }
  }

  /** A module with no statements gets the six missing diagnostics when
      neither switch is on. */
  lemma EmptyModuleReport()
    ensures var r := Run(Node(Module, []), false, false);
      && |r| == |Directives|
      && forall i :: 0 <= i < |r| ==> r[i] == Render(Notice(Directives[i], 1, false))
  {
    var tree := Node(Module, []);
    assert Visited(tree) == [tree];
    NothingImportedReport(ScanTree(tree), false);
  }

  /** With `requireUsed`, a module whose one statement is `a / b` is told
      only that division, with_statement and generator_stop are missing. */
  lemma DivisionOnlyReport(tree: Node)
    requires tree == Node(Module, [Node(Expr, [Node(Other, [Node(Name("a"), []), Node(Div, []), Node(Name("b"), [])])])])
    ensures Run(tree, false, true)
         == [Render(Notice(Division, 1, false)), Render(Notice(WithStatement, 1, false)), Render(Notice(GeneratorStop, 1, false))]
  {
    DivisionOnlyScan(tree);
    var s := Scan([], true, false, true, false, false);
    assert Presents(s.futureImports) == [];
    assert PresentSet(s.futureImports) == {};
    DivisionOnlyMissing();
    NoticesSplit(s, false, true);
    var ns := [Notice(Division, 1, false), Notice(WithStatement, 1, false), Notice(GeneratorStop, 1, false)];
    assert Notices(s, false, true) == ns;
    assert Run(tree, false, true) == RenderAll(ns);
    RenderAllThree(ns[0], ns[1], ns[2]);
  }

  lemma RenderAllThree(a: Notice, b: Notice, c: Notice)
    ensures RenderAll([a, b, c]) == [Render(a), Render(b), Render(c)]
  {
    assert [a, b, c] == [a] + [b] + [c];
    RenderAllAppend([a] + [b], [c]);
    RenderAllAppend([a], [b]);
    RenderAllOne(a);
    RenderAllOne(b);
    RenderAllOne(c);
  }

  /** One notice renders to one diagnostic. */
  lemma RenderAllOne(n: Notice)
    ensures RenderAll([n]) == [Render(n)]
  {
    RenderAllAt([n], 0);
  }

  /** Only division, with_statement and generator_stop are missing when
      nothing is imported, `requireUsed` is on, and division is the only
      behaviour seen. */
  lemma DivisionOnlyMissing()
    ensures Missing(Directives, {}, Scan([], true, false, true, false, false), true)
         == [Notice(Division, 1, false), Notice(WithStatement, 1, false), Notice(GeneratorStop, 1, false)]
  {
  }

  /** `requireCode` does not silence a module holding only a docstring: all
      six directives are reported missing. */
  lemma DocstringOnlyReported(doc: Node)
    requires doc == Node(Module, [Node(Expr, [Node(Str, [])])])
    ensures var r := Run(doc, true, false);
      && |r| == |Directives|
      && forall i :: 0 <= i < |r| ==> r[i] == Render(Notice(Directives[i], 1, false))
  {
    DocstringOnlyIsCode(doc);
    NothingImportedReport(ScanTree(doc), true);
  }

  /** `requireCode` silences a module whose only statement imports from an
      ordinary module, though that statement is code. */
  lemma PlainImportFromSilenced(tree: Node, m: string, names: seq<string>, line: int, requireUsed: bool)
    requires m != FutureModule
    requires tree == Node(Module, [Node(ImportFrom(m, names, line), [])])
    ensures Run(tree, true, requireUsed) == []
  {
    PlainImportFromIsNotCode(tree, m, names, line);
  }

  /** The visitor's result as `--require-code` describes the flag: a file
      counts as code through any reached node that is more than a
      (doc)string, ImportFrom statements included, or a `__future__` import. */
  function IntendedScan(tree: Node): (s: Scan)
    ensures UsesCode(s)
        <==> HasIntendedCode(Visited(tree)) || exists v :: v in Visited(tree) && IsFutureImport(v)
    ensures s.futureImports == ScanTree(tree).futureImports
  {
    ScanTree(tree).(usesCode := HasIntendedCode(Visited(tree)))
  }

  /** `run` with the intended "uses code" flag. */
  function RunIntended(tree: Node, requireCode: bool, requireUsed: bool): (r: seq<Diagnostic>)
    ensures |r| == 0 <==>
      && requireCode
      && !HasIntendedCode(Visited(tree))
      && !(exists v :: v in Visited(tree) && IsFutureImport(v))
  {
    var s := IntendedScan(tree);
    ReportEmptyIff(s, requireCode, requireUsed);
    Report(s, requireCode, requireUsed)
  }

  /** The missing notices do not read the "uses code" flag. */
  lemma {:induction false} MissingIgnoresCode(ds: seq<Directive>, present: set<Directive>, s: Scan, requireUsed: bool, b: bool)
    ensures Missing(ds, present, s.(usesCode := b), requireUsed) == Missing(ds, present, s, requireUsed)
    decreases ds
  {
    if ds != [] {
      MissingIgnoresCode(ds[1..], present, s, requireUsed, b);
    }
  }

  /** The intended variant differs only in which files `requireCode`
      silences: with the switch off, or for a file both variants judge
      alike, it yields what `run` yields. */
  lemma RunIntendedAgrees(tree: Node, requireCode: bool, requireUsed: bool)
    requires !requireCode || UsesCode(IntendedScan(tree)) == UsesCode(ScanTree(tree))
    ensures RunIntended(tree, requireCode, requireUsed) == Run(tree, requireCode, requireUsed)
  {
    var s, s' := ScanTree(tree), IntendedScan(tree);
    assert s' == s.(usesCode := s'.usesCode);
    MissingIgnoresCode(Directives, PresentSet(s.futureImports), s, requireUsed, s'.usesCode);
    assert Notices(s', requireCode, requireUsed) == Notices(s, requireCode, requireUsed);
  }

  /** With the intended flag, `requireCode` silences every file whose
      reached nodes are only the module, string literals and statements
      holding only a string. */
  lemma StringsOnlySilenced(tree: Node, requireUsed: bool)
    requires forall v :: v in Visited(tree) ==> v.kind.Module? || v.kind.Str? || IsStringStatement(v)
    ensures RunIntended(tree, true, requireUsed) == []
  {
  }

  /** A module whose only statement imports from an ordinary module, which
      `run` as written silences (`PlainImportFromSilenced`), is checked. */
  lemma PlainImportFromChecked(tree: Node, m: string, names: seq<string>, line: int, requireUsed: bool)
    requires tree == Node(Module, [Node(ImportFrom(m, names, line), [])])
    ensures |RunIntended(tree, true, requireUsed)| > 0
  {
    var imp := Node(ImportFrom(m, names, line), []);
    assert Visited(imp) == [imp];
    assert VisitedAll([imp]) == [imp] by { assert [imp][1..] == []; }
    assert Visited(tree) == [tree, imp];
    assert imp in Visited(tree) && SetsCodeIntended(imp);
  }

  /** In particular the docstring-only module, which `run` as written
      reports in full (`DocstringOnlyReported`), is silenced. */
  lemma DocstringOnlySilenced(doc: Node, requireUsed: bool)
    requires doc == Node(Module, [Node(Expr, [Node(Str, [])])])
    ensures RunIntended(doc, true, requireUsed) == []
  {
    var str := Node(Str, []);
    var stmt := Node(Expr, [str]);
    assert VisitedAll([str]) == [str] by { assert [str][1..] == []; }
    assert VisitedAll([stmt]) == [stmt, str] by { assert [stmt][1..] == []; }
    assert Visited(doc) == [doc, stmt, str];
    StringsOnlySilenced(doc, requireUsed);
  }
}
