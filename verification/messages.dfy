/**
 The catalog of `__future__` names, the error codes derived from it, and the
 text of a diagnostic. `ParseMessage` reads a message back; it is the
 inverse of `GenerateError` on the message text.
 */
module Messages {
  import opened Wrappers

  /** The catalog. Its order defines the codes: missing is 10 + index,
      present is 50 + index. */
  const AvailableImports: seq<string> :=
    ["division", "absolute_import", "with_statement",
     "print_function", "unicode_literals", "generator_stop"]

  /** The catalog entries, in catalog order. */
  datatype Directive =
    | Division
    | AbsoluteImport
    | WithStatement
    | PrintFunction
    | UnicodeLiterals
    | GeneratorStop

  const Directives: seq<Directive> :=
    [Division, AbsoluteImport, WithStatement, PrintFunction, UnicodeLiterals, GeneratorStop]

  /** The name a directive is imported by. */
  function ImportName(d: Directive): string
  {
    match d
    case Division => "division"
    case AbsoluteImport => "absolute_import"
    case WithStatement => "with_statement"
    case PrintFunction => "print_function"
    case UnicodeLiterals => "unicode_literals"
    case GeneratorStop => "generator_stop"
  }

  /** A directive's position in the catalog, where its name sits. */
  function Index(d: Directive): (i: nat)
    ensures i < |Directives| && Directives[i] == d
    ensures i < |AvailableImports| && AvailableImports[i] == ImportName(d)
  {
    match d
    case Division => 0
    case AbsoluteImport => 1
    case WithStatement => 2
    case PrintFunction => 3
    case UnicodeLiterals => 4
    case GeneratorStop => 5
  }

  /** Entry `i` of `Directives` has index `i`: the two orders agree. */
  lemma DirectiveAt(i: nat)
    requires i < |Directives|
    ensures Index(Directives[i]) == i && ImportName(Directives[i]) == AvailableImports[i]
  {
    if i == 0 {} else if i == 1 {} else if i == 2 {} else if i == 3 {} else if i == 4 {} else {}
  }

  /** One diagnostic: line, column and message. */
  datatype Diagnostic = Diagnostic(line: int, col: int, msg: string)

  /** What a message says: its code, the directive it names, and whether it
      reports the directive present or missing. */
  datatype Parsed = Parsed(code: nat, name: string, present: bool)

  const Infix: string := " __future__ import \""
  const PresentSuffix: string := "\" present"
  const MissingSuffix: string := "\" missing"

  predicate IsDigit(c: char)
  {
    '0' <= c <= '9'
  }

  function Digit(d: nat): (c: char)
    requires d < 10
    ensures IsDigit(c)
  {
    (d + '0' as int) as char
  }

  function DigitValue(c: char): (d: nat)
    requires IsDigit(c)
    ensures d < 10 && Digit(d) == c
  {
    c as int - '0' as int
  }

  predicate AllDigits(s: string)
  {
    forall i :: 0 <= i < |s| ==> IsDigit(s[i])
  }

  /** The decimal rendering of `n`, without leading zeros. */
  function Decimal(n: nat): (r: string)
    ensures |r| >= 1 && AllDigits(r)
    ensures n < 10 <==> |r| == 1
    ensures 10 <= n < 100 <==> |r| == 2
  {
    if n < 10 then [Digit(n)] else Decimal(n / 10) + [Digit(n % 10)]
  }

  /** The number a string of decimal digits denotes. */
  function ValueOf(s: string): nat
    requires AllDigits(s)
  {
    if s == [] then 0 else 10 * ValueOf(s[..|s| - 1]) + DigitValue(s[|s| - 1])
  }

  /** Reading back a rendered number gives the number. */
  lemma {:induction false} ValueOfDecimal(n: nat)
    ensures ValueOf(Decimal(n)) == n
    decreases n
  {
    var r := Decimal(n);
    if n >= 10 {
      ValueOfDecimal(n / 10);
      assert r[..|r| - 1] == Decimal(n / 10);
    }
  }

  /** The error code for catalog index `index`: in 10..15 when the name is
      missing, in 50..55 when it is present, so the status can be read off
      the code. */
  function Code(index: nat, present: bool): (code: nat)
    requires index < |AvailableImports|
    ensures 10 <= code <= 15 || 50 <= code <= 55
    ensures present <==> code >= 50
  {
    var code := 10 + index;
    if present then code + 40 else code
  }

  /** Distinct catalog indices or statuses give distinct codes. */
  lemma CodeInjective(i: nat, p: bool, j: nat, q: bool)
    requires i < |AvailableImports| && j < |AvailableImports|
    requires Code(i, p) == Code(j, q)
    ensures i == j && p == q
  {
  }

  /** `FI` followed by the code, the first four characters of a message. */
  function CodeText(code: nat): (t: string)
    ensures |t| >= 3 && t[..2] == "FI"
  {
    "FI" + Decimal(code)
  }

  /** Distinct codes have distinct texts. */
  lemma CodeTextInjective(a: nat, b: nat)
    requires CodeText(a) == CodeText(b)
    ensures a == b
  {
    assert Decimal(a) == CodeText(a)[2..];
    assert Decimal(b) == CodeText(b)[2..];
    ValueOfDecimal(a);
    ValueOfDecimal(b);
  }

  /** The first position of `x` in `xs`, as Python's `index`. */
  function Position(xs: seq<string>, x: string): (i: nat)
    requires x in xs
    ensures i < |xs| && xs[i] == x
    ensures forall j :: 0 <= j < i ==> xs[j] != x
  {
    if xs[0] == x then 0 else 1 + Position(xs[1..], x)
  }

  /** The position of `name` in the catalog. */
  function IndexOf(name: string): (i: nat)
    requires name in AvailableImports
    ensures i < |AvailableImports| && AvailableImports[i] == name
  {
    Position(AvailableImports, name)
  }

  /** The catalog lists each name once, so a name's index is its only position. */
  lemma CatalogDistinct(i: nat, j: nat)
    requires i < |AvailableImports| && j < |AvailableImports|
    requires AvailableImports[i] == AvailableImports[j]
    ensures i == j
  {
    var c := AvailableImports;
    assert c[0][0] == 'd' && c[1][0] == 'a' && c[2][0] == 'w';
    assert c[3][0] == 'p' && c[4][0] == 'u' && c[5][0] == 'g';
  }

  /** A directive's name sits at the directive's index and nowhere else,
      and no two directives share a name. */
  lemma NameIndex(d: Directive)
    ensures ImportName(d) in AvailableImports && IndexOf(ImportName(d)) == Index(d)
    ensures forall e :: ImportName(e) == ImportName(d) ==> e == d
  {
    CatalogDistinct(IndexOf(ImportName(d)), Index(d));
    forall e | ImportName(e) == ImportName(d) ensures e == d {
      CatalogDistinct(Index(e), Index(d));
    }
  }

  /** The directive a name denotes, if it is in the catalog. */
  function Lookup(name: string): (r: Option<Directive>)
    ensures r.Some? <==> name in AvailableImports
    ensures forall d :: r == Some(d) <==> ImportName(d) == name
  {
    if name in AvailableImports then
      var d := Directives[IndexOf(name)];
      DirectiveAt(IndexOf(name));
      NameIndex(d);
      Some(d)
    else
      assert forall d :: ImportName(d) != name by {
        forall d ensures ImportName(d) != name { NameIndex(d); }
      }
      None
  }

  /** Read a message: `FI`, two digits, the fixed infix, a name, and the
      closing quote followed by `present` or `missing`. */
  function ParseMessage(msg: string): Option<Parsed>
  {
    if |msg| < 33 || msg[..2] != "FI" || !AllDigits(msg[2..4]) || msg[4..24] != Infix then None
    else if msg[|msg| - 9..] == PresentSuffix then Some(Parsed(ValueOf(msg[2..4]), msg[24..|msg| - 9], true))
    else if msg[|msg| - 9..] == MissingSuffix then Some(Parsed(ValueOf(msg[2..4]), msg[24..|msg| - 9], false))
    else None
  }

  /** The diagnostic for catalog name `name` at line `lineno`, reporting it
      present or missing, always at column 0. */
  function GenerateError(name: string, lineno: int, present: bool): (d: Diagnostic)
    requires name in AvailableImports
    ensures d.line == lineno && d.col == 0
  {
    var code := Code(IndexOf(name), present);
    Diagnostic(lineno, 0, CodeText(code) + Infix + name + (if present then PresentSuffix else MissingSuffix))
  }

  /** A diagnostic's message reads back as the directive's name and status,
      with code 10 + index (missing) or 50 + index (present), and begins
      with the text of that code. */
  lemma GenerateErrorReadsBack(name: string, lineno: int, present: bool)
    requires name in AvailableImports
    ensures var d := GenerateError(name, lineno, present);
      && ParseMessage(d.msg) == Some(Parsed(Code(IndexOf(name), present), name, present))
      && |d.msg| >= 4 && d.msg[..4] == CodeText(Code(IndexOf(name), present))
  {
    MessageParses(Code(IndexOf(name), present), name, present);
  }

  lemma MessageParses(code: nat, name: string, present: bool)
    requires 10 <= code < 100
    ensures var msg := CodeText(code) + Infix + name + (if present then PresentSuffix else MissingSuffix);
      && |msg| >= 4 && msg[..4] == CodeText(code)
      && ParseMessage(msg) == Some(Parsed(code, name, present))
  {
    var suffix := if present then PresentSuffix else MissingSuffix;
    var msg := CodeText(code) + Infix + name + suffix;
    assert |CodeText(code)| == 4;
    assert msg[..4] == CodeText(code);
    assert msg[..2] == "FI";
    assert msg[2..4] == Decimal(code);
    assert msg[4..24] == Infix;
    assert msg[24..|msg| - 9] == name;
    assert msg[|msg| - 9..] == suffix;
    assert PresentSuffix != MissingSuffix by { assert PresentSuffix[2] != MissingSuffix[2]; }
    ValueOfDecimal(code);
  }

  /** Rendering loses nothing: distinct arguments give distinct diagnostics. */
  lemma GenerateErrorInjective(n1: string, l1: int, p1: bool, n2: string, l2: int, p2: bool)
    requires n1 in AvailableImports && n2 in AvailableImports
    requires GenerateError(n1, l1, p1) == GenerateError(n2, l2, p2)
    ensures n1 == n2 && l1 == l2 && p1 == p2
  {
    GenerateErrorReadsBack(n1, l1, p1);
    GenerateErrorReadsBack(n2, l2, p2);
  }
}
