/**
 The standalone entry point's `--ignore` option: the argument is split at
 commas, tokens that are codes are ignored as they are, other tokens are
 read as prefixes that ignore every code they begin, and a token that
 begins no code makes the option invalid. A printed diagnostic is one
 whose first four message characters are not an ignored code.
 */
module Ignore {
  import opened Wrappers
  import opened Messages
  import opened Checker
  import Syntax
  import opened Visitor

  /** The pieces of `s` between commas, as Python's `s.split(',')`: always
      at least one piece, each free of commas. */
  function Split(s: string): (r: seq<string>)
    ensures |r| >= 1
    ensures forall k :: 0 <= k < |r| ==> ',' !in r[k]
  {
    if s == [] then [""]
    else
      var rest := Split(s[1..]);
      if s[0] == ',' then [""] + rest
      else [[s[0]] + rest[0]] + rest[1..]
  }

  /** The pieces joined back with commas between them. */
  function Join(parts: seq<string>): string
    requires |parts| >= 1
  {
    if |parts| == 1 then parts[0] else parts[0] + "," + Join(parts[1..])
  }

  /** Splitting loses nothing: joining the pieces gives the argument back. */
  lemma {:induction false} JoinSplit(s: string)
    ensures Join(Split(s)) == s
    decreases |s|
  {
    if s != [] {
      var rest := Split(s[1..]);
      JoinSplit(s[1..]);
      if s[0] == ',' {
        assert Split(s) == [""] + rest;
        assert ([""] + rest)[1..] == rest;
      } else {
        var r := Split(s);
        assert r == [[s[0]] + rest[0]] + rest[1..];
        if |rest| == 1 {
          assert s == [s[0]] + s[1..];
        } else {
          assert r[1..] == rest[1..];
          assert Join(rest) == rest[0] + "," + Join(rest[1..]);
          assert s == [s[0]] + s[1..];
        }
      }
    }
  }

  /** Comma-free pieces joined with commas split back into the same pieces. */
  lemma {:induction false} SplitJoin(parts: seq<string>)
    requires |parts| >= 1
    requires forall k :: 0 <= k < |parts| ==> ',' !in parts[k]
    ensures Split(Join(parts)) == parts
    decreases |parts|, |parts[0]|
  {
    var p := parts[0];
    if p == [] {
      if |parts| > 1 {
        SplitJoin(parts[1..]);
        var s := Join(parts);
        assert s == "," + Join(parts[1..]);
        assert s[1..] == Join(parts[1..]);
        assert Split(s) == [""] + parts[1..];
      }
    } else {
      var shorter := [p[1..]] + parts[1..];
      assert shorter[1..] == parts[1..];
      forall k | 0 <= k < |shorter| ensures ',' !in shorter[k] {
        if k == 0 {
          assert forall c :: c in p[1..] ==> c in p;
        }
      }
      SplitJoin(shorter);
      var s := Join(parts);
      assert Join(shorter) == s[1..] by {
        if |parts| > 1 {
          assert s == p + "," + Join(parts[1..]);
          assert s[1..] == p[1..] + "," + Join(parts[1..]);
        }
      }
      assert s[0] == p[0] && p[0] != ',';
      assert [p[0]] + p[1..] == p;
      assert Split(s) == [[p[0]] + p[1..]] + parts[1..];
      assert [p] + parts[1..] == parts;
    }
  }

  /** The number of commas in `s`. */
  function Commas(s: string): nat
  {
    if s == [] then 0 else (if s[0] == ',' then 1 else 0) + Commas(s[1..])
  }

  /** There is one piece more than there are commas. */
  lemma {:induction false} SplitCount(s: string)
    ensures |Split(s)| == Commas(s) + 1
    decreases |s|
  {
    if s != [] {
      SplitCount(s[1..]);
    }
  }

  /** The codes the option accepts, FI10 to FI15 and FI50 to FI55, built
      from the catalog's length. */
  const ValidCodes: set<string> :=
    (set i | 0 <= i < |AvailableImports| :: CodeText(Code(i, false)))
    + (set i | 0 <= i < |AvailableImports| :: CodeText(Code(i, true)))

  /** Every accepted code is four characters long, and the accepted codes
      are exactly the codes of the catalog's missing and present reports. */
  lemma ValidCodesShape(c: string)
    ensures c in ValidCodes ==> |c| == 4
    ensures c in ValidCodes <==> exists i, p :: 0 <= i < |AvailableImports| && c == CodeText(Code(i, p))
  {
    if c in ValidCodes {
      var i, p :| 0 <= i < |AvailableImports| && c == CodeText(Code(i, p));
      assert |Decimal(Code(i, p))| == 2;
    }
  }

  /** The codes among `codes` that `token` begins. */
  function PrefixedBy(token: string, codes: set<string>): set<string>
  {
    set c | c in codes && token <= c
  }

  /** The accepted codes `token` begins. */
  function Completions(token: string): set<string>
  {
    PrefixedBy(token, ValidCodes)
  }

  /** The tokens of the option's argument; an empty argument gives none. A
      non-empty one gives at least one token, and no token holds a comma. */
  function Tokens(arg: string): (r: set<string>)
    ensures arg == "" <==> r == {}
    ensures forall t :: t in r ==> ',' !in t
  {
    if arg == "" then {}
    else
      var pieces := Split(arg);
      var tokens := set t | t in pieces;
      assert pieces[0] in tokens;
      assert forall t :: t in pieces ==> ',' !in t by {
        forall t | t in pieces ensures ',' !in t {
          var k :| 0 <= k < |pieces| && pieces[k] == t;
        }
      }
      tokens
  }

  /** The tokens among `tokens` that begin no accepted code. */
  function Unmatched(tokens: set<string>): set<string>
  {
    set t | t in tokens && Completions(t) == {}
  }

  /** The codes some token among `tokens` begins. */
  function Expand(tokens: set<string>): set<string>
  {
    set c | c in ValidCodes && exists t :: t in tokens && t <= c
  }

  /** An accepted code begins only itself among the accepted codes. */
  lemma CodeCompletions(c: string)
    requires c in ValidCodes
    ensures Completions(c) == {c}
  {
    forall x | x in Completions(c) ensures x == c {
      ValidCodesShape(c);
      ValidCodesShape(x);
      assert c == x[..|c|] == x;
    }
    assert c in Completions(c);
  }

  /** So the tokens that are codes expand to themselves and the others to
      their completions. */
  lemma ExpandParts(tokens: set<string>)
    ensures Expand(tokens) == tokens * ValidCodes + Expand(tokens - ValidCodes)
  {
    forall c | c in Expand(tokens)
      ensures c in tokens * ValidCodes + Expand(tokens - ValidCodes)
    {
      var t :| t in tokens && t <= c;
      if t in ValidCodes {
        CodeCompletions(t);
        assert c in Completions(t);
      } else {
        assert t in tokens - ValidCodes;
      }
    }
    forall c | c in tokens * ValidCodes
      ensures c in Expand(tokens)
    {
      assert c <= c;
    }
  }

  /** Expanding one more token adds its completions. */
  lemma ExpandAdd(done: set<string>, token: string)
    ensures Expand(done + {token}) == Expand(done) + Completions(token)
  {
    forall c | c in Expand(done + {token})
      ensures c in Expand(done) + Completions(token)
    {
      var t :| t in done + {token} && t <= c;
    }
  }

  /** One more token adds itself to the unmatched ones exactly when it
      begins no accepted code. */
  lemma UnmatchedAdd(done: set<string>, token: string)
    ensures Unmatched(done + {token}) == Unmatched(done) + (if Completions(token) == {} then {token} else {})
  {
  }

  /** An accepted code is never unmatched. */
  lemma UnmatchedCodesFree(tokens: set<string>)
    ensures Unmatched(tokens) == Unmatched(tokens - ValidCodes)
  {
    forall t | t in tokens * ValidCodes ensures Completions(t) != {} {
      CodeCompletions(t);
    }
  }

  /** Taking code `c` out of the codes still to look at adds it to the
      prefixed codes found when `token` begins it. */
  lemma PrefixedStep(token: string, codes: set<string>, rest: set<string>, c: string)
    requires c in rest && rest <= codes
    ensures token <= c ==> PrefixedBy(token, codes) - (rest - {c}) == (PrefixedBy(token, codes) - rest) + {c}
    ensures !(token <= c) ==> PrefixedBy(token, codes) - (rest - {c}) == PrefixedBy(token, codes) - rest
  {
  }

  /** The codes among `codes` that `token` begins, added to `ignored` one
      at a time in no particular order, and whether there were none. */
  method AddPrefixed(token: string, codes: set<string>, ignored: set<string>) returns (r: set<string>, noValid: bool)
    ensures r == ignored + PrefixedBy(token, codes)
    ensures noValid <==> PrefixedBy(token, codes) == {}
  {
    r, noValid := ignored, true;
    var rest := codes;
    ghost var found: set<string> := {};
    while rest != {}
      invariant rest <= codes
      invariant found == PrefixedBy(token, codes) - rest
      invariant r == ignored + found
      invariant noValid <==> found == {}
      decreases |rest|
    {
      var c :| c in rest;
      PrefixedStep(token, codes, rest, c);
      if token <= c {
        r := r + {c};
        found := found + {c};
        noValid := false;
      }
      rest := rest - {c};
    }
  }

  /** The completions of `token` added to `ignored`, one accepted code at a
      time, and whether there were none. */
  method AddCompletions(token: string, ignored: set<string>) returns (r: set<string>, noValid: bool)
    ensures r == ignored + Completions(token)
    ensures noValid <==> Completions(token) == {}
  {
    r, noValid := AddPrefixed(token, ValidCodes, ignored);
  }

  /** What holds once the unrecognised tokens `done` have been considered:
      the invalid ones include every unmatched one and are empty exactly
      when none is unmatched; while none is invalid, the ignored codes are
      the tokens that are codes and the completions of those considered. */
  ghost predicate Resolving(tokens: set<string>, done: set<string>, ignored: set<string>, invalid: set<string>)
  {
    && Unmatched(done) <= invalid <= done
    && (invalid == {} <==> Unmatched(done) == {})
    && (invalid == {} ==> ignored == tokens * ValidCodes + Expand(done))
  }

  /** Consider one unrecognised token: while no token is invalid, add its
      completions, and count it invalid when it has none; once one is
      invalid, count it invalid without looking. */
  method Consider(ghost tokens: set<string>, ghost done: set<string>, token: string, ignored: set<string>, invalid: set<string>)
    returns (ignored': set<string>, invalid': set<string>)
    requires Resolving(tokens, done, ignored, invalid) && token !in done
    ensures Resolving(tokens, done + {token}, ignored', invalid')
    ensures invalid' == invalid || invalid' == invalid + {token}
  {
    var noValid := true;
    UnmatchedAdd(done, token);
    ExpandAdd(done, token);
    ignored' := ignored;
    if invalid == {} {
      ignored', noValid := AddCompletions(token, ignored);
    }
    invalid' := if noValid then invalid + {token} else invalid;
    if invalid == {} {
      assert Unmatched(done) == {};
      if noValid {
        assert Unmatched(done + {token}) == {token} == invalid';
      } else {
        assert Unmatched(done + {token}) == {} == invalid';
      }
    } else {
      assert noValid && token in invalid';
      assert Unmatched(done + {token}) != {} by {
        var w :| w in Unmatched(done);
      }
    }
  }

  /** Resolve the `--ignore` argument into the set of ignored codes, or fail
      with the invalid tokens. The unrecognised tokens are taken in no
      particular order, as a set's iteration order is not fixed; once one
      is found invalid, every later one is counted invalid without being
      expanded. So the error holds every token that begins no code, and
      possibly some that do, but no accepted code. */
  method ResolveIgnore(arg: string) returns (r: Result<set<string>, set<string>>)
    ensures r.Success? <==> Unmatched(Tokens(arg)) == {}
    ensures r.Success? ==> r.value == Expand(Tokens(arg))
    ensures r.Failure? ==> Unmatched(Tokens(arg)) <= r.error <= Tokens(arg) - ValidCodes
  {
    if arg == "" {
      assert Expand({}) == {};
      return Success({});
    }
    r := ResolveTokens(Tokens(arg));
  }

  /** The resolution of a non-empty argument's tokens. */
  method ResolveTokens(tokens: set<string>) returns (r: Result<set<string>, set<string>>)
    ensures r.Success? <==> Unmatched(tokens) == {}
    ensures r.Success? ==> r.value == Expand(tokens)
    ensures r.Failure? ==> Unmatched(tokens) <= r.error <= tokens - ValidCodes
  {
    var ignored := tokens * ValidCodes;
    var unrecognized := tokens - ValidCodes;
    UnmatchedCodesFree(tokens);
    ExpandParts(tokens);
    if unrecognized == {} {
      assert Unmatched(unrecognized) == {} && Expand(unrecognized) == {};
      return Success(ignored);
    }
    var invalid;
    ignored, invalid := ConsiderAll(tokens, unrecognized, ignored);
    if invalid != {} {
      return Failure(invalid);
    }
    return Success(ignored);
  }

  /** Consider each unrecognised token once, in no particular order. */
  method ConsiderAll(ghost tokens: set<string>, unrecognized: set<string>, ignored: set<string>)
    returns (ignored': set<string>, invalid: set<string>)
    requires ignored == tokens * ValidCodes
    ensures Resolving(tokens, unrecognized, ignored', invalid)
  {
    ignored', invalid := ignored, {};
    var remaining := unrecognized;
    ghost var done: set<string> := {};
    assert Expand(done) == {} && Unmatched(done) == {};
    while remaining != {}
      invariant done + remaining == unrecognized && done !! remaining
      invariant Resolving(tokens, done, ignored', invalid)
      decreases |remaining|
    {
      var token :| token in remaining;
      ignored', invalid := Consider(tokens, done, token, ignored', invalid);
      done := done + {token};
      remaining := remaining - {token};
    }
  }

  /** The first four characters of a message, or all of a shorter one, as
      Python's `msg[:4]`. */
  function Prefix4(msg: string): (r: string)
    ensures r <= msg
    ensures |r| == if |msg| < 4 then |msg| else 4
  {
    if |msg| >= 4 then msg[..4] else msg
  }

  /** The diagnostics that are printed: those whose first four message
      characters are not an ignored code, in order. */
  function Shown(diags: seq<Diagnostic>, ignored: set<string>): (r: seq<Diagnostic>)
    ensures |r| <= |diags|
    ensures forall d :: d in r <==> d in diags && Prefix4(d.msg) !in ignored
  {
    if diags == [] then []
    else
      (if Prefix4(diags[0].msg) in ignored then [] else [diags[0]]) + Shown(diags[1..], ignored)
  }

  /** Filtering keeps the report's order: the shown part of a sequence is
      the shown parts of its pieces, joined. */
  lemma {:induction false} ShownAppend(a: seq<Diagnostic>, b: seq<Diagnostic>, ignored: set<string>)
    ensures Shown(a + b, ignored) == Shown(a, ignored) + Shown(b, ignored)
    decreases a
  {
    if a == [] {
      assert a + b == b;
    } else {
      assert (a + b)[0] == a[0];
      assert (a + b)[1..] == a[1..] + b;
      ShownAppend(a[1..], b, ignored);
    }
  }

  /** Nothing ignored, everything shown. */
  lemma {:induction false} ShownNothingIgnored(diags: seq<Diagnostic>)
    ensures Shown(diags, {}) == diags
    decreases diags
  {
    if diags != [] {
      ShownNothingIgnored(diags[1..]);
      assert [diags[0]] + diags[1..] == diags;
    }
  }

  /** With the ignore list resolved from `arg`, a diagnostic of the report is
      printed exactly when no token of `arg` begins its code's text
      (`FI` and the code). */
  lemma ShownIff(s: Scan, requireCode: bool, requireUsed: bool, arg: string, d: Diagnostic)
    ensures var r := Report(s, requireCode, requireUsed);
      d in Shown(r, Expand(Tokens(arg))) <==>
        && d in r
        && ParseMessage(d.msg).Some?
        && forall t :: t in Tokens(arg) ==> !(t <= CodeText(ParseMessage(d.msg).value.code))
  {
    var r := Report(s, requireCode, requireUsed);
    if d in r {
      var ns := Notices(s, requireCode, requireUsed);
      RenderedFrom(ns, d);
      var n :| n in ns && d == Render(n);
      RenderReadsBack(n);
      NameIndex(n.directive);
      GenerateErrorReadsBack(ImportName(n.directive), n.lineno, n.present);
      var code := Code(Index(n.directive), n.present);
      assert Prefix4(d.msg) == CodeText(code);
      ValidCodesShape(CodeText(code));
    }
  }

  /** The standalone run over one parsed file: resolve the ignore list,
      then print the diagnostics of `run` whose codes it does not ignore;
      an invalid list fails before anything is printed. */
  method Standalone(tree: Syntax.Node, requireCode: bool, requireUsed: bool, arg: string)
    returns (r: Result<seq<Diagnostic>, set<string>>)
    ensures r.Success? <==> Unmatched(Tokens(arg)) == {}
    ensures r.Success? ==> r.value == Shown(Run(tree, requireCode, requireUsed), Expand(Tokens(arg)))
    ensures r.Failure? ==> Unmatched(Tokens(arg)) <= r.error <= Tokens(arg) - ValidCodes
  {
    var ignored := ResolveIgnore(arg);
    match ignored
    case Failure(invalid) =>
      return Failure(invalid);
    case Success(codes) =>
      return Success(Shown(Run(tree, requireCode, requireUsed), codes));
  }
}
