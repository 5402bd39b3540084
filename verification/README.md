# flake8-future-import, modelled in Dafny

flake8-future-import is a flake8 plugin. It reports which `__future__` imports a
Python file makes and which it lacks. For every module it emits, unless the
`--require-code` and `--require-used` switches described below say otherwise:

- one diagnostic `FI5x __future__ import "<name>" present` for each catalogued
  name imported by a `from __future__ import ...` statement;
- one diagnostic `FI1x __future__ import "<name>" missing` at line 1 for each
  catalogued name never imported.

The digit `x` is the name's index in the catalog (`division`, `absolute_import`,
`with_statement`, `print_function`, `unicode_literals`, `generator_stop`).

This project models:

- the AST visitor (`FutureImportVisitor`);
- the checker's `run` and `_generate_error`;
- how the standalone entry point resolves its `--ignore` argument and filters
  the diagnostics it prints.

Modules:

- `Syntax` (syntax.dfy): the slice of a Python AST the visitor looks at, and
  the order in which the visitor reaches nodes (`Visited`). An expression
  statement is its own kind (`Expr`), so a docstring is an `Expr` node whose
  only child is a `Str`.
- `Visitor` (visitor.dfy): the walk. It records `__future__` imports and five
  usage flags. An ImportFrom goes to its own handler, which never descends
  into its children and never marks the file as code. Every other node goes
  through the generic handler.
- `Messages` (messages.dfy): the catalog, the codes, the message text, and
  `ParseMessage`. `ParseMessage` reads a message back and is the inverse of
  `GenerateError`.
- `Checker` (checker.dfy): what `run` yields. It decides at the level of
  `Notice`s (directive, line, present/missing) and renders each notice with
  `GenerateError`.
- `Ignore` (ignore.dfy):
  - splitting the argument at commas;
  - the accepted codes `FI10`..`FI15` and `FI50`..`FI55`;
  - prefix expansion of the other tokens;
  - the invalid-token failure;
  - the `msg[:4]` filter.
- `Wrappers` (wrappers.dfy): `Option` and `Result`.

The `--require-code` and `--require-used` switches are parameters
(`requireCode`, `requireUsed`). So are the parsed tree and the `--ignore`
argument.

Behaviour of the code that the model keeps deliberately:

- The class default is `require_code = True` (flake8_future_import.py:100),
  while the option's help text (lines 109-110) says `--require-code` makes the
  checker apply only to files that have more than comments and (doc)strings.
  The code does not keep that promise in two ways, shown by the next two
  points (see "## Findings"): a docstring-only file counts as code, and a
  file whose only statement is an ordinary ImportFrom does not. The switch is a
  parameter here, so both settings are covered. `Checker.Run` keeps the
  code's behaviour; `Checker.RunIntended` is the variant that keeps the
  help text's promise.
- A module holding only a docstring counts as code. The expression statement
  around the string is not a module node, so the generic handler marks the
  file as code (`Visitor.DocstringOnlyIsCode`, `Checker.DocstringOnlyReported`).
- A module whose only statement is `from os import path` does not count as
  code. The ImportFrom handler does not set the flag, and its children are
  never walked (`Visitor.PlainImportFromIsNotCode`, `Checker.PlainImportFromSilenced`).
  An `import os` statement, by contrast, goes through the generic handler and
  counts as code.
- An empty `--ignore` argument ignores nothing (line 176).
- A token that is the empty string, as in `--ignore FI10,`, is a prefix of
  every code, so it ignores them all.
- Once one token is found invalid, later unrecognised tokens are counted
  invalid without being expanded (line 184). Which tokens land in the error
  therefore depends on set iteration order. The model bounds the error set
  instead of fixing it.

## Model

| member | source | states |
|---|---|---|
| Visitor.Step | flake8_future_import.py:43-62 | One dispatch sets each usage flag exactly when the flag was already set or the node has that flag's form. Any node but a module or an ImportFrom marks the file as code. A `__future__` ImportFrom appends one record; any other ImportFrom marks an import as used. |
| Visitor.PrintDetection | flake8_future_import.py:30-41 | `_is_print`: the print statement is a use of print, and a call is one exactly when its callee is the bare name `print`. The name `print` alone, not called, is not. |
| Visitor.WalkIsStepAll | flake8_future_import.py:43-62 | `Walk`, the dispatch on one node: the handler runs on the node, and unless it is an ImportFrom the walk descends into its children. This visits exactly the nodes of the independently defined pre-order `Visited`, in that order. |
| Visitor.WalkAllIsStepAll | flake8_future_import.py:62 | `WalkAll`, the descent of `generic_visit` into a node's children in field order: it visits the pre-orders of the children one after another. |
| Visitor.TreeUsesCode | flake8_future_import.py:64-66 | `uses_code`: the file counts as code exactly when the walk reaches a node other than the module or an ImportFrom, or reaches a `__future__` import. |
| Visitor.ScanTree | flake8_future_import.py:18-66 | After a fresh visitor walks a tree, each flag holds exactly when some node the walk reaches has that flag's form. The records are the reached `__future__` statements, in visiting order. |
| Visitor.FutureRecords | flake8_future_import.py:43-45 | There are no more records than nodes, and there are some exactly when a `__future__` import is among the nodes. |
| Visitor.FutureRecordsMembers | flake8_future_import.py:43-45 | Every reached `__future__` statement is recorded with its names and line. |
| Visitor.WalkMonotone | flake8_future_import.py:24-28 | Walking never clears a flag and never drops or reorders a record already made. |
| Visitor.ImportFromNotDescended | flake8_future_import.py:43-47 | An ImportFrom's children do not affect the walk. The statement never marks code, and it marks an import as used exactly when its module is not `__future__`. |
| Visitor.UsageFlagsSet | flake8_future_import.py:30-62 | A reached string, print call, division or plain import sets its flag. A reached ImportFrom either marks an import as used or is a `__future__` import, and a reached `__future__` import makes the file count as code. |
| Visitor.DocstringOnlyIsCode | flake8_future_import.py:49-54 | A module holding only a docstring counts as code, uses string literals, and has no `__future__` records. |
| Visitor.PlainImportFromIsNotCode | flake8_future_import.py:43-47 | A module whose only statement imports from an ordinary module does not count as code, but marks an import as used. |
| Visitor.DivisionOnlyScan | flake8_future_import.py:49-62 | For a module holding only `a / b`, the walk's state is: code and division used, nothing else. |
| Messages.Index | flake8_future_import.py:94-96 | Each directive's position in the directive list is where its name stands in the catalog. |
| Messages.DirectiveAt | flake8_future_import.py:94-96 | The directive list and the catalog tuple agree position by position. |
| Messages.NameIndex | flake8_future_import.py:94-96 | Each directive's name is in the catalog at the directive's own index. No two directives share a name. |
| Messages.CatalogDistinct | flake8_future_import.py:95-96 | No name appears twice in the catalog, so `index` finds a name's only position. |
| Messages.Lookup | flake8_future_import.py:136 | A name denotes a directive exactly when it is in the catalog, and it denotes the one whose name it is. |
| Messages.IndexOf | flake8_future_import.py:120 | `.index`: the position returned holds the name. |
| Messages.Decimal | flake8_future_import.py:126 | The decimal text of a code is a non-empty digit string, one digit below 10 and two from 10 to 99. `ValueOfDecimal` reads it back. |
| Messages.CodeText | flake8_future_import.py:122-126 | The code text starts with `FI` and has at least three characters; `CodeTextInjective` shows distinct codes give distinct texts. |
| Messages.Code | flake8_future_import.py:120-123 | The code of a catalog entry lies in 10..15 for a missing name and in 50..55 for a present one, so the status can be read off the code. |
| Messages.CodeInjective | flake8_future_import.py:120-123 | Two reports share a code only when they are about the same catalog entry with the same status. |
| Messages.ValueOfDecimal | flake8_future_import.py:122-126 | Reading back the decimal text of a number gives the number. |
| Messages.CodeTextInjective | flake8_future_import.py:122-126 | Different codes give different `FI` code texts. |
| Messages.GenerateError | flake8_future_import.py:119-126 | The diagnostic is at the given line, column 0. |
| Messages.GenerateErrorReadsBack | flake8_future_import.py:119-126 | The message parses back to the name, its status, and the code of its catalog index. Its first four characters are `FI` and that code. |
| Messages.GenerateErrorInjective | flake8_future_import.py:119-126 | Different names, lines or statuses always give different diagnostics. |
| Checker.StatementPresentsMembers | flake8_future_import.py:135-139 | One statement yields a present notice at its line for exactly the catalogued names it writes. |
| Checker.StatementPresentsNone | flake8_future_import.py:135-139 | A statement yields no notice exactly when none of its names is in the catalog. |
| Checker.StatementPresentsAppend | flake8_future_import.py:135-139 | Within a statement, names yield their notices in written order. |
| Checker.PresentsMembers | flake8_future_import.py:134-139 | `Presents` (the loop over `future_imports` and their aliases) yields exactly the catalog names written in some `__future__` statement, each as a present notice at that statement's line. |
| Checker.PresentsAppend | flake8_future_import.py:134-139 | Statements yield their present notices in discovery order. |
| Checker.PresentsCount | flake8_future_import.py:134-140 | There is one present diagnostic per catalogued alias, with repeats counted. Unknown aliases are not counted. |
| Checker.PresentSetExactly | flake8_future_import.py:133-140 | A directive counts as present exactly when some statement imports its name. |
| Checker.MissingMembers | flake8_future_import.py:141-158 | `Missing` (the loop over the catalog) gives, for any list of catalog entries, a missing notice at line 1 exactly for the listed entries that are neither present nor skipped as unused. |
| Checker.NoticesMembers | flake8_future_import.py:128-158 | `Notices`, the decisions of `run`: unless the file is skipped, exactly each catalogued name a statement imports, present at that statement's line, and each entry no statement imports and `require_used` does not skip, missing at line 1. A skipped file gets none. |
| Checker.MissingOrdered | flake8_future_import.py:141-158 | Scanning entries listed in strictly ascending catalog order gives missing notices in that order, each directive at most once. |
| Checker.MissingCount | flake8_future_import.py:141-143 | Without `require_used`, scanning a duplicate-free list of entries gives one missing notice per listed entry that is not present. |
| Checker.RenderMembers | flake8_future_import.py:119-126 | A notice's diagnostic is among the rendered diagnostics exactly when the notice is among the notices. |
| Checker.RenderInjective | flake8_future_import.py:119-126 | Different notices render to different diagnostics. |
| Checker.ReportCodes | flake8_future_import.py:119-158 | Every yielded diagnostic is at column 0 and names a catalog entry with the code of its index. A present one is at the line of a statement importing that name. A missing one is at line 1, for a name no statement imported. |
| Checker.ReportEntry | flake8_future_import.py:128-158 | `Report`, what `run` yields: as long as the notices, and entry `k` is notice `k` rendered, reading back as its name, status and code. |
| Checker.NoticesOrdered | flake8_future_import.py:133-158 | Present notices all come before missing ones, and the missing ones follow catalog order. |
| Checker.ReportOrdered | flake8_future_import.py:128-158 | Every diagnostic reads as present or missing. All present ones come before all missing ones, and the missing codes strictly increase. |
| Checker.ReportPresentPart | flake8_future_import.py:133-158 | Unless the file is skipped, the output is the present diagnostics in discovery order, repeats kept, followed by the missing diagnostics. |
| Checker.MissingExactly | flake8_future_import.py:131-158 | A directive gets a missing diagnostic exactly when the file is not skipped, no statement imports it, and `require_used` does not skip it as unused. |
| Checker.NoticesCount | flake8_future_import.py:133-158 | Without `require_used`, a file that is not skipped gets one notice per catalogued alias, plus six minus the number of distinct directives imported. |
| Checker.ReportCount | flake8_future_import.py:133-158 | Without `require_used`, the output length is the number of present diagnostics plus six, minus the number of distinct directives imported. |
| Checker.NoticesRequireUsed | flake8_future_import.py:145-156 | `require_used` drops exactly the missing notices of directives whose feature was not seen, and nothing else. |
| Checker.RequireUsedRemovesOnlyUnused | flake8_future_import.py:145-156 | The same holds at the level of diagnostics. Only print_function, division, absolute_import and unicode_literals can be dropped. |
| Checker.ReportEmptyIff | flake8_future_import.py:131-132 | `run` yields nothing exactly when `require_code` is on and the file does not count as code. |
| Checker.WithStatementNoticed | flake8_future_import.py:141-158 | A file that is not skipped always gets a with_statement diagnostic, present or missing. |
| Checker.UnknownNamesIgnored | flake8_future_import.py:136-138 | A `__future__` statement of names outside the catalog, inserted at any position among the other statements, does not change the output of a file that would not be skipped anyway. |
| Checker.SilentStatement | flake8_future_import.py:136-138 | A statement whose names are all outside the catalog yields no present notice. |
| Checker.MissingReadsFlagsOnly | flake8_future_import.py:145-156 | The missing diagnostics depend on the visitor's flags and the present set, not on its records. |
| Checker.Run | flake8_future_import.py:128-132 | Running on a tree yields nothing exactly when `require_code` is on and the tree does not count as code. |
| Checker.FutureImportReported | flake8_future_import.py:133-143 | A catalogued name imported by a reached `__future__` statement is reported present at that statement's line, and never reported missing. |
| Checker.AllMissing | flake8_future_import.py:141-158 | For any list of entries none of which is present, with `require_used` off, there is one missing notice per entry at line 1, in the list's own order. |
| Checker.NothingPresent | flake8_future_import.py:133-140 | Without `__future__` imports, a file that is not skipped gets only missing notices, under either setting of `require_used`. |
| Checker.NothingImportedNotices | flake8_future_import.py:141-158 | Without `__future__` imports and with `require_used` off, a file that is not skipped gets six missing notices, in catalog order. |
| Checker.NothingImportedReport | flake8_future_import.py:141-158 | The same six missing diagnostics, at line 1, in catalog order. |
| Checker.EmptyModuleReport | flake8_future_import.py:128-158 | An empty module with both switches off gets the six missing diagnostics. |
| Checker.DivisionOnlyReport | flake8_future_import.py:145-158 | With `require_used`, a module holding only `a / b` is told only that division, with_statement and generator_stop are missing. |
| Checker.DocstringOnlyReported | flake8_future_import.py:49-51 | `require_code` does not silence a docstring-only module: all six directives are reported missing. |
| Visitor.HasIntendedCode | flake8_future_import.py:49-51 | A list of nodes holds code in the sense of the help text at lines 108-110 exactly when some node is neither the module, a string, nor an expression statement holding only a string. Unlike the code's flag, an ImportFrom from any module counts. |
| Checker.IntendedScan | flake8_future_import.py:49-66 | The corrected scan counts as code exactly when the walk reaches code in the help text's sense or a `__future__` import; its `__future__` records are those of the walk. |
| Checker.RunIntended | flake8_future_import.py:128-158 | The corrected `run` yields nothing exactly when the file has no code in the help text's sense, no `__future__` import, and `require_code` is set. |
| Checker.MissingIgnoresCode | flake8_future_import.py:145-158 | The missing notices do not depend on the code flag. |
| Checker.RunIntendedAgrees | flake8_future_import.py:128-158 | With `require_code` off, or on any file that both variants judge alike as code or not, the corrected `run` yields exactly what the code's `run` yields. |
| Checker.StringsOnlySilenced | flake8_future_import.py:108-110 | With `require_code`, the corrected `run` yields nothing for a module holding only strings and string statements. |
| Checker.DocstringOnlySilenced | flake8_future_import.py:108-110 | With `require_code`, the corrected `run` yields nothing for a docstring-only module. |
| Checker.PlainImportFromChecked | flake8_future_import.py:43-47 | With `require_code`, the corrected `run` yields diagnostics for a module whose only statement is `from m import ...`, for any `m`. |
| Checker.PlainImportFromSilenced | flake8_future_import.py:131-132 | `require_code` silences a module whose only statement is `from m import ...` for an ordinary `m`. |
| Ignore.Split | flake8_future_import.py:177 | Splitting at commas gives at least one piece, and no piece contains a comma. |
| Ignore.Tokens | flake8_future_import.py:176-177 | The set of tokens is empty exactly for an empty argument, and no token holds a comma. |
| Ignore.JoinSplit | flake8_future_import.py:177 | Joining the pieces with commas gives the argument back. |
| Ignore.SplitJoin | flake8_future_import.py:177 | Comma-free pieces joined with commas split back into the same pieces. |
| Ignore.SplitCount | flake8_future_import.py:177 | There is one more piece than there are commas. |
| Ignore.ValidCodesShape | flake8_future_import.py:166-169 | The accepted codes are exactly the codes of a missing or present report for some catalog index, and each is four characters long. |
| Ignore.CodeCompletions | flake8_future_import.py:185-187 | Among the accepted codes, an accepted code is a prefix only of itself. |
| Ignore.ExpandParts | flake8_future_import.py:177-187 | The ignored set is the tokens that are codes, plus the completions of the other tokens. |
| Ignore.UnmatchedCodesFree | flake8_future_import.py:178-190 | A token that is itself an accepted code is never counted invalid. |
| Ignore.AddPrefixed | flake8_future_import.py:185-188 | Scanning a set of codes one at a time, in no fixed order, adds exactly the codes the token begins, and reports whether there were none. |
| Ignore.AddCompletions | flake8_future_import.py:183-188 | Scanning the accepted codes adds exactly the codes the token begins. The token has no valid completion exactly when there were none. |
| Ignore.Consider | flake8_future_import.py:182-190 | One loop step keeps the resolution invariant, and adds at most the token itself to the invalid set. |
| Ignore.ConsiderAll | flake8_future_import.py:181-190 | The loop over the unrecognised tokens, in any order, ends with an invalid set that holds every unrecognised token beginning no accepted code and nothing but unrecognised tokens. It is empty exactly when every one begins some code, and then the ignored set is the accepted tokens plus the completions of the others. |
| Ignore.ResolveTokens | flake8_future_import.py:177-193 | For a non-empty argument: success exactly when every token begins an accepted code, with the expansion as the ignored set; on failure, an error bounded as for `ResolveIgnore`. |
| Ignore.ResolveIgnore | flake8_future_import.py:176-195 | Resolution succeeds exactly when every token begins some accepted code, and then the ignored set is the expansion of the tokens. On failure, the error holds every token that begins no code, and only tokens that are not codes themselves. |
| Ignore.Prefix4 | flake8_future_import.py:201 | The result is a prefix of the message, of length four, or the whole message when it is shorter. |
| Ignore.Shown | flake8_future_import.py:201 | A diagnostic is printed exactly when it is among those yielded and its code text is not ignored. |
| Ignore.ShownAppend | flake8_future_import.py:199-202 | Filtering keeps the order of the diagnostics. |
| Ignore.ShownNothingIgnored | flake8_future_import.py:194-202 | With nothing ignored, every diagnostic is printed. |
| Ignore.ShownIff | flake8_future_import.py:176-201 | Under a resolved `--ignore`, a yielded diagnostic is printed exactly when no token is a prefix of its code text. |
| Ignore.Standalone | flake8_future_import.py:176-202 | The whole run succeeds exactly when every token begins an accepted code, and then prints the filtered output of `run`. Otherwise it fails before printing; the error names every token that begins no accepted code, and only given tokens that are not accepted codes. |

## Findings

| source | as written | input that shows it | evidently intended | confidence | as-written member | corrected member |
|---|---|---|---|---|---|---|
| flake8_future_import.py:49-51 | `generic_visit` marks every non-module node as code, including the expression statement around a docstring | a module whose only statement is a docstring, checked with `--require-code` | skipped, as the option's help text at lines 108-110 promises for files with only comments and (doc)strings | medium; not executed | Checker.DocstringOnlyReported | Checker.DocstringOnlySilenced |
| flake8_future_import.py:43-47 | `visit_ImportFrom` never sets `_uses_code`, and the walk does not descend below an ImportFrom, so an import from an ordinary module is not code | a module whose only statement is `from os import path`, checked with `--require-code` | checked, as the help text at lines 108-110 promises for files with more than comments and (doc)strings, and as `import os` is | medium; not executed | Checker.PlainImportFromSilenced | Checker.PlainImportFromChecked |

## Left out

- `Flake8Argparse`, `add_options`, `add_arguments` and `parse_options` (lines 69-89 and 106-117) only register and copy the two switches. Here the switches are parameters.
- `__init__` and the filename argument (lines 103-104) are not modelled: the checker is the function `Checker.Run` of a tree.
- `main`'s argparse setup, file opening, `compile` and the printed line format (`file:line:col+1: msg`) are left out (lines 161-175 and 196-206). They are I/O. The model ends at the list of printed diagnostics.
- The argparse-missing branch (lines 162-164) is left out: it is a check of the environment.
- The fourth element of each diagnostic tuple, `type(self)` (line 126), is left out. It is the same for every diagnostic.
- Python-version detection (`hasattr(ast, 'Print')`, `ast.Str`) is left out. The model has one `Print` node kind for the Python 2 statement and one `Str` kind, and counts `print(...)` calls with a bare `print` name.
- `run` is a generator. The model returns the whole sequence it yields.
- The ImportFrom relative `level` and the alias nodes' `asname` are left out. Only the module name, the alias names and the line matter to the checker.
- ResolveIgnore: the failure's error set is bounded, not fixed. It contains every token that begins no accepted code and only tokens that are not codes. Which other tokens it holds depends on Python's set iteration order together with the stop at line 184.
- Standalone: the failure's error set is bounded exactly as for ResolveIgnore, for the same reason.
- ResolveIgnore: the text of the `ValueError` message (lines 192-193) is not modelled; the failure carries the set of invalid tokens.
- `setup.py`, the version string and the plugin's name are packaging metadata and are not modelled.
