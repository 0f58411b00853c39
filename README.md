# NotifyConfig reader, modelled in Dafny

This project models the configuration reader of a filesystem-watch and
notification daemon (`notifyconfig.py`). The reader turns a text file into
sections of attributes in several passes:

- `gen_lines` drops comment lines and joins backslash-continued lines into
  numbered statements;
- `read_parse`, with `add_section` and `add_attribute`, builds the section
  table with one grammar per section kind;
- `read_defaults` fills in the defaults table;
- `read_eval` checks and evaluates the table. It rejects unknown options,
  applies overrides, inherits from `default`, compiles the rule sections'
  patterns, checks action names, pins or parses `foreground`, coerces the
  numbers and opens the log files;
- `read` commits the new tables only when every pass succeeds. It then calls
  the reload callback and closes the files of the configuration it replaced
  (`read_cleanup`).

Around this sit `dump`, `self[name]`, the section iterator, the error
rendering of `NotifyConfigError` and `abspath`.

Modules, in dependency order:

- `Wrappers`: `Option`, `Result` and `Outcome`.
- `Text`: the string operations the reader uses: `strip`, `split(" ", 1)`,
  `rsplit("/", 1)`, `replace`, `lower`, `int()`, `"%d"` and `basename`.
- `Paths`: `normpath` and `abspath`.
- `Config`: the data model, the defaults table, the message texts and the
  rendering of an error:
  - `Value`: text, word list, boolean, integer, or a float kept as its printed
    form;
  - `Attr`: line, value and the handle of an opened file;
  - `Entry`: one attribute or a list of them;
  - `Section`, with its keys in declaration order;
  - `Failure`: a `NotifyConfigError` with its line and text, or a runtime
    exception by name.
- `Lines`: `gen_lines`, as an imperative method proved against a fold over
  the classified lines.
- `Parse`: `read_parse`, `add_section`, `add_attribute` and `read_defaults`,
  as functions of a parsing state.
- `Eval`: `read_eval`, one function per stage, each with lemmas saying what
  the stage accepts and what it produces.
- `Commit`: what `read` computes before it commits, `read_cleanup`, and the
  invariant that ties the configuration in use to the open log files.
- `Dump`: `dump`, both as written and corrected.
- `Reader`: the class `NotifyConfig`. Its fields are:
  - the configuration in use;
  - the tables of a read in progress;
  - the iteration cursor;
  - a handle counter;
  - the set of open handles;
  - the log of reload callbacks.

  Each method updates these fields in place and is proved against the
  function that specifies it. `Valid()` (the configuration in use agrees with
  the open files) is kept by `Read` and `Next`.

Foreign code becomes a `Host` parameter of total functions:

- `shlex.split`, which gives a word list or an error text;
- `re.compile`, which gives an error text or nothing;
- `float()`, which gives the printed float or nothing;
- `open(path, "a")`, which gives an error text or nothing.

The file's lines are a parameter too. `None` stands for a file that cannot
be opened.

## Model

| member | source | states |
|---|---|---|
| Paths.AbsPathResolves | notifyconfig.py:12-18 | an absolute path is normalised as it is; a relative one is joined to the current path with `/` and then normalised; the result is absolute when the path is, and for a relative path exactly when the current path is absolute or empty |
| Paths.NormPathIdempotent | notifyconfig.py:16-18 | normalising a normalised path changes nothing, so the second `normpath` of a relative path is a no-op |
| Paths.NormPathShape | notifyconfig.py:16-18 | `normpath` of a non-empty path is its leading slashes followed by normalised components; the result is absolute exactly when the input is |
| Paths.AbsoluteNormal | notifyconfig.py:13-18 | an absolute path keeps one or two leading slashes, and none of its components is empty, `.` or `..` |
| Config.ErrorStringReadBack | notifyconfig.py:65-68 | the rendered error `basename:line: text` can be read back into the same line number and text |
| Config.DefaultKeys | notifyconfig.py:71-92 | `config` knows exactly `foreground`, `debug`, `stdout`, `stderr`, `subprocess_limit`, `subprocess_poll_interval`, `subprocess_stdout`, `subprocess_stderr`, `move_event_timeout` and the `path` the constructor adds; `default`, `env` and every other section know no key |
| Text.ParseIntOfIntToString | notifyconfig.py:336 | `int()` reads back every integer written in decimal |
| Text.ParseIntNeedsDigit | notifyconfig.py:335-340 | `int()` refuses a text that has no digit |
| Text.LowerMatches | notifyconfig.py:323-326 | `lower()` equals a lower-case word exactly when the text spells that word with any mix of cases |
| Text.StripCharsSpec | notifyconfig.py:197-200 | `strip` removes only the given characters from the ends, gives an empty text exactly when every character is one of them, and otherwise starts and ends with another character |
| Text.SplitFirst | notifyconfig.py:240-243 | `split(" ", 1)` gives the part before the first space and the rest, or the whole line and an empty text when there is no space |
| Text.SplitLast | notifyconfig.py:282 | `rsplit("/", 1)` splits at the last `/`, and has one part exactly when there is none |
| Text.Remove | notifyconfig.py:295-297 | removing the flag letters leaves only other letters, and leaves nothing exactly when every letter was a flag |
| Text.RemoveSpec | notifyconfig.py:295-296 | one letter is dropped exactly when it is in the set and kept otherwise, and removal works letter by letter across a concatenation, so the result is the letters outside the set, in their order |
| Text.RemoveTwice | notifyconfig.py:295-296 | removing one set of letters and then another leaves the same text as removing both at once |
| Text.BaseName | notifyconfig.py:67 | the base name is the slash-free tail of the path after its last `/` |
| Lines.GenLines | notifyconfig.py:189-219 | the statements equal the fold over the classified lines plus a final empty line; each has non-empty text and a line number between 1 and the number of lines plus one; the line numbers strictly increase |
| Lines.IsCommentStrip | notifyconfig.py:197-203 | a line is a comment exactly when its stripped text starts with `#` |
| Lines.ProduceConsumes | notifyconfig.py:190-219 | after the whole file the line number plus the pending delta counts every physical line, and the delta is never negative |
| Lines.RunConsumes | notifyconfig.py:199-219 | from any counters, each physical line adds exactly one to the line number plus the delta |
| Lines.RunWellFormed | notifyconfig.py:214-215 | only non-empty text is produced, with line numbers above the starting number, in strictly increasing order |
| Lines.PlainLines | notifyconfig.py:208-219 | a file without comments or continuations gives each non-empty line with its own physical line number |
| Lines.StatementNumber | notifyconfig.py:199-219 | a statement continued over several lines is numbered by its first physical line plus the number of comment lines inside it; the counters move past all of its lines |
| Lines.FirstLineNumber | notifyconfig.py:204-215 | a continued statement without comments is numbered by its first physical line, not by the line where it completes |
| Lines.InsideCounters | notifyconfig.py:201-207 | inside a continuation, comments advance the line number, continued lines only the delta, and nothing is produced |
| Lines.BoundaryLineNumber | notifyconfig.py:217-219 | between statements, the line number equals the number of physical lines read |
| Parse.AddSectionSpec | notifyconfig.py:110-117 | a name already in the table fails at the current line, citing the first definition; otherwise the name is appended to the order and gets a new empty section at the current line, which becomes current; other sections are unchanged |
| Parse.AddSectionKeepsGood | notifyconfig.py:110-117 | adding a section keeps the table well formed: order and keys match, and the current section exists |
| Parse.AddAttributeSpec | notifyconfig.py:119-131 | a repeated key fails at the current line, citing the first line of the key (with `multi` the list grows instead); a new key gets the attribute, alone or as a list, and is appended to the section's keys |
| Parse.AddAttributeKeepsGood | notifyconfig.py:119-131 | adding an attribute keeps the table well formed |
| Parse.StatementSections | notifyconfig.py:221-235 | a blank statement only moves the line number; `name:` fails at the statement's line citing the first definition when the name exists, and otherwise appends a new empty section at that line and makes it current; an unindented attribute fails at its line quoting the stripped text; an attribute before any section is `AttributeError` |
| Parse.StatementWatch | notifyconfig.py:237-238 | in `watch` the key is the whole stripped line and the value the empty text: a repeated key fails citing its first line, a new one is appended at the statement's line and nothing else changes |
| Parse.StatementKeyValue | notifyconfig.py:239-244 | in `env` and `config` the key is the text before the first space (it holds no space) and the value the text after it, or the whole line and the empty text when there is no space; the attribute is then added as in `watch` |
| Parse.StatementRule | notifyconfig.py:245-251 | elsewhere the line is split into shell words: a split error fails at the line quoting the host's text and the line; no words is `IndexError`; otherwise the first word is the key and the rest its word list, added as in `watch` |
| Parse.StatementKeepsGood | notifyconfig.py:221-251 | one statement keeps the table well formed |
| Parse.ParseKeepsGood | notifyconfig.py:221-251 | parsing the whole file keeps the table well formed |
| Parse.ParsePlain | notifyconfig.py:237-251 | after parsing, every entry is a single attribute (actions use `multi=False`); `env` and `config` hold only text and no file, and every section but `watch`, `env` and `config` holds word lists |
| Parse.FillSectionSpec | notifyconfig.py:174-177 | every default key ends up in the section; keys that were already present keep their attributes; added keys carry the default text at line 0 |
| Parse.InjectSectionSpec | notifyconfig.py:170-177 | one defaults-table section exists afterwards with all its default keys; it is created at the current line if it was missing; nothing already present changes |
| Parse.InjectFromSpec | notifyconfig.py:169-177 | after `read_defaults` every defaults-table section exists with all its default keys; every attribute the file gave is unchanged; every other attribute is the default at line 0 |
| Parse.InjectFromGood | notifyconfig.py:169-177 | `read_defaults` keeps the table well formed |
| Parse.WithDefaultsPlain | notifyconfig.py:169-177 | `read_defaults` adds single text attributes to `config` only, so a table that was plain after parsing stays plain |
| Eval.UnknownOptionInSpec | notifyconfig.py:258-261 | one section passes exactly when all its keys are known; otherwise it fails at the line of an unknown key with that key's message |
| Eval.CheckOptionsSpec | notifyconfig.py:254-261 | the option check passes exactly when no present defaults-table section has a key outside its defaults; otherwise it fails at such a key's line |
| Eval.DefaultAndEnvTakeNoKeys | notifyconfig.py:254-261 | any key in `default` or `env` makes the read fail, because their defaults are empty |
| Eval.OverrideSpec | notifyconfig.py:263-264 | overrides succeed exactly when every key is a `config` key; each key then holds the last text given for it at its own line, and other sections are unchanged |
| Eval.InheritAfterCheckIsIdentity | notifyconfig.py:270-276 | once the option check has passed, inheriting from `default` changes nothing |
| Eval.InheritFromNothing | notifyconfig.py:270-276 | inheriting from a `default` section without keys leaves every section as it was |
| Eval.RuleOfSpec | notifyconfig.py:282-303 | a name `head/flags` is accepted exactly when `head` starts with `/`, every flag is `i`, `d` or `f`, and the pattern compiles; the section then gets the pattern (case-insensitive with `i`), `is_dir` set exactly when `d` is present and `is_file` exactly when `f` is |
| Eval.FlagsReplaced | notifyconfig.py:295-297 | the three `replace` calls leave the same text as removing `i`, `d` and `f` at once: the other letters of the flags, in order |
| Eval.RuleOfCompiled | notifyconfig.py:282-303 | a section `RuleOf` accepts is compiled from its name: the name splits at its last `/` into a head starting with `/` and flags from `i`, `d`, `f`; the head without its `/` compiles and is the pattern, case-insensitive with `i`; `is_dir` and `is_file` are the `d` and `f` flags |
| Eval.NoSlashRefused | notifyconfig.py:282-287 | a rule-section name without `/` is refused at the section's line |
| Eval.SlashFirstOnly | notifyconfig.py:282-283 | a name whose only `/` is its first character makes the reader index an empty text (`IndexError`) |
| Eval.CompileFromSpec | notifyconfig.py:278-303 | compiling succeeds exactly when every rule section is accepted; each rule section then becomes what `RuleOfSpec` describes, and `watch`, `default`, `env` and `config` stay as they were |
| Eval.UnknownActionInSpec | notifyconfig.py:306-312 | one section passes exactly when all its keys are actions; otherwise it fails at such a key's line |
| Eval.CheckActionsSpec | notifyconfig.py:305-312 | the action check passes exactly when every key of every section other than `watch`, `env` and `config` is one of the eight actions; otherwise it fails at such a key |
| Eval.ParseBoolSpec | notifyconfig.py:323-327 | the text becomes `True` exactly when it spells `true`, and `False` exactly when it spells `false`, in any mix of cases |
| Eval.ForegroundPinned | notifyconfig.py:319-321 | on a reload `foreground` takes the value in use, at its new line; nothing else changes |
| Eval.ForegroundFirstRead | notifyconfig.py:323-330 | on a first read `foreground` becomes the boolean its text spells; any other text fails at the last parsed line, quoting the text and the attribute's line |
| Eval.CoerceIntegerSpec | notifyconfig.py:333-340 | an integer attribute becomes the number its text gives, or the read fails at the attribute's line quoting the text; a text without a digit always fails |
| Eval.OpenLogSpec | notifyconfig.py:353-369 | on a reload in the foreground, `stdout` and `stderr` are left alone; any other target is resolved against `path`: when the host refuses the file the read fails at the target's line with the host's reason, and when it opens it the target gets the next handle and keeps its line and value; a target that opens had a text the host could open |
| Eval.OpenLogStep | notifyconfig.py:356-369 | opening one target changes no other key, takes at most one handle, and leaves the target ready for cleanup |
| Eval.OpenLogsReady | notifyconfig.py:353-369 | after the four opens, every target is either left alone by a later cleanup or holds a handle from the range just used; other `config` keys are unchanged |
| Eval.FinishCommits | notifyconfig.py:314-369 | the second half of the evaluation keeps the table's sections and keys; `foreground` is a boolean on a first read and the value in use on a reload; every log target is ready for cleanup |
| Eval.EvaluateCommits | notifyconfig.py:253-369 | a successful evaluation keeps the declaration order walkable, and the guarantees of `FinishCommits` hold |
| Eval.PrepareValidates | notifyconfig.py:253-312 | after the first half every rule section is compiled from its name, every key outside `watch`, `env` and `config` is one of the eight actions, `config`, `default` and `env` keep the keys they had and all are default keys, and single attributes stay single with word lists outside `watch`, `env` and `config` |
| Eval.EvaluateValidates | notifyconfig.py:253-369 | the guarantees of `PrepareValidates` survive the second half, which changes only values in `config`, and the order still walks the table |
| Dump.ActionsTextSpec | notifyconfig.py:386-389 | a list of actions can be written exactly when every value in it can be walked |
| Dump.EntryTextSpec | notifyconfig.py:379-389 | one entry can be written exactly when it fits its section kind |
| Dump.KeysTextSpec | notifyconfig.py:377-389 | a section's keys can be written exactly when each of its entries can |
| Dump.SectionsTextSpec | notifyconfig.py:373-389 | the sections can be written exactly when no entry of any of them is stuck |
| Dump.DumpSpec | notifyconfig.py:371-391 | `dump` of a committed table succeeds exactly when no entry is stuck |
| Dump.AsWrittenFailsOnActions | notifyconfig.py:385-389 | as written, any single attribute in a rule section makes `dump` fail |
| Dump.FixedDumpSucceeds | notifyconfig.py:385-389 | corrected, `dump` succeeds on every table whose entries are single attributes holding word lists outside `watch`, `env` and `config` |
| Commit.CleanupSpec | notifyconfig.py:157-167 | when every target is closable, cleanup succeeds; it closes only open handles; it closes the handle of every target it does not skip, and every handle it closes is that of a target it does not skip (`stdout` and `stderr` stay open when running in the foreground) |
| Commit.ReadTablesCommits | notifyconfig.py:136-142 | when the three passes succeed, the order walks the new table, `foreground` is a boolean (pinned on a reload), and every log target is ready for cleanup |
| Commit.PreparedPlain | notifyconfig.py:169-251 | after parsing and `read_defaults` every entry is a single attribute, with word lists outside `watch`, `env` and `config`, and `config`, `default` and `env` exist with every default key |
| Commit.ReadTablesValid | notifyconfig.py:136-142 | the tables a read commits are validated: the order walks them, every rule section is compiled from its name, every key outside `watch`, `env` and `config` is one of the eight actions, `config`, `default` and `env` hold exactly the keys of the defaults table, and every entry is a single attribute with word lists outside `watch`, `env` and `config` |
| Commit.ValidatedDumps | notifyconfig.py:371-391 | the corrected `dump` writes every validated table |
| Commit.CommittedDumps | notifyconfig.py:136-155 | the corrected `dump` succeeds on every configuration a read commits |
| Commit.ClosedBefore | notifyconfig.py:154-167 | from a consistent state the cleanup of the replaced configuration succeeds and closes only open handles given out earlier |
| Commit.ReadCommits | notifyconfig.py:136-155 | a successful read moves from a consistent state to a consistent one: new handles are added and the replaced configuration's handles are removed |
| Commit.CommitConsistent | notifyconfig.py:146-155 | committing ready tables and closing the old handles keeps the invariant |
| Commit.FailedReadConsistent | notifyconfig.py:138-144 | a failed read commits nothing, and the configuration in use stays consistent with the handles it opened |
| Reader.NotifyConfig.constructor | notifyconfig.py:88-92 | a new reader has no configuration in use, no cursor, no open files and no reloads |
| Reader.NotifyConfig.Get | notifyconfig.py:95-96 | `self[name]` gives the section in use; a missing name is `KeyError`; before the first read it is `TypeError` |
| Reader.NotifyConfig.StartIter | notifyconfig.py:99-101 | the cursor restarts at 0 and nothing else changes |
| Reader.NotifyConfig.Next | notifyconfig.py:103-108 | the section at the cursor, in declaration order; the cursor advances; past the end it stops; without a cursor or before a read it is `AttributeError`; the invariant is kept and no other field (configuration in use, read in progress, handles) changes |
| Reader.NotifyConfig.AddSection | notifyconfig.py:110-117 | updates the read in progress as `AddSectionSpec` describes, and leaves it unchanged on failure |
| Reader.NotifyConfig.AddAttribute | notifyconfig.py:119-131 | updates the current section as `AddAttributeSpec` describes, and leaves it unchanged on failure |
| Reader.NotifyConfig.ReadParse | notifyconfig.py:179-251 | resets the read in progress, then parses each statement of the file (plus a `" "` line) in turn; it stops at the first failure, and a missing file is `IOError` |
| Reader.NotifyConfig.ParseStatement | notifyconfig.py:221-251 | one statement, as `StatementSections`, `StatementWatch`, `StatementKeyValue` and `StatementRule` describe |
| Reader.NotifyConfig.ReadDefaults | notifyconfig.py:169-177 | leaves the tables as `InjectFromSpec` describes |
| Reader.NotifyConfig.FillDefaults | notifyconfig.py:174-177 | fills one section with its missing defaults |
| Reader.NotifyConfig.CheckOptions | notifyconfig.py:254-261 | returns the verdict `CheckOptionsSpec` describes |
| Reader.NotifyConfig.ApplyOverrides | notifyconfig.py:263-264 | applies the overrides as `OverrideSpec` describes |
| Reader.NotifyConfig.InheritDefaults | notifyconfig.py:270-276 | copies `default`'s attributes into rule sections that lack them |
| Reader.NotifyConfig.CompileRules | notifyconfig.py:278-303 | compiles each rule section in declaration order, as `CompileFromSpec` describes |
| Reader.NotifyConfig.CompileAt | notifyconfig.py:282-303 | one rule section; the rest of the loop is unaffected |
| Reader.NotifyConfig.CheckActions | notifyconfig.py:305-312 | returns the verdict `CheckActionsSpec` describes |
| Reader.NotifyConfig.SetForeground | notifyconfig.py:314-330 | pins or parses `foreground` as `ForegroundPinned` and `ForegroundFirstRead` describe |
| Reader.NotifyConfig.CoerceIntegerKeys | notifyconfig.py:332-340 | coerces `debug` and `subprocess_limit` as `CoerceIntegerSpec` describes |
| Reader.NotifyConfig.CoerceIntegerKey | notifyconfig.py:334-340 | one integer key |
| Reader.NotifyConfig.CoerceRealKeys | notifyconfig.py:342-350 | coerces `move_event_timeout` and `subprocess_poll_interval` with the host's `float()`, failing at the attribute's line |
| Reader.NotifyConfig.CoerceRealKey | notifyconfig.py:344-350 | one float key |
| Reader.NotifyConfig.OpenLogs | notifyconfig.py:352-369 | opens the four targets in turn; the handles given out are exactly those added to the open set |
| Reader.NotifyConfig.OpenLogsOver | notifyconfig.py:353-369 | the open loop over any list of targets |
| Reader.NotifyConfig.OpenLogAt | notifyconfig.py:356-369 | one step of the open loop |
| Reader.NotifyConfig.OpenLogTarget | notifyconfig.py:356-369 | one target, skipped or opened as `OpenLogSpec` describes |
| Reader.NotifyConfig.OpenTargetFile | notifyconfig.py:362-369 | opens one resolved target; the handle given out is the one added to the open set |
| Reader.NotifyConfig.EvalPrepare | notifyconfig.py:253-312 | the first half of `read_eval`: options, overrides, inheritance, rule sections and actions |
| Reader.NotifyConfig.EvalFinish | notifyconfig.py:314-369 | the second half of `read_eval`: `foreground`, integers, floats and log files |
| Reader.NotifyConfig.ReadEval | notifyconfig.py:253-369 | the whole of `read_eval`; the handles given out are added to the open set |
| Reader.NotifyConfig.ReadTry | notifyconfig.py:137-144 | the three passes, leaving the configuration in use alone; on success the tables are ready to commit |
| Reader.NotifyConfig.ReadCommit | notifyconfig.py:145-155 | commits the new tables, then records the callback with the handles open at that moment, which include every handle of the replaced configuration, and only then closes those handles, keeping the invariant |
| Reader.NotifyConfig.Read | notifyconfig.py:136-155 | on failure, the configuration in use and the reloads are unchanged; on success the new tables are in use and the callback is recorded with the handles open when it runs: the old ones plus the new files, a set holding every handle of the replaced configuration; afterwards those are closed; `Valid()` holds either way |
| Reader.NotifyConfig.ReadCleanup | notifyconfig.py:157-167 | closes the handles `CleanupSpec` lists and nothing else |
| Reader.NotifyConfig.Dump | notifyconfig.py:371-391 | writes the configuration in use as the corrected `dump` does |
| Reader.WriteSection | notifyconfig.py:374-389 | one section, with its line comment, name and entries |
| Reader.WriteEntry | notifyconfig.py:377-389 | one entry, written according to its section's kind |
| Reader.WriteActions | notifyconfig.py:386-389 | the attributes of a list entry, in turn |
| Reader.CheckSectionOptions | notifyconfig.py:258-261 | the option check of one section |
| Reader.CheckSectionActions | notifyconfig.py:306-312 | the action check of one section |

## Left out

- File reading and `open(path, "a")` are parameters. The lines of the file
  and the host's answer to each open are given. An open file is a numbered
  handle, and closing it removes the handle from a ghost set.
- `shlex.split`, `re.compile` and `float()` are foreign code and sit behind
  the `Host` parameter. Their error texts and the printed form of a float
  are taken as the host gives them.
- Python 2 dictionaries have no defined order; the model fixes every
  iteration to declaration order. This affects the defaults table,
  `self.sections.items()`, a section's `items()` and the overrides. When
  several errors are present, the one reported is the first in that order.
- `Dump.Str`: a word list prints each word in single quotes. It ignores how
  Python's `repr` escapes quotes and backslashes. No reachable `dump` prints
  a word list this way.
- Inheritance from `default` copies the attribute by reference in the
  source; the model copies the value. Sharing is not observable, because
  `default` can hold no key once the option check has passed.
- The `config()` methods of the attribute and section classes are never
  called and are left out. So are the `setattr` delegation in the section
  constructor (the model reaches the attribute map directly) and
  `error()`/`NotifyConfigError.__init__` (their line choice is folded into
  each failure's line).
- The constructor writes `path` into the class-level defaults table. That
  table is shared by every reader. The model keeps `path` per reader as
  `basePath`.
- Files opened by a read that then fails are never closed, including
  those opened before a later open fails. The model keeps them in the open
  set (`Read`, `FailedReadConsistent`) rather than calling this a defect.
- On a reload in the foreground, the `stdout` and `stderr` opened by the
  first read are never closed. The model keeps them open in the same way.
- The `callback.reload(old, new)` call is recorded in the ghost `reloads`
  field rather than calling foreign code. Each record holds the old and new
  tables and the handles open when the callback ran.
- Dump.DumpText: reading back the text `dump` writes is not modelled, and
  that round trip does not hold. A `config` value whose stripped text ends
  in `\`, such as the statement `  stdout /tmp/x\ ` with a trailing space,
  is written on a line ending in `\`, which `gen_lines` joins to the next
  line. A rule-section word holding `"` is written between double quotes
  without escaping, so `shlex.split` reads different words.
- `del(self.sections)` and `del(self.sections_order)` are not modelled. The
  tables of the read in progress stay in place until the next read resets
  them.
- Exceptions other than `NotifyConfigError` are kept only by name
  (`IOError`, `KeyError`, `IndexError`, `TypeError`, `AttributeError`).
  Values of a kind the reader cannot meet at that point are reported as
  `TypeError`.
- Integers are unbounded, as Python's are.
- Where the source and its prose description disagree, the model follows
  the source:
  - A statement continued over several lines is numbered by its first
    physical line, plus any comment lines inside it, not by the line where
    it completes (`Lines.FirstLineNumber`, `Lines.StatementNumber`).
  - Any key in `default` is an unknown option, so inheritance never copies
    anything (`Eval.InheritAfterCheckIsIdentity`).
  - Rule actions are stored with `multi=False`, so a repeated action is a
    duplicate-attribute error.
  - A line ending in `:` is a section header even when indented.
  - An attribute before any section fails with `AttributeError`.
  - A rule name `/x` fails with `IndexError`.
  - An invalid `foreground` is reported at the last parsed line.

## Findings

| source | as written | input that shows it | evidently intended | confidence | as-written member | corrected member |
|---|---|---|---|---|---|---|
| notifyconfig.py:385-389 | `dump` walks each rule-section entry as a list of attributes, but `read_parse` stores every action as a single attribute (`multi=False`), so iterating it raises `TypeError` | a file with a section `/x/:` holding the indented line `add cmd`, read and then dumped | write the single attribute: its line comment, the key and the quoted words (the note at line 250 suggests the alternative fix, storing actions with `multi=True`) | not executed | Dump.AsWrittenFailsOnActions | Commit.CommittedDumps |
