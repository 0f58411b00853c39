/**
 * The grammar of the configuration file and the injection of defaults, as
 * functions of the in-progress state: `add_section`, `add_attribute`, one
 * turn of `read_parse`'s loop, the whole loop, and `read_defaults`.
 */
module Parse {
  import opened Wrappers
  import opened Text
  import opened Lines
  import opened Config

  /**
   * The reader's in-progress state while parsing: `sections`,
   * `sections_order`, `current_section` (by name; `None` stands for the
   * initial `False`) and `line_number`.
   */
  datatype Parsing = Parsing(
    sections: map<string, Section>,
    order: seq<string>,
    current: Option<string>,
    lineNumber: int)

  /** The state `read_parse` starts from. */
  const Fresh := Parsing(map[], [], None, 0)

  /** The current section, once there is one, is in the table. */
  predicate CurrentExists(p: Parsing)
  {
    p.current.Some? ==> p.current.value in p.sections
  }

  /** The in-progress state is well formed: a proper table and a current section in it. */
  ghost predicate Good(p: Parsing)
  {
    Ordered(p.sections, p.order) && CurrentExists(p)
  }

  /** `add_section(name)`. */
  function AddSectionTo(p: Parsing, name: string): (r: Result<Parsing, Failure>)
    ensures r.Failure? <==> name in p.sections
    ensures r.Success? ==> CurrentExists(r.value)
  {
    if name in p.sections then
      Failure(ConfigError(p.lineNumber, DuplicateSection(name, p.sections[name].line)))
    else
      Success(p.(sections := p.sections[name := NewSection(p.lineNumber, name)],
                 order := p.order + [name],
                 current := Some(name)))
  }

  /**
   * `add_section` refuses a name already in the table, citing the line of
   * its first definition; otherwise it appends the name to the order, makes
   * its new empty section current and leaves the other sections as they were.
   */
  lemma AddSectionSpec(p: Parsing, name: string)
    ensures var r := AddSectionTo(p, name);
      (name in p.sections ==> r == Failure(ConfigError(p.lineNumber, DuplicateSection(name, p.sections[name].line)))) &&
      (name !in p.sections ==>
        r.Success? && r.value.order == p.order + [name] && r.value.current == Some(name) &&
        r.value.sections.Keys == p.sections.Keys + {name} &&
        r.value.sections[name] == NewSection(p.lineNumber, name) &&
        r.value.lineNumber == p.lineNumber &&
        forall n :: n in p.sections ==> r.value.sections[n] == p.sections[n])
  {
  }

  /** `add_section` keeps the table well formed. */
  lemma AddSectionKeepsGood(p: Parsing, name: string)
    requires Good(p)
    ensures AddSectionTo(p, name).Success? ==> Good(AddSectionTo(p, name).value)
  {
    if name !in p.sections {
      DistinctAppend(p.order, name);
    }
  }

  /** `add_attribute(key, value, multi)` on the current section. */
  function AddAttributeTo(p: Parsing, key: string, value: Value, multi: bool): (r: Result<Parsing, Failure>)
    requires CurrentExists(p)
    ensures r.Success? ==> CurrentExists(r.value)
  {
    match p.current
    case None => Failure(RuntimeError(AttributeError))
    case Some(cur) =>
      var s := p.sections[cur];
      var a := Attr(p.lineNumber, value, None);
      if key in s.attrs then
        match s.attrs[key]
        case One(first) =>
          if multi then Failure(RuntimeError(AttributeError))
          else Failure(ConfigError(p.lineNumber, DuplicateAttribute(key, first.line)))
        case Many(list) =>
          if multi then Success(p.(sections := p.sections[cur := s.(attrs := s.attrs[key := Many(list + [a])])]))
          else Failure(RuntimeError(AttributeError))
      else
        var e := if multi then Many([a]) else One(a);
        Success(p.(sections := p.sections[cur := s.(attrs := s.attrs[key := e], keys := s.keys + [key])]))
  }

  /**
   * `add_attribute` without `multi` refuses a key the current section
   * already has, citing the line of the first one; a new key is stored with
   * the current line and the given value, at the end of the key order, and
   * nothing else changes. With `multi`, a repeated key's list grows by the
   * new attribute.
   */
  lemma AddAttributeSpec(p: Parsing, key: string, value: Value, multi: bool)
    requires Good(p) && p.current.Some?
    ensures var cur := p.current.value;
      var s := p.sections[cur];
      var r := AddAttributeTo(p, key, value, multi);
      var a := Attr(p.lineNumber, value, None);
      (key in s.attrs && !multi && s.attrs[key].One? ==>
        r == Failure(ConfigError(p.lineNumber, DuplicateAttribute(key, s.attrs[key].attr.line)))) &&
      (key in s.attrs && multi && s.attrs[key].Many? ==>
        r.Success? && r.value.sections[cur].attrs[key] == Many(s.attrs[key].attrs + [a])) &&
      (key !in s.attrs ==>
        r.Success? && r.value.sections[cur].attrs[key] == (if multi then Many([a]) else One(a)) &&
        r.value.sections[cur].keys == s.keys + [key]) &&
      (r.Success? ==>
        r.value.order == p.order && r.value.current == p.current &&
        r.value.sections.Keys == p.sections.Keys &&
        (forall n :: n in p.sections && n != cur ==> r.value.sections[n] == p.sections[n]) &&
        (forall k :: k in s.attrs && k != key ==> r.value.sections[cur].attrs[k] == s.attrs[k]) &&
        r.value.sections[cur].line == s.line && r.value.sections[cur].name == s.name)
  {
  }

  /** `add_attribute` keeps the table well formed. */
  lemma AddAttributeKeepsGood(p: Parsing, key: string, value: Value, multi: bool)
    requires Good(p)
    ensures AddAttributeTo(p, key, value, multi).Success? ==> Good(AddAttributeTo(p, key, value, multi).value)
  {
    if p.current.Some? && key !in p.sections[p.current.value].attrs {
      DistinctAppend(p.sections[p.current.value].keys, key);
    }
  }

  /** A statement that starts with a space or a tab before it is stripped. */
  predicate Indented(text: string)
  {
    |text| > 0 && (text[0] == ' ' || text[0] == '\t')
  }

  /** One turn of `read_parse`'s loop: the statement `st` read in state `p`. */
  function Statement(p: Parsing, st: Logical, host: Host): (r: Result<Parsing, Failure>)
    requires CurrentExists(p)
    ensures r.Success? ==> CurrentExists(r.value)
  {
    var p := p.(lineNumber := st.line);
    var line := Strip(st.text);
    if line == "" then Success(p)
    else if line[|line| - 1] == ':' then AddSectionTo(p, line[..|line| - 1])
    else if !Indented(st.text) then Failure(ConfigError(p.lineNumber, NotIndented(line)))
    else match p.current
      case None => Failure(RuntimeError(AttributeError))
      case Some(cur) =>
        var name := p.sections[cur].name;
        if name == "watch" then AddAttributeTo(p, line, Text(""), false)
        else if name == "env" || name == "config" then
          var parts := SplitFirst(line, ' ');
          AddAttributeTo(p, parts.0, Text(parts.1), false)
        else match host.split(line)
          case Failure(reason) => Failure(ConfigError(p.lineNumber, InvalidSyntax(reason, line)))
          case Success(words) =>
            if words == [] then Failure(RuntimeError(IndexError))
            else AddAttributeTo(p, words[0], Words(words[1..]), false)
  }

  /** Every statement keeps the table well formed. */
  lemma StatementKeepsGood(p: Parsing, st: Logical, host: Host)
    requires Good(p)
    ensures Statement(p, st, host).Success? ==> Good(Statement(p, st, host).value)
  {
    var q := p.(lineNumber := st.line);
    var line := Strip(st.text);
    if line != "" {
      if line[|line| - 1] == ':' {
        AddSectionKeepsGood(q, line[..|line| - 1]);
      } else if Indented(st.text) && q.current.Some? {
        var name := q.sections[q.current.value].name;
        if name == "watch" {
          AddAttributeKeepsGood(q, line, Text(""), false);
        } else if name == "env" || name == "config" {
          var parts := SplitFirst(line, ' ');
          AddAttributeKeepsGood(q, parts.0, Text(parts.1), false);
        } else if host.split(line).Success? && host.split(line).value != [] {
          var words := host.split(line).value;
          AddAttributeKeepsGood(q, words[0], Words(words[1..]), false);
        }
      }
    }
  }

  /** A statement that declares an attribute: non-blank, not a header, indented. */
  predicate AttributeLine(st: Logical)
  {
    var line := Strip(st.text);
    line != "" && line[|line| - 1] != ':' && Indented(st.text)
  }

  /**
   * What declaring `key` with `value` at `line` does to the current section:
   * a key it already holds fails, citing the key's first line (a list has no
   * line: `AttributeError`); a new key is added with the value at that line,
   * at the end of the section's keys, and nothing else in the table changes.
   */
  ghost predicate Declared(p: Parsing, r: Result<Parsing, Failure>, line: int, key: string, value: Value)
  {
    p.current.Some? && p.current.value in p.sections &&
    var cur := p.current.value;
    var s := p.sections[cur];
    (key in s.attrs && s.attrs[key].One? ==>
      r == Failure(ConfigError(line, DuplicateAttribute(key, s.attrs[key].attr.line)))) &&
    (key in s.attrs && s.attrs[key].Many? ==> r == Failure(RuntimeError(AttributeError))) &&
    (key !in s.attrs ==>
      r.Success? && r.value.order == p.order && r.value.current == p.current && r.value.lineNumber == line &&
      r.value.sections.Keys == p.sections.Keys &&
      (forall n :: n in p.sections && n != cur ==> r.value.sections[n] == p.sections[n]) &&
      r.value.sections[cur].attrs == s.attrs[key := One(Attr(line, value, None))] &&
      r.value.sections[cur].keys == s.keys + [key] &&
      r.value.sections[cur].line == s.line && r.value.sections[cur].name == s.name)
  }

  /**
   * Statements that are not attributes. A blank one changes only the line
   * number. A stripped line ending in `:`, indented or not, opens the section
   * named by the text before the colon: a name already defined fails citing
   * its first line; a new one gets an empty section at the statement's line,
   * is appended to the order and becomes current. Any other unindented line
   * fails at its line quoting the stripped text, and an attribute before any
   * section has no current section to go to (`AttributeError`).
   */
  lemma StatementSections(p: Parsing, st: Logical, host: Host)
    requires Good(p)
    ensures var line := Strip(st.text);
      var r := Statement(p, st, host);
      (line == "" ==> r == Success(p.(lineNumber := st.line))) &&
      (line != "" && line[|line| - 1] == ':' ==>
        var name := line[..|line| - 1];
        (name in p.sections ==> r == Failure(ConfigError(st.line, DuplicateSection(name, p.sections[name].line)))) &&
        (name !in p.sections ==>
          r == Success(Parsing(p.sections[name := NewSection(st.line, name)], p.order + [name], Some(name), st.line)))) &&
      (line != "" && line[|line| - 1] != ':' && !Indented(st.text) ==>
        r == Failure(ConfigError(st.line, NotIndented(line)))) &&
      (AttributeLine(st) && p.current == None ==> r == Failure(RuntimeError(AttributeError)))
  {
  }

  /** In `watch` the whole stripped line is the key, with an empty text. */
  lemma StatementWatch(p: Parsing, st: Logical, host: Host)
    requires Good(p)
    ensures AttributeLine(st) && p.current == Some("watch") ==>
      Declared(p, Statement(p, st, host), st.line, Strip(st.text), Text(""))
  {
  }

  /**
   * In `env` and `config` the key is the stripped line up to its first
   * space, and the value the text after that space (empty without one).
   */
  lemma StatementKeyValue(p: Parsing, st: Logical, host: Host)
    requires Good(p)
    ensures AttributeLine(st) && (p.current == Some("env") || p.current == Some("config")) ==>
      var line := Strip(st.text);
      var key, rest := SplitFirst(line, ' ').0, SplitFirst(line, ' ').1;
      ' ' !in key &&
      (' ' in line ==> line == key + " " + rest) && (' ' !in line ==> key == line && rest == "") &&
      Declared(p, Statement(p, st, host), st.line, key, Text(rest))
  {
  }

  /**
   * In any other section the line is split into shell words: a line the
   * splitter refuses fails at the statement's line with its reason, a line
   * without words has no key (`IndexError`), and otherwise the first word is
   * the key and the other words are the value.
   */
  lemma StatementRule(p: Parsing, st: Logical, host: Host)
    requires Good(p)
    ensures AttributeLine(st) && p.current.Some? && !Unchecked(p.current.value) ==>
      var line := Strip(st.text);
      var r := Statement(p, st, host);
      (host.split(line).Failure? ==> r == Failure(ConfigError(st.line, InvalidSyntax(host.split(line).error, line)))) &&
      (host.split(line) == Success([]) ==> r == Failure(RuntimeError(IndexError))) &&
      (host.split(line).Success? && host.split(line).value != [] ==>
        Declared(p, r, st.line, host.split(line).value[0], Words(host.split(line).value[1..])))
  {
  }

  /** `read_parse`'s loop over the statements, from state `p`; it stops at the first failure. */
  function ParseFrom(p: Parsing, stmts: seq<Logical>, host: Host): (r: Result<Parsing, Failure>)
    requires CurrentExists(p)
    ensures r.Success? ==> CurrentExists(r.value)
    decreases |stmts|
  {
    if stmts == [] then Success(p)
    else match Statement(p, stmts[0], host)
      case Failure(e) => Failure(e)
      case Success(q) => ParseFrom(q, stmts[1..], host)
  }

  /** The statements of a file's lines, as `read_parse` builds them: a `" "` line is added first. */
  function Statements(lines: seq<string>): seq<Logical>
  {
    Produce(Classified(lines + [" "] + [""])).1
  }

  /** `read_parse` on the lines of the file. */
  function ParseFile(lines: seq<string>, host: Host): Result<Parsing, Failure>
  {
    ParseFrom(Fresh, Statements(lines), host)
  }

  /** Parsing keeps the table well formed. */
  lemma {:induction false} ParseKeepsGood(p: Parsing, stmts: seq<Logical>, host: Host)
    requires Good(p)
    ensures ParseFrom(p, stmts, host).Success? ==> Good(ParseFrom(p, stmts, host).value)
    decreases |stmts|
  {
    if stmts != [] {
      StatementKeepsGood(p, stmts[0], host);
      if Statement(p, stmts[0], host).Success? {
        ParseKeepsGood(Statement(p, stmts[0], host).value, stmts[1..], host);
      }
    }
  }

  /**
   * Every key holds one attribute (never a list); `config` and `env` hold
   * text, and every section but `watch`, `env` and `config` holds words.
   */
  ghost predicate Plain(sections: map<string, Section>)
  {
    (forall n, k :: n in sections && k in sections[n].attrs ==> sections[n].attrs[k].One?) &&
    (forall n, k :: n in sections && (n == "config" || n == "env") && k in sections[n].attrs ==>
      sections[n].attrs[k].attr.value.Text? && sections[n].attrs[k].attr.file == None) &&
    (forall n, k :: n in sections && !Unchecked(n) && k in sections[n].attrs ==>
      sections[n].attrs[k].One? && sections[n].attrs[k].attr.value.Words?)
  }

  lemma AddAttributePlain(p: Parsing, key: string, value: Value)
    requires Good(p) && Plain(p.sections) && p.current.Some?
    requires p.current.value == "config" || p.current.value == "env" ==> value.Text?
    requires !Unchecked(p.current.value) ==> value.Words?
    ensures AddAttributeTo(p, key, value, false).Success? ==> Plain(AddAttributeTo(p, key, value, false).value.sections)
  {
  }

  lemma StatementPlain(p: Parsing, st: Logical, host: Host)
    requires Good(p) && Plain(p.sections)
    ensures Statement(p, st, host).Success? ==> Plain(Statement(p, st, host).value.sections)
  {
    var q := p.(lineNumber := st.line);
    var line := Strip(st.text);
    if line != "" {
      if line[|line| - 1] == ':' {
        var name := line[..|line| - 1];
        if name !in q.sections {
          assert AddSectionTo(q, name).value.sections == q.sections[name := NewSection(q.lineNumber, name)];
        }
      } else if Indented(st.text) && q.current.Some? {
        var name := q.sections[q.current.value].name;
        if name == "watch" {
          AddAttributePlain(q, line, Text(""));
        } else if name == "env" || name == "config" {
          var parts := SplitFirst(line, ' ');
          AddAttributePlain(q, parts.0, Text(parts.1));
        } else if host.split(line).Success? && host.split(line).value != [] {
          var words := host.split(line).value;
          AddAttributePlain(q, words[0], Words(words[1..]));
        }
      }
    }
  }

  /**
   * The reader only ever adds attributes one at a time, so no key ends up
   * with a list; the `config` and `env` sections hold only text, and the
   * rule sections and `default` only the words of their statements.
   */
  lemma {:induction false} ParsePlain(p: Parsing, stmts: seq<Logical>, host: Host)
    requires Good(p) && Plain(p.sections)
    ensures ParseFrom(p, stmts, host).Success? ==> Plain(ParseFrom(p, stmts, host).value.sections)
    decreases |stmts|
  {
    if stmts != [] {
      StatementKeepsGood(p, stmts[0], host);
      StatementPlain(p, stmts[0], host);
      if Statement(p, stmts[0], host).Success? {
        ParsePlain(Statement(p, stmts[0], host).value, stmts[1..], host);
      }
    }
  }

  // ---- read_defaults ----

  /** The attribute `read_defaults` adds for a missing key: line 0, the default text. */
  function DefaultAttr(value: string): Entry
  {
    One(Attr(0, Text(value), None))
  }

  /** The inner loop of `read_defaults`: adds each default key the section lacks. */
  function FillSection(s: Section, defaults: seq<(string, string)>): Section
    decreases |defaults|
  {
    if defaults == [] then s
    else
      var key := defaults[0].0;
      var s' := if key in s.attrs then s
        else s.(attrs := s.attrs[key := DefaultAttr(defaults[0].1)], keys := s.keys + [key]);
      FillSection(s', defaults[1..])
  }

  /** The value the first pair with key `key` gives, if any. */
  function Lookup(pairs: seq<(string, string)>, key: string): (r: Option<string>)
    ensures r.Some? ==> (key, r.value) in pairs
    ensures r.None? ==> forall d :: d in pairs ==> d.0 != key
  {
    if pairs == [] then None
    else if pairs[0].0 == key then Some(pairs[0].1)
    else Lookup(pairs[1..], key)
  }

  /**
   * After filling, the section holds every default key; keys it had keep
   * their attribute; every key it gained is a default one, at line 0 with
   * the first default text given for it; its line, name and pattern are
   * untouched.
   */
  lemma {:induction false} FillSectionSpec(s: Section, defaults: seq<(string, string)>)
    ensures var r := FillSection(s, defaults);
      (forall d :: d in defaults ==> d.0 in r.attrs) &&
      (forall k :: k in s.attrs ==> k in r.attrs && r.attrs[k] == s.attrs[k]) &&
      (forall k :: k in r.attrs && k !in s.attrs ==>
        Lookup(defaults, k).Some? && r.attrs[k] == DefaultAttr(Lookup(defaults, k).value)) &&
      r.line == s.line && r.name == s.name && r.re == s.re && r.isDir == s.isDir && r.isFile == s.isFile
    decreases |defaults|
  {
    if defaults != [] {
      var key := defaults[0].0;
      var s' := if key in s.attrs then s
        else s.(attrs := s.attrs[key := DefaultAttr(defaults[0].1)], keys := s.keys + [key]);
      FillSectionSpec(s', defaults[1..]);
      assert forall d :: d in defaults ==> d == defaults[0] || d in defaults[1..];
    }
  }

  /** Filling keeps the key order in step with the attributes. */
  lemma {:induction false} FillSectionKeyed(s: Section, defaults: seq<(string, string)>)
    requires WellKeyed(s)
    ensures WellKeyed(FillSection(s, defaults))
    decreases |defaults|
  {
    if defaults != [] {
      var key := defaults[0].0;
      var s' := if key in s.attrs then s
        else s.(attrs := s.attrs[key := DefaultAttr(defaults[0].1)], keys := s.keys + [key]);
      if key !in s.attrs {
        DistinctAppend(s.keys, key);
      }
      FillSectionKeyed(s', defaults[1..]);
    }
  }

  /** One turn of `read_defaults`' outer loop: the section is created if missing, then filled. */
  function InjectSection(p: Parsing, name: string, basePath: string): Parsing
  {
    var q := if name in p.sections then p else AddSectionTo(p, name).value;
    q.(sections := q.sections[name := FillSection(q.sections[name], Defaults(name, basePath))])
  }

  /** `read_defaults`' outer loop over the names of the defaults table. */
  function InjectFrom(p: Parsing, names: seq<string>, basePath: string): Parsing
    decreases |names|
  {
    if names == [] then p else InjectFrom(InjectSection(p, names[0], basePath), names[1..], basePath)
  }

  /** `read_defaults`. */
  function WithDefaults(p: Parsing, basePath: string): Parsing
  {
    InjectFrom(p, DefaultSections, basePath)
  }

  /** An attribute `p` already has, and where. */
  ghost predicate Had(p: Parsing, n: string, k: string)
  {
    n in p.sections && k in p.sections[n].attrs
  }

  lemma InjectSectionGood(p: Parsing, name: string, basePath: string)
    requires Good(p)
    ensures Good(InjectSection(p, name, basePath))
  {
    var q := if name in p.sections then p else AddSectionTo(p, name).value;
    assert Good(q) && name in q.sections by {
      AddSectionKeepsGood(p, name);
    }
    var f := FillSection(q.sections[name], Defaults(name, basePath));
    assert f.name == name && WellKeyed(f) by {
      FillSectionSpec(q.sections[name], Defaults(name, basePath));
      FillSectionKeyed(q.sections[name], Defaults(name, basePath));
    }
    OrderedReplace(q.sections, q.order, name, f);
    assert InjectSection(p, name, basePath) == q.(sections := q.sections[name := f]);
  }

  lemma InjectSectionSpec(p: Parsing, name: string, basePath: string)
    ensures var r := InjectSection(p, name, basePath);
      name in r.sections && (forall d :: d in Defaults(name, basePath) ==> d.0 in r.sections[name].attrs) &&
      (forall n :: n in p.sections ==> n in r.sections) &&
      (forall n :: n in p.sections && n != name ==> r.sections[n] == p.sections[n]) &&
      (forall n, k :: Had(p, n, k) ==> k in r.sections[n].attrs && r.sections[n].attrs[k] == p.sections[n].attrs[k]) &&
      (forall n, k :: n in r.sections && k in r.sections[n].attrs && !Had(p, n, k) ==>
        n == name && Lookup(Defaults(n, basePath), k).Some? &&
        r.sections[n].attrs[k] == DefaultAttr(Lookup(Defaults(n, basePath), k).value)) &&
      (name in p.sections ==> r.sections[name].line == p.sections[name].line) &&
      (name !in p.sections ==> r.sections[name].line == p.lineNumber)
  {
    var q := if name in p.sections then p else AddSectionTo(p, name).value;
    assert name in q.sections && (name !in p.sections ==> q.sections[name] == NewSection(p.lineNumber, name)) by {
      AddSectionSpec(p, name);
    }
    assert forall n :: n in p.sections ==> n in q.sections && q.sections[n] == p.sections[n] by {
      AddSectionSpec(p, name);
    }
    assert q.sections.Keys == p.sections.Keys + {name} by {
      AddSectionSpec(p, name);
    }
    FillSectionSpec(q.sections[name], Defaults(name, basePath));
  }

  /** `read_defaults` keeps the table well formed. */
  lemma {:induction false} InjectFromGood(p: Parsing, names: seq<string>, basePath: string)
    requires Good(p)
    ensures Good(InjectFrom(p, names, basePath))
    decreases |names|
  {
    if names != [] {
      InjectSectionGood(p, names[0], basePath);
      InjectFromGood(InjectSection(p, names[0], basePath), names[1..], basePath);
    }
  }

  /**
   * After `read_defaults` every section of the defaults table exists and
   * holds every key of its defaults. What the file set is kept, line and
   * all; everything added is a default, at line 0; the other sections are
   * untouched.
   */
  lemma {:induction false} InjectFromSpec(p: Parsing, names: seq<string>, basePath: string)
    ensures var r := InjectFrom(p, names, basePath);
      (forall n :: n in names ==> n in r.sections) &&
      (forall n, d :: n in names && d in Defaults(n, basePath) ==> d.0 in r.sections[n].attrs) &&
      (forall n :: n in p.sections ==> n in r.sections) &&
      (forall n :: n in p.sections && n !in names ==> r.sections[n] == p.sections[n]) &&
      (forall n, k :: Had(p, n, k) ==> k in r.sections[n].attrs && r.sections[n].attrs[k] == p.sections[n].attrs[k]) &&
      (forall n, k :: n in r.sections && k in r.sections[n].attrs && !Had(p, n, k) ==>
        Lookup(Defaults(n, basePath), k).Some? &&
        r.sections[n].attrs[k] == DefaultAttr(Lookup(Defaults(n, basePath), k).value)) &&
      (forall n :: n in p.sections ==> r.sections[n].line == p.sections[n].line)
    decreases |names|
  {
    if names != [] {
      var q := InjectSection(p, names[0], basePath);
      InjectSectionSpec(p, names[0], basePath);
      InjectFromSpec(q, names[1..], basePath);
      var r := InjectFrom(p, names, basePath);
      assert r == InjectFrom(q, names[1..], basePath);
      forall n, d | n in names && d in Defaults(n, basePath) ensures d.0 in r.sections[n].attrs {
        if n != names[0] {
          assert n in names[1..];
        } else {
          assert Had(q, n, d.0);
        }
      }
    }
  }

  /**
   * `read_defaults` adds single text attributes to `config` only, so a
   * plain table stays plain.
   */
  lemma WithDefaultsPlain(p: Parsing, basePath: string)
    requires Plain(p.sections)
    ensures Plain(WithDefaults(p, basePath).sections)
  {
    var r := WithDefaults(p, basePath).sections;
    forall n, k | n in r && k in r[n].attrs
      ensures r[n].attrs[k].One?
      ensures (n == "config" || n == "env") ==> r[n].attrs[k].attr.value.Text? && r[n].attrs[k].attr.file == None
      ensures !Unchecked(n) ==> r[n].attrs[k].attr.value.Words?
    {
      KeptOrDefault(p, basePath, n, k);
    }
  }

  /** An attribute after `read_defaults` was in the file, or is a default of `config`. */
  lemma KeptOrDefault(p: Parsing, basePath: string, n: string, k: string)
    requires var r := WithDefaults(p, basePath).sections; n in r && k in r[n].attrs
    ensures var r := WithDefaults(p, basePath).sections;
      (Had(p, n, k) && r[n].attrs[k] == p.sections[n].attrs[k]) ||
      (n == "config" && Lookup(Defaults(n, basePath), k).Some? &&
        r[n].attrs[k] == DefaultAttr(Lookup(Defaults(n, basePath), k).value))
  {
    var r := WithDefaults(p, basePath).sections;
    InjectFromSpec(p, DefaultSections, basePath);
    if !Had(p, n, k) {
      assert Lookup(Defaults(n, basePath), k).Some?;
    }
  }
}
