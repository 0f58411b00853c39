/**
 * The reader object: the configuration in use (`real_sections` and its
 * order), the tables being built by a read, and the methods that build,
 * check, commit and clean them up in place. Each method is proved against
 * the function of the Parse, Eval, Commit or Dump module that specifies it.
 */
module Reader {
  import opened Wrappers
  import opened Text
  import opened Paths
  import opened Lines
  import opened Config
  import opened Parse
  import opened Eval
  import opened Commit
  import opened Dump

  class NotifyConfig {
    const configPath: string
    const basePath: string

    /** `real_sections` with `real_sections_order`: the configuration in use, once a read succeeded. */
    var inUse: Option<Tables>

    // the read in progress: `sections`, `sections_order`, `current_section`, `line_number`
    var sections: map<string, Section>
    var order: seq<string>
    var current: Option<string>
    var lineNumber: int

    /** The iteration cursor `iter`, once `__iter__` has set it. */
    var iter: Option<int>

    /** The handle the next opened log file gets. */
    var nextHandle: Handle
    /** The log files currently open. */
    ghost var openHandles: set<Handle>
    /**
     * The `callback.reload(old, new)` calls made so far, each with the log
     * files that were open when the callback ran.
     */
    ghost var reloads: seq<(Option<Tables>, Tables, set<Handle>)>

    /** The configuration in use agrees with the open log files. */
    ghost predicate Valid()
      reads this
    {
      Consistent(inUse, openHandles, nextHandle) && (iter.Some? ==> iter.value >= 0)
    }

    /** The read in progress, as the Parse module sees it. */
    function State(): Parsing
      reads this
    {
      Parsing(sections, order, current, lineNumber)
    }

    /** What a read leaves alone until it commits. */
    twostate predicate CommittedKept()
      reads this
    {
      inUse == old(inUse) && iter == old(iter) && reloads == old(reloads) &&
      nextHandle == old(nextHandle) && openHandles == old(openHandles)
    }

    /** `__init__`: nothing read yet; the base path becomes the default of `config.path`. */
    constructor (configPath: string, basePath: string)
      ensures Valid()
      ensures this.configPath == configPath && this.basePath == basePath
      ensures inUse == None && iter == None && reloads == [] && openHandles == {}
    {
      this.configPath := configPath;
      this.basePath := basePath;
      inUse := None;
      sections, order, current, lineNumber := map[], [], None, 0;
      iter := None;
      nextHandle := 0;
      openHandles := {};
      reloads := [];
    }

    /** `add_section(name)`. */
    method AddSection(name: string) returns (r: Outcome<Failure>)
      modifies this
      ensures CommittedKept()
      ensures match AddSectionTo(old(State()), name)
        case Success(p) => r == Pass && State() == p
        case Failure(e) => r == Fail(e) && State() == old(State())
    {
      if name in sections {
        return Fail(ConfigError(lineNumber, DuplicateSection(name, sections[name].line)));
      }
      var s := NewSection(lineNumber, name);
      sections := sections[name := s];
      current := Some(name);
      order := order + [name];
      return Pass;
    }

    /** `add_attribute(key, value, multi)` on the current section. */
    method AddAttribute(key: string, value: Value, multi: bool) returns (r: Outcome<Failure>)
      requires CurrentExists(State())
      modifies this
      ensures CommittedKept()
      ensures match AddAttributeTo(old(State()), key, value, multi)
        case Success(p) => r == Pass && State() == p
        case Failure(e) => r == Fail(e) && State() == old(State())
    {
      var a := Attr(lineNumber, value, None);
      if current.None? {
        return Fail(RuntimeError(AttributeError));
      }
      var cur := current.value;
      var s := sections[cur];
      if key in s.attrs {
        match s.attrs[key] {
          case One(first) =>
            if multi {
              return Fail(RuntimeError(AttributeError));
            }
            return Fail(ConfigError(lineNumber, DuplicateAttribute(key, first.line)));
          case Many(list) =>
            if !multi {
              return Fail(RuntimeError(AttributeError));
            }
            sections := sections[cur := s.(attrs := s.attrs[key := Many(list + [a])])];
            return Pass;
        }
      }
      var e := if multi then Many([a]) else One(a);
      sections := sections[cur := s.(attrs := s.attrs[key := e], keys := s.keys + [key])];
      return Pass;
    }

    /**
     * `read_parse`: the in-progress tables start empty, the file's lines
     * (with a `" "` line added) are turned into statements, and each
     * statement is read in turn until one fails.
     */
    method ReadParse(file: Option<seq<string>>, host: Host) returns (r: Outcome<Failure>)
      modifies this
      ensures CommittedKept()
      ensures file.None? ==> r == Fail(RuntimeError(IOError))
      ensures file.Some? ==>
        match ParseFile(file.value, host)
        case Success(p) => r == Pass && State() == p
        case Failure(e) => r == Fail(e)
    {
      sections, order, current, lineNumber := map[], [], None, 0;
      if file.None? {
        return Fail(RuntimeError(IOError));
      }
      var stmts := GenLines(file.value + [" "]);
      assert stmts == Statements(file.value);
      var i := 0;
      while i < |stmts|
        invariant 0 <= i <= |stmts|
        invariant CommittedKept() && CurrentExists(State())
        invariant ParseFile(file.value, host) == ParseFrom(State(), stmts[i..], host)
      {
        var st := stmts[i];
        ghost var before := State();
        assert ParseFrom(before, stmts[i..], host) ==
          match Statement(before, st, host)
          case Failure(e) => Failure(e)
          case Success(q) => ParseFrom(q, stmts[i + 1..], host)
        by {
          assert stmts[i..][0] == st && stmts[i..][1..] == stmts[i + 1..];
        }
        r := ParseStatement(st, host);
        if r.Fail? {
          return;
        }
        i := i + 1;
      }
      return Pass;
    }

    /** The body of `read_parse`'s loop: one statement. */
    method ParseStatement(st: Logical, host: Host) returns (r: Outcome<Failure>)
      requires CurrentExists(State())
      modifies this
      ensures CommittedKept() && CurrentExists(State())
      ensures match Statement(old(State()), st, host)
        case Success(p) => r == Pass && State() == p
        case Failure(e) => r == Fail(e)
    {
      lineNumber := st.line;
      var indent := Indented(st.text);
      var line := Strip(st.text);
      if line == "" {
        return Pass;
      }
      if line[|line| - 1] == ':' {
        r := AddSection(line[..|line| - 1]);
        return;
      }
      if !indent {
        return Fail(ConfigError(lineNumber, NotIndented(line)));
      }
      if current.None? {
        return Fail(RuntimeError(AttributeError));
      }
      var name := sections[current.value].name;
      if name == "watch" {
        r := AddAttribute(line, Text(""), false);
      } else if name == "env" || name == "config" {
        var parts := SplitFirst(line, ' ');
        r := AddAttribute(parts.0, Text(parts.1), false);
      } else {
        match host.split(line) {
          case Failure(reason) =>
            return Fail(ConfigError(lineNumber, InvalidSyntax(reason, line)));
          case Success(words) =>
            if words == [] {
              return Fail(RuntimeError(IndexError));
            }
            r := AddAttribute(words[0], Words(words[1..]), false);
        }
      }
    }

    /**
     * `read_defaults`: each section of the defaults table is created if
     * the file lacks it, and each default key it lacks is added at line 0.
     */
    method ReadDefaults()
      modifies this
      ensures CommittedKept()
      ensures State() == WithDefaults(old(State()), basePath)
    {
      var i := 0;
      while i < |DefaultSections|
        invariant 0 <= i <= |DefaultSections|
        invariant CommittedKept()
        invariant WithDefaults(old(State()), basePath) == InjectFrom(State(), DefaultSections[i..], basePath)
      {
        var name := DefaultSections[i];
        ghost var before := State();
        assert InjectFrom(before, DefaultSections[i..], basePath) ==
          InjectFrom(InjectSection(before, name, basePath), DefaultSections[i + 1..], basePath)
        by {
          assert DefaultSections[i..][0] == name && DefaultSections[i..][1..] == DefaultSections[i + 1..];
        }
        if name !in sections {
          var added := AddSection(name);
        }
        assert name in sections;
        FillDefaults(name);
        i := i + 1;
      }
    }

    /** The inner loop of `read_defaults`: the default keys section `name` lacks are added. */
    method FillDefaults(name: string)
      requires name in sections
      modifies this
      ensures CommittedKept()
      ensures State() == old(State()).(sections := old(sections)[name := FillSection(old(sections)[name], Defaults(name, basePath))])
    {
      var defaults := Defaults(name, basePath);
      var j := 0;
      while j < |defaults|
        invariant 0 <= j <= |defaults| && name in sections
        invariant CommittedKept()
        invariant State() == old(State()).(sections := old(sections)[name := sections[name]])
        invariant FillSection(old(sections)[name], defaults) == FillSection(sections[name], defaults[j..])
      {
        assert defaults[j..][0] == defaults[j] && defaults[j..][1..] == defaults[j + 1..];
        var key := defaults[j].0;
        if key !in sections[name].attrs {
          var s := sections[name];
          sections := sections[name := s.(attrs := s.attrs[key := DefaultAttr(defaults[j].1)], keys := s.keys + [key])];
        }
        j := j + 1;
      }
      assert defaults[j..] == [];
    }

    // ---- read_eval, stage by stage ----

    /** The unknown-option check: reads the in-progress tables, changes nothing. */
    method CheckOptions() returns (r: Outcome<Failure>)
      requires Walkable(sections, [])
      ensures r == CheckOptionsFrom(sections, DefaultSections, basePath)
    {
      var i := 0;
      while i < |DefaultSections|
        invariant 0 <= i <= |DefaultSections|
        invariant CheckOptionsFrom(sections, DefaultSections, basePath) == CheckOptionsFrom(sections, DefaultSections[i..], basePath)
      {
        var name := DefaultSections[i];
        assert DefaultSections[i..][0] == name && DefaultSections[i..][1..] == DefaultSections[i + 1..];
        if name in sections {
          r := CheckSectionOptions(name, sections[name], DefaultKeys(name, basePath));
          if r.Fail? {
            return;
          }
        }
        i := i + 1;
      }
      return Pass;
    }

    /** The overrides: each given key of `config` gets the given text. */
    method ApplyOverrides(overrides: seq<(string, string)>) returns (r: Outcome<Failure>)
      modifies this
      ensures CommittedKept() && order == old(order) && lineNumber == old(lineNumber)
      ensures match Override(old(sections), overrides)
        case Success(m) => r == Pass && sections == m
        case Failure(e) => r == Fail(e)
    {
      var i := 0;
      while i < |overrides|
        invariant 0 <= i <= |overrides|
        invariant CommittedKept() && order == old(order) && lineNumber == old(lineNumber)
        invariant Override(old(sections), overrides) == Override(sections, overrides[i..])
      {
        assert overrides[i..][0] == overrides[i] && overrides[i..][1..] == overrides[i + 1..];
        var key := overrides[i].0;
        if "config" !in sections || key !in sections["config"].attrs {
          return Fail(RuntimeError(KeyError));
        }
        var c := sections["config"];
        match c.attrs[key] {
          case Many(_) =>
            return Fail(RuntimeError(AttributeError));
          case One(a) =>
            sections := sections["config" := c.(attrs := c.attrs[key := One(a.(value := Text(overrides[i].1)))])];
        }
        i := i + 1;
      }
      return Pass;
    }

    /** Inheritance: each rule section takes the keys of `default` it lacks. */
    method InheritDefaults() returns (r: Outcome<Failure>)
      requires Walkable(sections, order)
      modifies this
      ensures CommittedKept() && order == old(order) && lineNumber == old(lineNumber)
      ensures match Inherit(old(sections), order)
        case Success(m) => r == Pass && sections == m
        case Failure(e) => r == Fail(e)
    {
      if "default" !in sections {
        return Fail(RuntimeError(KeyError));
      }
      var d := sections["default"];
      var i := 0;
      while i < |order|
        invariant 0 <= i <= |order|
        invariant CommittedKept() && order == old(order) && lineNumber == old(lineNumber)
        invariant InheritFrom(old(sections), order, d) == InheritFrom(sections, order[i..], d)
      {
        var name := order[i];
        assert order[i..][0] == name && order[i..][1..] == order[i + 1..];
        if !Reserved(name) && name in sections {
          var s := sections[name];
          var j := 0;
          while j < |d.keys|
            invariant 0 <= j <= |d.keys|
            invariant InheritInto(sections[name], d, d.keys) == InheritInto(s, d, d.keys[j..])
          {
            assert d.keys[j..][0] == d.keys[j] && d.keys[j..][1..] == d.keys[j + 1..];
            var key := d.keys[j];
            if key !in s.attrs {
              s := s.(attrs := s.attrs[key := d.attrs[key]], keys := s.keys + [key]);
            }
            j := j + 1;
          }
          assert d.keys[j..] == [];
          sections := sections[name := s];
        }
        i := i + 1;
      }
      return Pass;
    }

    /** The rule sections: each gets its pattern and its flags from its name. */
    method CompileRules(host: Host) returns (r: Outcome<Failure>)
      modifies this
      ensures CommittedKept() && order == old(order) && lineNumber == old(lineNumber)
      ensures match CompileFrom(old(sections), order, host)
        case Success(m) => r == Pass && sections == m
        case Failure(e) => r == Fail(e)
    {
      var i := 0;
      while i < |order|
        invariant 0 <= i <= |order|
        invariant CommittedKept() && order == old(order) && lineNumber == old(lineNumber)
        invariant CompileFrom(old(sections), order, host) == CompileFrom(sections, order[i..], host)
      {
        r := CompileAt(i, host);
        if r.Fail? {
          return;
        }
        i := i + 1;
      }
      return Pass;
    }

    /** The section `order[i]`, as one step of the loop over `order[i..]`. */
    method CompileAt(i: nat, host: Host) returns (r: Outcome<Failure>)
      requires i < |order|
      modifies this
      ensures CommittedKept() && order == old(order) && lineNumber == old(lineNumber)
      ensures r.Pass? ==> CompileFrom(old(sections), order[i..], host) == CompileFrom(sections, order[i + 1..], host)
      ensures r.Fail? ==> CompileFrom(old(sections), order[i..], host) == Failure(r.error)
    {
      var name := order[i];
      assert order[i..][0] == name && order[i..][1..] == order[i + 1..];
      if !Reserved(name) && name in sections {
        match RuleOf(name, sections[name], host) {
          case Failure(e) =>
            return Fail(e);
          case Success(s) =>
            sections := sections[name := s];
        }
      }
      return Pass;
    }

    /** The action check: reads the in-progress tables, changes nothing. */
    method CheckActions() returns (r: Outcome<Failure>)
      requires Walkable(sections, order)
      ensures r == CheckActionsFrom(sections, order)
    {
      var i := 0;
      while i < |order|
        invariant 0 <= i <= |order|
        invariant CheckActionsFrom(sections, order) == CheckActionsFrom(sections, order[i..])
      {
        var name := order[i];
        assert order[i..][0] == name && order[i..][1..] == order[i + 1..];
        if !Unchecked(name) {
          r := CheckSectionActions(sections[name]);
          if r.Fail? {
            return;
          }
        }
        i := i + 1;
      }
      return Pass;
    }

    /** `foreground`: pinned on a reload, read as a boolean on a first read. */
    method SetForeground(previous: Option<Tables>) returns (r: Outcome<Failure>)
      modifies this
      ensures CommittedKept() && order == old(order) && lineNumber == old(lineNumber)
      ensures match Foreground(old(sections), previous, lineNumber)
        case Success(m) => r == Pass && sections == m
        case Failure(e) => r == Fail(e)
    {
      if "config" !in sections {
        return Fail(RuntimeError(KeyError));
      }
      if previous.Some? {
        match ConfigValue(previous.value.sections, "foreground") {
          case Failure(e) =>
            return Fail(e);
          case Success(was) =>
            match ConfigValue(sections, "foreground") {
              case Failure(e) =>
                return Fail(e);
              case Success(a) =>
                sections := SetConfig(sections, "foreground", a.(value := was.value));
                return Pass;
            }
        }
      }
      match ConfigValue(sections, "foreground") {
        case Failure(e) =>
          return Fail(e);
        case Success(a) =>
          if !a.value.Text? {
            return Fail(RuntimeError(AttributeError));
          }
          var t := Lower(a.value.s);
          if t == "true" {
            sections := SetConfig(sections, "foreground", a.(value := Flag(true)));
          } else if t == "false" {
            sections := SetConfig(sections, "foreground", a.(value := Flag(false)));
          } else {
            return Fail(ConfigError(lineNumber, InvalidBool(a.value.s, a.line)));
          }
          return Pass;
      }
    }

    /** `debug` and `subprocess_limit` become integers. */
    method CoerceIntegerKeys() returns (r: Outcome<Failure>)
      modifies this
      ensures CommittedKept() && order == old(order) && lineNumber == old(lineNumber)
      ensures match CoerceIntegers(old(sections), IntegerKeys)
        case Success(m) => r == Pass && sections == m
        case Failure(e) => r == Fail(e)
    {
      var i := 0;
      while i < |IntegerKeys|
        invariant 0 <= i <= |IntegerKeys|
        invariant CommittedKept() && order == old(order) && lineNumber == old(lineNumber)
        invariant CoerceIntegers(old(sections), IntegerKeys) == CoerceIntegers(sections, IntegerKeys[i..])
      {
        var key := IntegerKeys[i];
        assert IntegerKeys[i..][0] == key && IntegerKeys[i..][1..] == IntegerKeys[i + 1..];
        r := CoerceIntegerKey(key);
        if r.Fail? {
          return;
        }
        i := i + 1;
      }
      return Pass;
    }

    /** `move_event_timeout` and `subprocess_poll_interval` become floats. */
    method CoerceRealKeys(host: Host) returns (r: Outcome<Failure>)
      modifies this
      ensures CommittedKept() && order == old(order) && lineNumber == old(lineNumber)
      ensures match CoerceReals(old(sections), RealKeys, host)
        case Success(m) => r == Pass && sections == m
        case Failure(e) => r == Fail(e)
    {
      var i := 0;
      while i < |RealKeys|
        invariant 0 <= i <= |RealKeys|
        invariant CommittedKept() && order == old(order) && lineNumber == old(lineNumber)
        invariant CoerceReals(old(sections), RealKeys, host) == CoerceReals(sections, RealKeys[i..], host)
      {
        var key := RealKeys[i];
        assert RealKeys[i..][0] == key && RealKeys[i..][1..] == RealKeys[i + 1..];
        r := CoerceRealKey(key, host);
        if r.Fail? {
          return;
        }
        i := i + 1;
      }
      return Pass;
    }

    /**
     * The log files: each target not skipped is resolved against `path`
     * and opened; the new handle is attached to its attribute. Handles
     * opened before a failing open stay open.
     */
    method OpenLogs(reload: bool, host: Host) returns (r: Outcome<Failure>)
      modifies this
      ensures inUse == old(inUse) && iter == old(iter) && reloads == old(reloads)
      ensures order == old(order) && lineNumber == old(lineNumber)
      ensures old(nextHandle) <= nextHandle && openHandles == old(openHandles) + Range(old(nextHandle), nextHandle)
      ensures match OpenLogsFrom(old(sections), LogTargets, reload, host, old(nextHandle))
        case Success(v) => r == Pass && sections == v.0 && nextHandle == v.1
        case Failure(e) => r == Fail(e)
    {
      r := OpenLogsOver(LogTargets, reload, host);
    }

    /** The targets `keys` in turn; the first open that fails ends the loop. */
    method OpenLogsOver(keys: seq<string>, reload: bool, host: Host) returns (r: Outcome<Failure>)
      modifies this
      ensures inUse == old(inUse) && iter == old(iter) && reloads == old(reloads)
      ensures order == old(order) && lineNumber == old(lineNumber)
      ensures old(nextHandle) <= nextHandle && openHandles == old(openHandles) + Range(old(nextHandle), nextHandle)
      ensures match OpenLogsFrom(old(sections), keys, reload, host, old(nextHandle))
        case Success(v) => r == Pass && sections == v.0 && nextHandle == v.1
        case Failure(e) => r == Fail(e)
    {
      var i := 0;
      assert keys[i..] == keys;
      while i < |keys|
        invariant 0 <= i <= |keys|
        invariant inUse == old(inUse) && iter == old(iter) && reloads == old(reloads)
        invariant order == old(order) && lineNumber == old(lineNumber)
        invariant old(nextHandle) <= nextHandle && openHandles == old(openHandles) + Range(old(nextHandle), nextHandle)
        invariant OpenLogsFrom(old(sections), keys, reload, host, old(nextHandle)) ==
          OpenLogsFrom(sections, keys[i..], reload, host, nextHandle)
      {
        ghost var mid := nextHandle;
        r := OpenLogAt(keys, i, reload, host);
        RangeJoin(old(nextHandle), mid, nextHandle);
        if r.Fail? {
          return;
        }
        i := i + 1;
      }
      return Pass;
    }

    /** The target `keys[i]`, as one step of the fold over `keys[i..]`. */
    method OpenLogAt(keys: seq<string>, i: nat, reload: bool, host: Host) returns (r: Outcome<Failure>)
      requires i < |keys|
      modifies this
      ensures inUse == old(inUse) && iter == old(iter) && reloads == old(reloads)
      ensures order == old(order) && lineNumber == old(lineNumber)
      ensures old(nextHandle) <= nextHandle && openHandles == old(openHandles) + Range(old(nextHandle), nextHandle)
      ensures r.Pass? ==>
        OpenLogsFrom(old(sections), keys[i..], reload, host, old(nextHandle)) ==
        OpenLogsFrom(sections, keys[i + 1..], reload, host, nextHandle)
      ensures r.Fail? ==> OpenLogsFrom(old(sections), keys[i..], reload, host, old(nextHandle)) == Failure(r.error)
    {
      assert keys[i..][0] == keys[i] && keys[i..][1..] == keys[i + 1..];
      r := OpenLogTarget(keys[i], reload, host);
    }

    /** `int(value)` for one attribute of `config`. */
    method CoerceIntegerKey(key: string) returns (r: Outcome<Failure>)
      modifies this
      ensures CommittedKept() && order == old(order) && lineNumber == old(lineNumber)
      ensures match CoerceInteger(old(sections), key)
        case Success(m) => r == Pass && sections == m
        case Failure(e) => r == Fail(e)
    {
      match ConfigValue(sections, key) {
        case Failure(e) =>
          return Fail(e);
        case Success(a) =>
          if !a.value.Text? {
            return Fail(RuntimeError(TypeError));
          }
          match ParseInt(a.value.s) {
            case None =>
              return Fail(ConfigError(a.line, InvalidInteger(a.value.s, key)));
            case Some(n) =>
              sections := SetConfig(sections, key, a.(value := Number(n)));
              return Pass;
          }
      }
    }

    /** `float(value)` for one attribute of `config`. */
    method CoerceRealKey(key: string, host: Host) returns (r: Outcome<Failure>)
      modifies this
      ensures CommittedKept() && order == old(order) && lineNumber == old(lineNumber)
      ensures match CoerceReal(old(sections), key, host)
        case Success(m) => r == Pass && sections == m
        case Failure(e) => r == Fail(e)
    {
      match ConfigValue(sections, key) {
        case Failure(e) =>
          return Fail(e);
        case Success(a) =>
          if !a.value.Text? {
            return Fail(RuntimeError(TypeError));
          }
          match host.toFloat(a.value.s) {
            case None =>
              return Fail(ConfigError(a.line, InvalidNumber(a.value.s, key)));
            case Some(repr) =>
              sections := SetConfig(sections, key, a.(value := Real(repr)));
              return Pass;
          }
      }
    }

    /** One log target: skipped, or resolved against `path` and opened. */
    method OpenLogTarget(key: string, reload: bool, host: Host) returns (r: Outcome<Failure>)
      modifies this
      ensures inUse == old(inUse) && iter == old(iter) && reloads == old(reloads)
      ensures order == old(order) && lineNumber == old(lineNumber)
      ensures old(nextHandle) <= nextHandle && openHandles == old(openHandles) + Range(old(nextHandle), nextHandle)
      ensures match OpenLog(old(sections), key, reload, host, old(nextHandle))
        case Success(v) => r == Pass && sections == v.0 && nextHandle == v.1
        case Failure(e) => r == Fail(e)
    {
      var skip := false;
      if reload {
        match ConfigValue(sections, "foreground") {
          case Failure(e) =>
            return Fail(e);
          case Success(fg) =>
            skip := Truthy(fg.value) && Console(key);
        }
      }
      if skip {
        RangeUnit(nextHandle);
        return Pass;
      }
      r := OpenTargetFile(key, host);
    }

    /** `open(target, "a")` for a target that is not skipped. */
    method OpenTargetFile(key: string, host: Host) returns (r: Outcome<Failure>)
      modifies this
      ensures inUse == old(inUse) && iter == old(iter) && reloads == old(reloads)
      ensures order == old(order) && lineNumber == old(lineNumber)
      ensures old(nextHandle) <= nextHandle && openHandles == old(openHandles) + Range(old(nextHandle), nextHandle)
      ensures match OpenTarget(old(sections), key, host, old(nextHandle))
        case Success(v) => r == Pass && sections == v.0 && nextHandle == v.1
        case Failure(e) => r == Fail(e)
    {
      RangeUnit(nextHandle);
      match ConfigValue(sections, key) {
        case Failure(e) =>
          return Fail(e);
        case Success(a) =>
          match ConfigValue(sections, "path") {
            case Failure(e) =>
              return Fail(e);
            case Success(base) =>
              if !a.value.Text? || !base.value.Text? {
                return Fail(RuntimeError(TypeError));
              }
              var target := AbsPath(a.value.s, base.value.s);
              match host.openError(target) {
                case Some(reason) =>
                  return Fail(ConfigError(a.line, OpenFailed(key, reason)));
                case None =>
                  sections := SetConfig(sections, key, a.(file := Some(nextHandle)));
                  openHandles := openHandles + {nextHandle};
                  nextHandle := nextHandle + 1;
                  return Pass;
              }
          }
      }
    }

    /** The first half of `read_eval`: the checks, the overrides, inheritance and the rule sections. */
    method EvalPrepare(overrides: seq<(string, string)>, host: Host) returns (r: Outcome<Failure>)
      requires Walkable(sections, order)
      modifies this
      ensures CommittedKept() && order == old(order) && lineNumber == old(lineNumber)
      ensures match Prepare(old(sections), order, overrides, host, basePath)
        case Success(m) => r == Pass && sections == m
        case Failure(e) => r == Fail(e)
    {
      r := CheckOptions();
      if r.Fail? {
        return;
      }
      r := ApplyOverrides(overrides);
      if r.Fail? {
        return;
      }
      SameShapeWalkable(old(sections), sections, order);
      r := InheritDefaults();
      if r.Fail? {
        return;
      }
      ghost var inherited := sections;
      r := CompileRules(host);
      if r.Fail? {
        return;
      }
      SameShapeWalkable(inherited, sections, order);
      r := CheckActions();
    }

    /** The second half of `read_eval`: `foreground`, the numbers and the log files. */
    method EvalFinish(previous: Option<Tables>, host: Host) returns (r: Outcome<Failure>)
      modifies this
      ensures inUse == old(inUse) && iter == old(iter) && reloads == old(reloads)
      ensures order == old(order) && lineNumber == old(lineNumber)
      ensures old(nextHandle) <= nextHandle && openHandles == old(openHandles) + Range(old(nextHandle), nextHandle)
      ensures match Finish(old(sections), previous, host, lineNumber, old(nextHandle))
        case Success(v) => r == Pass && sections == v.0 && nextHandle == v.1
        case Failure(e) => r == Fail(e)
    {
      r := SetForeground(previous);
      if r.Fail? {
        return;
      }
      ghost var m4 := sections;
      r := CoerceIntegerKeys();
      if r.Fail? {
        return;
      }
      ghost var m5 := sections;
      assert m5 == CoerceIntegers(m4, IntegerKeys).value;
      r := CoerceRealKeys(host);
      if r.Fail? {
        return;
      }
      assert sections == CoerceReals(m5, RealKeys, host).value;
      r := OpenLogs(previous.Some?, host);
    }

    /** `read_eval(old, override)`. */
    method ReadEval(previous: Option<Tables>, overrides: seq<(string, string)>, host: Host) returns (r: Outcome<Failure>)
      requires Walkable(sections, order)
      modifies this
      ensures inUse == old(inUse) && iter == old(iter) && reloads == old(reloads)
      ensures order == old(order) && lineNumber == old(lineNumber)
      ensures old(nextHandle) <= nextHandle && openHandles == old(openHandles) + Range(old(nextHandle), nextHandle)
      ensures match Evaluate(old(sections), order, previous, overrides, host, basePath, lineNumber, old(nextHandle))
        case Success(v) => r == Pass && sections == v.0 && nextHandle == v.1
        case Failure(e) => r == Fail(e)
    {
      r := EvalPrepare(overrides, host);
      if r.Fail? {
        return;
      }
      r := EvalFinish(previous, host);
    }

    /**
     * `read(override, callback)`: parse, add defaults, evaluate; only when
     * all three succeed is the new configuration committed, the callback
     * told of the old and the new one, and the old one cleaned up. A
     * failure leaves the configuration in use as it was.
     */
    method Read(file: Option<seq<string>>, overrides: seq<(string, string)>, callback: bool, host: Host)
      returns (r: Outcome<Failure>)
      requires Valid()
      modifies this
      ensures Valid() && iter == old(iter) && old(nextHandle) <= nextHandle
      ensures match ReadTables(file, host, basePath, old(inUse), overrides, old(nextHandle))
        case Failure(e) =>
          r == Fail(e) && inUse == old(inUse) && reloads == old(reloads) &&
          openHandles == old(openHandles) + Range(old(nextHandle), nextHandle)
        case Success(v) =>
          r == Pass && inUse == Some(v.0) && nextHandle == v.1 &&
          reloads == old(reloads) + (if callback then [(old(inUse), v.0, old(openHandles) + Range(old(nextHandle), v.1))] else []) &&
          Closed(old(inUse)) <= old(openHandles) &&
          openHandles == (old(openHandles) + Range(old(nextHandle), v.1)) - Closed(old(inUse))
    {
      var previous := inUse;
      r := ReadTry(previous, file, overrides, host);
      if r.Fail? {
        FailedReadConsistent(previous, old(openHandles), old(nextHandle), nextHandle);
        return;
      }
      ghost var atCallback := openHandles;
      ClosedBefore(previous, old(openHandles), old(nextHandle));
      r := ReadCommit(previous, Tables(sections, order), callback, old(openHandles), old(nextHandle));
      assert atCallback == old(openHandles) + Range(old(nextHandle), nextHandle);
    }

    /**
     * The commit of `read`: the new tables replace the old ones, the callback
     * is told of both, and only then are the old ones cleaned up: the
     * callback runs while every log file of the old configuration is still
     * open. Every handle the cleanup closes is open, so it succeeds.
     */
    method ReadCommit(previous: Option<Tables>, t: Tables, callback: bool, ghost open: set<Handle>, ghost next: Handle)
      returns (r: Outcome<Failure>)
      requires inUse == previous && Consistent(previous, open, next) && next <= nextHandle
      requires openHandles == open + Range(next, nextHandle)
      requires Walkable(t.sections, t.order)
      requires forall k :: k in LogTargets ==> LogReady(t.sections, k, next, nextHandle)
      modifies this
      ensures r == Pass && inUse == Some(t) && nextHandle == old(nextHandle) && iter == old(iter)
      ensures reloads == old(reloads) + (if callback then [(previous, t, old(openHandles))] else [])
      ensures Closed(previous) <= old(openHandles)
      ensures openHandles == old(openHandles) - Closed(previous)
      ensures Consistent(inUse, openHandles, nextHandle)
    {
      CommitConsistent(t, previous, open, next, nextHandle);
      ClosedBefore(previous, open, next);
      inUse := Some(t);
      if callback {
        reloads := reloads + [(previous, t, openHandles)];
      }
      r := Pass;
      if previous.Some? {
        r := ReadCleanup(previous.value);
      }
    }

    /** The `try` block of `read`: parse, add defaults, evaluate; nothing is committed. */
    method ReadTry(previous: Option<Tables>, file: Option<seq<string>>, overrides: seq<(string, string)>, host: Host)
      returns (r: Outcome<Failure>)
      modifies this
      ensures inUse == old(inUse) && iter == old(iter) && reloads == old(reloads)
      ensures old(nextHandle) <= nextHandle && openHandles == old(openHandles) + Range(old(nextHandle), nextHandle)
      ensures match ReadTables(file, host, basePath, previous, overrides, old(nextHandle))
        case Failure(e) => r == Fail(e)
        case Success(v) => r == Pass && Tables(sections, order) == v.0 && nextHandle == v.1
      ensures r.Pass? ==>
        Walkable(sections, order) && forall k :: k in LogTargets ==> LogReady(sections, k, old(nextHandle), nextHandle)
    {
      r := ReadParse(file, host);
      if r.Fail? {
        return;
      }
      ReadDefaults();
      assert Prepared(file.value, host, basePath) == Success(State());
      OrderedWalkable(sections, order);
      r := ReadEval(previous, overrides, host);
      if r.Pass? {
        ReadTablesCommits(file, host, basePath, previous, overrides, old(nextHandle), (Tables(sections, order), nextHandle));
      }
    }

    /**
     * `read_cleanup(old)`: the log files of the replaced configuration are
     * closed, except `stdout` and `stderr` when it ran in the foreground.
     */
    method ReadCleanup(t: Tables) returns (r: Outcome<Failure>)
      modifies this
      ensures inUse == old(inUse) && iter == old(iter) && reloads == old(reloads) && nextHandle == old(nextHandle)
      ensures match CleanupFrom(t.sections, LogTargets)
        case Success(hs) => r == Pass && openHandles == old(openHandles) - set h | h in hs
        case Failure(e) => r == Fail(e)
      ensures r.Pass? ==> openHandles == old(openHandles) - Closed(Some(t))
    {
      ghost var closed: seq<Handle> := [];
      var i := 0;
      assert LogTargets[i..] == LogTargets;
      assert After(closed, CleanupFrom(t.sections, LogTargets)) == CleanupFrom(t.sections, LogTargets) by {
        if CleanupFrom(t.sections, LogTargets).Success? {
          assert closed + CleanupFrom(t.sections, LogTargets).value == CleanupFrom(t.sections, LogTargets).value;
        }
      }
      while i < |LogTargets|
        invariant 0 <= i <= |LogTargets|
        invariant inUse == old(inUse) && iter == old(iter) && reloads == old(reloads) && nextHandle == old(nextHandle)
        invariant CleanupFrom(t.sections, LogTargets) == After(closed, CleanupFrom(t.sections, LogTargets[i..]))
        invariant openHandles == old(openHandles) - set h | h in closed
      {
        var key := LogTargets[i];
        assert LogTargets[i..][0] == key && LogTargets[i..][1..] == LogTargets[i + 1..];
        match ConfigValue(t.sections, "foreground") {
          case Failure(e) =>
            return Fail(e);
          case Success(fg) =>
            if Truthy(fg.value) && Console(key) {
              assert CleanupFrom(t.sections, LogTargets[i..]) == CleanupFrom(t.sections, LogTargets[i + 1..]);
            } else {
              match ConfigValue(t.sections, key) {
                case Failure(e) =>
                  return Fail(e);
                case Success(a) =>
                  match a.file {
                    case None =>
                      return Fail(RuntimeError(AttributeError));
                    case Some(h) =>
                      assert CleanupFrom(t.sections, LogTargets[i..]) == Closing(h, CleanupFrom(t.sections, LogTargets[i + 1..]));
                      openHandles := openHandles - {h};
                      AfterShift(closed, h, CleanupFrom(t.sections, LogTargets[i + 1..]));
                      closed := closed + [h];
                  }
              }
            }
        }
        i := i + 1;
      }
      assert LogTargets[i..] == [];
      return Pass;
    }

    /** `self[name]`: a section of the configuration in use. */
    function Get(name: string): (r: Result<Section, Failure>)
      reads this
      ensures inUse.None? ==> r == Failure(RuntimeError(TypeError))
      ensures inUse.Some? ==>
        (r.Success? <==> name in inUse.value.sections) &&
        (r.Success? ==> r.value == inUse.value.sections[name]) &&
        (r.Failure? ==> r.error == RuntimeError(KeyError))
    {
      match inUse
      case None => Failure(RuntimeError(TypeError))
      case Some(t) => if name in t.sections then Success(t.sections[name]) else Failure(RuntimeError(KeyError))
    }

    /** `__iter__`: the cursor restarts at the first section. */
    method StartIter()
      modifies this
      ensures iter == Some(0)
      ensures inUse == old(inUse) && reloads == old(reloads) && nextHandle == old(nextHandle) && openHandles == old(openHandles)
      ensures sections == old(sections) && order == old(order) && current == old(current) && lineNumber == old(lineNumber)
    {
      iter := Some(0);
    }

    /**
     * `next()`: the section at the cursor, in declaration order, and the
     * cursor moves on; `None` once past the last one (`StopIteration`).
     */
    method Next() returns (r: Result<Option<Section>, Failure>)
      requires Valid()
      modifies this
      ensures Valid()
      ensures inUse == old(inUse) && reloads == old(reloads) && nextHandle == old(nextHandle) && openHandles == old(openHandles)
      ensures sections == old(sections) && order == old(order) && current == old(current) && lineNumber == old(lineNumber)
      ensures old(iter).None? ==> r == Failure(RuntimeError(AttributeError)) && iter == None
      ensures old(iter).Some? ==> iter == Some(old(iter).value + 1)
      ensures old(iter).Some? && inUse.None? ==> r == Failure(RuntimeError(AttributeError))
      ensures old(iter).Some? && inUse.Some? ==>
        var k := old(iter).value;
        (k < |inUse.value.order| ==> r == Success(Some(inUse.value.sections[inUse.value.order[k]]))) &&
        (k >= |inUse.value.order| ==> r == Success(None))
    {
      if iter.None? {
        return Failure(RuntimeError(AttributeError));
      }
      iter := Some(iter.value + 1);
      if inUse.None? {
        return Failure(RuntimeError(AttributeError));
      }
      var t := inUse.value;
      if iter.value - 1 >= |t.order| {
        return Success(None);
      }
      return Success(Some(t.sections[t.order[iter.value - 1]]));
    }

    /**
     * `dump()`: the configuration in use as text, section by section in
     * declaration order; each attribute of a rule section is written as a
     * single action.
     */
    method Dump() returns (r: Result<string, Failure>)
      requires Valid()
      ensures r == DumpText(inUse, false)
    {
      if inUse.None? {
        return Failure(RuntimeError(AttributeError));
      }
      var t := inUse.value;
      var conf := "";
      var i := 0;
      assert t.order[i..] == t.order;
      ThenEnds(conf, SectionsText(t.sections, t.order, false));
      while i < |t.order|
        invariant 0 <= i <= |t.order|
        invariant Walkable(t.sections, t.order[i..])
        invariant Then(conf, SectionsText(t.sections, t.order[i..], false)) == SectionsText(t.sections, t.order, false)
      {
        var name := t.order[i];
        assert t.order[i..][0] == name && t.order[i..][1..] == t.order[i + 1..];
        var text := WriteSection(name, t.sections[name]);
        if text.Failure? {
          return Failure(text.error);
        }
        ThenThen(conf, text.value, SectionsText(t.sections, t.order[i + 1..], false));
        conf := conf + text.value;
        i := i + 1;
      }
      assert t.order[i..] == [];
      ThenEnds(conf, Success(""));
      return Success(conf);
    }
  }

  /** One section of `dump()`: its line and name, then each key in turn. */
  method WriteSection(name: string, s: Section) returns (r: Result<string, Failure>)
    requires forall k :: k in s.keys ==> k in s.attrs
    ensures r == SectionText(name, s, false)
  {
    var conf := FromLine("", s.line) + s.name + ":\n";
    var j := 0;
    assert s.keys[j..] == s.keys;
    while j < |s.keys|
      invariant 0 <= j <= |s.keys|
      invariant Then(conf, KeysText(name, s, s.keys[j..], false)) == SectionText(name, s, false)
    {
      var key := s.keys[j];
      assert s.keys[j..][0] == key && s.keys[j..][1..] == s.keys[j + 1..];
      var text := WriteEntry(name, key, s.attrs[key]);
      if text.Failure? {
        return Failure(text.error);
      }
      ThenThen(conf, text.value, KeysText(name, s, s.keys[j + 1..], false));
      conf := conf + text.value;
      j := j + 1;
    }
    assert s.keys[j..] == [];
    ThenEnds(conf, Success(""));
    return Success(conf);
  }

  /** One key of a section: the key alone, the key and its value, or its actions. */
  method WriteEntry(name: string, key: string, e: Entry) returns (r: Result<string, Failure>)
    ensures r == EntryText(name, key, e, false)
  {
    if name == "watch" || name == "env" || name == "config" {
      if e.Many? {
        return Failure(RuntimeError(AttributeError));
      }
      var line := FromLine("  ", e.attr.line);
      if name == "watch" {
        return Success(line + "  " + key + "\n");
      }
      return Success(line + "  " + key + " " + Str(e.attr.value) + "\n");
    }
    match e
    case One(a) =>
      r := ActionText(key, a);
    case Many(attrs) =>
      r := WriteActions(key, attrs);
  }

  /** The actions of a list entry, each with its line, in turn. */
  method WriteActions(key: string, attrs: seq<Attr>) returns (r: Result<string, Failure>)
    ensures r == ActionsText(key, attrs)
  {
    var conf := "";
    var j := 0;
    assert attrs[j..] == attrs;
    ThenEnds(conf, ActionsText(key, attrs));
    while j < |attrs|
      invariant 0 <= j <= |attrs|
      invariant Then(conf, ActionsText(key, attrs[j..])) == ActionsText(key, attrs)
    {
      assert attrs[j..][0] == attrs[j] && attrs[j..][1..] == attrs[j + 1..];
      var text := ActionText(key, attrs[j]);
      if text.Failure? {
        return Failure(text.error);
      }
      ThenThen(conf, text.value, ActionsText(key, attrs[j + 1..]));
      conf := conf + text.value;
      j := j + 1;
    }
    assert attrs[j..] == [];
    ThenEnds(conf, Success(""));
    return Success(conf);
  }

  /** The keys of one section of the defaults table, against the keys its defaults know. */
  method CheckSectionOptions(name: string, s: Section, known: set<string>) returns (r: Outcome<Failure>)
    requires forall k :: k in s.keys ==> k in s.attrs
    ensures r == UnknownOptionIn(name, s, s.keys, known)
  {
    var j := 0;
    while j < |s.keys|
      invariant 0 <= j <= |s.keys|
      invariant UnknownOptionIn(name, s, s.keys, known) == UnknownOptionIn(name, s, s.keys[j..], known)
    {
      assert s.keys[j..][0] == s.keys[j] && s.keys[j..][1..] == s.keys[j + 1..];
      var key := s.keys[j];
      if key !in known {
        return Fail(AtEntry(s.attrs[key], UnknownOption(key, name)));
      }
      j := j + 1;
    }
    assert s.keys[j..] == [];
    return Pass;
  }

  /** The keys of one rule section, against the eight actions. */
  method CheckSectionActions(s: Section) returns (r: Outcome<Failure>)
    requires forall k :: k in s.keys ==> k in s.attrs
    ensures r == UnknownActionIn(s, s.keys)
  {
    var j := 0;
    while j < |s.keys|
      invariant 0 <= j <= |s.keys|
      invariant UnknownActionIn(s, s.keys) == UnknownActionIn(s, s.keys[j..])
    {
      assert s.keys[j..][0] == s.keys[j] && s.keys[j..][1..] == s.keys[j + 1..];
      var key := s.keys[j];
      if key !in Actions {
        return Fail(AtEntry(s.attrs[key], UnknownAction(key)));
      }
      j := j + 1;
    }
    assert s.keys[j..] == [];
    return Pass;
  }

  /** The handles closed so far, followed by those still to be closed. */
  function After(closed: seq<Handle>, rest: Result<seq<Handle>, Failure>): Result<seq<Handle>, Failure>
  {
    match rest
    case Failure(e) => Failure(e)
    case Success(hs) => Success(closed + hs)
  }

  lemma AfterShift(closed: seq<Handle>, h: Handle, rest: Result<seq<Handle>, Failure>)
    ensures After(closed, Closing(h, rest)) == After(closed + [h], rest)
  {
    if rest.Success? {
      assert closed + ([h] + rest.value) == closed + [h] + rest.value;
    }
  }

  /** One more handle closed, ahead of the rest. */
  function Closing(h: Handle, rest: Result<seq<Handle>, Failure>): Result<seq<Handle>, Failure>
  {
    match rest
    case Failure(e) => Failure(e)
    case Success(hs) => Success([h] + hs)
  }
}
