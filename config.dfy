/**
 * The entities of the configuration reader: attribute values, attributes,
 * sections and the ordered section table; the failures a read can end in;
 * the built-in defaults table and the action vocabulary; the message texts;
 * and the rendering of a configuration error as `basename:line: text`.
 */
module Config {
  import opened Wrappers
  import opened Text

  /** An open log file, as an abstract token. */
  type Handle = nat

  /**
   * What an attribute holds: the raw text read from the file, the argument
   * words of a rule-section action, or what the coercions make of the text
   * (a boolean, an integer, or a float, kept as the text `str()` gives it).
   */
  datatype Value =
    | Text(s: string)
    | Words(ws: seq<string>)
    | Flag(b: bool)
    | Number(n: int)
    | Real(repr: string)

  /** `NotifyConfigSectionAttribute`: its line, its value, and the file opened for it, if any. */
  datatype Attr = Attr(line: int, value: Value, file: Option<Handle>)

  /** What a key of a section maps to: one attribute, or the list built by `multi` additions. */
  datatype Entry = One(attr: Attr) | Many(attrs: seq<Attr>)

  /** A compiled rule pattern: the pattern text and whether `re.I` was given. */
  datatype Regex = Regex(pattern: string, ignoreCase: bool)

  /**
   * `NotifyConfigSection`. `keys` lists the attribute keys in the order they
   * were added; it stands in for the order in which the dictionary is walked.
   */
  datatype Section = Section(
    line: int,
    name: string,
    attrs: map<string, Entry>,
    keys: seq<string>,
    re: Option<Regex>,
    isDir: bool,
    isFile: bool)

  /** A section as `add_section` creates it. */
  function NewSection(line: int, name: string): Section
  {
    Section(line, name, map[], [], None, false, false)
  }

  /** A section table: sections by name, and the names in declaration order. */
  datatype Tables = Tables(sections: map<string, Section>, order: seq<string>)

  /**
   * How a read can fail: a `NotifyConfigError` with its line and text, or
   * another Python exception escaping from the reader, named by its class.
   */
  datatype Failure =
    | ConfigError(line: int, text: string)
    | RuntimeError(exception: string)

  const AttributeError := "AttributeError"
  const IndexError := "IndexError"
  const KeyError := "KeyError"
  const TypeError := "TypeError"
  const IOError := "IOError"

  /**
   * The foreign code the reader calls: `shlex.split` (the words, or the text
   * of its `ValueError`), `re.compile` (the text of its `re.error`, if the
   * pattern is refused), `float()` (the `str()` of the float, or nothing on a
   * `ValueError`) and `open(path, "a")` (the text of its `IOError`, if any).
   */
  datatype Host = Host(
    split: string -> Result<seq<string>, string>,
    compileError: (string, bool) -> Option<string>,
    toFloat: string -> Option<string>,
    openError: string -> Option<string>)

  // ---- names ----

  predicate Distinct(xs: seq<string>)
  {
    forall i, j :: 0 <= i < j < |xs| ==> xs[i] != xs[j]
  }

  /** A section's key list names exactly its attributes, once each. */
  ghost predicate WellKeyed(s: Section)
  {
    (forall k :: k in s.attrs <==> k in s.keys) && Distinct(s.keys)
  }

  /** The order lists every section once; each section is stored under its own name. */
  ghost predicate Ordered(sections: map<string, Section>, order: seq<string>)
  {
    (forall n :: n in sections <==> n in order) && Distinct(order) &&
    forall n :: n in sections ==> sections[n].name == n && WellKeyed(sections[n])
  }

  lemma DistinctAppend(xs: seq<string>, x: string)
    requires Distinct(xs) && x !in xs
    ensures Distinct(xs + [x])
  {
    var ys := xs + [x];
    forall i, j | 0 <= i < j < |ys| ensures ys[i] != ys[j] {
      if j == |xs| {
        assert ys[i] == xs[i];
      } else {
        assert ys[i] == xs[i] && ys[j] == xs[j];
      }
    }
  }

  /** Replacing a section by one of the same name keeps the table in order. */
  lemma OrderedReplace(sections: map<string, Section>, order: seq<string>, name: string, s: Section)
    requires Ordered(sections, order) && name in sections
    requires s.name == name && WellKeyed(s)
    ensures Ordered(sections[name := s], order)
  {
    assert sections[name := s].Keys == sections.Keys;
  }

  /** The sections with fixed meanings; every other section is a rule section. */
  predicate Reserved(name: string)
  {
    name == "watch" || name == "default" || name == "env" || name == "config"
  }

  /** The sections whose keys the action check leaves alone. */
  predicate Unchecked(name: string)
  {
    name == "watch" || name == "env" || name == "config"
  }

  /** The eight actions a rule section may name. */
  const Actions: seq<string> :=
    ["add", "delete", "move", "open", "close_nowrite", "close_write", "event", "stop"]

  // ---- the defaults table ----

  /** The sections the defaults table names, in the order the reader visits them. */
  const DefaultSections: seq<string> := ["config", "default", "env"]

  /** The built-in values of the `config` section, `path` aside. */
  const ConfigDefaults: seq<(string, string)> := [
    ("foreground", "False"),
    ("debug", "0"),
    ("stdout", "/dev/null"),
    ("stderr", "/dev/null"),
    ("subprocess_limit", "10"),
    ("subprocess_poll_interval", "1"),
    ("subprocess_stdout", "/dev/null"),
    ("subprocess_stderr", "/dev/null"),
    ("move_event_timeout", "0.5")]

  /** The defaults of one section; `path` is the base path given to the reader. */
  function Defaults(section: string, basePath: string): seq<(string, string)>
  {
    if section == "config" then ConfigDefaults + [("path", basePath)] else []
  }

  /**
   * The keys the defaults table knows for a section: the nine options of
   * `config` and the `path` the constructor adds; none for `default`, `env`
   * or any other section.
   */
  function DefaultKeys(section: string, basePath: string): (r: set<string>)
    ensures section == "config" ==> r == {
      "foreground", "debug", "stdout", "stderr", "subprocess_limit",
      "subprocess_poll_interval", "subprocess_stdout", "subprocess_stderr",
      "move_event_timeout", "path"}
    ensures section != "config" ==> r == {}
  {
    ConfigKeysListed(basePath);
    set p | p in Defaults(section, basePath) :: p.0
  }

  /** The first components of a list of pairs. */
  function FirstsOf(ps: seq<(string, string)>): set<string>
  {
    if ps == [] then {} else {ps[0].0} + FirstsOf(ps[1..])
  }

  lemma {:induction false} FirstsOfSpec(ps: seq<(string, string)>)
    ensures FirstsOf(ps) == set p | p in ps :: p.0
  {
    if ps != [] {
      FirstsOfSpec(ps[1..]);
      assert forall p :: p in ps <==> p == ps[0] || p in ps[1..];
    }
  }

  /** The `config` defaults name the nine options and `path`. */
  lemma ConfigKeysListed(basePath: string)
    ensures (set p | p in Defaults("config", basePath) :: p.0) == {
      "foreground", "debug", "stdout", "stderr", "subprocess_limit",
      "subprocess_poll_interval", "subprocess_stdout", "subprocess_stderr",
      "move_event_timeout", "path"}
  {
    var ps := Defaults("config", basePath);
    FirstsOfSpec(ps);
    FirstsOfAppend(ConfigDefaults, [("path", basePath)]);
    assert FirstsOf([("path", basePath)]) == {"path"} by {
      assert [("path", basePath)][1..] == [];
    }
    ConfigDefaultsFirsts();
    assert FirstsOf(ps) == FirstsOf(ConfigDefaults) + {"path"};
  }

  lemma ConfigDefaultsFirsts()
    ensures FirstsOf(ConfigDefaults) == {
      "foreground", "debug", "stdout", "stderr", "subprocess_limit",
      "subprocess_poll_interval", "subprocess_stdout", "subprocess_stderr",
      "move_event_timeout"}
  {
  }

  lemma {:induction false} FirstsOfAppend(a: seq<(string, string)>, b: seq<(string, string)>)
    ensures FirstsOf(a + b) == FirstsOf(a) + FirstsOf(b)
  {
    if a == [] {
      assert a + b == b;
    } else {
      FirstsOfAppend(a[1..], b);
      assert (a + b)[0] == a[0] && (a + b)[1..] == a[1..] + b;
    }
  }

  // ---- message texts ----

  function Quoted(s: string): string { "'" + s + "'" }

  function DuplicateSection(name: string, line: int): string
  {
    "section " + Quoted(name) + " already defined at line " + IntToString(line)
  }

  function DuplicateAttribute(key: string, line: int): string
  {
    "attribute " + Quoted(key) + " already set at line " + IntToString(line) + " "
  }

  function NotIndented(line: string): string
  {
    "non indented attribute or invalid section name " + Quoted(line)
  }

  function InvalidSyntax(reason: string, line: string): string
  {
    "invalid syntax, " + reason + ": " + line
  }

  function UnknownOption(key: string, section: string): string
  {
    "unknown option " + Quoted(key) + " in " + section + " section"
  }

  function InvalidRuleSection(name: string): string
  {
    "invalid regexp section " + Quoted(name) + " should be '/regexp/[options]:'"
  }

  function UnknownMatchOption(flags: string): string
  {
    "unknown match rule option " + Quoted(flags)
  }

  function BadPattern(name: string, reason: string): string
  {
    name + ": " + reason
  }

  function UnknownAction(key: string): string
  {
    "unknown action " + Quoted(key) + " should be " + Join(Actions[..7], ", ") + ", or " + Actions[7]
  }

  /** The boolean message puts the attribute's line where its name belongs. */
  function InvalidBool(value: string, line: int): string
  {
    "invalid bool value " + Quoted(value) + " for " + IntToString(line) + " should be true or false"
  }

  function InvalidInteger(value: string, attr: string): string
  {
    "invalid value " + Quoted(value) + " for " + attr + " should be an integer"
  }

  function InvalidNumber(value: string, attr: string): string
  {
    "invalid value " + Quoted(value) + " for " + attr + " should be a number"
  }

  function OpenFailed(attr: string, reason: string): string
  {
    "open failed for " + attr + ": " + reason
  }

  // ---- rendering an error ----

  /** `str(NotifyConfigError)`: the configuration file's base name, the line, and the text. */
  function ErrorString(configPath: string, line: int, text: string): string
  {
    BaseName(configPath) + ":" + IntToString(line) + ": " + text
  }

  /**
   * Reads a rendered error back, given the base name it starts with: the
   * line number up to the next colon, then a space, then the text.
   */
  function ReadBack(msg: string, base: string): Option<(int, string)>
  {
    if |msg| <= |base| || msg[..|base|] != base || msg[|base|] != ':' then None
    else ReadLine(msg[|base| + 1..])
  }

  /** The part after the base name: the line number up to the next colon, a space, the text. */
  function ReadLine(rest: string): Option<(int, string)>
  {
    if ':' !in rest then None
    else
      var parts := SplitFirst(rest, ':');
      if |parts.1| == 0 || parts.1[0] != ' ' then None
      else match ParseInt(parts.0)
        case None => None
        case Some(n) => Some((n, parts.1[1..]))
  }

  /** The rendered error gives back its line and its text, whatever the text holds. */
  lemma ErrorStringReadBack(configPath: string, line: int, text: string)
    ensures ReadBack(ErrorString(configPath, line, text), BaseName(configPath)) == Some((line, text))
  {
    var base, rest := BaseName(configPath), IntToString(line) + ": " + text;
    assert ErrorString(configPath, line, text) == base + [':'] + rest;
    ReadBackHeader(base, rest);
    ReadLineOf(line, text);
  }

  lemma ReadBackHeader(base: string, rest: string)
    ensures ReadBack(base + [':'] + rest, base) == ReadLine(rest)
  {
    var msg := base + [':'] + rest;
    assert msg[..|base|] == base;
    assert msg[|base| + 1..] == rest;
  }

  lemma ReadLineOf(line: int, text: string)
    ensures ReadLine(IntToString(line) + ": " + text) == Some((line, text))
  {
    var num, tail := IntToString(line), " " + text;
    var rest := IntToString(line) + ": " + text;
    assert rest == num + [':'] + tail;
    assert ':' in rest by {
      assert rest[|num|] == ':';
    }
    assert SplitFirst(rest, ':') == (num, tail) by {
      IntToStringNoColon(line);
      SplitFirstAt(num, ':', tail);
    }
    assert tail[1..] == text;
    assert ParseInt(num) == Some(line) by {
      ParseIntOfIntToString(line);
    }
  }

  lemma IntToStringNoColon(i: int)
    ensures ':' !in IntToString(i)
  {
    var d := NatToString(if i < 0 then -i else i);
    assert forall k :: 0 <= k < |d| ==> d[k] != ':';
  }

  /** Splitting at the first `c` of a text whose left part holds no `c` gives back the parts. */
  lemma {:induction false} SplitFirstAt(a: string, c: char, b: string)
    requires c !in a
    ensures SplitFirst(a + [c] + b, c) == (a, b)
  {
    if a == [] {
      assert [] + [c] + b == [c] + b;
      assert ([c] + b)[1..] == b;
    } else {
      assert (a + [c] + b)[1..] == a[1..] + [c] + b;
      SplitFirstAt(a[1..], c, b);
      assert [a[0]] + a[1..] == a;
    }
  }
}
