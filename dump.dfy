/**
 * `dump`: the configuration in use, written back as text, section by
 * section in declaration order, each attribute preceded by a comment naming
 * its line. The rule-section branch walks each entry as a list of
 * attributes; `asWritten` selects that behaviour, and `false` the corrected
 * one that also writes a single attribute.
 */
module Dump {
  import opened Wrappers
  import opened Text
  import opened Config
  import opened Eval

  /** `"%s" % value`: how a value prints. */
  function Str(v: Value): string
  {
    match v
    case Text(s) => s
    case Words(ws) => "[" + Join(Reprs(ws), ", ") + "]"
    case Flag(b) => if b then "True" else "False"
    case Number(n) => IntToString(n)
    case Real(repr) => repr
  }

  /** Each word in single quotes, as a list of strings prints. */
  function Reprs(ws: seq<string>): (r: seq<string>)
    ensures |r| == |ws|
  {
    if ws == [] then [] else [Quoted(ws[0])] + Reprs(ws[1..])
  }

  /** The one-character strings of a text, as iterating over it gives them. */
  function Chars(s: string): (r: seq<string>)
    ensures |r| == |s| && forall i :: 0 <= i < |s| ==> r[i] == [s[i]]
  {
    if s == [] then [] else [[s[0]]] + Chars(s[1..])
  }

  /** A value `for v in value` can walk: a word list or a text. */
  predicate Iterable(v: Value)
  {
    v.Words? || v.Text?
  }

  /** What `for v in value` walks; a boolean or a number cannot be walked. */
  function Iterated(v: Value): (r: Result<seq<string>, Failure>)
    ensures r.Success? <==> Iterable(v)
  {
    match v
    case Words(ws) => Success(ws)
    case Text(s) => Success(Chars(s))
    case _ => Failure(RuntimeError(TypeError))
  }

  /** `" ".join(['"%s"' % v for v in words])`. */
  function QuoteWords(ws: seq<string>): string
  {
    Join(DoubleQuoted(ws), " ")
  }

  function DoubleQuoted(ws: seq<string>): (r: seq<string>)
    ensures |r| == |ws|
  {
    if ws == [] then [] else ["\"" + ws[0] + "\""] + DoubleQuoted(ws[1..])
  }

  /** The comment that precedes each section and each attribute. */
  function FromLine(indent: string, line: int): string
  {
    indent + "# from line " + IntToString(line) + "\n"
  }

  /** One action attribute of a rule section: its line comment, the key and the quoted words. */
  function ActionText(key: string, a: Attr): (r: Result<string, Failure>)
    ensures r.Success? <==> Iterable(a.value)
  {
    match Iterated(a.value)
    case Failure(e) => Failure(e)
    case Success(ws) => Success(FromLine("  ", a.line) + "  " + key + " " + QuoteWords(ws) + "\n")
  }

  /** The attributes of a list entry, in turn. */
  function ActionsText(key: string, attrs: seq<Attr>): (r: Result<string, Failure>)
  {
    if attrs == [] then Success("")
    else match ActionText(key, attrs[0])
      case Failure(e) => Failure(e)
      case Success(head) =>
        match ActionsText(key, attrs[1..])
        case Failure(e) => Failure(e)
        case Success(tail) => Success(head + tail)
  }

  /**
   * One key of section `name`. In `watch` the key alone; in `env` and
   * `config` the key and the value; elsewhere each attribute of the entry
   * with its words. Reading a line or a value off a list fails with
   * `AttributeError`; as written, walking a single attribute as if it were a
   * list fails with `TypeError`.
   */
  function EntryText(name: string, key: string, e: Entry, asWritten: bool): Result<string, Failure>
  {
    if name == "watch" then
      match e
      case Many(_) => Failure(RuntimeError(AttributeError))
      case One(a) => Success(FromLine("  ", a.line) + "  " + key + "\n")
    else if name == "env" || name == "config" then
      match e
      case Many(_) => Failure(RuntimeError(AttributeError))
      case One(a) => Success(FromLine("  ", a.line) + "  " + key + " " + Str(a.value) + "\n")
    else
      match e
      case One(a) => if asWritten then Failure(RuntimeError(TypeError)) else ActionText(key, a)
      case Many(attrs) => ActionsText(key, attrs)
  }

  /** The keys of a section, in turn. */
  function KeysText(name: string, s: Section, keys: seq<string>, asWritten: bool): Result<string, Failure>
    requires forall k :: k in keys ==> k in s.attrs
  {
    if keys == [] then Success("")
    else match EntryText(name, keys[0], s.attrs[keys[0]], asWritten)
      case Failure(e) => Failure(e)
      case Success(head) =>
        match KeysText(name, s, keys[1..], asWritten)
        case Failure(e) => Failure(e)
        case Success(tail) => Success(head + tail)
  }

  /** The section stored under `name`: its line comment, its own name and a colon, then its keys. */
  function SectionText(name: string, s: Section, asWritten: bool): Result<string, Failure>
    requires forall k :: k in s.keys ==> k in s.attrs
  {
    match KeysText(name, s, s.keys, asWritten)
    case Failure(e) => Failure(e)
    case Success(body) => Success(FromLine("", s.line) + s.name + ":\n" + body)
  }

  /** The sections named in `names`, in turn. */
  function SectionsText(m: map<string, Section>, names: seq<string>, asWritten: bool): Result<string, Failure>
    requires Walkable(m, names)
  {
    if names == [] then Success("")
    else match SectionText(names[0], m[names[0]], asWritten)
      case Failure(e) => Failure(e)
      case Success(head) =>
        match SectionsText(m, names[1..], asWritten)
        case Failure(e) => Failure(e)
        case Success(tail) => Success(head + tail)
  }

  /** `dump()`: before any successful read there is no section order to walk. */
  function DumpText(tables: Option<Tables>, asWritten: bool): Result<string, Failure>
    requires tables.Some? ==> Walkable(tables.value.sections, tables.value.order)
  {
    match tables
    case None => Failure(RuntimeError(AttributeError))
    case Some(t) => SectionsText(t.sections, t.order, asWritten)
  }

  /** A text written so far, followed by what is still to be written. */
  function Then(prefix: string, rest: Result<string, Failure>): Result<string, Failure>
  {
    match rest
    case Failure(e) => Failure(e)
    case Success(s) => Success(prefix + s)
  }

  /** Nothing written ahead leaves the rest as it is; nothing left to write leaves the text as it is. */
  lemma ThenEnds(prefix: string, rest: Result<string, Failure>)
    ensures Then("", rest) == rest
    ensures Then(prefix, Success("")) == Success(prefix)
  {
    if rest.Success? {
      assert "" + rest.value == rest.value;
    }
    assert prefix + "" == prefix;
  }

  /** Writing `a`, then `b`, then the rest is writing `a + b`, then the rest. */
  lemma ThenThen(a: string, b: string, rest: Result<string, Failure>)
    ensures Then(a, Then(b, rest)) == Then(a + b, rest)
  {
    if rest.Success? {
      assert a + (b + rest.value) == a + b + rest.value;
    }
  }

  // ---- when the dump succeeds ----

  /** Whether one entry of section `name` can be written. */
  predicate EntryDumps(name: string, e: Entry, asWritten: bool)
  {
    if Unchecked(name) then e.One?
    else match e
      case One(a) => !asWritten && Iterable(a.value)
      case Many(attrs) => forall i :: 0 <= i < |attrs| ==> Iterable(attrs[i].value)
  }

  lemma {:induction false} ActionsTextSpec(key: string, attrs: seq<Attr>)
    ensures ActionsText(key, attrs).Success? <==> forall i :: 0 <= i < |attrs| ==> Iterable(attrs[i].value)
  {
    if attrs != [] {
      ActionsTextSpec(key, attrs[1..]);
      assert forall i :: 1 <= i < |attrs| ==> attrs[i] == attrs[1..][i - 1];
    }
  }

  lemma EntryTextSpec(name: string, key: string, e: Entry, asWritten: bool)
    ensures EntryText(name, key, e, asWritten).Success? <==> EntryDumps(name, e, asWritten)
  {
    if e.Many? {
      ActionsTextSpec(key, e.attrs);
    }
  }

  lemma {:induction false} KeysTextSpec(name: string, s: Section, keys: seq<string>, asWritten: bool)
    requires forall k :: k in keys ==> k in s.attrs
    ensures KeysText(name, s, keys, asWritten).Success? <==>
      forall k :: k in keys ==> EntryDumps(name, s.attrs[k], asWritten)
  {
    if keys != [] {
      EntryTextSpec(name, keys[0], s.attrs[keys[0]], asWritten);
      KeysTextSpec(name, s, keys[1..], asWritten);
      assert forall k :: k in keys ==> k == keys[0] || k in keys[1..];
    }
  }

  /** An entry of a section in `names` that cannot be written. */
  ghost predicate Stuck(m: map<string, Section>, names: seq<string>, asWritten: bool, n: string, k: string)
  {
    n in names && n in m && k in m[n].keys && k in m[n].attrs && !EntryDumps(n, m[n].attrs[k], asWritten)
  }

  lemma {:induction false} SectionsTextSpec(m: map<string, Section>, names: seq<string>, asWritten: bool)
    requires Walkable(m, names)
    ensures SectionsText(m, names, asWritten).Success? <==> forall n, k :: !Stuck(m, names, asWritten, n, k)
  {
    if names != [] {
      var s := m[names[0]];
      KeysTextSpec(names[0], s, s.keys, asWritten);
      SectionsTextSpec(m, names[1..], asWritten);
      var first := KeysText(names[0], s, s.keys, asWritten);
      if first.Success? {
        forall k ensures !Stuck(m, names, asWritten, names[0], k) {
          if k in s.keys {
            assert EntryDumps(names[0], s.attrs[k], asWritten);
          }
        }
      } else {
        var k :| k in s.keys && !EntryDumps(names[0], s.attrs[k], asWritten);
        assert Stuck(m, names, asWritten, names[0], k);
      }
      forall n, k | Stuck(m, names, asWritten, n, k) && n != names[0] ensures Stuck(m, names[1..], asWritten, n, k) {
      }
      forall n, k | Stuck(m, names[1..], asWritten, n, k) ensures Stuck(m, names, asWritten, n, k) {
      }
    }
  }

  /**
   * The dump of a committed table succeeds exactly when every entry of
   * every section can be written: a single attribute in `watch`, `env` and
   * `config`, and elsewhere attributes whose values can be walked (and, as
   * written, only lists of them).
   */
  lemma DumpSpec(t: Tables, asWritten: bool)
    requires Walkable(t.sections, t.order)
    ensures DumpText(Some(t), asWritten).Success? <==> forall n, k :: !Stuck(t.sections, t.order, asWritten, n, k)
  {
    SectionsTextSpec(t.sections, t.order, asWritten);
  }

  /**
   * As written, the dump fails whenever a section other than `watch`, `env`
   * and `config` holds a single attribute, which is what every rule-section
   * action is.
   */
  lemma AsWrittenFailsOnActions(t: Tables, n: string, k: string)
    requires Walkable(t.sections, t.order)
    requires n in t.order && !Unchecked(n)
    requires k in t.sections[n].keys && t.sections[n].attrs[k].One?
    ensures DumpText(Some(t), true).Failure?
  {
    DumpSpec(t, true);
    assert Stuck(t.sections, t.order, true, n, k);
  }

  /**
   * Corrected, the dump succeeds on every table whose entries are single
   * attributes holding, outside `watch`, `env` and `config`, action words.
   */
  lemma FixedDumpSucceeds(t: Tables)
    requires Walkable(t.sections, t.order)
    requires forall n, k :: n in t.order && k in t.sections[n].attrs ==>
      t.sections[n].attrs[k].One? && (!Unchecked(n) ==> t.sections[n].attrs[k].attr.value.Words?)
    ensures DumpText(Some(t), false).Success?
  {
    DumpSpec(t, false);
  }
}
