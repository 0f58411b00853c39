/**
 * `read_eval`, step by step, as functions of the section table: the
 * unknown-option check, the overrides, inheritance from `default`, the
 * rule-section names, the action check, the boolean, integer and float
 * coercions, and the opening of the log files.
 */
module Eval {
  import opened Wrappers
  import opened Text
  import opened Paths
  import opened Config

  /** Every name of the order has a section, and every listed key an attribute. */
  predicate Walkable(m: map<string, Section>, order: seq<string>)
  {
    (forall n :: n in order ==> n in m) &&
    (forall n :: n in m ==> forall k :: k in m[n].keys ==> k in m[n].attrs)
  }

  /** Every section's key list names exactly its attributes, once each. */
  ghost predicate Keyed(m: map<string, Section>)
  {
    forall n :: n in m ==> WellKeyed(m[n])
  }

  /**
   * `b` has the sections of `a`, each with the same key list and the same
   * attribute keys: only attribute values and section fields differ.
   */
  ghost predicate SameShape(a: map<string, Section>, b: map<string, Section>)
  {
    a.Keys == b.Keys && forall n :: n in a ==> b[n].keys == a[n].keys && b[n].attrs.Keys == a[n].attrs.Keys
  }

  /**
   * Every entry is a single attribute, and in every section but `watch`,
   * `env` and `config` it holds the words of its statement.
   */
  ghost predicate Single(m: map<string, Section>)
  {
    forall n, k :: n in m && k in m[n].attrs ==>
      m[n].attrs[k].One? && (!Unchecked(n) ==> m[n].attrs[k].attr.value.Words?)
  }

  /**
   * `b` is `a` with only attribute values of `config` changed: the same
   * shape, every other section as it was, and single attributes kept single.
   */
  ghost predicate ConfigStep(a: map<string, Section>, b: map<string, Section>)
  {
    SameShape(a, b) && (forall n :: n in a && n != "config" ==> b[n] == a[n]) && (Single(a) ==> Single(b))
  }

  lemma SameShapeWalkable(a: map<string, Section>, b: map<string, Section>, order: seq<string>)
    requires SameShape(a, b) && Walkable(a, order)
    ensures Walkable(b, order)
  {
  }

  lemma OrderedWalkable(m: map<string, Section>, order: seq<string>)
    requires Ordered(m, order)
    ensures Walkable(m, order) && Keyed(m)
  {
  }

  /**
   * The failure raised at an entry: a configuration error at the
   * attribute's line, or an `AttributeError` when the entry is a list and
   * has no line.
   */
  function AtEntry(e: Entry, text: string): Failure
  {
    match e
    case One(a) => ConfigError(a.line, text)
    case Many(_) => RuntimeError(AttributeError)
  }

  // ---- 1. unknown options ----

  /** The first key of `keys` the section's defaults do not know. */
  function UnknownOptionIn(name: string, s: Section, keys: seq<string>, known: set<string>): Outcome<Failure>
    requires forall k :: k in keys ==> k in s.attrs
  {
    if keys == [] then Pass
    else if keys[0] !in known then Fail(AtEntry(s.attrs[keys[0]], UnknownOption(keys[0], name)))
    else UnknownOptionIn(name, s, keys[1..], known)
  }

  /** The unknown-option check over the sections of the defaults table that exist. */
  function CheckOptionsFrom(m: map<string, Section>, names: seq<string>, basePath: string): Outcome<Failure>
    requires Walkable(m, [])
  {
    if names == [] then Pass
    else if names[0] in m then
      var o := UnknownOptionIn(names[0], m[names[0]], m[names[0]].keys, DefaultKeys(names[0], basePath));
      if o.Fail? then o else CheckOptionsFrom(m, names[1..], basePath)
    else CheckOptionsFrom(m, names[1..], basePath)
  }

  /** A key of a present section of the defaults table that its defaults do not know. */
  ghost predicate UnknownOptionAt(m: map<string, Section>, names: seq<string>, basePath: string, n: string, k: string)
  {
    n in names && n in m && k in m[n].attrs && k !in DefaultKeys(n, basePath)
  }

  lemma {:induction false} UnknownOptionInSpec(name: string, s: Section, keys: seq<string>, known: set<string>)
    requires forall k :: k in keys ==> k in s.attrs
    ensures UnknownOptionIn(name, s, keys, known).Pass? <==> forall k :: k in keys ==> k in known
    ensures UnknownOptionIn(name, s, keys, known).Fail? ==>
      exists k :: k in keys && k !in known && UnknownOptionIn(name, s, keys, known).error == AtEntry(s.attrs[k], UnknownOption(k, name))
  {
    if keys != [] && keys[0] in known {
      UnknownOptionInSpec(name, s, keys[1..], known);
      assert forall k :: k in keys ==> k == keys[0] || k in keys[1..];
    }
  }

  /**
   * The check passes exactly when every key of every present section of the
   * defaults table is one of that section's default keys; otherwise it
   * fails at such a key.
   */
  lemma {:induction false} CheckOptionsSpec(m: map<string, Section>, names: seq<string>, basePath: string)
    requires Keyed(m)
    ensures CheckOptionsFrom(m, names, basePath).Pass? <==>
      forall n, k :: !UnknownOptionAt(m, names, basePath, n, k)
    ensures CheckOptionsFrom(m, names, basePath).Fail? ==>
      exists n, k :: UnknownOptionAt(m, names, basePath, n, k) &&
        CheckOptionsFrom(m, names, basePath).error == AtEntry(m[n].attrs[k], UnknownOption(k, n))
  {
    if names != [] {
      var n := names[0];
      CheckOptionsSpec(m, names[1..], basePath);
      if n in m {
        var s := m[n];
        UnknownOptionInSpec(n, s, s.keys, DefaultKeys(n, basePath));
        var o := UnknownOptionIn(n, s, s.keys, DefaultKeys(n, basePath));
        if o.Fail? {
          var k :| k in s.keys && k !in DefaultKeys(n, basePath) && o.error == AtEntry(s.attrs[k], UnknownOption(k, n));
          assert UnknownOptionAt(m, names, basePath, n, k);
        } else {
          forall n', k | UnknownOptionAt(m, names, basePath, n', k) ensures UnknownOptionAt(m, names[1..], basePath, n', k) {
            assert n' != n;
          }
        }
      } else {
        forall n', k | UnknownOptionAt(m, names, basePath, n', k) ensures UnknownOptionAt(m, names[1..], basePath, n', k) {
        }
      }
      forall n', k | UnknownOptionAt(m, names[1..], basePath, n', k) ensures UnknownOptionAt(m, names, basePath, n', k) {
      }
    }
  }

  /**
   * The defaults table gives `default` and `env` no keys, so any key in
   * either section makes the reader fail.
   */
  lemma DefaultAndEnvTakeNoKeys(m: map<string, Section>, basePath: string, n: string, k: string)
    requires Keyed(m)
    requires n == "default" || n == "env"
    requires n in m && k in m[n].attrs
    ensures CheckOptionsFrom(m, DefaultSections, basePath).Fail?
  {
    CheckOptionsSpec(m, DefaultSections, basePath);
    assert UnknownOptionAt(m, DefaultSections, basePath, n, k);
  }

  // ---- 2. overrides ----

  /** `override.items()` applied in turn to the `config` section. */
  function Override(m: map<string, Section>, items: seq<(string, string)>): (r: Result<map<string, Section>, Failure>)
    ensures r.Success? ==> ConfigStep(m, r.value)
    decreases |items|
  {
    if items == [] then Success(m)
    else if "config" !in m then Failure(RuntimeError(KeyError))
    else
      var c := m["config"];
      var key := items[0].0;
      if key !in c.attrs then Failure(RuntimeError(KeyError))
      else match c.attrs[key]
        case Many(_) => Failure(RuntimeError(AttributeError))
        case One(a) => Override(SetConfig(m, key, a.(value := Text(items[0].1))), items[1..])
  }

  /**
   * Overrides succeed exactly when every key names an attribute of
   * `config` (else `KeyError`, or `AttributeError` on a list); the
   * attribute then holds the last override's text, at its old line.
   */
  lemma OverrideSpec(m: map<string, Section>, items: seq<(string, string)>)
    requires "config" in m
    requires forall k :: k in m["config"].attrs ==> m["config"].attrs[k].One?
    ensures Override(m, items).Success? <==> forall i :: 0 <= i < |items| ==> items[i].0 in m["config"].attrs
    ensures Override(m, items).Success? ==>
      var c := Override(m, items).value["config"];
      (forall n :: n in m && n != "config" ==> Override(m, items).value[n] == m[n]) &&
      forall k :: k in c.attrs ==>
        c.attrs[k].One? && c.attrs[k].attr.line == m["config"].attrs[k].attr.line &&
        c.attrs[k].attr.value == LastOverride(items, k, m["config"].attrs[k].attr.value)
  {
    OverrideSucceeds(m, items);
    if Override(m, items).Success? {
      OverrideValues(m, items);
    }
  }

  lemma {:induction false} OverrideSucceeds(m: map<string, Section>, items: seq<(string, string)>)
    requires "config" in m
    requires forall k :: k in m["config"].attrs ==> m["config"].attrs[k].One?
    ensures Override(m, items).Success? <==> forall i :: 0 <= i < |items| ==> items[i].0 in m["config"].attrs
    decreases |items|
  {
    if items != [] {
      var c := m["config"];
      var key := items[0].0;
      if key in c.attrs {
        OverrideSucceeds(SetConfig(m, key, c.attrs[key].attr.(value := Text(items[0].1))), items[1..]);
        assert forall i :: 1 <= i < |items| ==> items[i] == items[1..][i - 1];
      }
    }
  }

  lemma {:induction false} OverrideValues(m: map<string, Section>, items: seq<(string, string)>)
    requires "config" in m
    requires forall k :: k in m["config"].attrs ==> m["config"].attrs[k].One?
    requires Override(m, items).Success?
    ensures var c := Override(m, items).value["config"];
      (forall n :: n in m && n != "config" ==> Override(m, items).value[n] == m[n]) &&
      forall k :: k in c.attrs ==>
        c.attrs[k].One? && c.attrs[k].attr.line == m["config"].attrs[k].attr.line &&
        c.attrs[k].attr.value == LastOverride(items, k, m["config"].attrs[k].attr.value)
    decreases |items|
  {
    if items != [] {
      var c := m["config"];
      var key := items[0].0;
      OverrideValues(SetConfig(m, key, c.attrs[key].attr.(value := Text(items[0].1))), items[1..]);
    }
  }

  /** The value an attribute holds after the overrides: the last text given for its key. */
  function LastOverride(items: seq<(string, string)>, key: string, before: Value): Value
    decreases |items|
  {
    if items == [] then before
    else LastOverride(items[1..], key, if items[0].0 == key then Text(items[0].1) else before)
  }

  // ---- 3. inheritance from `default` ----

  /** The keys of `default` that a rule section lacks are added to it, sharing the attribute. */
  function InheritInto(s: Section, d: Section, keys: seq<string>): (r: Section)
    requires forall k :: k in keys ==> k in d.attrs
    ensures r.line == s.line && r.name == s.name && r.re == s.re && r.isDir == s.isDir && r.isFile == s.isFile
    ensures (forall k :: k in s.keys ==> k in s.attrs) ==> forall k :: k in r.keys ==> k in r.attrs
    decreases |keys|
  {
    if keys == [] then s
    else
      var key := keys[0];
      var s' := if key in s.attrs then s else s.(attrs := s.attrs[key := d.attrs[key]], keys := s.keys + [key]);
      InheritInto(s', d, keys[1..])
  }

  /** The loop over the sections: rule sections inherit from `d`. */
  function InheritFrom(m: map<string, Section>, order: seq<string>, d: Section): (r: map<string, Section>)
    requires forall k :: k in d.keys ==> k in d.attrs
    ensures r.Keys == m.Keys
    ensures Walkable(m, []) ==> Walkable(r, [])
    decreases |order|
  {
    if order == [] then m
    else
      var n := order[0];
      var m' := if Reserved(n) || n !in m then m else m[n := InheritInto(m[n], d, d.keys)];
      InheritFrom(m', order[1..], d)
  }

  /** Inheritance: `KeyError` without a `default` section (the reader always has one by now). */
  function Inherit(m: map<string, Section>, order: seq<string>): (r: Result<map<string, Section>, Failure>)
    requires Walkable(m, order)
    ensures r.Success? ==> Walkable(r.value, order)
  {
    if "default" !in m then Failure(RuntimeError(KeyError))
    else Success(InheritFrom(m, order, m["default"]))
  }

  /** With nothing in `d`, the loop changes nothing. */
  lemma {:induction false} InheritFromNothing(m: map<string, Section>, order: seq<string>, d: Section)
    requires d.keys == []
    ensures InheritFrom(m, order, d) == m
    decreases |order|
  {
    if order != [] {
      var n := order[0];
      if !Reserved(n) && n in m {
        assert m[n := InheritInto(m[n], d, d.keys)] == m;
      }
      InheritFromNothing(if Reserved(n) || n !in m then m else m[n := InheritInto(m[n], d, d.keys)], order[1..], d);
    }
  }

  /**
   * The unknown-option check has already rejected every key of `default`,
   * so by the time inheritance runs there is nothing to inherit: it leaves
   * every section as it was.
   */
  lemma InheritAfterCheckIsIdentity(m: map<string, Section>, order: seq<string>, basePath: string)
    requires Ordered(m, order)
    requires "default" in m
    requires CheckOptionsFrom(m, DefaultSections, basePath).Pass?
    ensures Inherit(m, order) == Success(m)
  {
    OrderedWalkable(m, order);
    var d := m["default"];
    if d.keys != [] {
      assert d.keys[0] in d.attrs;
      DefaultAndEnvTakeNoKeys(m, basePath, "default", d.keys[0]);
    }
    InheritFromNothing(m, order, d);
  }

  // ---- 4. rule-section names ----

  /** The flags a rule section may carry. */
  const RuleFlags: set<char> := {'i', 'd', 'f'}

  /**
   * One rule section: the name is split at its last `/`; the part before
   * must start with `/` and, without it, is the pattern; the part after may
   * hold only `i`, `d` and `f`; the pattern must compile.
   */
  function RuleOf(name: string, s: Section, host: Host): (r: Result<Section, Failure>)
    ensures r.Success? ==> r.value.attrs == s.attrs && r.value.keys == s.keys && r.value.name == s.name
  {
    match SplitLast(name, '/')
    case None => Failure(ConfigError(s.line, InvalidRuleSection(name)))
    case Some(parts) =>
      var head := parts.0;
      var flags := parts.1;
      if head == "" then Failure(RuntimeError(IndexError))
      else if head[0] != '/' then Failure(ConfigError(s.line, InvalidRuleSection(name)))
      else
        var rest := Remove(flags, RuleFlags);
        if rest != "" then Failure(ConfigError(s.line, UnknownMatchOption(rest)))
        else
          var pattern := head[1..];
          var ignoreCase := 'i' in flags;
          match host.compileError(pattern, ignoreCase)
          case Some(reason) => Failure(ConfigError(s.line, BadPattern(name, reason)))
          case None =>
            Success(s.(re := Some(Regex(pattern, ignoreCase)), isDir := 'd' in flags, isFile := 'f' in flags))
  }

  /**
   * The three `replace` calls, one flag letter at a time, leave the same
   * text as removing all three at once: the name's other letters, in order.
   */
  lemma FlagsReplaced(flags: string)
    ensures Remove(Remove(Remove(flags, {'i'}), {'d'}), {'f'}) == Remove(flags, RuleFlags)
  {
    RemoveTwice(flags, {'i'}, {'d'});
    RemoveTwice(flags, {'i', 'd'}, {'f'});
    assert {'i'} + {'d'} == {'i', 'd'} && {'i', 'd'} + {'f'} == RuleFlags;
  }

  /** Splitting `a + [c] + b` at its last `c`, when `b` holds none, gives back `a` and `b`. */
  lemma {:induction false} SplitLastAt(a: string, c: char, b: string)
    requires c !in b
    ensures SplitLast(a + [c] + b, c) == Some((a, b))
    decreases |b|
  {
    var s := a + [c] + b;
    if b == [] {
      assert s[..|s| - 1] == a;
    } else {
      var b' := b[..|b| - 1];
      assert s[..|s| - 1] == a + [c] + b';
      SplitLastAt(a, c, b');
      assert b' + [b[|b| - 1]] == b;
    }
  }

  /**
   * A rule section named `head/flags` is accepted exactly when `head` starts
   * with `/`, the flags are drawn from `i`, `d`, `f` (repeats allowed) and the
   * pattern after the leading `/` compiles; it then gets that pattern,
   * case-insensitive when `i` is present, and `is_dir`/`is_file` exactly
   * when `d`/`f` are present. Nothing else in the section changes.
   */
  lemma RuleOfSpec(name: string, head: string, flags: string, s: Section, host: Host)
    requires name == head + "/" + flags && '/' !in flags
    ensures RuleOf(name, s, host).Success? <==>
      |head| > 0 && head[0] == '/' && (forall c :: c in flags ==> c in RuleFlags) &&
      host.compileError(head[1..], 'i' in flags).None?
    ensures RuleOf(name, s, host).Success? ==>
      RuleOf(name, s, host).value == s.(re := Some(Regex(head[1..], 'i' in flags)), isDir := 'd' in flags, isFile := 'f' in flags)
  {
    SplitLastAt(head, '/', flags);
    assert Remove(flags, RuleFlags) == "" <==> forall c :: c in flags ==> c in RuleFlags by {
      assert forall c :: c in flags <==> exists k :: 0 <= k < |flags| && flags[k] == c;
    }
  }

  /**
   * A rule section as `RuleOf` leaves it: its name splits at the last `/`
   * into a head starting with `/` and flags drawn from `i`, `d`, `f`; the
   * head without its `/` compiles, and is the section's pattern,
   * case-insensitive when `i` is present; `is_dir` and `is_file` are the
   * `d` and `f` flags.
   */
  ghost predicate Compiled(name: string, s: Section, host: Host)
  {
    match SplitLast(name, '/')
    case None => false
    case Some(parts) =>
      var head := parts.0;
      var flags := parts.1;
      |head| > 0 && head[0] == '/' && (forall c :: c in flags ==> c in RuleFlags) &&
      host.compileError(head[1..], 'i' in flags).None? &&
      s.re == Some(Regex(head[1..], 'i' in flags)) && s.isDir == ('d' in flags) && s.isFile == ('f' in flags)
  }

  /** A section `RuleOf` accepts comes out compiled, with its attributes as they were. */
  lemma RuleOfCompiled(name: string, s: Section, host: Host)
    requires RuleOf(name, s, host).Success?
    ensures Compiled(name, RuleOf(name, s, host).value, host)
  {
    var parts := SplitLast(name, '/').value;
    assert name == parts.0 + "/" + parts.1;
    RuleOfSpec(name, parts.0, parts.1, s, host);
  }

  /** A name without any `/` is refused at the section's line. */
  lemma NoSlashRefused(name: string, s: Section, host: Host)
    requires '/' !in name
    ensures RuleOf(name, s, host) == Failure(ConfigError(s.line, InvalidRuleSection(name)))
  {
  }

  /** A name whose last `/` is its first character (`/x`) makes the reader index an empty text. */
  lemma SlashFirstOnly(flags: string, s: Section, host: Host)
    requires '/' !in flags
    ensures RuleOf("/" + flags, s, host) == Failure(RuntimeError(IndexError))
  {
    assert "/" + flags == "" + "/" + flags;
    SplitLastAt("", '/', flags);
  }

  /** The loop over the sections: each rule section gets its pattern and flags. */
  function CompileFrom(m: map<string, Section>, order: seq<string>, host: Host): (r: Result<map<string, Section>, Failure>)
    ensures r.Success? ==> SameShape(m, r.value)
    ensures r.Success? && Single(m) ==> Single(r.value)
    decreases |order|
  {
    if order == [] then Success(m)
    else
      var n := order[0];
      if Reserved(n) || n !in m then CompileFrom(m, order[1..], host)
      else match RuleOf(n, m[n], host)
        case Failure(e) => Failure(e)
        case Success(s) => CompileFrom(m[n := s], order[1..], host)
  }

  /**
   * The loop succeeds exactly when every rule section's name is accepted;
   * each rule section then becomes what `RuleOf` makes of it, and the
   * reserved sections are left alone.
   */
  lemma {:induction false} CompileFromSpec(m: map<string, Section>, order: seq<string>, host: Host)
    requires Distinct(order)
    ensures CompileFrom(m, order, host).Success? <==>
      forall n :: n in order && n in m && !Reserved(n) ==> RuleOf(n, m[n], host).Success?
    ensures CompileFrom(m, order, host).Success? ==>
      forall n :: n in m ==>
        CompileFrom(m, order, host).value[n] == if n in order && !Reserved(n) then RuleOf(n, m[n], host).value else m[n]
    decreases |order|
  {
    if order != [] {
      var n := order[0];
      assert Distinct(order[1..]) by {
        forall i, j | 0 <= i < j < |order[1..]| ensures order[1..][i] != order[1..][j] {
          assert order[1..][i] == order[i + 1] && order[1..][j] == order[j + 1];
        }
      }
      assert n !in order[1..] by {
        forall j | 0 <= j < |order[1..]| ensures order[1..][j] != n {
          assert order[1..][j] == order[j + 1];
        }
      }
      if Reserved(n) || n !in m {
        CompileFromSpec(m, order[1..], host);
      } else if RuleOf(n, m[n], host).Success? {
        var m' := m[n := RuleOf(n, m[n], host).value];
        CompileFromSpec(m', order[1..], host);
      }
    }
  }

  // ---- 5. actions ----

  /** The first key of `keys` that is not an action. */
  function UnknownActionIn(s: Section, keys: seq<string>): Outcome<Failure>
    requires forall k :: k in keys ==> k in s.attrs
  {
    if keys == [] then Pass
    else if keys[0] !in Actions then Fail(AtEntry(s.attrs[keys[0]], UnknownAction(keys[0])))
    else UnknownActionIn(s, keys[1..])
  }

  /** The action check over the sections: every section but `watch`, `env` and `config`. */
  function CheckActionsFrom(m: map<string, Section>, order: seq<string>): Outcome<Failure>
    requires Walkable(m, order)
  {
    if order == [] then Pass
    else
      var n := order[0];
      var o := if Unchecked(n) then Pass else UnknownActionIn(m[n], m[n].keys);
      if o.Fail? then o else CheckActionsFrom(m, order[1..])
  }

  ghost predicate UnknownActionAt(m: map<string, Section>, order: seq<string>, n: string, k: string)
  {
    n in order && n in m && !Unchecked(n) && k in m[n].attrs && k !in Actions
  }

  lemma {:induction false} UnknownActionInSpec(s: Section, keys: seq<string>)
    requires forall k :: k in keys ==> k in s.attrs
    ensures UnknownActionIn(s, keys).Pass? <==> forall k :: k in keys ==> k in Actions
    ensures UnknownActionIn(s, keys).Fail? ==>
      exists k :: k in keys && k !in Actions && UnknownActionIn(s, keys).error == AtEntry(s.attrs[k], UnknownAction(k))
  {
    if keys != [] && keys[0] in Actions {
      UnknownActionInSpec(s, keys[1..]);
      assert forall k :: k in keys ==> k == keys[0] || k in keys[1..];
    }
  }

  /**
   * The action check passes exactly when every key of every section other
   * than `watch`, `env` and `config` is one of the eight actions; otherwise
   * it fails at such a key.
   */
  lemma {:induction false} CheckActionsSpec(m: map<string, Section>, order: seq<string>)
    requires Ordered(m, order)
    ensures CheckActionsFrom(m, order).Pass? <==> forall n, k :: !UnknownActionAt(m, order, n, k)
    ensures CheckActionsFrom(m, order).Fail? ==>
      exists n, k :: UnknownActionAt(m, order, n, k) &&
        CheckActionsFrom(m, order).error == AtEntry(m[n].attrs[k], UnknownAction(k))
  {
    OrderedWalkable(m, order);
    CheckActionsFromSpec(m, order);
  }

  lemma {:induction false} CheckActionsFromSpec(m: map<string, Section>, order: seq<string>)
    requires Walkable(m, order) && Keyed(m)
    ensures CheckActionsFrom(m, order).Pass? <==> forall n, k :: !UnknownActionAt(m, order, n, k)
    ensures CheckActionsFrom(m, order).Fail? ==>
      exists n, k :: UnknownActionAt(m, order, n, k) &&
        CheckActionsFrom(m, order).error == AtEntry(m[n].attrs[k], UnknownAction(k))
    decreases |order|
  {
    if order != [] {
      var n := order[0];
      CheckActionsFromSpec(m, order[1..]);
      if !Unchecked(n) {
        var s := m[n];
        UnknownActionInSpec(s, s.keys);
        if UnknownActionIn(s, s.keys).Fail? {
          var k :| k in s.keys && k !in Actions && UnknownActionIn(s, s.keys).error == AtEntry(s.attrs[k], UnknownAction(k));
          assert UnknownActionAt(m, order, n, k);
        } else {
          forall n', k | UnknownActionAt(m, order, n', k) ensures UnknownActionAt(m, order[1..], n', k) {
            assert n' != n;
          }
        }
      } else {
        forall n', k | UnknownActionAt(m, order, n', k) ensures UnknownActionAt(m, order[1..], n', k) {
        }
      }
      forall n', k | UnknownActionAt(m, order[1..], n', k) ensures UnknownActionAt(m, order, n', k) {
      }
    }
  }

  // ---- the config section ----

  /**
   * `sections["config"][key].value`: `KeyError` when the section or key is
   * missing, `AttributeError` when the key holds a list.
   */
  function ConfigValue(m: map<string, Section>, key: string): Result<Attr, Failure>
  {
    if "config" !in m || key !in m["config"].attrs then Failure(RuntimeError(KeyError))
    else match m["config"].attrs[key]
      case Many(_) => Failure(RuntimeError(AttributeError))
      case One(a) => Success(a)
  }

  /** The `config` section with the attribute at `key` replaced. */
  function SetConfig(m: map<string, Section>, key: string, a: Attr): (r: map<string, Section>)
    requires "config" in m
    ensures key in m["config"].attrs ==> ConfigStep(m, r)
    ensures ConfigValue(r, key) == Success(a)
    ensures forall k :: k != key ==> ConfigValue(r, k) == ConfigValue(m, k)
    ensures r.Keys == m.Keys && forall n :: n in m && n != "config" ==> r[n] == m[n]
  {
    var c := m["config"];
    m["config" := c.(attrs := c.attrs[key := One(a)])]
  }

  // ---- 6. the boolean ----

  /** `value.lower()` compared with `true` and `false`; `None` for any other text. */
  function ParseBool(t: string): Option<bool>
  {
    if Lower(t) == "true" then Some(true)
    else if Lower(t) == "false" then Some(false)
    else None
  }

  /**
   * `foreground`. On a reload it is copied from the configuration in use,
   * whatever the file says. On a first read the text must be `true` or
   * `false` in any letter case; the error passes no line, so it is reported
   * at `lineNumber`, the line of the last statement parsed.
   */
  function Foreground(m: map<string, Section>, previous: Option<Tables>, lineNumber: int): (r: Result<map<string, Section>, Failure>)
    ensures r.Success? ==> ConfigStep(m, r.value)
  {
    if "config" !in m then Failure(RuntimeError(KeyError))
    else if previous.Some? then
      match ConfigValue(previous.value.sections, "foreground")
      case Failure(e) => Failure(e)
      case Success(was) =>
        match ConfigValue(m, "foreground")
        case Failure(e) => Failure(e)
        case Success(a) => Success(SetConfig(m, "foreground", a.(value := was.value)))
    else
      match ConfigValue(m, "foreground")
      case Failure(e) => Failure(e)
      case Success(a) =>
        if !a.value.Text? then Failure(RuntimeError(AttributeError))
        else match ParseBool(a.value.s)
          case Some(b) => Success(SetConfig(m, "foreground", a.(value := Flag(b))))
          case None => Failure(ConfigError(lineNumber, InvalidBool(a.value.s, a.line)))
  }

  /** The text is read as a boolean exactly when it spells `true` or `false` in any letter case. */
  lemma ParseBoolSpec(t: string)
    ensures ParseBool(t) == Some(true) <==> SpellsIgnoringCase(t, "true")
    ensures ParseBool(t) == Some(false) <==> SpellsIgnoringCase(t, "false")
  {
    LowerMatches(t, "true");
    LowerMatches(t, "false");
  }

  /** `t` is the lower-case word `w` with any of its letters in upper case. */
  predicate SpellsIgnoringCase(t: string, w: string)
  {
    |t| == |w| && forall k :: 0 <= k < |w| ==> t[k] == w[k] || t[k] as int == w[k] as int - 32
  }

  /**
   * On a reload `foreground` keeps the value of the configuration in use,
   * and its line in the new file; nothing else changes.
   */
  lemma ForegroundPinned(m: map<string, Section>, previous: Tables, lineNumber: int, was: Attr, a: Attr)
    requires "config" in m
    requires ConfigValue(previous.sections, "foreground") == Success(was)
    requires ConfigValue(m, "foreground") == Success(a)
    ensures Foreground(m, Some(previous), lineNumber).Success?
    ensures var r := Foreground(m, Some(previous), lineNumber).value;
      ConfigValue(r, "foreground") == Success(a.(value := was.value)) &&
      (forall n :: n in m && n != "config" ==> r[n] == m[n]) &&
      (forall k :: k in m["config"].attrs && k != "foreground" ==> r["config"].attrs[k] == m["config"].attrs[k])
  {
  }

  /**
   * On a first read `foreground` becomes the boolean its text spells, and a
   * text that spells neither makes the read fail at the last parsed line.
   */
  lemma ForegroundFirstRead(m: map<string, Section>, lineNumber: int, a: Attr, t: string)
    requires ConfigValue(m, "foreground") == Success(a) && a.value == Text(t)
    ensures SpellsIgnoringCase(t, "true") ==>
      Foreground(m, None, lineNumber).Success? &&
      ConfigValue(Foreground(m, None, lineNumber).value, "foreground") == Success(a.(value := Flag(true)))
    ensures SpellsIgnoringCase(t, "false") ==>
      Foreground(m, None, lineNumber).Success? &&
      ConfigValue(Foreground(m, None, lineNumber).value, "foreground") == Success(a.(value := Flag(false)))
    ensures !SpellsIgnoringCase(t, "true") && !SpellsIgnoringCase(t, "false") ==>
      Foreground(m, None, lineNumber) == Failure(ConfigError(lineNumber, InvalidBool(t, a.line)))
  {
    ParseBoolSpec(t);
  }

  // ---- 7. integers ----

  const IntegerKeys: seq<string> := ["debug", "subprocess_limit"]

  /** `int(value)` for one attribute of `config`, failing at its line. */
  function CoerceInteger(m: map<string, Section>, key: string): (r: Result<map<string, Section>, Failure>)
    ensures r.Success? ==> ConfigStep(m, r.value)
    ensures r.Success? ==> forall k :: k != key ==> ConfigValue(r.value, k) == ConfigValue(m, k)
  {
    match ConfigValue(m, key)
    case Failure(e) => Failure(e)
    case Success(a) =>
      if !a.value.Text? then Failure(RuntimeError(TypeError))
      else match ParseInt(a.value.s)
        case None => Failure(ConfigError(a.line, InvalidInteger(a.value.s, key)))
        case Some(n) => Success(SetConfig(m, key, a.(value := Number(n))))
  }

  /**
   * An integer attribute becomes the number its text gives, or the read
   * fails at the attribute's line quoting the text; a text without a digit
   * always fails.
   */
  lemma CoerceIntegerSpec(m: map<string, Section>, key: string, a: Attr, t: string)
    requires ConfigValue(m, key) == Success(a) && a.value == Text(t)
    ensures ParseInt(t).Some? ==>
      CoerceInteger(m, key).Success? &&
      ConfigValue(CoerceInteger(m, key).value, key) == Success(a.(value := Number(ParseInt(t).value)))
    ensures ParseInt(t).None? ==> CoerceInteger(m, key) == Failure(ConfigError(a.line, InvalidInteger(t, key)))
    ensures (forall k :: 0 <= k < |t| ==> !IsDigit(t[k])) ==> CoerceInteger(m, key).Failure?
  {
    if forall k :: 0 <= k < |t| ==> !IsDigit(t[k]) {
      ParseIntNeedsDigit(t);
    }
  }

  /** The integer attributes in turn. */
  function CoerceIntegers(m: map<string, Section>, keys: seq<string>): (r: Result<map<string, Section>, Failure>)
    ensures r.Success? ==> ConfigStep(m, r.value)
    ensures r.Success? ==> forall k :: k !in keys ==> ConfigValue(r.value, k) == ConfigValue(m, k)
    decreases |keys|
  {
    if keys == [] then Success(m)
    else match CoerceInteger(m, keys[0])
      case Failure(e) => Failure(e)
      case Success(m1) => CoerceIntegers(m1, keys[1..])
  }

  // ---- 8. floats ----

  const RealKeys: seq<string> := ["move_event_timeout", "subprocess_poll_interval"]

  /** `float(value)` for one attribute of `config`, failing at its line. */
  function CoerceReal(m: map<string, Section>, key: string, host: Host): (r: Result<map<string, Section>, Failure>)
    ensures r.Success? ==> ConfigStep(m, r.value)
    ensures r.Success? ==> forall k :: k != key ==> ConfigValue(r.value, k) == ConfigValue(m, k)
  {
    match ConfigValue(m, key)
    case Failure(e) => Failure(e)
    case Success(a) =>
      if !a.value.Text? then Failure(RuntimeError(TypeError))
      else match host.toFloat(a.value.s)
        case None => Failure(ConfigError(a.line, InvalidNumber(a.value.s, key)))
        case Some(repr) => Success(SetConfig(m, key, a.(value := Real(repr))))
  }

  /** The float attributes in turn. */
  function CoerceReals(m: map<string, Section>, keys: seq<string>, host: Host): (r: Result<map<string, Section>, Failure>)
    ensures r.Success? ==> ConfigStep(m, r.value)
    ensures r.Success? ==> forall k :: k !in keys ==> ConfigValue(r.value, k) == ConfigValue(m, k)
    decreases |keys|
  {
    if keys == [] then Success(m)
    else match CoerceReal(m, keys[0], host)
      case Failure(e) => Failure(e)
      case Success(m1) => CoerceReals(m1, keys[1..], host)
  }

  // ---- 9. log files ----

  const LogTargets: seq<string> := ["stdout", "stderr", "subprocess_stdout", "subprocess_stderr"]

  /** The targets the terminal provides when running in the foreground. */
  predicate Console(key: string)
  {
    key == "stdout" || key == "stderr"
  }

  /** Python truth of a value. */
  predicate Truthy(v: Value)
  {
    match v
    case Text(s) => s != ""
    case Words(ws) => ws != []
    case Flag(b) => b
    case Number(n) => n != 0
    case Real(repr) => repr != "0.0" && repr != "-0.0"
  }

  /**
   * Whether a target is left alone: on a reload, running in the foreground,
   * for `stdout` and `stderr` (the value is looked up whatever the target).
   */
  function Skipped(m: map<string, Section>, key: string, reload: bool): Result<bool, Failure>
  {
    if !reload then Success(false)
    else match ConfigValue(m, "foreground")
      case Failure(e) => Failure(e)
      case Success(fg) => Success(Truthy(fg.value) && Console(key))
  }

  /**
   * One log target: skipped on a reload in the foreground when it is the
   * console, otherwise opened.
   */
  function OpenLog(m: map<string, Section>, key: string, reload: bool, host: Host, next: Handle)
    : (r: Result<(map<string, Section>, Handle), Failure>)
    ensures r.Success? ==> ConfigStep(m, r.value.0) && r.value.1 >= next
  {
    match Skipped(m, key, reload)
    case Failure(e) => Failure(e)
    case Success(skip) => if skip then Success((m, next)) else OpenTarget(m, key, host, next)
  }

  /**
   * One log target that is not skipped: resolved against `path` and opened
   * for appending; the new handle `next` is attached to the attribute. An
   * open that fails fails the read at the attribute's line.
   */
  function OpenTarget(m: map<string, Section>, key: string, host: Host, next: Handle)
    : (r: Result<(map<string, Section>, Handle), Failure>)
    ensures r.Success? ==> ConfigStep(m, r.value.0) && r.value.1 == next + 1
  {
    match ConfigValue(m, key)
    case Failure(e) => Failure(e)
    case Success(a) =>
      match ConfigValue(m, "path")
      case Failure(e) => Failure(e)
      case Success(base) =>
        if !a.value.Text? || !base.value.Text? then Failure(RuntimeError(TypeError))
        else
          var target := AbsPath(a.value.s, base.value.s);
          match host.openError(target)
          case Some(reason) => Failure(ConfigError(a.line, OpenFailed(key, reason)))
          case None => Success((SetConfig(m, key, a.(file := Some(next))), next + 1))
  }

  /** The four targets in turn. */
  function OpenLogsFrom(m: map<string, Section>, keys: seq<string>, reload: bool, host: Host, next: Handle)
    : (r: Result<(map<string, Section>, Handle), Failure>)
    ensures r.Success? ==> ConfigStep(m, r.value.0) && r.value.1 >= next
    decreases |keys|
  {
    if keys == [] then Success((m, next))
    else match OpenLog(m, keys[0], reload, host, next)
      case Failure(e) => Failure(e)
      case Success(step) => OpenLogsFrom(step.0, keys[1..], reload, host, step.1)
  }

  /**
   * On a reload in the foreground, `stdout` and `stderr` are left as they
   * are. Any other target is resolved against `path`: when the host opens
   * that file the target gets the fresh handle and keeps its line and value,
   * and when the host refuses it the read fails at the target's line with
   * the host's reason.
   */
  lemma OpenLogSpec(m: map<string, Section>, key: string, reload: bool, host: Host, next: Handle)
    requires ConfigValue(m, "foreground").Success? && ConfigValue(m, "path").Success?
    requires ConfigValue(m, key).Success?
    ensures var fg := ConfigValue(m, "foreground").value;
      var a := ConfigValue(m, key).value;
      var r := OpenLog(m, key, reload, host, next);
      (reload && Truthy(fg.value) && Console(key) ==> r == Success((m, next))) &&
      (!(reload && Truthy(fg.value) && Console(key)) && r.Success? ==>
        a.value.Text? && ConfigValue(m, "path").value.value.Text? &&
        host.openError(AbsPath(a.value.s, ConfigValue(m, "path").value.value.s)).None? &&
        r.value.1 == next + 1 && ConfigValue(r.value.0, key) == Success(a.(file := Some(next))))
    ensures var fg := ConfigValue(m, "foreground").value;
      var a := ConfigValue(m, key).value;
      var base := ConfigValue(m, "path").value.value;
      var r := OpenLog(m, key, reload, host, next);
      !(reload && Truthy(fg.value) && Console(key)) && a.value.Text? && base.Text? ==>
        var refusal := host.openError(AbsPath(a.value.s, base.s));
        (refusal.Some? ==> r == Failure(ConfigError(a.line, OpenFailed(key, refusal.value)))) &&
        (refusal.None? ==> r.Success? && r.value.1 == next + 1 && ConfigValue(r.value.0, key) == Success(a.(file := Some(next))))
  {
  }

  // ---- the whole evaluation ----

  /**
   * The first half of `read_eval(old, override)`: the option check, the
   * overrides, inheritance, the rule sections and the action check.
   */
  function Prepare(m: map<string, Section>, order: seq<string>, overrides: seq<(string, string)>,
                   host: Host, basePath: string): (r: Result<map<string, Section>, Failure>)
    requires Walkable(m, order)
    ensures r.Success? ==> Walkable(r.value, order)
  {
    match CheckOptionsFrom(m, DefaultSections, basePath)
    case Fail(e) => Failure(e)
    case Pass =>
      match Override(m, overrides)
      case Failure(e) => Failure(e)
      case Success(m1) =>
        SameShapeWalkable(m, m1, order);
        match Inherit(m1, order)
        case Failure(e) => Failure(e)
        case Success(m2) =>
          match CompileFrom(m2, order, host)
          case Failure(e) => Failure(e)
          case Success(m3) =>
            SameShapeWalkable(m2, m3, order);
            match CheckActionsFrom(m3, order)
            case Fail(e) => Failure(e)
            case Pass => Success(m3)
  }

  /**
   * The second half: `foreground`, the integers, the floats and the log
   * files, with the line of the last parsed statement and the next free
   * handle; on success, the table and the next free handle after the opens.
   */
  function Finish(m: map<string, Section>, previous: Option<Tables>, host: Host,
                  lineNumber: int, next: Handle): (r: Result<(map<string, Section>, Handle), Failure>)
  {
    match Foreground(m, previous, lineNumber)
    case Failure(e) => Failure(e)
    case Success(m4) =>
      match CoerceIntegers(m4, IntegerKeys)
      case Failure(e) => Failure(e)
      case Success(m5) =>
        match CoerceReals(m5, RealKeys, host)
        case Failure(e) => Failure(e)
        case Success(m6) => OpenLogsFrom(m6, LogTargets, previous.Some?, host, next)
  }

  /** `read_eval(old, override)` on the table after defaults. */
  function Evaluate(m: map<string, Section>, order: seq<string>, previous: Option<Tables>,
                    overrides: seq<(string, string)>, host: Host, basePath: string,
                    lineNumber: int, next: Handle): Result<(map<string, Section>, Handle), Failure>
    requires Walkable(m, order)
  {
    match Prepare(m, order, overrides, host, basePath)
    case Failure(e) => Failure(e)
    case Success(m3) => Finish(m3, previous, host, lineNumber, next)
  }

  // ---- what a successful evaluation commits ----

  /**
   * A log target is ready to be closed by a later cleanup: either the
   * cleanup will skip it (running in the foreground, `stdout` or `stderr`),
   * or it holds a handle from `[lo, hi)`.
   */
  ghost predicate LogReady(m: map<string, Section>, key: string, lo: Handle, hi: Handle)
  {
    ConfigValue(m, "foreground").Success? &&
    ((Truthy(ConfigValue(m, "foreground").value.value) && Console(key)) ||
     (ConfigValue(m, key).Success? && ConfigValue(m, key).value.file.Some? &&
      lo <= ConfigValue(m, key).value.file.value < hi))
  }

  lemma OpenLogStep(m: map<string, Section>, key: string, reload: bool, host: Host, next: Handle)
    requires key != "foreground" && ConfigValue(m, "foreground").Success?
    requires OpenLog(m, key, reload, host, next).Success?
    ensures var r := OpenLog(m, key, reload, host, next).value;
      (forall k :: k != key ==> ConfigValue(r.0, k) == ConfigValue(m, k)) &&
      next <= r.1 <= next + 1 && LogReady(r.0, key, next, r.1)
  {
  }

  /**
   * Opening the targets in turn leaves each of them ready for cleanup, with
   * handles from the range the opens used, and changes nothing else in
   * `config`.
   */
  lemma {:induction false} OpenLogsReady(m: map<string, Section>, keys: seq<string>, reload: bool, host: Host, next: Handle)
    requires "foreground" !in keys && Distinct(keys)
    requires ConfigValue(m, "foreground").Success?
    requires OpenLogsFrom(m, keys, reload, host, next).Success?
    ensures var r := OpenLogsFrom(m, keys, reload, host, next).value;
      (forall k :: k !in keys ==> ConfigValue(r.0, k) == ConfigValue(m, k)) &&
      forall k :: k in keys ==> LogReady(r.0, k, next, r.1)
    decreases |keys|
  {
    if keys != [] {
      var key := keys[0];
      OpenLogStep(m, key, reload, host, next);
      var step := OpenLog(m, key, reload, host, next).value;
      assert Distinct(keys[1..]) by {
        forall i, j | 0 <= i < j < |keys[1..]| ensures keys[1..][i] != keys[1..][j] {
          assert keys[1..][i] == keys[i + 1] && keys[1..][j] == keys[j + 1];
        }
      }
      assert key !in keys[1..] by {
        forall j | 0 <= j < |keys[1..]| ensures keys[1..][j] != key {
          assert keys[1..][j] == keys[j + 1];
        }
      }
      OpenLogsReady(step.0, keys[1..], reload, host, step.1);
      var r := OpenLogsFrom(step.0, keys[1..], reload, host, step.1).value;
      assert OpenLogsFrom(m, keys, reload, host, next).value == r;
      forall k | k in keys ensures LogReady(r.0, k, next, r.1) {
        if k == key {
          assert ConfigValue(r.0, key) == ConfigValue(step.0, key);
          assert ConfigValue(r.0, "foreground") == ConfigValue(step.0, "foreground");
        } else {
          assert k in keys[1..];
        }
      }
    }
  }

  lemma LogTargetsDistinct()
    ensures Distinct(LogTargets)
    ensures "foreground" !in LogTargets && "foreground" !in IntegerKeys && "foreground" !in RealKeys
  {
    assert LogTargets[0][3] != LogTargets[1][3];
    assert LogTargets[2][14] != LogTargets[3][14];
  }

  /**
   * What the second half commits: the table keeps its sections and key
   * lists; `foreground` is a boolean on a first read and the value in use on
   * a reload; every log target is ready for the cleanup of the next reload,
   * with handles from the range the opens used.
   */
  lemma FinishCommits(m: map<string, Section>, previous: Option<Tables>, host: Host, lineNumber: int, next: Handle)
    requires Finish(m, previous, host, lineNumber, next).Success?
    ensures var r := Finish(m, previous, host, lineNumber, next).value;
      var fg := ConfigValue(r.0, "foreground");
      ConfigStep(m, r.0) && next <= r.1 && fg.Success? &&
      (previous.None? ==> fg.value.value.Flag?) &&
      (previous.Some? ==> fg.value.value == ConfigValue(previous.value.sections, "foreground").value.value) &&
      forall k :: k in LogTargets ==> LogReady(r.0, k, next, r.1)
  {
    var m4 := Foreground(m, previous, lineNumber).value;
    var m5 := CoerceIntegers(m4, IntegerKeys).value;
    var m6 := CoerceReals(m5, RealKeys, host).value;
    var r := OpenLogsFrom(m6, LogTargets, previous.Some?, host, next).value;
    ForegroundResult(m, previous, lineNumber);
    LogTargetsDistinct();
    OpenLogsReady(m6, LogTargets, previous.Some?, host, next);
    assert ConfigValue(r.0, "foreground") == ConfigValue(m4, "foreground");
  }

  /**
   * What a successful evaluation commits: the order still walks the table,
   * and the second half's guarantees hold.
   */
  lemma EvaluateCommits(m: map<string, Section>, order: seq<string>, previous: Option<Tables>,
                        overrides: seq<(string, string)>, host: Host, basePath: string,
                        lineNumber: int, next: Handle)
    requires Walkable(m, order)
    requires Evaluate(m, order, previous, overrides, host, basePath, lineNumber, next).Success?
    ensures var r := Evaluate(m, order, previous, overrides, host, basePath, lineNumber, next).value;
      var fg := ConfigValue(r.0, "foreground");
      Walkable(r.0, order) && next <= r.1 && fg.Success? &&
      (previous.None? ==> fg.value.value.Flag?) &&
      (previous.Some? ==> fg.value.value == ConfigValue(previous.value.sections, "foreground").value.value) &&
      forall k :: k in LogTargets ==> LogReady(r.0, k, next, r.1)
  {
    var m3 := Prepare(m, order, overrides, host, basePath).value;
    FinishCommits(m3, previous, host, lineNumber, next);
    SameShapeWalkable(m3, Finish(m3, previous, host, lineNumber, next).value.0, order);
  }

  /** `foreground` after its step: a boolean on a first read, the value in use on a reload. */
  lemma ForegroundResult(m: map<string, Section>, previous: Option<Tables>, lineNumber: int)
    requires Foreground(m, previous, lineNumber).Success?
    ensures var fg := ConfigValue(Foreground(m, previous, lineNumber).value, "foreground");
      fg.Success? &&
      (previous.None? ==> fg.value.value.Flag?) &&
      (previous.Some? ==> fg.value.value == ConfigValue(previous.value.sections, "foreground").value.value)
  {
  }

  // ---- what the first half validates ----

  lemma SameShapeKeyed(a: map<string, Section>, b: map<string, Section>)
    requires SameShape(a, b) && Keyed(a)
    ensures Keyed(b)
  {
    forall n | n in b ensures WellKeyed(b[n]) {
      assert WellKeyed(a[n]);
    }
  }

  /**
   * Once the option check has passed, `default` has no keys, so inheritance
   * after the overrides changes nothing.
   */
  lemma PrepareInheritsNothing(m: map<string, Section>, order: seq<string>, overrides: seq<(string, string)>, basePath: string)
    requires Walkable(m, order) && Keyed(m) && "default" in m
    requires CheckOptionsFrom(m, DefaultSections, basePath).Pass?
    requires Override(m, overrides).Success?
    ensures Inherit(Override(m, overrides).value, order) == Success(Override(m, overrides).value)
  {
    var m1 := Override(m, overrides).value;
    var d := m["default"];
    if d.keys != [] {
      assert d.keys[0] in d.attrs;
      DefaultAndEnvTakeNoKeys(m, basePath, "default", d.keys[0]);
    }
    InheritFromNothing(m1, order, m1["default"]);
  }

  /** After a passed option check, each section of the defaults table holds only default keys. */
  lemma OptionsChecked(m: map<string, Section>, basePath: string, n: string)
    requires Keyed(m) && CheckOptionsFrom(m, DefaultSections, basePath).Pass?
    requires n in DefaultSections && n in m
    ensures m[n].attrs.Keys <= DefaultKeys(n, basePath)
  {
    CheckOptionsSpec(m, DefaultSections, basePath);
    forall k | k in m[n].attrs ensures k in DefaultKeys(n, basePath) {
      assert !UnknownOptionAt(m, DefaultSections, basePath, n, k);
    }
  }

  /** After a passed action check, every key outside `watch`, `env` and `config` is an action. */
  lemma ActionsChecked(m: map<string, Section>, order: seq<string>)
    requires Walkable(m, order) && Keyed(m) && CheckActionsFrom(m, order).Pass?
    ensures forall n, k :: n in order && !Unchecked(n) && k in m[n].attrs ==> k in Actions
  {
    CheckActionsFromSpec(m, order);
    forall n, k | n in order && !Unchecked(n) && k in m[n].attrs ensures k in Actions {
      assert !UnknownActionAt(m, order, n, k);
    }
  }

  /** After a successful compile, every rule section of the order is compiled from its name. */
  lemma RulesCompiled(m: map<string, Section>, order: seq<string>, host: Host)
    requires Distinct(order) && CompileFrom(m, order, host).Success?
    ensures forall n :: n in order && n in m && !Reserved(n) ==> Compiled(n, CompileFrom(m, order, host).value[n], host)
  {
    CompileFromSpec(m, order, host);
    forall n | n in order && n in m && !Reserved(n) ensures Compiled(n, CompileFrom(m, order, host).value[n], host) {
      RuleOfCompiled(n, m[n], host);
    }
  }

  /**
   * What the first half leaves in the table when it succeeds: every rule
   * section is compiled from its name; every key outside `watch`, `env` and
   * `config` is one of the eight actions; each section of the defaults
   * table keeps the keys it had, all of them default keys; and single
   * attributes stay single, with words outside `watch`, `env` and `config`.
   */
  lemma PrepareValidates(m: map<string, Section>, order: seq<string>, overrides: seq<(string, string)>,
                         host: Host, basePath: string)
    requires Walkable(m, order) && Keyed(m) && Distinct(order)
    requires Prepare(m, order, overrides, host, basePath).Success?
    ensures var r := Prepare(m, order, overrides, host, basePath).value;
      (forall n :: n in order && !Reserved(n) ==> Compiled(n, r[n], host)) &&
      (forall n, k :: n in order && !Unchecked(n) && k in r[n].attrs ==> k in Actions) &&
      (forall n :: n in DefaultSections && n in m ==>
        n in r && r[n].attrs.Keys == m[n].attrs.Keys && m[n].attrs.Keys <= DefaultKeys(n, basePath)) &&
      (Single(m) ==> Single(r))
  {
    var r := Prepare(m, order, overrides, host, basePath).value;
    var m1 := Override(m, overrides).value;
    PrepareInheritsNothing(m, order, overrides, basePath);
    assert r == CompileFrom(m1, order, host).value;
    RulesCompiled(m1, order, host);
    SameShapeKeyed(m, m1);
    SameShapeKeyed(m1, r);
    ActionsChecked(r, order);
    forall n | n in DefaultSections && n in m ensures m[n].attrs.Keys <= DefaultKeys(n, basePath) {
      OptionsChecked(m, basePath, n);
    }
  }

  /**
   * What the reader validates in the tables it commits: the order walks
   * the table; every rule section
   * is compiled from its name; every key outside `watch`, `env` and
   * `config` is one of the eight actions; `config`, `default` and `env`
   * hold exactly the keys of the defaults table; and every entry is a
   * single attribute, holding words outside `watch`, `env` and `config`.
   */
  ghost predicate Validated(t: Tables, host: Host, basePath: string)
  {
    Walkable(t.sections, t.order) &&
    (forall n :: n in t.order && !Reserved(n) ==> Compiled(n, t.sections[n], host)) &&
    (forall n, k :: n in t.order && !Unchecked(n) && k in t.sections[n].attrs ==> k in Actions) &&
    (forall n :: n in DefaultSections ==> n in t.sections && t.sections[n].attrs.Keys == DefaultKeys(n, basePath)) &&
    Single(t.sections)
  }

  /**
   * What a successful evaluation validates: `PrepareValidates`' guarantees
   * survive the second half, which changes only attribute values of
   * `config`.
   */
  lemma EvaluateValidates(m: map<string, Section>, order: seq<string>, previous: Option<Tables>,
                          overrides: seq<(string, string)>, host: Host, basePath: string,
                          lineNumber: int, next: Handle)
    requires Walkable(m, order) && Keyed(m) && Distinct(order)
    requires Evaluate(m, order, previous, overrides, host, basePath, lineNumber, next).Success?
    ensures var r := Evaluate(m, order, previous, overrides, host, basePath, lineNumber, next).value.0;
      Walkable(r, order) &&
      (forall n :: n in order && !Reserved(n) ==> Compiled(n, r[n], host)) &&
      (forall n, k :: n in order && !Unchecked(n) && k in r[n].attrs ==> k in Actions) &&
      (forall n :: n in DefaultSections && n in m ==>
        n in r && r[n].attrs.Keys == m[n].attrs.Keys && m[n].attrs.Keys <= DefaultKeys(n, basePath)) &&
      (Single(m) ==> Single(r))
  {
    var m3 := Prepare(m, order, overrides, host, basePath).value;
    PrepareValidates(m, order, overrides, host, basePath);
    FinishCommits(m3, previous, host, lineNumber, next);
    SameShapeWalkable(m3, Finish(m3, previous, host, lineNumber, next).value.0, order);
  }
}
