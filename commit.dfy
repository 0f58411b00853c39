/**
 * What `read` computes before it commits, and what `read_cleanup` does to
 * the configuration it replaces: the handles it closes, and why a reload
 * never finds a log file it cannot close.
 */
module Commit {
  import opened Wrappers
  import opened Config
  import opened Parse
  import opened Eval
  import opened Dump

  /** `read_parse` then `read_defaults`, on the lines of the file. */
  function Prepared(lines: seq<string>, host: Host, basePath: string): (r: Result<Parsing, Failure>)
    ensures r.Success? ==> Good(r.value)
  {
    match ParseFile(lines, host)
    case Failure(e) => Failure(e)
    case Success(p) =>
      ParseKeepsGood(Fresh, Statements(lines), host);
      InjectFromGood(p, DefaultSections, basePath);
      Success(WithDefaults(p, basePath))
  }

  /**
   * The three steps of `read`, before the commit: the tables it would
   * commit and the next free handle. `None` is a file that cannot be opened.
   */
  function ReadTables(file: Option<seq<string>>, host: Host, basePath: string, previous: Option<Tables>,
                      overrides: seq<(string, string)>, next: Handle): (r: Result<(Tables, Handle), Failure>)
  {
    match file
    case None => Failure(RuntimeError(IOError))
    case Some(lines) =>
      match Prepared(lines, host, basePath)
      case Failure(e) => Failure(e)
      case Success(q) =>
        OrderedWalkable(q.sections, q.order);
        match Evaluate(q.sections, q.order, previous, overrides, host, basePath, q.lineNumber, next)
        case Failure(e) => Failure(e)
        case Success(v) => Success((Tables(v.0, q.order), v.1))
  }

  // ---- read_cleanup ----

  /** Whether cleanup leaves a target alone: running in the foreground, `stdout` and `stderr`. */
  ghost predicate KeptOpen(m: map<string, Section>, key: string)
  {
    ConfigValue(m, "foreground").Success? && Truthy(ConfigValue(m, "foreground").value.value) && Console(key)
  }

  /**
   * `read_cleanup(old)` over `keys`: the handles it closes, in order. The
   * foreground flag is looked up for every target; a target never opened
   * has no file to close (`AttributeError`).
   */
  function CleanupFrom(m: map<string, Section>, keys: seq<string>): Result<seq<Handle>, Failure>
    decreases |keys|
  {
    if keys == [] then Success([])
    else match ConfigValue(m, "foreground")
      case Failure(e) => Failure(e)
      case Success(fg) =>
        if Truthy(fg.value) && Console(keys[0]) then CleanupFrom(m, keys[1..])
        else match ConfigValue(m, keys[0])
          case Failure(e) => Failure(e)
          case Success(a) =>
            match a.file
            case None => Failure(RuntimeError(AttributeError))
            case Some(h) =>
              match CleanupFrom(m, keys[1..])
              case Failure(e) => Failure(e)
              case Success(hs) => Success([h] + hs)
  }

  /** The handle a log target holds, if any. */
  function HandleOf(m: map<string, Section>, key: string): Option<Handle>
  {
    match ConfigValue(m, key)
    case Failure(_) => None
    case Success(a) => a.file
  }

  /** A log target cleanup can deal with: left alone, or holding a handle that is open. */
  ghost predicate Closable(m: map<string, Section>, key: string, open: set<Handle>)
  {
    ConfigValue(m, "foreground").Success? &&
    (KeptOpen(m, key) || (HandleOf(m, key).Some? && HandleOf(m, key).value in open))
  }

  /**
   * When every target is closable, cleanup succeeds; it closes only open
   * handles, it closes the handle of every target it does not leave alone,
   * and every handle it closes is one of those: running in the foreground,
   * the handles of `stdout` and `stderr` stay open.
   */
  lemma {:induction false} CleanupSpec(m: map<string, Section>, keys: seq<string>, open: set<Handle>)
    requires forall k :: k in keys ==> Closable(m, k, open)
    ensures CleanupFrom(m, keys).Success?
    ensures forall i :: 0 <= i < |CleanupFrom(m, keys).value| ==> CleanupFrom(m, keys).value[i] in open
    ensures forall k :: k in keys && !KeptOpen(m, k) ==>
      HandleOf(m, k).Some? && HandleOf(m, k).value in CleanupFrom(m, keys).value
    ensures forall h :: h in CleanupFrom(m, keys).value ==>
      exists k :: k in keys && !KeptOpen(m, k) && HandleOf(m, k) == Some(h)
    decreases |keys|
  {
    if keys != [] {
      CleanupSpec(m, keys[1..], open);
      assert forall k :: k in keys ==> k == keys[0] || k in keys[1..];
      var rest := CleanupFrom(m, keys[1..]).value;
      assert Closable(m, keys[0], open);
      if !KeptOpen(m, keys[0]) {
        var h := HandleOf(m, keys[0]).value;
        assert CleanupFrom(m, keys).value == [h] + rest;
        assert forall i :: 1 <= i < |rest| + 1 ==> ([h] + rest)[i] == rest[i - 1];
        forall h' | h' in [h] + rest ensures exists k :: k in keys && !KeptOpen(m, k) && HandleOf(m, k) == Some(h') {
          if h' == h {
            assert keys[0] in keys;
          } else {
            var k :| k in keys[1..] && !KeptOpen(m, k) && HandleOf(m, k) == Some(h');
            assert k in keys;
          }
        }
      } else {
        assert CleanupFrom(m, keys).value == rest;
        forall h' | h' in rest ensures exists k :: k in keys && !KeptOpen(m, k) && HandleOf(m, k) == Some(h') {
          var k :| k in keys[1..] && !KeptOpen(m, k) && HandleOf(m, k) == Some(h');
          assert k in keys;
        }
      }
    }
  }

  /** The handles `[lo, hi)`. */
  function Range(lo: Handle, hi: Handle): (r: set<Handle>)
    ensures forall h :: h in r <==> lo <= h < hi
    decreases hi - lo
  {
    if hi <= lo then {} else {lo} + Range(lo + 1, hi)
  }

  /** The empty range, and the range of one handle. */
  lemma RangeUnit(lo: Handle)
    ensures Range(lo, lo) == {} && Range(lo, lo + 1) == {lo}
  {
  }

  /** Two adjacent ranges of handles make one. */
  lemma RangeJoin(lo: Handle, mid: Handle, hi: Handle)
    requires lo <= mid <= hi
    ensures Range(lo, mid) + Range(mid, hi) == Range(lo, hi)
  {
  }

  /** The handles a successful cleanup of `t` closes; nothing when there was no configuration. */
  function Closed(previous: Option<Tables>): set<Handle>
  {
    match previous
    case None => {}
    case Some(t) =>
      match CleanupFrom(t.sections, LogTargets)
      case Failure(_) => {}
      case Success(hs) => set h | h in hs
  }

  /**
   * The configuration in use is consistent with the handles: its order
   * walks its table, and each log target is left alone or holds an open
   * handle; every open handle was handed out before `next`.
   */
  ghost predicate Consistent(inUse: Option<Tables>, open: set<Handle>, next: Handle)
  {
    (forall h :: h in open ==> h < next) &&
    (inUse.Some? ==>
      Walkable(inUse.value.sections, inUse.value.order) &&
      forall k :: k in LogTargets ==> Closable(inUse.value.sections, k, open))
  }

  /**
   * What the three steps guarantee when they succeed: the order walks the
   * new table, `foreground` is a boolean on a first read and the value in
   * use on a reload, and every log target is ready for cleanup with a
   * handle from the range the opens used.
   */
  lemma ReadTablesCommits(file: Option<seq<string>>, host: Host, basePath: string, previous: Option<Tables>,
                          overrides: seq<(string, string)>, next: Handle, v: (Tables, Handle))
    requires ReadTables(file, host, basePath, previous, overrides, next) == Success(v)
    ensures next <= v.1 && Walkable(v.0.sections, v.0.order)
    ensures ConfigValue(v.0.sections, "foreground").Success?
    ensures previous.None? ==> ConfigValue(v.0.sections, "foreground").value.value.Flag?
    ensures previous.Some? ==>
      ConfigValue(previous.value.sections, "foreground").Success? &&
      ConfigValue(v.0.sections, "foreground").value.value == ConfigValue(previous.value.sections, "foreground").value.value
    ensures forall k :: k in LogTargets ==> LogReady(v.0.sections, k, next, v.1)
  {
    var q := Prepared(file.value, host, basePath).value;
    OrderedWalkable(q.sections, q.order);
    EvaluateCommits(q.sections, q.order, previous, overrides, host, basePath, q.lineNumber, next);
  }

  /** After `read_defaults`, every section of the defaults table holds every default key. */
  lemma DefaultsInjected(p: Parsing, basePath: string, n: string)
    requires n in DefaultSections
    ensures var q := WithDefaults(p, basePath);
      n in q.sections && DefaultKeys(n, basePath) <= q.sections[n].attrs.Keys
  {
    InjectFromSpec(p, DefaultSections, basePath);
  }

  /**
   * Evaluating a table as `read_defaults` leaves it, with single attributes
   * and every default key, validates it.
   */
  lemma EvaluatedValid(q: Parsing, previous: Option<Tables>, overrides: seq<(string, string)>,
                       host: Host, basePath: string, next: Handle)
    requires Ordered(q.sections, q.order) && Single(q.sections)
    requires forall n :: n in DefaultSections ==> n in q.sections && DefaultKeys(n, basePath) <= q.sections[n].attrs.Keys
    requires Walkable(q.sections, q.order)
    requires Evaluate(q.sections, q.order, previous, overrides, host, basePath, q.lineNumber, next).Success?
    ensures Validated(Tables(Evaluate(q.sections, q.order, previous, overrides, host, basePath, q.lineNumber, next).value.0, q.order), host, basePath)
  {
    OrderedWalkable(q.sections, q.order);
    EvaluateValidates(q.sections, q.order, previous, overrides, host, basePath, q.lineNumber, next);
  }

  /**
   * What a successful read validates in the tables it commits: everything
   * `Validated` lists.
   */
  lemma ReadTablesValid(file: Option<seq<string>>, host: Host, basePath: string, previous: Option<Tables>,
                        overrides: seq<(string, string)>, next: Handle, v: (Tables, Handle))
    requires ReadTables(file, host, basePath, previous, overrides, next) == Success(v)
    ensures Validated(v.0, host, basePath)
  {
    var q := Prepared(file.value, host, basePath).value;
    PreparedPlain(file.value, host, basePath);
    OrderedWalkable(q.sections, q.order);
    EvaluatedValid(q, previous, overrides, host, basePath, next);
  }

  /**
   * The table after `read_parse` and `read_defaults` holds single
   * attributes, words outside `watch`, `env` and `config`, and every
   * default key.
   */
  lemma PreparedPlain(lines: seq<string>, host: Host, basePath: string)
    requires Prepared(lines, host, basePath).Success?
    ensures var q := Prepared(lines, host, basePath).value;
      Single(q.sections) &&
      forall n :: n in DefaultSections ==> n in q.sections && DefaultKeys(n, basePath) <= q.sections[n].attrs.Keys
  {
    var p := ParseFile(lines, host).value;
    var q := Prepared(lines, host, basePath).value;
    assert q == WithDefaults(p, basePath);
    ParsePlain(Fresh, Statements(lines), host);
    WithDefaultsPlain(p, basePath);
    forall n | n in DefaultSections ensures n in q.sections && DefaultKeys(n, basePath) <= q.sections[n].attrs.Keys {
      DefaultsInjected(p, basePath, n);
    }
  }

  /**
   * The corrected dump succeeds on every configuration a read commits: the
   * tables a read commits have exactly the shape the corrected dump can
   * write.
   */
  lemma CommittedDumps(file: Option<seq<string>>, host: Host, basePath: string, previous: Option<Tables>,
                       overrides: seq<(string, string)>, next: Handle, v: (Tables, Handle))
    requires ReadTables(file, host, basePath, previous, overrides, next) == Success(v)
    ensures Walkable(v.0.sections, v.0.order) && DumpText(Some(v.0), false).Success?
  {
    ReadTablesValid(file, host, basePath, previous, overrides, next, v);
    ValidatedDumps(v.0, host, basePath);
  }

  /** The corrected dump writes every validated table. */
  lemma ValidatedDumps(t: Tables, host: Host, basePath: string)
    requires Validated(t, host, basePath)
    ensures DumpText(Some(t), false).Success?
  {
    FixedDumpSucceeds(t);
  }

  /** Targets ready with handles from `[lo, hi)` stay closable once those handles are open. */
  lemma ReadyIsClosable(m: map<string, Section>, lo: Handle, hi: Handle, open: set<Handle>)
    requires forall k :: k in LogTargets ==> LogReady(m, k, lo, hi)
    requires forall h :: lo <= h < hi ==> h in open
    ensures forall k :: k in LogTargets ==> Closable(m, k, open)
  {
    forall k | k in LogTargets ensures Closable(m, k, open) {
      assert LogReady(m, k, lo, hi);
    }
  }

  /** The handles a cleanup closes were all handed out before `next`. */
  lemma ClosedBefore(previous: Option<Tables>, open: set<Handle>, next: Handle)
    requires Consistent(previous, open, next)
    ensures previous.Some? ==> CleanupFrom(previous.value.sections, LogTargets).Success?
    ensures forall h :: h in Closed(previous) ==> h in open && h < next
  {
    if previous.Some? {
      CleanupSpec(previous.value.sections, LogTargets, open);
    }
  }

  /**
   * What `read` commits when the three steps succeed: the new tables,
   * with every handle the opens handed out added, and the handles the
   * cleanup of the replaced configuration closed removed. From a consistent
   * state the commit is consistent again, and the cleanup succeeds.
   */
  lemma ReadCommits(file: Option<seq<string>>, host: Host, basePath: string, previous: Option<Tables>,
                    overrides: seq<(string, string)>, open: set<Handle>, next: Handle)
    requires Consistent(previous, open, next)
    requires ReadTables(file, host, basePath, previous, overrides, next).Success?
    ensures var v := ReadTables(file, host, basePath, previous, overrides, next).value;
      next <= v.1 &&
      (previous.Some? ==> CleanupFrom(previous.value.sections, LogTargets).Success?) &&
      Consistent(Some(v.0), (open + Range(next, v.1)) - Closed(previous), v.1)
  {
    var v := ReadTables(file, host, basePath, previous, overrides, next).value;
    ReadTablesCommits(file, host, basePath, previous, overrides, next, v);
    ClosedBefore(previous, open, next);
    CommitConsistent(v.0, previous, open, next, v.1);
  }

  lemma CommitConsistent(t: Tables, previous: Option<Tables>, open: set<Handle>, next: Handle, hi: Handle)
    requires Consistent(previous, open, next) && next <= hi
    requires Walkable(t.sections, t.order)
    requires forall k :: k in LogTargets ==> LogReady(t.sections, k, next, hi)
    ensures Consistent(Some(t), (open + Range(next, hi)) - Closed(previous), hi)
  {
    var open' := (open + Range(next, hi)) - Closed(previous);
    ClosedBefore(previous, open, next);
    ReadyIsClosable(t.sections, next, hi, open');
  }

  /**
   * A read that fails commits nothing, but the handles it opened stay
   * open: the configuration in use stays consistent.
   */
  lemma FailedReadConsistent(inUse: Option<Tables>, open: set<Handle>, next: Handle, hi: Handle)
    requires Consistent(inUse, open, next) && next <= hi
    ensures Consistent(inUse, open + Range(next, hi), hi)
  {
  }
}
