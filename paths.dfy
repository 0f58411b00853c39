/**
 * The path arithmetic used to place log files: POSIX `os.path.isabs`,
 * `os.path.normpath` and the reader's own `abspath`, which resolves a path
 * against a caller-given current directory instead of the process's one.
 */
module Paths {
  import opened Text

  const Sep: char := '/'

  /** `os.path.isabs(p)`. */
  predicate IsAbs(p: string) { |p| > 0 && p[0] == Sep }

  /** `s.split(c)`: the pieces between the occurrences of `c`. */
  function SplitAll(s: string, c: char): (r: seq<string>)
    ensures |r| >= 1
    ensures forall k :: 0 <= k < |r| ==> c !in r[k]
    ensures Join(r, [c]) == s
  {
    if s == [] then [""]
    else
      var rest := SplitAll(s[1..], c);
      if s[0] == c then
        assert Join([""] + rest, [c]) == "" + [c] + Join(rest, [c]);
        [""] + rest
      else
        var r := [[s[0]] + rest[0]] + rest[1..];
        assert s == [s[0]] + s[1..];
        JoinConsHead(rest, [c], [s[0]]);
        r
  }

  lemma JoinConsHead(parts: seq<string>, sep: string, pre: string)
    requires |parts| >= 1
    ensures Join([pre + parts[0]] + parts[1..], sep) == pre + Join(parts, sep)
  {
    var q := [pre + parts[0]] + parts[1..];
    if |parts| > 1 {
      assert q[1..] == parts[1..];
    }
  }

  /** One turn of normpath's loop over the components: `acc` is `new_comps`. */
  function NormStep(acc: seq<string>, comp: string, rooted: bool): seq<string>
  {
    if comp == "" || comp == "." then acc
    else if comp != ".." || (!rooted && acc == []) || (acc != [] && acc[|acc| - 1] == "..") then acc + [comp]
    else if acc != [] then acc[..|acc| - 1]
    else acc
  }

  /** The whole loop, from an empty `new_comps`. */
  function NormAll(comps: seq<string>, rooted: bool): seq<string>
  {
    if comps == [] then [] else NormStep(NormAll(comps[..|comps| - 1], rooted), comps[|comps| - 1], rooted)
  }

  /**
   * A list of components normpath can leave behind: no empty or `.` component,
   * no separator inside one, and `..` only at the front of a relative path.
   */
  predicate NormalComps(cs: seq<string>, rooted: bool)
  {
    (forall k :: 0 <= k < |cs| ==> cs[k] != "" && cs[k] != "." && Sep !in cs[k]) &&
    (forall k :: 0 <= k < |cs| && cs[k] == ".." ==> !rooted && forall j :: 0 <= j < k ==> cs[j] == "..")
  }

  lemma {:induction false} NormAllNormal(comps: seq<string>, rooted: bool)
    requires forall k :: 0 <= k < |comps| ==> Sep !in comps[k]
    ensures NormalComps(NormAll(comps, rooted), rooted)
  {
    if comps != [] {
      NormAllNormal(comps[..|comps| - 1], rooted);
    }
  }

  /** Running the loop over a list it could have produced changes nothing. */
  lemma {:induction false} NormAllOfNormal(cs: seq<string>, rooted: bool)
    requires NormalComps(cs, rooted)
    ensures NormAll(cs, rooted) == cs
  {
    if cs != [] {
      var init := cs[..|cs| - 1];
      assert NormalComps(init, rooted);
      NormAllOfNormal(init, rooted);
      assert cs == init + [cs[|cs| - 1]];
    }
  }

  /** Empty components in front (the leading separators) are skipped by the loop. */
  lemma {:induction false} NormAllSkipsEmpty(n: nat, cs: seq<string>, rooted: bool)
    ensures NormAll(seq(n, _ => "") + cs, rooted) == NormAll(cs, rooted)
  {
    if cs == [] {
      NormAllEmpties(n, rooted);
      assert seq(n, _ => "") + cs == seq(n, _ => "");
    } else {
      var all := seq(n, _ => "") + cs;
      assert all[..|all| - 1] == seq(n, _ => "") + cs[..|cs| - 1];
      NormAllSkipsEmpty(n, cs[..|cs| - 1], rooted);
    }
  }

  lemma {:induction false} NormAllEmpties(n: nat, rooted: bool)
    ensures NormAll(seq(n, _ => ""), rooted) == []
  {
    if n > 0 {
      assert seq(n, _ => "")[..n - 1] == seq(n - 1, _ => "");
      NormAllEmpties(n - 1, rooted);
    }
  }

  /** The number of separators normpath keeps in front: two exactly when there are two. */
  function LeadingSlashes(p: string): nat
  {
    if |p| > 0 && p[0] == Sep then
      if |p| > 1 && p[1] == Sep && !(|p| > 2 && p[2] == Sep) then 2 else 1
    else 0
  }

  function Slashes(n: nat): string
  {
    seq(n, _ => Sep)
  }

  /** normpath's output assembled from its kept separators and components. */
  function Render(slashes: nat, comps: seq<string>): string
  {
    var r := Slashes(slashes) + Join(comps, [Sep]);
    if r == "" then "." else r
  }

  /** `os.path.normpath(p)`. */
  function NormPath(p: string): (r: string)
    ensures r != ""
  {
    if p == "" then "."
    else
      var slashes := LeadingSlashes(p);
      Render(slashes, NormAll(SplitAll(p, Sep), slashes > 0))
  }

  /** normpath keeps a path absolute or relative, and leaves only normal components behind. */
  lemma NormPathShape(p: string)
    ensures p != "" ==>
      var slashes := LeadingSlashes(p);
      var comps := NormAll(SplitAll(p, Sep), slashes > 0);
      NormalComps(comps, slashes > 0) && NormPath(p) == Render(slashes, comps)
    ensures IsAbs(NormPath(p)) <==> IsAbs(p)
  {
    if p != "" {
      var slashes := LeadingSlashes(p);
      var comps := NormAll(SplitAll(p, Sep), slashes > 0);
      NormAllNormal(SplitAll(p, Sep), slashes > 0);
      if slashes == 0 && comps != [] {
        JoinFirstChar(comps);
      }
    }
  }

  lemma {:induction false} JoinFirstChar(cs: seq<string>)
    requires |cs| > 0 && cs[0] != ""
    ensures |Join(cs, [Sep])| > 0 && Join(cs, [Sep])[0] == cs[0][0]
  {
  }

  lemma {:induction false} SplitJoin(cs: seq<string>)
    requires |cs| > 0
    requires forall k :: 0 <= k < |cs| ==> Sep !in cs[k]
    ensures SplitAll(Join(cs, [Sep]), Sep) == cs
  {
    if |cs| == 1 {
      SplitNoSep(cs[0]);
    } else {
      var rest := Join(cs[1..], [Sep]);
      SplitJoin(cs[1..]);
      SplitPrefix(cs[0], rest);
    }
  }

  lemma {:induction false} SplitNoSep(s: string)
    requires Sep !in s
    ensures SplitAll(s, Sep) == [s]
  {
    if s != [] {
      SplitNoSep(s[1..]);
    }
  }

  lemma {:induction false} SplitPrefix(a: string, b: string)
    requires Sep !in a
    ensures SplitAll(a + [Sep] + b, Sep) == [a] + SplitAll(b, Sep)
  {
    if a == [] {
      assert [] + [Sep] + b == [Sep] + b;
      assert ([Sep] + b)[1..] == b;
    } else {
      assert (a + [Sep] + b)[1..] == a[1..] + [Sep] + b;
      SplitPrefix(a[1..], b);
      assert [a[0]] + a[1..] == a;
    }
  }

  lemma {:induction false} SplitSlashes(n: nat, s: string)
    ensures SplitAll(Slashes(n) + s, Sep) == seq(n, _ => "") + SplitAll(s, Sep)
  {
    if n > 0 {
      assert (Slashes(n) + s)[1..] == Slashes(n - 1) + s;
      assert (Slashes(n) + s)[0] == Sep;
      SplitSlashes(n - 1, s);
      assert seq(n, _ => "") == [""] + seq(n - 1, _ => "");
    } else {
      assert Slashes(0) + s == s;
    }
  }

  lemma DotIsNormal()
    ensures NormPath(".") == "."
  {
    assert SplitAll(".", Sep) == ["."];
    assert LeadingSlashes(".") == 0;
    assert NormAll(["."], false) == NormStep(NormAll([], false), ".", false) == [];
  }

  /** Normalising twice is normalising once. */
  lemma NormPathIdempotent(p: string)
    ensures NormPath(NormPath(p)) == NormPath(p)
  {
    if p == "" {
      DotIsNormal();
    } else {
      NormPathShape(p);
      RenderNormal(LeadingSlashes(p), NormAll(SplitAll(p, Sep), LeadingSlashes(p) > 0));
    }
  }

  /** What normpath renders from normal components, it leaves as it is. */
  lemma RenderNormal(slashes: nat, comps: seq<string>)
    requires slashes <= 2
    requires NormalComps(comps, slashes > 0)
    ensures NormPath(Render(slashes, comps)) == Render(slashes, comps)
  {
    var body := Join(comps, [Sep]);
    var r := Render(slashes, comps);
    var rooted := slashes > 0;
    if Slashes(slashes) + body == "" {
      DotIsNormal();
    } else {
      assert r == Slashes(slashes) + body;
      assert LeadingSlashes(r) == slashes by {
        if comps != [] {
          JoinFirstChar(comps);
        }
        LeadingSlashesOf(slashes, body);
      }
      assert NormAll(SplitAll(r, Sep), rooted) == comps by {
        SplitSlashes(slashes, body);
        if comps == [] {
          assert SplitAll(body, Sep) == [""];
          assert seq(slashes, _ => "") + [""] == seq(slashes + 1, _ => "") + [];
          NormAllSkipsEmpty(slashes + 1, [], rooted);
        } else {
          SplitJoin(comps);
          NormAllSkipsEmpty(slashes, comps, rooted);
          NormAllOfNormal(comps, rooted);
        }
      }
    }
  }

  /** normpath's kept separators are found again in front of its output. */
  lemma LeadingSlashesOf(slashes: nat, body: string)
    requires slashes <= 2
    requires body == [] || body[0] != Sep
    ensures LeadingSlashes(Slashes(slashes) + body) == slashes
  {
    var r := Slashes(slashes) + body;
    if slashes == 2 {
      assert r[0] == Sep && r[1] == Sep;
      assert |r| > 2 ==> r[2] == body[0];
    } else if slashes == 1 {
      assert r[0] == Sep;
      assert |r| > 1 ==> r[1] == body[0];
    } else {
      assert r == body;
    }
  }

  /**
   * `abspath(path, current_path)`: an absolute `path` is only normalised;
   * a relative one is joined to `current_path` with a separator first.
   */
  function AbsPath(path: string, currentPath: string): string
  {
    var s := if IsAbs(path) then path else NormPath(currentPath + [Sep] + path);
    NormPath(s)
  }

  /**
   * The result is `path` normalised, or `current_path/path` normalised; it is
   * absolute when `path` is, and otherwise exactly when `current_path` is
   * absolute or empty (an empty one leaves a bare separator in front).
   */
  lemma AbsPathResolves(path: string, currentPath: string)
    ensures AbsPath(path, currentPath) ==
      NormPath(if IsAbs(path) then path else currentPath + [Sep] + path)
    ensures IsAbs(path) ==> IsAbs(AbsPath(path, currentPath))
    ensures !IsAbs(path) ==>
      (IsAbs(AbsPath(path, currentPath)) <==> IsAbs(currentPath) || currentPath == "")
  {
    var joined := currentPath + [Sep] + path;
    NormPathIdempotent(joined);
    NormPathShape(path);
    NormPathShape(joined);
    if !IsAbs(path) {
      assert IsAbs(joined) <==> IsAbs(currentPath) || currentPath == "";
    }
  }

  /** An absolute path comes out of normpath free of `.`, `..` and empty components. */
  lemma AbsoluteNormal(p: string)
    requires IsAbs(p)
    ensures var slashes := LeadingSlashes(p);
      var comps := NormAll(SplitAll(p, Sep), true);
      1 <= slashes <= 2 && NormPath(p) == Render(slashes, comps) &&
      forall k :: 0 <= k < |comps| ==> comps[k] !in {"", ".", ".."} && Sep !in comps[k]
  {
    NormPathShape(p);
  }
}
