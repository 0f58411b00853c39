/**
 * The logical-line producer of the reader (`gen_lines`): it turns the physical
 * lines of the file into numbered statements, dropping comment lines and
 * joining lines that end in a backslash with the lines that follow them.
 */
module Lines {
  import opened Text

  /** One statement handed to the grammar: the line number it is reported at, and its text. */
  datatype Logical = Logical(line: int, text: string)

  /** The producer's three counters: `line_number`, `line_number_delta`, `line_acc`. */
  datatype Counters = Counters(lineNumber: int, delta: int, acc: string)

  const Start := Counters(0, 0, "")

  /** `line.strip("\n")`. */
  function Chomp(raw: string): string
  {
    StripChars(raw, {'\n'})
  }

  /** A line whose first character other than whitespace is `#`. */
  predicate IsComment(line: string)
  {
    var i := SkipFrom(line, Whitespace, 0);
    i < |line| && line[i] == '#'
  }

  /** That is the source's test: the stripped line starts with `#`. */
  lemma IsCommentStrip(line: string)
    ensures IsComment(line) <==> |Strip(line)| > 0 && Strip(line)[0] == '#'
  {
    SkipFromSpec(line, Whitespace, 0);
    SkipBackSpec(line, Whitespace, |line|);
    StripCharsSpec(line, Whitespace);
  }

  /** A line that ends in a backslash and so continues on the next one. */
  predicate IsContinued(line: string)
  {
    |line| > 0 && line[|line| - 1] == '\\'
  }

  /** What a physical line is to the producer. */
  datatype Kind =
    | Comment                  // dropped, but counted
    | Continued(part: string)  // its text without the final backslash is buffered
    | Ends(text: string)       // completes the buffered statement (the text may be empty)

  function Classify(raw: string): Kind
  {
    var line := Chomp(raw);
    if |line| > 0 && IsComment(line) then Comment
    else if |line| > 0 && IsContinued(line) then Continued(line[..|line| - 1])
    else Ends(line)
  }

  /** The kinds of the given physical lines, in order. */
  function Classified(lines: seq<string>): (r: seq<Kind>)
    ensures |r| == |lines|
  {
    if lines == [] then [] else Classified(lines[..|lines| - 1]) + [Classify(lines[|lines| - 1])]
  }

  /** What the producer does with one physical line of the given kind: the new counters and what it yields. */
  function Step(c: Counters, kind: Kind): (Counters, seq<Logical>)
  {
    match kind
    case Comment => (c.(lineNumber := c.lineNumber + 1), [])
    case Continued(part) => (c.(acc := c.acc + part, delta := c.delta + 1), [])
    case Ends(text) =>
      var acc := c.acc + text;
      var n := c.lineNumber + 1;
      (Counters(n + c.delta, 0, ""), if |acc| > 0 then [Logical(n, acc)] else [])
  }

  /** The counters after, and the statements yielded by, physical lines of the given kinds, from counters `c`. */
  function Run(c: Counters, kinds: seq<Kind>): (Counters, seq<Logical>)
  {
    if kinds == [] then (c, [])
    else
      var before := Run(c, kinds[..|kinds| - 1]);
      var after := Step(before.0, kinds[|kinds| - 1]);
      (after.0, before.1 + after.1)
  }

  /** The producer from its initial counters. */
  function Produce(kinds: seq<Kind>): (Counters, seq<Logical>)
  {
    Run(Start, kinds)
  }

  /**
   * `gen_lines(lines)`, run to exhaustion. The source appends an empty line so
   * that a file ending in a continued line still yields its last statement.
   * Every statement yielded is non-empty, and the line numbers strictly
   * increase and never pass the number of lines read.
   */
  method GenLines(lines: seq<string>) returns (out: seq<Logical>)
    ensures out == Produce(Classified(lines + [""])).1
    ensures forall k :: 0 <= k < |out| ==> out[k].text != ""
    ensures forall k :: 0 <= k < |out| ==> 1 <= out[k].line <= |lines| + 1
    ensures forall j, k :: 0 <= j < k < |out| ==> out[j].line < out[k].line
  {
    var all := lines + [""];
    var lineNumber := 0;
    var lineNumberDelta := 0;
    var lineAcc := "";
    out := [];
    ghost var kinds := Classified(all);
    for i := 0 to |all|
      invariant (Counters(lineNumber, lineNumberDelta, lineAcc), out) == Produce(kinds[..i])
    {
      var kind := Classify(all[i]);
      ghost var before := Produce(kinds[..i]);
      assert Produce(kinds[..i + 1]) == (Step(before.0, kind).0, before.1 + Step(before.0, kind).1) by {
        ClassifiedAt(all, i);
        RunSnoc(Start, kinds[..i], kind);
        assert kinds[..i + 1] == kinds[..i] + [kind];
      }
      match kind {
        case Comment =>
          lineNumber := lineNumber + 1;
          assert out + [] == out;
          continue;
        case Continued(part) =>
          lineAcc := lineAcc + part;
          lineNumberDelta := lineNumberDelta + 1;
          assert out + [] == out;
          continue;
        case Ends(text) =>
          lineAcc := lineAcc + text;
          lineNumber := lineNumber + 1;
      }
      if |lineAcc| > 0 {
        out := out + [Logical(lineNumber, lineAcc)];
      } else {
        assert out + [] == out;
      }
      lineAcc := "";
      lineNumber := lineNumber + lineNumberDelta;
      lineNumberDelta := 0;
    }
    assert kinds[..|all|] == kinds;
    assert out == Run(Start, kinds).1;
    RunWellFormed(Start, kinds);
    ProduceConsumes(kinds);
    assert Run(Start, kinds).0.lineNumber <= |all|;
  }

  lemma {:induction false} ClassifiedAt(lines: seq<string>, i: nat)
    requires i < |lines|
    ensures Classified(lines)[i] == Classify(lines[i])
  {
    if i < |lines| - 1 {
      ClassifiedAt(lines[..|lines| - 1], i);
    }
  }

  /** Reading one more line is one more step. */
  lemma RunSnoc(c: Counters, kinds: seq<Kind>, kind: Kind)
    ensures var before := Run(c, kinds);
      var after := Step(before.0, kind);
      Run(c, kinds + [kind]) == (after.0, before.1 + after.1)
  {
    assert (kinds + [kind])[..|kinds|] == kinds;
  }

  /** Reading `a` and then `b` is reading `a + b`. */
  lemma {:induction false} RunAppend(c: Counters, a: seq<Kind>, b: seq<Kind>)
    ensures var mid := Run(c, a);
      var end := Run(mid.0, b);
      Run(c, a + b) == (end.0, mid.1 + end.1)
  {
    var mid := Run(c, a);
    if b == [] {
      assert a + b == a;
      assert mid.1 + [] == mid.1;
    } else {
      var init := b[..|b| - 1];
      var last := b[|b| - 1];
      var inner := Run(mid.0, init);
      var step := Step(inner.0, last);
      assert Run(c, a + init) == (inner.0, mid.1 + inner.1) by {
        RunAppend(c, a, init);
      }
      assert Run(c, a + b) == (step.0, (mid.1 + inner.1) + step.1) by {
        assert a + b == (a + init) + [last];
        RunSnoc(c, a + init, last);
      }
      assert Run(mid.0, b) == (step.0, inner.1 + step.1) by {
        assert b == init + [last];
        RunSnoc(mid.0, init, last);
      }
      assert (mid.1 + inner.1) + step.1 == mid.1 + (inner.1 + step.1);
    }
  }

  /** `line_number + line_number_delta` grows by exactly one per physical line consumed. */
  lemma {:induction false} RunConsumes(c: Counters, kinds: seq<Kind>)
    ensures Run(c, kinds).0.lineNumber + Run(c, kinds).0.delta == c.lineNumber + c.delta + |kinds|
    ensures c.delta >= 0 ==> Run(c, kinds).0.delta >= 0
    ensures c.delta >= 0 ==> c.lineNumber <= Run(c, kinds).0.lineNumber
  {
    if kinds != [] {
      RunConsumes(c, kinds[..|kinds| - 1]);
    }
  }

  /** From the start, `line_number + line_number_delta` is the number of physical lines consumed. */
  lemma ProduceConsumes(kinds: seq<Kind>)
    ensures Produce(kinds).0.lineNumber + Produce(kinds).0.delta == |kinds|
    ensures Produce(kinds).0.delta >= 0
  {
    RunConsumes(Start, kinds);
  }

  /**
   * Whatever the lines, the statements yielded are non-empty, numbered after
   * the starting line number and up to the final one, in strictly increasing
   * order.
   */
  lemma {:induction false} RunWellFormed(c: Counters, kinds: seq<Kind>)
    requires c.delta >= 0
    ensures var out := Run(c, kinds).1;
      (forall k :: 0 <= k < |out| ==> out[k].text != "") &&
      (forall k :: 0 <= k < |out| ==> c.lineNumber < out[k].line <= Run(c, kinds).0.lineNumber) &&
      (forall j, k :: 0 <= j < k < |out| ==> out[j].line < out[k].line)
  {
    if kinds != [] {
      var before := Run(c, kinds[..|kinds| - 1]);
      RunWellFormed(c, kinds[..|kinds| - 1]);
      RunConsumes(c, kinds[..|kinds| - 1]);
      var yielded := Step(before.0, kinds[|kinds| - 1]).1;
      assert forall k :: 0 <= k < |yielded| ==>
        before.0.lineNumber < yielded[k].line <= Run(c, kinds).0.lineNumber;
    }
  }

  // ---- files without comments or continuations ----

  /** Every non-empty line, numbered by its position in the file. */
  function Numbered(kinds: seq<Kind>): seq<Logical>
    requires forall k :: 0 <= k < |kinds| ==> kinds[k].Ends?
  {
    if kinds == [] then []
    else
      var last := kinds[|kinds| - 1].text;
      Numbered(kinds[..|kinds| - 1]) + if last != "" then [Logical(|kinds|, last)] else []
  }

  /** Without comments and continuations, each non-empty line is one statement at its own line number. */
  lemma {:induction false} PlainLines(kinds: seq<Kind>)
    requires forall k :: 0 <= k < |kinds| ==> kinds[k].Ends?
    ensures Produce(kinds) == (Counters(|kinds|, 0, ""), Numbered(kinds))
  {
    if kinds != [] {
      PlainLines(kinds[..|kinds| - 1]);
      var k := kinds[|kinds| - 1];
      assert "" + k.text == k.text;
    }
  }

  // ---- continued statements ----

  /** The number of comment lines among `body`. */
  function CommentCount(body: seq<Kind>): nat
  {
    if body == [] then 0
    else CommentCount(body[..|body| - 1]) + if body[|body| - 1].Comment? then 1 else 0
  }

  /** The text the continued lines of `body` contribute, their backslashes removed. */
  function Joined(body: seq<Kind>): string
  {
    if body == [] then ""
    else
      Joined(body[..|body| - 1]) + match body[|body| - 1] case Continued(part) => part case _ => ""
  }

  /** The counters sit between two statements: nothing buffered, no delta pending. */
  predicate AtBoundary(c: Counters)
  {
    c.delta == 0 && c.acc == ""
  }

  /** Lines that continue a statement or are comments: none of them ends one. */
  predicate Inside(body: seq<Kind>)
  {
    forall k :: 0 <= k < |body| ==> !body[k].Ends?
  }

  /**
   * Over comment lines and continued lines only, the counters advance past
   * the comments, defer the continued lines and buffer their text; nothing is
   * yielded.
   */
  lemma {:induction false} InsideCounters(c: Counters, body: seq<Kind>)
    requires Inside(body)
    ensures Run(c, body).0 ==
      Counters(c.lineNumber + CommentCount(body), c.delta + |body| - CommentCount(body), c.acc + Joined(body))
    ensures Run(c, body).1 == []
  {
    if body == [] {
      assert c.acc + "" == c.acc;
    } else {
      var init := body[..|body| - 1];
      InsideCounters(c, init);
      var last := body[|body| - 1];
      if last.Comment? {
        assert c.acc + Joined(body) == c.acc + Joined(init) + "";
      } else {
        assert c.acc + Joined(body) == c.acc + Joined(init) + last.part;
      }
    }
  }

  /**
   * A statement that starts at a boundary, runs over continued lines and
   * comment lines, and ends at a line that is neither, is yielded once (when
   * its text is not empty) at the number of its first physical line plus the
   * number of comment lines inside it; the counters are back at a boundary
   * that has consumed every line.
   */
  lemma StatementNumber(c: Counters, body: seq<Kind>, last: Kind)
    requires AtBoundary(c)
    requires Inside(body)
    requires last.Ends?
    ensures Run(c, body + [last]).0 == Counters(c.lineNumber + |body| + 1, 0, "")
    ensures var text := Joined(body) + last.text;
      Run(c, body + [last]).1 ==
        if text != "" then [Logical(c.lineNumber + 1 + CommentCount(body), text)] else []
  {
    StatementCounters(c, body, last);
    StatementYield(c, body, last);
  }

  /** The counters half of `StatementNumber`. */
  lemma StatementCounters(c: Counters, body: seq<Kind>, last: Kind)
    requires AtBoundary(c)
    requires Inside(body)
    requires last.Ends?
    ensures Run(c, body + [last]).0 == Counters(c.lineNumber + |body| + 1, 0, "")
  {
    var mid := Run(c, body);
    var n, delta := c.lineNumber + CommentCount(body), |body| - CommentCount(body);
    assert Run(c, body + [last]).0 == Step(mid.0, last).0 by {
      RunSnoc(c, body, last);
    }
    assert mid.0 == Counters(n, delta, Joined(body)) by {
      InsideFromBoundary(c, body);
    }
    assert Step(mid.0, last).0 == Counters(n + 1 + delta, 0, "") by {
      StatementEnd(mid.0, n, delta, Joined(body), last);
    }
    assert n + 1 + delta == c.lineNumber + |body| + 1;
  }

  /** The yielded half of `StatementNumber`. */
  lemma StatementYield(c: Counters, body: seq<Kind>, last: Kind)
    requires AtBoundary(c)
    requires Inside(body)
    requires last.Ends?
    ensures var text := Joined(body) + last.text;
      Run(c, body + [last]).1 ==
        if text != "" then [Logical(c.lineNumber + 1 + CommentCount(body), text)] else []
  {
    var mid := Run(c, body);
    var n, delta := c.lineNumber + CommentCount(body), |body| - CommentCount(body);
    assert Run(c, body + [last]).1 == mid.1 + Step(mid.0, last).1 by {
      RunSnoc(c, body, last);
    }
    assert mid.0 == Counters(n, delta, Joined(body)) && mid.1 == [] by {
      InsideFromBoundary(c, body);
    }
    StatementOutput(mid, n, delta, Joined(body), last, n + 1);
  }

  lemma StatementOutput(mid: (Counters, seq<Logical>), n: int, delta: int, acc: string, last: Kind, line: int)
    requires mid.0 == Counters(n, delta, acc) && mid.1 == [] && last.Ends? && line == n + 1
    ensures mid.1 + Step(mid.0, last).1 == if acc + last.text != "" then [Logical(line, acc + last.text)] else []
  {
    StepEnds(mid.0, last);
    assert mid.1 + Step(mid.0, last).1 == Step(mid.0, last).1;
  }

  /** The step that ends a statement, from the counters the statement's body left. */
  lemma StatementEnd(mid: Counters, n: int, delta: int, acc: string, last: Kind)
    requires mid == Counters(n, delta, acc) && last.Ends?
    ensures Step(mid, last).0 == Counters(n + 1 + delta, 0, "")
    ensures var text := acc + last.text;
      Step(mid, last).1 == if text != "" then [Logical(n + 1, text)] else []
  {
    StepEnds(mid, last);
  }

  lemma InsideFromBoundary(c: Counters, body: seq<Kind>)
    requires AtBoundary(c)
    requires Inside(body)
    ensures Run(c, body).0 == Counters(c.lineNumber + CommentCount(body), |body| - CommentCount(body), Joined(body))
    ensures Run(c, body).1 == []
  {
    InsideCounters(c, body);
    assert c.acc + Joined(body) == Joined(body);
  }

  /** A line that completes a statement yields the buffered text at the next number, and resets. */
  lemma StepEnds(c: Counters, last: Kind)
    requires last.Ends?
    ensures Step(c, last).0 == Counters(c.lineNumber + 1 + c.delta, 0, "")
    ensures Step(c, last).1 == if c.acc + last.text != "" then [Logical(c.lineNumber + 1, c.acc + last.text)] else []
  {
  }

  /**
   * After a boundary, a continued statement without comment lines inside it
   * is yielded (when its text is not empty) at the number of its first
   * physical line.
   */
  lemma FirstLineNumber(c: Counters, body: seq<Kind>, last: Kind)
    requires AtBoundary(c)
    requires Inside(body)
    requires CommentCount(body) == 0
    requires last.Ends?
    ensures var text := Joined(body) + last.text;
      Run(c, body + [last]).1 == if text != "" then [Logical(c.lineNumber + 1, text)] else []
  {
    StatementNumber(c, body, last);
    var n := c.lineNumber + 1 + CommentCount(body);
    assert n == c.lineNumber + 1;
  }

  /** At a boundary of the whole file, the line number is the number of physical lines read. */
  lemma BoundaryLineNumber(prefix: seq<Kind>)
    requires AtBoundary(Produce(prefix).0)
    ensures Produce(prefix).0.lineNumber == |prefix|
  {
    ProduceConsumes(prefix);
  }

  /** `CommentCount` counts exactly the comment lines: it is zero just when there are none. */
  lemma {:induction false} NoComments(body: seq<Kind>)
    ensures CommentCount(body) == 0 <==> forall k :: 0 <= k < |body| ==> !body[k].Comment?
  {
    if body != [] {
      var init := body[..|body| - 1];
      NoComments(init);
      if CommentCount(body) == 0 {
        assert forall k :: 0 <= k < |init| ==> init[k] == body[k];
      } else if CommentCount(init) != 0 {
        var k :| 0 <= k < |init| && init[k].Comment?;
        assert body[k].Comment?;
      }
    }
  }
}
