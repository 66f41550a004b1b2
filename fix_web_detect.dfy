/** The maintenance script that repairs empty `try:` blocks: it scans the
    lines of a Python file and, after every `try:` whose body is missing,
    inserts `<indent>    pass`.

    The scan only looks at what kind each line is (blank, `try:`, an
    `except`/`finally` clause, anything else) and how wide its indentation
    is, so the reference meaning is stated over `Kinds(lines)`. It is a
    trace: the output is a list of emitted lines, each either a copy of
    input line `n` or a `pass` inserted for the `try:` at line `n`.
    `TraceFrom(ks, i)` is what the scan emits from line `i` on;
    `FixEmptyTry` is the scan itself, proved to emit exactly the rendered
    trace. */
module FixWebDetect {
  import opened Text
  import opened Seqs

  /** The line, without its indentation, starts with `try:`; such a line
      is never blank and never taken for a handler. */
  predicate IsTry(line: string)
    ensures IsTry(line) ==> !IsBlank(line) && !IsHandler(line)
  {
    var r := LStrip(line);
    StartsWithSlice(r, "try:");
    StartsWithSlice(r, "except");
    StartsWithSlice(r, "finally");
    StartsWith(r, "try:")
  }

  /** The left-stripped line starts with `except` or `finally`; such a line
      is never blank. */
  predicate IsHandler(line: string)
    ensures IsHandler(line) ==> !IsBlank(line)
  {
    var r := LStrip(line);
    StartsWithSlice(r, "except");
    StartsWithSlice(r, "finally");
    StartsWith(r, "except") || StartsWith(r, "finally")
  }

  /** The line inserted for an empty `try:` block: `pass`, indented four
      spaces deeper than the `try:`. */
  function PassLine(tryLine: string): (line: string)
    ensures LStrip(line) == "pass"
    ensures Indent(line) == Indent(tryLine) + "    "
  {
    var ind := Indent(tryLine) + "    ";
    assert IsBlank(ind) by {
      forall k | 0 <= k < |ind| ensures IsSpace(ind[k]) {
        if k >= |Indent(tryLine)| {
          assert ind[k] == ' ';
        }
      }
    }
    LStripOf(ind, "pass");
    ind + "pass"
  }

  /** What the scan sees of a line; `indent` is the width of its leading
      whitespace. */
  datatype LineKind = Blank | Try(indent: nat) | Handler(indent: nat) | Other

  function KindOf(line: string): LineKind
  {
    if IsBlank(line) then Blank
    else if IsTry(line) then Try(|Indent(line)|)
    else if IsHandler(line) then Handler(|Indent(line)|)
    else Other
  }

  function Kinds(lines: seq<string>): (ks: seq<LineKind>)
    ensures |ks| == |lines|
  {
    if lines == [] then [] else [KindOf(lines[0])] + Kinds(lines[1..])
  }

  lemma {:induction false} KindsAt(lines: seq<string>, k: nat)
    requires k < |lines|
    ensures Kinds(lines)[k] == KindOf(lines[k])
    decreases k
  {
    if k > 0 {
      KindsAt(lines[1..], k - 1);
    }
  }

  /** What the scan tests on line `k` of the file, read off its kind. */
  lemma KindFacts(lines: seq<string>, k: nat)
    requires k < |lines|
    ensures Kinds(lines)[k] == Blank <==> IsBlank(lines[k])
    ensures Kinds(lines)[k].Try? <==> IsTry(lines[k])
    ensures Kinds(lines)[k].Handler? <==> !IsBlank(lines[k]) && IsHandler(lines[k])
    ensures Kinds(lines)[k].Try? || Kinds(lines)[k].Handler? ==> Kinds(lines)[k].indent == |Indent(lines[k])|
  {
    KindsAt(lines, k);
    KindOfSound(lines[k]);
  }

  /** The classification loses nothing the scan tests: blankness, `try:`,
      `except`/`finally` and the indentation width. */
  lemma KindOfSound(line: string)
    ensures KindOf(line) == Blank <==> IsBlank(line)
    ensures KindOf(line).Try? <==> IsTry(line)
    ensures KindOf(line).Handler? <==> IsHandler(line) && !IsBlank(line)
    ensures (KindOf(line).Try? || KindOf(line).Handler?) ==> KindOf(line).indent == |Indent(line)|
  {
    var r := LStrip(line);
    StartsWithSlice(r, "try:");
    StartsWithSlice(r, "except");
    StartsWithSlice(r, "finally");
    if IsTry(line) {
      assert r[0] == 't';
    }
  }

  /** The index of the first non-blank line at or after `k`, or `|ks|`. */
  function NextNonBlank(ks: seq<LineKind>, k: nat): (j: nat)
    requires k <= |ks|
    ensures k <= j <= |ks|
    ensures forall m :: k <= m < j ==> ks[m] == Blank
    ensures j < |ks| ==> ks[j] != Blank
    decreases |ks| - k
  {
    if k == |ks| || ks[k] != Blank then k else NextNonBlank(ks, k + 1)
  }

  /** The `try:` at line `i` is followed by blank lines only: the scan stops there. */
  predicate EndsAt(ks: seq<LineKind>, i: nat)
    requires i < |ks|
  {
    ks[i].Try? && NextNonBlank(ks, i + 1) == |ks|
  }

  /** The `try:` at line `i` gets a `pass`: nothing but blank lines follow it,
      or its next non-blank line is an `except`/`finally` indented no deeper. */
  predicate NeedsPass(ks: seq<LineKind>, i: nat)
    requires i < |ks|
    ensures NeedsPass(ks, i) ==> ks[i].Try?
    ensures ks[i].Try? && i + 1 == |ks| ==> NeedsPass(ks, i)  // a `try:` on the last line always needs one
  {
    && ks[i].Try?
    && var j := NextNonBlank(ks, i + 1);
       j == |ks| || (ks[j].Handler? && ks[j].indent <= ks[i].indent)
  }

  /** One emitted output line. */
  datatype Emit = Copy(line: nat) | Pass(after: nat)
  {
    /** The input line the emitted line comes from. */
    function Source(): nat
    {
      match this
      case Copy(n) => n
      case Pass(n) => n
    }
  }

  /** Every emitted line comes from one of the first `n` input lines. */
  predicate ValidTrace(n: nat, t: seq<Emit>)
  {
    forall k :: 0 <= k < |t| ==> t[k].Source() < n
  }

  predicate HasPass(t: seq<Emit>)
  {
    exists e :: e in t && e.Pass?
  }

  /** Copies of the input lines `a .. b-1`, in order. */
  function CopyRange(a: nat, b: nat): (r: seq<Emit>)
    ensures |r| == if a <= b then b - a else 0
    decreases b
  {
    if b <= a then [] else CopyRange(a, b - 1) + [Copy(b - 1)]
  }

  lemma {:induction false} CopyRangeAt(a: nat, b: nat)
    ensures forall k :: 0 <= k < |CopyRange(a, b)| ==> CopyRange(a, b)[k] == Copy(a + k)
    decreases b
  {
    if a < b {
      CopyRangeAt(a, b - 1);
    }
  }

  lemma CopyRangeCons(a: nat, b: nat)
    requires a < b
    ensures CopyRange(a, b) == [Copy(a)] + CopyRange(a + 1, b)
  {
    CopyRangeAt(a, b);
    CopyRangeAt(a + 1, b);
  }

  /** What the scan emits for line `i` itself: the line, then for a `try:`
      the blank lines after it, then the `pass` it needs, if any. */
  function Step(ks: seq<LineKind>, i: nat): (step: seq<Emit>)
    requires i < |ks|
    ensures |step| >= 1 && step[0] == Copy(i)
    ensures ks[i].Try? ==> |step| >= NextNonBlank(ks, i + 1) - i
  {
    if ks[i].Try? then
      [Copy(i)] + CopyRange(i + 1, NextNonBlank(ks, i + 1)) + (if NeedsPass(ks, i) then [Pass(i)] else [])
    else
      [Copy(i)]
  }

  /** Everything the scan emits from line `i` on. */
  function TraceFrom(ks: seq<LineKind>, i: nat): (t: seq<Emit>)
    requires i <= |ks|
    ensures |t| >= |ks| - i  // no line from `i` on is lost
    decreases |ks| - i
  {
    if i == |ks| then []
    else if EndsAt(ks, i) then Step(ks, i)
    else Step(ks, i) + TraceFrom(ks, i + 1)
  }

  /** What the scan emits for the whole file. */
  function Trace(lines: seq<string>): seq<Emit>
  {
    TraceFrom(Kinds(lines), 0)
  }

  /** Property: every emitted line is a copy of, or a `pass` for, an input line. */
  lemma TraceValid(lines: seq<string>)
    ensures ValidTrace(|lines|, Trace(lines))
  {
    TraceFromValid(Kinds(lines), 0);
  }

  lemma {:induction false} TraceFromValid(ks: seq<LineKind>, i: nat)
    requires i <= |ks|
    ensures ValidTrace(|ks|, TraceFrom(ks, i))
    decreases |ks| - i
  {
    if i < |ks| {
      CopyRangeAt(i + 1, NextNonBlank(ks, i + 1));
      if !EndsAt(ks, i) {
        TraceFromValid(ks, i + 1);
      }
    }
  }

  /** What the scan emits for lines `0 .. i-1`, if it gets past them. */
  function TraceUpTo(ks: seq<LineKind>, i: nat): seq<Emit>
    requires i <= |ks|
  {
    if i == 0 then [] else TraceUpTo(ks, i - 1) + Step(ks, i - 1)
  }

  /** The text of one emitted line (an emitted line always comes from an
      input line, see `TraceFrom`; anything else renders as nothing). */
  function RenderOne(lines: seq<string>, e: Emit): string
  {
    if e.Source() >= |lines| then ""
    else match e
      case Copy(n) => lines[n]
      case Pass(n) => PassLine(lines[n])
  }

  /** The text lines of a trace. */
  function Render(lines: seq<string>, t: seq<Emit>): (out: seq<string>)
  {
    seq(|t|, k requires 0 <= k < |t| => RenderOne(lines, t[k]))
  }

  lemma RenderAppend(lines: seq<string>, t: seq<Emit>, u: seq<Emit>)
    ensures Render(lines, t + u) == Render(lines, t) + Render(lines, u)
  {
  }

  lemma RenderCopies(lines: seq<string>, a: nat, b: nat)
    requires a <= b <= |lines|
    ensures Render(lines, CopyRange(a, b)) == lines[a..b]
  {
    CopyRangeAt(a, b);
  }

  /** The scan itself, with `out` and `changed` as the script builds them
      (reading and writing the file are outside the model). The body of the
      outer loop is `ScanLine`; its `stop` result is the script's `break`. */
  method FixEmptyTry(lines: seq<string>) returns (out: seq<string>, changed: bool)
    ensures out == Render(lines, Trace(lines))
    ensures changed <==> exists k :: 0 <= k < |lines| && NeedsPass(Kinds(lines), k)
  {
    ghost var ks := Kinds(lines);
    out := [];
    var i := 0;
    changed := false;
    ghost var t: seq<Emit> := [];
    while i < |lines|
      invariant 0 <= i <= |lines|
      invariant Scanned(ks, i, t)
      invariant out == Render(lines, t)
      invariant changed <==> HasPass(t)
      decreases |lines| - i
    {
      var stop;
      ghost var t0 := t;
      out, changed, stop := ScanLine(lines, i, out, changed);
      t := t + Step(ks, i);
      assert out == Render(lines, t) && (changed <==> HasPass(t)) by {
        RenderAppend(lines, t0, Step(ks, i));
        StepPasses(ks, i, t0);
      }
      if stop {
        assert t == TraceFrom(ks, 0) by { ScannedStop(ks, i, t0); }
        break;
      }
      assert Scanned(ks, i + 1, t) by { ScannedNext(ks, i, t0); }
      i := i + 1;
    }
    assert out == Render(lines, Trace(lines)) && (changed <==> exists k :: 0 <= k < |lines| && NeedsPass(Kinds(lines), k)) by {
      PassIffNeeded(lines);
    }
  }

  /** The scan has emitted `t` for lines `0 .. i-1` and goes on at line `i`. */
  ghost predicate Scanned(ks: seq<LineKind>, i: nat, t: seq<Emit>)
    requires i <= |ks|
  {
    t + TraceFrom(ks, i) == TraceFrom(ks, 0)
  }

  lemma ScannedNext(ks: seq<LineKind>, i: nat, t: seq<Emit>)
    requires i < |ks| && Scanned(ks, i, t) && !EndsAt(ks, i)
    ensures Scanned(ks, i + 1, t + Step(ks, i))
  {
    Assoc(t, Step(ks, i), TraceFrom(ks, i + 1));
  }

  lemma ScannedStop(ks: seq<LineKind>, i: nat, t: seq<Emit>)
    requires i < |ks| && Scanned(ks, i, t) && EndsAt(ks, i)
    ensures t + Step(ks, i) == TraceFrom(ks, 0)
  {
  }

  /** The `pass` lines among the emitted ones after line `i` is handled. */
  lemma StepPasses(ks: seq<LineKind>, i: nat, t: seq<Emit>)
    requires i < |ks|
    ensures HasPass(t + Step(ks, i)) <==> HasPass(t) || NeedsPass(ks, i)
  {
    var j := NextNonBlank(ks, i + 1);
    CopyRangeAt(i + 1, j);
    assert forall e :: e in CopyRange(i + 1, j) ==> e.Copy?;
    assert forall e :: e in t + Step(ks, i) <==> e in t || e in Step(ks, i);
    if NeedsPass(ks, i) {
      assert Pass(i) in Step(ks, i);
    }
  }

  /** One pass of the script's outer loop over line `i`: the line itself and,
      for a `try:`, the blank lines after it (the inner loop, `CopyBlankLines`)
      and the `pass` it needs; `stop` reports the `break` taken when only
      blank lines follow. */
  method ScanLine(lines: seq<string>, i: nat, out0: seq<string>, changed0: bool)
    returns (out: seq<string>, changed: bool, stop: bool)
    requires i < |lines|
    ensures out == out0 + Render(lines, Step(Kinds(lines), i))
    ensures changed <==> changed0 || NeedsPass(Kinds(lines), i)
    ensures stop <==> EndsAt(Kinds(lines), i)
  {
    ghost var ks := Kinds(lines);
    out, changed, stop := out0, changed0, false;
    var line := lines[i];
    out := out + [line];
    var stripped := LStrip(line);
    if StartsWith(stripped, "try:") {
      assert ks[i].Try? by { KindFacts(lines, i); }
      var indent := line[..|line| - |stripped|];
      var j;
      j, out := CopyBlankLines(lines, i + 1, out);
      if j >= |lines| {
        out := out + [indent + "    pass"];
        changed := true;
        stop := true;
      } else {
        var nextLine := lines[j];
        var nextStrip := LStrip(nextLine);
        var nextIndent := nextLine[..|nextLine| - |nextStrip|];
        assert NeedsPass(ks, i) <==> (StartsWith(nextStrip, "except") || StartsWith(nextStrip, "finally")) && |nextIndent| <= |indent| by {
          HandlerTest(lines, ks, i, j);
        }
        if (StartsWith(nextStrip, "except") || StartsWith(nextStrip, "finally")) && |nextIndent| <= |indent| {
          out := out + [indent + "    pass"];
          changed := true;
        }
      }
      assert out == out0 + Render(lines, Step(ks, i)) by {
        RenderStep(lines, ks, i, out0);
        PassLineText(line);
      }
    } else {
      assert !ks[i].Try? by { KindFacts(lines, i); }
      assert Render(lines, [Copy(i)]) == [line];
    }
  }

  /** The script's inner loop: copies the blank lines from line `from` on and
      stops at the first non-blank line, or at the end of the file. */
  method CopyBlankLines(lines: seq<string>, from: nat, out0: seq<string>) returns (j: nat, out: seq<string>)
    requires from <= |lines|
    ensures j == NextNonBlank(Kinds(lines), from)
    ensures out == out0 + lines[from..j]
  {
    ghost var ks := Kinds(lines);
    j, out := from, out0;
    while j < |lines| && IsBlank(lines[j])
      invariant from <= j <= |lines|
      invariant NextNonBlank(ks, j) == NextNonBlank(ks, from)
      invariant out == out0 + lines[from..j]
      decreases |lines| - j
    {
      assert NextNonBlank(ks, j + 1) == NextNonBlank(ks, from) by { SkipBlank(lines, ks, j); }
      assert out + [lines[j]] == out0 + lines[from..j + 1] by {
        assert lines[from..j + 1] == lines[from..j] + [lines[j]];
        Assoc(out0, lines[from..j], [lines[j]]);
      }
      out := out + [lines[j]];
      j := j + 1;
    }
    StopAtNonBlank(lines, ks, j);
  }

  /** The text `ScanLine` emits for a `try:` line. */
  lemma RenderStep(lines: seq<string>, ks: seq<LineKind>, i: nat, o: seq<string>)
    requires ks == Kinds(lines) && i < |lines| && ks[i].Try?
    ensures var j := NextNonBlank(ks, i + 1);
            NeedsPass(ks, i) ==> o + Render(lines, Step(ks, i)) == o + [lines[i]] + lines[i + 1..j] + [PassLine(lines[i])]
    ensures var j := NextNonBlank(ks, i + 1);
            !NeedsPass(ks, i) ==> o + Render(lines, Step(ks, i)) == o + [lines[i]] + lines[i + 1..j]
  {
    var j := NextNonBlank(ks, i + 1);
    RenderChunk(lines, ks, i, j);
    assert Step(ks, i) == TryChunk(ks, i, j);
    var head := [lines[i]] + lines[i + 1..j];
    Assoc(o, [lines[i]], lines[i + 1..j]);
    if NeedsPass(ks, i) {
      Assoc(o, head, [PassLine(lines[i])]);
    } else {
      assert head + [] == head;
    }
  }

  /** The inner loop steps over a blank line. */
  lemma SkipBlank(lines: seq<string>, ks: seq<LineKind>, j: nat)
    requires ks == Kinds(lines) && j < |lines| && IsBlank(lines[j])
    ensures NextNonBlank(ks, j) == NextNonBlank(ks, j + 1)
  {
    KindFacts(lines, j);
  }

  /** The inner loop stops at the next non-blank line, or at the end. */
  lemma StopAtNonBlank(lines: seq<string>, ks: seq<LineKind>, j: nat)
    requires ks == Kinds(lines) && j <= |lines| && (j < |lines| ==> !IsBlank(lines[j]))
    ensures NextNonBlank(ks, j) == j
  {
    if j < |lines| {
      KindFacts(lines, j);
    }
  }

  /** The script's test on the line after the blank lines is `NeedsPass`. */
  lemma HandlerTest(lines: seq<string>, ks: seq<LineKind>, i: nat, j: nat)
    requires ks == Kinds(lines) && i < j < |lines| && ks[i].Try? && NextNonBlank(ks, i + 1) == j
    ensures NeedsPass(ks, i) <==> (StartsWith(LStrip(lines[j]), "except") || StartsWith(LStrip(lines[j]), "finally"))
                                  && |Indent(lines[j])| <= |Indent(lines[i])|
  {
    KindFacts(lines, i);
    KindFacts(lines, j);
  }

  /** Property, in the script's own terms: the `try:` at line `i` needs a
      `pass` exactly when only blank lines follow it, or when its next
      non-blank line `j` starts with `except` or `finally` and is indented no
      deeper than the `try:`. */
  lemma NeedsPassIff(lines: seq<string>, i: nat)
    requires i < |lines|
    ensures NeedsPass(Kinds(lines), i) <==>
      && IsTry(lines[i])
      && (|| BlankBetween(lines, i, |lines|)
          || (exists j :: && i < j < |lines| && !IsBlank(lines[j]) && BlankBetween(lines, i, j)
                          && IsHandler(lines[j]) && |Indent(lines[j])| <= |Indent(lines[i])|))
  {
    var ks := Kinds(lines);
    var j := NextNonBlank(ks, i + 1);
    KindFacts(lines, i);
    NextNonBlankLines(lines, ks, i);
    if j < |lines| {
      KindFacts(lines, j);
      assert !BlankBetween(lines, i, |lines|) by {
        assert !IsBlank(lines[j]);
      }
      forall j' | i < j' < |lines| && !IsBlank(lines[j']) && BlankBetween(lines, i, j')
        ensures j' == j
      {
        NextNonBlankLine(lines, ks, i, j');
      }
    }
  }

  /** A `try:` that ends the scan leaves only blank lines after it. */
  lemma EndsAtBlankAfter(ks: seq<LineKind>, i: nat, k: nat)
    requires i < k < |ks| && EndsAt(ks, i)
    ensures ks[k] == Blank
  {
  }

  /** The scan reaches every `try:` line: no earlier `try:` can end it, since
      that would make every later line blank. */
  lemma TryReached(ks: seq<LineKind>, i: nat)
    requires i < |ks| && ks[i].Try?
    ensures forall k :: 0 <= k < i ==> !EndsAt(ks, k)
  {
    forall k | 0 <= k < i
      ensures !EndsAt(ks, k)
    {
      if EndsAt(ks, k) {
        EndsAtBlankAfter(ks, k, i);
      }
    }
  }

  /** Once the scan gets past lines `0 .. i-1`, the output is their part
      followed by what the scan emits from line `i` on. */
  lemma {:induction false} TraceSplit(ks: seq<LineKind>, i: nat)
    requires i <= |ks|
    requires forall k :: 0 <= k < i ==> !EndsAt(ks, k)
    ensures TraceFrom(ks, 0) == TraceUpTo(ks, i) + TraceFrom(ks, i)
    decreases i
  {
    if i > 0 {
      TraceSplit(ks, i - 1);
      var before, step, rest := TraceUpTo(ks, i - 1), Step(ks, i - 1), TraceFrom(ks, i);
      assert TraceFrom(ks, i - 1) == step + rest by {
        assert !EndsAt(ks, i - 1);
      }
      assert TraceUpTo(ks, i) == before + step;
      Assoc(before, step, rest);
    }
  }

  /** Every line the scan emits for the lines before a non-blank line `i` is
      a copy of, or a `pass` for, a line before `i`. */
  lemma {:induction false} TraceUpToBefore(ks: seq<LineKind>, i: nat, n: nat)
    requires n <= i < |ks| && ks[i] != Blank
    ensures forall e :: e in TraceUpTo(ks, n) ==> e.Source() < i
    decreases n
  {
    if n > 0 {
      TraceUpToBefore(ks, i, n - 1);
      var j := NextNonBlank(ks, n);
      assert j <= i;
      CopyRangeAt(n, j);
      assert forall e :: e in CopyRange(n, j) ==> e.Source() < i;
    }
  }

  /** Property: a `pass` is emitted for line `i` exactly when line `i` needs
      one; so at least one `pass` is emitted exactly when some line needs one. */
  lemma PassIffNeeded(lines: seq<string>)
    ensures forall i: nat :: Pass(i) in Trace(lines) <==> i < |lines| && NeedsPass(Kinds(lines), i)
    ensures HasPass(Trace(lines)) <==> exists k :: 0 <= k < |lines| && NeedsPass(Kinds(lines), k)
  {
    var ks := Kinds(lines);
    PassesFrom(ks, 0);
    if HasPass(Trace(lines)) {
      var e :| e in Trace(lines) && e.Pass?;
      assert e.after < |lines| && NeedsPass(ks, e.after);
    }
    if exists k :: 0 <= k < |lines| && NeedsPass(ks, k) {
      var k :| 0 <= k < |lines| && NeedsPass(ks, k);
      assert Pass(k) in Trace(lines);
    }
  }

  lemma {:induction false} PassesFrom(ks: seq<LineKind>, i: nat)
    requires i <= |ks|
    ensures forall k: nat :: Pass(k) in TraceFrom(ks, i) <==> i <= k < |ks| && NeedsPass(ks, k)
    decreases |ks| - i
  {
    if i < |ks| {
      var j := NextNonBlank(ks, i + 1);
      CopyRangeAt(i + 1, j);
      assert forall k: nat :: Pass(k) !in CopyRange(i + 1, j);
      assert forall k: nat :: Pass(k) in Step(ks, i) <==> k == i && NeedsPass(ks, i);
      if EndsAt(ks, i) {
        forall k: nat | i < k < |ks|
          ensures !NeedsPass(ks, k)
        {
          EndsAtBlankAfter(ks, i, k);
        }
      } else {
        PassesFrom(ks, i + 1);
      }
    }
  }

  /** Property: every inserted line is the `try:` line's own indentation
      followed by four spaces and `pass`, and stands for a `try:` that needs it. */
  lemma InsertedPassLine(lines: seq<string>, n: nat)
    requires n < |Trace(lines)| && Trace(lines)[n].Pass?
    ensures Trace(lines)[n].after < |lines|
    ensures IsTry(lines[Trace(lines)[n].after])
    ensures NeedsPass(Kinds(lines), Trace(lines)[n].after)
    ensures Render(lines, Trace(lines))[n] == Indent(lines[Trace(lines)[n].after]) + "    pass"
  {
    var t := Trace(lines);
    var a := t[n].after;
    PassIffNeeded(lines);
    assert t[n] in t;
    KindFacts(lines, a);
    assert Render(lines, t)[n] == PassLine(lines[a]);
    PassLineText(lines[a]);
  }

  lemma PassLineText(tryLine: string)
    ensures PassLine(tryLine) == Indent(tryLine) + "    pass"
  {
    var spaces, word := "    ", "pass";
    assert spaces + word == "    pass";
    Assoc(Indent(tryLine), spaces, word);
  }

  /** Property: every input line appears in the output, in its original
      order; so the output is never shorter than the input. */
  lemma KeepsEveryLine(lines: seq<string>)
    ensures Subseq(lines, Render(lines, Trace(lines)))
    ensures |Render(lines, Trace(lines))| >= |lines|
  {
    KeepsEveryLineFrom(lines, Kinds(lines), 0);
    assert lines[0..] == lines;
    SubseqLength(lines, Render(lines, Trace(lines)));
  }

  /** Whatever the kinds of the lines, the scan from line `i` on emits every
      line from `i` on, in order. */
  lemma {:induction false} KeepsEveryLineFrom(lines: seq<string>, ks: seq<LineKind>, i: nat)
    requires |ks| == |lines| && i <= |lines|
    ensures Subseq(lines[i..], Render(lines, TraceFrom(ks, i)))
    decreases |lines| - i
  {
    if i < |lines| {
      var step := Step(ks, i);
      var extra := Render(lines, step[1..]);
      StepRender(lines, ks, i);
      if EndsAt(ks, i) {
        EndingStepRender(lines, ks, i);
        assert TraceFrom(ks, i) == step;
        SubseqRefl(lines[i..]);
        SubseqAppend(lines[i..], lines[i..], [PassLine(lines[i])]);
      } else {
        KeepsEveryLineFrom(lines, ks, i + 1);
        var rest := Render(lines, TraceFrom(ks, i + 1));
        assert Render(lines, TraceFrom(ks, i)) == [lines[i]] + extra + rest by {
          assert TraceFrom(ks, i) == step + TraceFrom(ks, i + 1);
          RenderAppend(lines, step, TraceFrom(ks, i + 1));
        }
        SubseqPrepend(lines[i + 1..], extra, rest);
        SubseqCons(lines[i], lines[i + 1..], extra + rest);
        Assoc([lines[i]], extra, rest);
        assert lines[i..] == [lines[i]] + lines[i + 1..];
      }
    }
  }

  /** The text emitted for line `i` starts with line `i` itself. */
  lemma StepRender(lines: seq<string>, ks: seq<LineKind>, i: nat)
    requires |ks| == |lines| && i < |lines|
    ensures Render(lines, Step(ks, i)) == [lines[i]] + Render(lines, Step(ks, i)[1..])
  {
    var step := Step(ks, i);
    assert step == [Copy(i)] + step[1..];
    RenderAppend(lines, [Copy(i)], step[1..]);
  }

  /** The text emitted for a `try:` that ends the scan. */
  lemma EndingStepRender(lines: seq<string>, ks: seq<LineKind>, i: nat)
    requires |ks| == |lines| && i < |lines| && EndsAt(ks, i)
    ensures Render(lines, Step(ks, i)) == lines[i..] + [PassLine(lines[i])]
  {
    var tail := lines[i + 1..];
    assert lines[i..] == [lines[i]] + tail;
    assert Render(lines, Step(ks, i)) == [lines[i]] + tail + [PassLine(lines[i])] by {
      assert Step(ks, i) == TryChunk(ks, i, |lines|) by {
        assert NeedsPass(ks, i);
      }
      RenderChunk(lines, ks, i, |lines|);
      assert lines[i + 1..|lines|] == tail;
    }
  }

  /** Property: a file without any `try:` line comes out unchanged, and no
      line needs a `pass` (so `changed` stays false). */
  lemma NoTryUnchanged(lines: seq<string>)
    requires forall k :: 0 <= k < |lines| ==> !IsTry(lines[k])
    ensures Render(lines, Trace(lines)) == lines
    ensures !exists k :: 0 <= k < |lines| && NeedsPass(Kinds(lines), k)
  {
    var ks := Kinds(lines);
    forall k | 0 <= k < |lines|
      ensures !ks[k].Try?
    {
      KindFacts(lines, k);
    }
    NoTryFrom(ks, 0);
    RenderCopies(lines, 0, |lines|);
    assert lines[0..|lines|] == lines;
  }

  lemma {:induction false} NoTryFrom(ks: seq<LineKind>, i: nat)
    requires i <= |ks|
    requires forall k :: 0 <= k < |ks| ==> !ks[k].Try?
    ensures TraceFrom(ks, i) == CopyRange(i, |ks|)
    decreases |ks| - i
  {
    if i < |ks| {
      NoTryFrom(ks, i + 1);
      CopyRangeCons(i, |ks|);
    }
  }

  /** The emitted lines for a `try:` at line `i` that the scan reaches,
      up to its next non-blank line `j`. */
  function TryChunk(ks: seq<LineKind>, i: nat, j: nat): seq<Emit>
    requires i < |ks|
  {
    [Copy(i)] + CopyRange(i + 1, j) + (if NeedsPass(ks, i) then [Pass(i)] else [])
  }

  /** A `try:` followed only by blank lines is the last line the scan handles. */
  lemma {:induction false} EndingTryTrace(ks: seq<LineKind>, i: nat)
    requires i < |ks| && EndsAt(ks, i)
    ensures TraceFrom(ks, 0) == TraceUpTo(ks, i) + [Copy(i)] + CopyRange(i + 1, |ks|) + [Pass(i)]
    ensures forall e :: e in TraceUpTo(ks, i) ==> e.Source() < i
  {
    TryReached(ks, i);
    TraceSplit(ks, i);
    TraceUpToBefore(ks, i, i);
  }

  /** Property: a `try:` followed only by blank lines ends the scan: those
      blank lines are emitted once, right after it, and the output ends with
      its `pass` line; everything emitted before comes from earlier lines. */
  lemma EndingTry(lines: seq<string>, i: nat)
    requires i < |lines| && IsTry(lines[i]) && BlankBetween(lines, i, |lines|)
    ensures Trace(lines) == TraceUpTo(Kinds(lines), i) + [Copy(i)] + CopyRange(i + 1, |lines|) + [Pass(i)]
    ensures forall e :: e in TraceUpTo(Kinds(lines), i) ==> e.Source() < i
    ensures Render(lines, Trace(lines))[|Trace(lines)| - 1] == PassLine(lines[i])
  {
    var ks := Kinds(lines);
    KindFacts(lines, i);
    NextNonBlankLine(lines, ks, i, |lines|);
    EndingTryTrace(ks, i);
  }

  /** Each blank line after a `try:` that is not the last non-blank line is
      emitted again when the scan reaches it. */
  lemma {:induction false} BlankRun(ks: seq<LineKind>, k: nat, j: nat)
    requires k <= j < |ks|
    requires forall m :: k <= m < j ==> ks[m] == Blank
    ensures TraceFrom(ks, k) == CopyRange(k, j) + TraceFrom(ks, j)
    decreases j - k
  {
    if k < j {
      var rest := TraceFrom(ks, j);
      assert TraceFrom(ks, k + 1) == CopyRange(k + 1, j) + rest by {
        BlankRun(ks, k + 1, j);
      }
      assert TraceFrom(ks, k) == [Copy(k)] + TraceFrom(ks, k + 1) by {
        assert ks[k] == Blank;
        assert Step(ks, k) == [Copy(k)];
      }
      CopyRangeCons(k, j);
      Assoc([Copy(k)], CopyRange(k + 1, j), rest);
    } else {
      assert CopyRange(k, j) == [];
    }
  }

  /** The trace around a `try:` with a non-blank line `j` after it: its
      chunk, then the blank lines between again, then the scan from `j` on. */
  lemma TryTrace(ks: seq<LineKind>, i: nat)
    requires i < |ks| && ks[i].Try? && NextNonBlank(ks, i + 1) < |ks|
    ensures var j := NextNonBlank(ks, i + 1);
            TraceFrom(ks, 0) == TraceUpTo(ks, i) + TryChunk(ks, i, j) + CopyRange(i + 1, j) + TraceFrom(ks, j)
  {
    var j := NextNonBlank(ks, i + 1);
    var pre, chunk, blanks, rest := TraceUpTo(ks, i), TryChunk(ks, i, j), CopyRange(i + 1, j), TraceFrom(ks, j);
    assert TraceFrom(ks, 0) == pre + TraceFrom(ks, i) by {
      TryReached(ks, i);
      TraceSplit(ks, i);
    }
    assert TraceFrom(ks, i) == chunk + TraceFrom(ks, i + 1) by {
      assert !EndsAt(ks, i);
      assert Step(ks, i) == chunk;
    }
    assert TraceFrom(ks, i + 1) == blanks + rest by {
      BlankRun(ks, i + 1, j);
    }
    Assoc(pre, chunk, blanks + rest);
    Assoc(pre + chunk, blanks, rest);
  }

  lemma Assoc<T>(a: seq<T>, b: seq<T>, c: seq<T>)
    ensures a + (b + c) == a + b + c
  {
  }

  /** Property: between a `try:` at line `i` and its next non-blank line `j`,
      the blank lines come out twice, and the inserted `pass` (if any) sits
      after the first copy. */
  lemma BlankLinesTwice(lines: seq<string>, i: nat, j: nat)
    requires i < |lines| && IsTry(lines[i])
    requires i < j < |lines| && !IsBlank(lines[j]) && BlankBetween(lines, i, j)
    ensures var ks := Kinds(lines);
            var pass := if NeedsPass(ks, i) then [PassLine(lines[i])] else [];
            Render(lines, Trace(lines))
              == Render(lines, TraceUpTo(ks, i)) + [lines[i]] + lines[i + 1..j] + pass
                 + lines[i + 1..j] + Render(lines, TraceFrom(ks, j))
  {
    var ks := Kinds(lines);
    KindFacts(lines, i);
    NextNonBlankLine(lines, ks, i, j);
    TryTrace(ks, i);
    var pre, chunk, blanks, rest := TraceUpTo(ks, i), TryChunk(ks, i, j), CopyRange(i + 1, j), TraceFrom(ks, j);
    assert Trace(lines) == pre + chunk + blanks + rest;
    var rp, rc, rb, rr := Render(lines, pre), Render(lines, chunk), Render(lines, blanks), Render(lines, rest);
    assert Render(lines, Trace(lines)) == rp + rc + rb + rr by {
      RenderAppend(lines, pre + chunk + blanks, rest);
      RenderAppend(lines, pre + chunk, blanks);
      RenderAppend(lines, pre, chunk);
    }
    var pass := if NeedsPass(ks, i) then [PassLine(lines[i])] else [];
    assert rc == [lines[i]] + lines[i + 1..j] + pass by { RenderChunk(lines, ks, i, j); }
    assert rb == lines[i + 1..j] by { RenderCopies(lines, i + 1, j); }
    Regroup(rp, [lines[i]], lines[i + 1..j], pass, rr);
  }

  /** The regrouping `BlankLinesTwice` needs, on plain sequences. */
  lemma Regroup<T>(p: seq<T>, l: seq<T>, m: seq<T>, x: seq<T>, r: seq<T>)
    ensures p + (l + m + x) + m + r == p + l + m + x + m + r
  {
    Assoc(p, l + m, x);
    Assoc(p, l, m);
  }

  /** Lines `a+1 .. b-1` are all blank. */
  predicate BlankBetween(lines: seq<string>, a: nat, b: nat)
    requires b <= |lines|
  {
    forall m :: a < m < b ==> IsBlank(lines[m])
  }

  /** The first non-blank line after line `i`, read off the lines themselves. */
  lemma NextNonBlankLine(lines: seq<string>, ks: seq<LineKind>, i: nat, j: nat)
    requires ks == Kinds(lines)
    requires i < j <= |lines| && (j < |lines| ==> !IsBlank(lines[j])) && BlankBetween(lines, i, j)
    ensures NextNonBlank(ks, i + 1) == j
  {
    forall m | i < m < j
      ensures ks[m] == Blank
    {
      KindFacts(lines, m);
    }
    if j < |lines| {
      KindFacts(lines, j);
      NextNonBlankIs(ks, i + 1, j);
    } else {
      NextNonBlankEnd(ks, i + 1);
    }
  }

  /** The next non-blank line after `i` has only blank lines before it. */
  lemma NextNonBlankLines(lines: seq<string>, ks: seq<LineKind>, i: nat)
    requires ks == Kinds(lines) && i < |lines|
    ensures var j := NextNonBlank(ks, i + 1);
            BlankBetween(lines, i, j) && (j < |lines| ==> !IsBlank(lines[j]))
  {
    var j := NextNonBlank(ks, i + 1);
    forall m | i < m < j
      ensures IsBlank(lines[m])
    {
      KindFacts(lines, m);
    }
    if j < |lines| {
      KindFacts(lines, j);
    }
  }

  lemma {:induction false} NextNonBlankEnd(ks: seq<LineKind>, k: nat)
    requires k <= |ks| && forall m :: k <= m < |ks| ==> ks[m] == Blank
    ensures NextNonBlank(ks, k) == |ks|
    decreases |ks| - k
  {
    if k < |ks| {
      NextNonBlankEnd(ks, k + 1);
    }
  }

  /** The text of a `try:` chunk. */
  lemma RenderChunk(lines: seq<string>, ks: seq<LineKind>, i: nat, j: nat)
    requires |ks| == |lines| && i < j <= |lines|
    ensures Render(lines, TryChunk(ks, i, j))
              == [lines[i]] + lines[i + 1..j] + (if NeedsPass(ks, i) then [PassLine(lines[i])] else [])
  {
    var c := [Copy(i)] + CopyRange(i + 1, j);
    var p: seq<Emit> := if NeedsPass(ks, i) then [Pass(i)] else [];
    assert Render(lines, c) == [lines[i]] + lines[i + 1..j] by {
      RenderAppend(lines, [Copy(i)], CopyRange(i + 1, j));
      RenderCopies(lines, i + 1, j);
    }
    assert Render(lines, p) == if NeedsPass(ks, i) then [PassLine(lines[i])] else [];
    RenderAppend(lines, c, p);
  }

  /** The first non-blank line is the one all lines before are blank and
      which is not blank itself. */
  lemma {:induction false} NextNonBlankIs(ks: seq<LineKind>, k: nat, j: nat)
    requires k <= j < |ks| && ks[j] != Blank && forall m :: k <= m < j ==> ks[m] == Blank
    ensures NextNonBlank(ks, k) == j
    decreases j - k
  {
    if k < j {
      NextNonBlankIs(ks, k + 1, j);
    }
  }
}
