/**
 * The example pass of `parseCommandMarkdown`: the trimmed bodies of fenced
 * shell blocks, in document order.
 */
module Examples {
  import opened Wrappers
  import opened Text

  /** Any line that begins a code fence. */
  predicate IsFence(line: string) {
    StartsWith(line, "```")
  }

  /** A fence tagged as a shell block; `"```sh"` alone already covers `"```shell"`. */
  predicate IsShellOpener(line: string) {
    StartsWith(line, "```shell") || StartsWith(line, "```bash") || StartsWith(line, "```sh")
  }

  /** A fence line that is not a shell opener: it closes a block when one is open. */
  predicate IsCloser(line: string) {
    IsFence(line) && !IsShellOpener(line)
  }

  lemma OpenerIsFence(line: string)
    requires IsShellOpener(line)
    ensures IsFence(line)
  {
    assert line[..3] == line[..|"```sh"|][..3];
  }

  /** The loop's variables: `inShellBlock`, `currentBlock` and the `examples` found so far. */
  datatype ScanState = ScanState(inShellBlock: bool, currentBlock: string, examples: seq<string>)

  const Start := ScanState(false, "", [])

  /** One iteration of the example loop. */
  function Step(st: ScanState, line: string): ScanState {
    if IsShellOpener(line) then
      ScanState(true, "", st.examples)
    else if IsFence(line) && st.inShellBlock then
      var trimmed := Trim(st.currentBlock);
      ScanState(false, "", if trimmed != "" then st.examples + [trimmed] else st.examples)
    else if st.inShellBlock then
      st.(currentBlock := st.currentBlock + line + "\n")
    else
      st
  }

  /** The loop run from `st` over `lines`, in order. */
  function Run(st: ScanState, lines: seq<string>): ScanState
    decreases |lines|
  {
    if |lines| == 0 then st
    else Step(Run(st, lines[..|lines| - 1]), lines[|lines| - 1])
  }

  /** Every example found in the document, before the cap of ten. */
  function AllExamples(lines: seq<string>): seq<string> {
    Run(Start, lines).examples
  }

  // ---------------------------------------------------------------------------
  // A reference definition that does not mention the loop's flags.

  /** Each line followed by a newline, concatenated: the text a block collects. */
  function Terminated(lines: seq<string>): string
    decreases |lines|
  {
    if |lines| == 0 then ""
    else Terminated(lines[..|lines| - 1]) + lines[|lines| - 1] + "\n"
  }

  /** The position of the last fence line, if there is one. */
  function LastFence(lines: seq<string>): (r: Option<nat>)
    ensures r.Some? ==> r.value < |lines| && IsFence(lines[r.value])
    decreases |lines|
  {
    if |lines| == 0 then None
    else if IsFence(lines[|lines| - 1]) then Some(|lines| - 1)
    else LastFence(lines[..|lines| - 1])
  }

  /** No line after the one found is a fence, and none is found exactly when no line is a fence. */
  lemma {:induction false} LastFenceSpec(lines: seq<string>)
    ensures var r := LastFence(lines);
            && (r.Some? ==> forall k :: r.value < k < |lines| ==> !IsFence(lines[k]))
            && (r.None? <==> forall k :: 0 <= k < |lines| ==> !IsFence(lines[k]))
    decreases |lines|
  {
    if |lines| > 0 && !IsFence(lines[|lines| - 1]) {
      var init := lines[..|lines| - 1];
      LastFenceSpec(init);
      assert forall k :: 0 <= k < |init| ==> init[k] == lines[k];
    }
  }

  /** The shell opener whose block is still open after `lines`: the last fence, when it is an opener. */
  function OpenBlock(lines: seq<string>): Option<nat> {
    match LastFence(lines)
    case Some(o) => if IsShellOpener(lines[o]) then Some(o) else None
    case None => None
  }

  /** `[s]` when `s` is non-empty, `[]` otherwise. */
  function NonEmpty(s: string): seq<string> {
    if s != "" then [s] else []
  }

  /**
   * The example, if any, that line `c` completes: `c` must be a closing fence
   * whose nearest preceding fence line is a shell opener, and the example is
   * the trimmed text of the lines strictly between them.
   */
  function ClosedAt(lines: seq<string>, c: nat): seq<string>
    requires c < |lines|
  {
    if IsCloser(lines[c]) then
      match OpenBlock(lines[..c])
      case Some(o) => NonEmpty(Trim(Terminated(lines[o + 1..c])))
      case None => []
    else []
  }

  /** The examples completed by the first `n` lines, in order. */
  function ClosedBefore(lines: seq<string>, n: nat): seq<string>
    requires n <= |lines|
  {
    if n == 0 then [] else ClosedBefore(lines, n - 1) + ClosedAt(lines, n - 1)
  }

  /** The loop's state after the first `n` lines, described without the loop. */
  ghost predicate Described(lines: seq<string>, n: nat, st: ScanState)
    requires n <= |lines|
  {
    var open := OpenBlock(lines[..n]);
    && st.inShellBlock == open.Some?
    && st.currentBlock == (if open.Some? then Terminated(lines[open.value + 1..n]) else "")
    && st.examples == ClosedBefore(lines, n)
  }

  /** Adding a line moves the last fence to it exactly when it is a fence. */
  lemma LastFenceStep(lines: seq<string>, n: nat)
    requires 0 < n <= |lines|
    ensures LastFence(lines[..n]) == if IsFence(lines[n - 1]) then Some(n - 1) else LastFence(lines[..n - 1])
  {
    assert lines[..n][..n - 1] == lines[..n - 1];
  }

  /** A shell opener starts an empty block and completes no example. */
  lemma DescribedAfterOpener(lines: seq<string>, n: nat, st: ScanState)
    requires 0 < n <= |lines| && IsShellOpener(lines[n - 1]) && Described(lines, n - 1, st)
    ensures Described(lines, n, Step(st, lines[n - 1]))
  {
    OpenerIsFence(lines[n - 1]);
    LastFenceStep(lines, n);
    assert lines[n..n] == [];
  }

  /** Any other fence closes whatever block is open, completing its example. */
  lemma DescribedAfterFence(lines: seq<string>, n: nat, st: ScanState)
    requires 0 < n <= |lines| && IsCloser(lines[n - 1]) && Described(lines, n - 1, st)
    ensures Described(lines, n, Step(st, lines[n - 1]))
  {
    LastFenceStep(lines, n);
  }

  /** A plain line is collected into the open block, if there is one, and is otherwise skipped. */
  lemma DescribedAfterPlain(lines: seq<string>, n: nat, st: ScanState)
    requires 0 < n <= |lines| && !IsFence(lines[n - 1]) && Described(lines, n - 1, st)
    ensures Described(lines, n, Step(st, lines[n - 1]))
  {
    LastFenceStep(lines, n);
    var open := OpenBlock(lines[..n - 1]);
    assert OpenBlock(lines[..n]) == open;
    assert !IsShellOpener(lines[n - 1]) by {
      if IsShellOpener(lines[n - 1]) { OpenerIsFence(lines[n - 1]); }
    }
    if open.Some? {
      assert lines[open.value + 1..n][..n - 1 - (open.value + 1)] == lines[open.value + 1..n - 1];
    }
  }

  lemma {:induction false} RunDescribed(lines: seq<string>, n: nat)
    requires n <= |lines|
    ensures Described(lines, n, Run(Start, lines[..n]))
  {
    if n > 0 {
      var prefix := lines[..n - 1];
      var line := lines[n - 1];
      RunDescribed(lines, n - 1);
      assert lines[..n][..n - 1] == prefix;
      var st := Run(Start, prefix);
      assert Run(Start, lines[..n]) == Step(st, line);
      if IsShellOpener(line) {
        DescribedAfterOpener(lines, n, st);
      } else if IsFence(line) {
        DescribedAfterFence(lines, n, st);
      } else {
        DescribedAfterPlain(lines, n, st);
      }
    }
  }

  /**
   * The loop finds exactly the reference examples: the trimmed, non-empty
   * contents of every closing fence whose nearest preceding fence line is a
   * shell opener, in the order of their closing lines.
   */
  lemma AllExamplesAreClosedBlocks(lines: seq<string>)
    ensures AllExamples(lines) == ClosedBefore(lines, |lines|)
  {
    RunDescribed(lines, |lines|);
    assert lines[..|lines|] == lines;
  }

  /** A trimmed text kept only when non-empty yields only non-empty, trimmed examples. */
  lemma NonEmptyTrimmed(s: string)
    ensures forall e :: e in NonEmpty(Trim(s)) ==> e != "" && Trim(e) == e
  {
    TrimIdempotent(s);
  }

  lemma ClosedAtTrimmed(lines: seq<string>, c: nat)
    requires c < |lines|
    ensures forall e :: e in ClosedAt(lines, c) ==> e != "" && Trim(e) == e
  {
    if IsCloser(lines[c]) && OpenBlock(lines[..c]).Some? {
      var o := OpenBlock(lines[..c]).value;
      NonEmptyTrimmed(Terminated(lines[o + 1..c]));
    }
  }

  /** An element of a concatenation built part by part comes from one of the parts. */
  lemma {:induction false} FromConcat<T>(parts: nat -> seq<T>, whole: nat -> seq<T>, n: nat, e: T) returns (c: nat)
    requires whole(0) == []
    requires forall m :: 0 < m <= n ==> whole(m) == whole(m - 1) + parts(m - 1)
    requires e in whole(n)
    ensures c < n && e in parts(c)
  {
    if e in parts(n - 1) {
      c := n - 1;
    } else {
      c := FromConcat(parts, whole, n - 1, e);
    }
  }

  /** The example `e`, found among the first `n` lines, is non-empty and trimmed. */
  lemma ClosedExampleTrimmed(lines: seq<string>, n: nat, e: string)
    requires n <= |lines| && e in ClosedBefore(lines, n)
    ensures e != "" && Trim(e) == e
  {
    var parts := (c: nat) => if c < |lines| then ClosedAt(lines, c) else [];
    var whole := (m: nat) => if m <= |lines| then ClosedBefore(lines, m) else [];
    var c := FromConcat(parts, whole, n, e);
    ClosedAtTrimmed(lines, c);
  }

  /** Every example is non-empty and equal to its own trim. */
  lemma ClosedBlocksTrimmed(lines: seq<string>, n: nat)
    requires n <= |lines|
    ensures forall e :: e in ClosedBefore(lines, n) ==> e != "" && Trim(e) == e
  {
    forall e | e in ClosedBefore(lines, n) ensures e != "" && Trim(e) == e {
      ClosedExampleTrimmed(lines, n, e);
    }
  }

  lemma ExamplesTrimmed(lines: seq<string>)
    ensures forall e :: e in AllExamples(lines) ==> e != "" && Trim(e) == e
  {
    AllExamplesAreClosedBlocks(lines);
    ClosedBlocksTrimmed(lines, |lines|);
  }

  // ---------------------------------------------------------------------------
  // Block-level behaviour of the loop.

  lemma {:induction false} RunAppend(st: ScanState, a: seq<string>, b: seq<string>)
    ensures Run(st, a + b) == Run(Run(st, a), b)
    decreases |b|
  {
    if |b| == 0 {
      assert a + b == a;
    } else {
      assert (a + b)[..|a + b| - 1] == a + b[..|b| - 1];
      RunAppend(st, a, b[..|b| - 1]);
    }
  }

  /** No line of `body` begins a fence. */
  ghost predicate Plain(body: seq<string>) {
    forall k :: 0 <= k < |body| ==> !IsFence(body[k])
  }

  /** Inside an open block, plain lines are collected verbatim, each with a newline. */
  lemma {:induction false} RunCollects(st: ScanState, body: seq<string>)
    requires st.inShellBlock && Plain(body)
    ensures Run(st, body) == st.(currentBlock := st.currentBlock + Terminated(body))
    decreases |body|
  {
    if |body| > 0 {
      var init := body[..|body| - 1];
      RunCollects(st, init);
      var last := body[|body| - 1];
      assert !IsFence(last);
      assert !IsShellOpener(last) by {
        if IsShellOpener(last) { OpenerIsFence(last); }
      }
    }
  }

  /**
   * A whole block: from any state, a shell opener, fence-free lines and a
   * closing fence add the trimmed body (when non-empty) and leave no block open.
   */
  lemma ClosedBlock(st: ScanState, opener: string, body: seq<string>, closer: string)
    requires IsShellOpener(opener) && Plain(body) && IsCloser(closer)
    ensures Run(st, [opener] + body + [closer])
         == ScanState(false, "", st.examples + NonEmpty(Trim(Terminated(body))))
  {
    var started := ScanState(true, "", st.examples);
    assert Run(st, [opener]) == started by {
      assert [opener][..0] == [];
    }
    RunAppend(st, [opener], body);
    RunCollects(started, body);
    var filled := Run(st, [opener] + body);
    assert filled == started.(currentBlock := Terminated(body));
    RunAppend(st, [opener] + body, [closer]);
    assert Run(filled, [closer]) == Step(filled, closer) by {
      assert [closer][..0] == [];
    }
  }

  /** Opener and plain lines never add an example, however many openers there are. */
  lemma {:induction false} RunOpenLeavesExamples(st: ScanState, rest: seq<string>)
    requires forall k :: 0 <= k < |rest| ==> !IsCloser(rest[k])
    ensures Run(st, rest).examples == st.examples
    ensures st.inShellBlock ==> Run(st, rest).inShellBlock
    decreases |rest|
  {
    if |rest| > 0 {
      RunOpenLeavesExamples(st, rest[..|rest| - 1]);
    }
  }

  /** A block still open at the end of the text contributes nothing. */
  lemma UnclosedBlockIgnored(before: seq<string>, opener: string, rest: seq<string>)
    requires IsShellOpener(opener)
    requires forall k :: 0 <= k < |rest| ==> !IsCloser(rest[k])
    ensures AllExamples(before + [opener] + rest) == AllExamples(before)
  {
    RunAppend(Start, before, [opener] + rest);
    assert before + [opener] + rest == before + ([opener] + rest);
    var tail := [opener] + rest;
    forall k | 0 <= k < |tail| ensures !IsCloser(tail[k]) {
      if k > 0 { assert tail[k] == rest[k - 1]; }
    }
    RunOpenLeavesExamples(Run(Start, before), tail);
  }

  /**
   * A second shell opener inside an open block throws the collected lines
   * away: only the lines after the last opener form the example.
   */
  lemma ReopenDiscardsBuffer(st: ScanState, first: string, lost: seq<string>,
                             second: string, body: seq<string>, closer: string)
    requires IsShellOpener(first) && IsShellOpener(second) && IsCloser(closer)
    requires Plain(lost) && Plain(body)
    ensures Run(st, [first] + lost + [second] + body + [closer])
         == ScanState(false, "", st.examples + NonEmpty(Trim(Terminated(body))))
  {
    var head := [first] + lost;
    assert [first] + lost + [second] + body + [closer] == head + ([second] + body + [closer]);
    RunAppend(st, head, [second] + body + [closer]);
    var mid := Run(st, head);
    forall k | 0 <= k < |head| ensures !IsCloser(head[k]) {
      if k > 0 { assert head[k] == lost[k - 1]; }
    }
    RunOpenLeavesExamples(st, head);
    ClosedBlock(mid, second, body, closer);
  }
}
