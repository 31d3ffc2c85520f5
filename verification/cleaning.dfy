/**
 * The content pass of `parseCommandMarkdown`: the two global regular-expression
 * replacements, written as left-to-right scanners, and the length cut.
 *
 * A global `replace` looks for the leftmost match at or after its position,
 * substitutes it and resumes after it; where no match starts it moves on by
 * one character. Both scanners below follow that discipline.
 */
module Cleaning {
  import opened Wrappers
  import opened Text

  // ---------------------------------------------------------------------------
  // `/<!--rehype:.*?-->/g` replaced by "".

  const RehypeOpen := "<!--rehype:"
  const CommentClose := "-->"

  /** The characters a regular-expression `.` does not match. */
  predicate IsLineTerminator(c: char) {
    c == '\n' || c == '\r' || c == '\U{2028}' || c == '\U{2029}'
  }

  /**
   * The lazy `.*?-->` tried from index `i`: at each position first try `-->`,
   * otherwise consume one character other than a line terminator. Gives the
   * end of the shortest match.
   */
  function LazyClose(s: string, i: nat): (r: Option<nat>)
    requires i <= |s|
    ensures r.Some? ==> && i + |CommentClose| <= r.value <= |s|
                        && OccursAt(s, CommentClose, r.value - |CommentClose|)
                        && forall k :: i <= k < r.value - |CommentClose| ==>
                             !IsLineTerminator(s[k]) && !OccursAt(s, CommentClose, k)
    ensures r.None? ==> forall e :: i <= e && OccursAt(s, CommentClose, e) ==>
                          exists k :: i <= k < e && IsLineTerminator(s[k])
    decreases |s| - i
  {
    if OccursAt(s, CommentClose, i) then
      var end := i + |CommentClose|;
      assert end - |CommentClose| == i;
      Some(end)
    else if i < |s| && !IsLineTerminator(s[i]) then
      var r := LazyClose(s, i + 1);
      StepBack(s, i, r);
      r
    else
      Blocked(s, i);
      None
  }

  /** A position with no line terminator and no `-->` before the lazy match from the next one. */
  lemma StepBack(s: string, i: nat, r: Option<nat>)
    requires i < |s| && !IsLineTerminator(s[i]) && !OccursAt(s, CommentClose, i)
    requires r.Some? ==> && i + 1 + |CommentClose| <= r.value <= |s|
                         && forall k :: i + 1 <= k < r.value - |CommentClose| ==>
                              !IsLineTerminator(s[k]) && !OccursAt(s, CommentClose, k)
    requires r.None? ==> forall e :: i + 1 <= e && OccursAt(s, CommentClose, e) ==>
                           exists k :: i + 1 <= k < e && IsLineTerminator(s[k])
    ensures r.Some? ==> forall k :: i <= k < r.value - |CommentClose| ==>
                          !IsLineTerminator(s[k]) && !OccursAt(s, CommentClose, k)
    ensures r.None? ==> forall e :: i <= e && OccursAt(s, CommentClose, e) ==>
                          exists k :: i <= k < e && IsLineTerminator(s[k])
  {
  }

  /** Where neither `-->` nor an ordinary character stands, every later `-->` lies past a line terminator. */
  lemma Blocked(s: string, i: nat)
    requires i <= |s| && !OccursAt(s, CommentClose, i) && (i == |s| || IsLineTerminator(s[i]))
    ensures forall e :: i <= e && OccursAt(s, CommentClose, e) ==>
              exists k :: i <= k < e && IsLineTerminator(s[k])
  {
  }

  /** The length of the annotation `s` starts with, if it starts with one. */
  function RehypeAt(s: string): Option<nat> {
    if StartsWith(s, RehypeOpen) then LazyClose(s, |RehypeOpen|) else None
  }

  /** Deletes every `<!--rehype:…-->` annotation, leftmost first. */
  function StripRehype(s: string): (r: string)
    ensures |r| <= |s|
    decreases |s|
  {
    if |s| == 0 then ""
    else match RehypeAt(s)
      case Some(n) => StripRehype(s[n..])
      case None => [s[0]] + StripRehype(s[1..])
  }

  // ---------------------------------------------------------------------------
  // `/\[([^\]]+)\]\(([^)]+)\)/g` replaced by "$1 ($2)".

  /** A markdown link `[caption](target)`. */
  datatype Link = Link(caption: string, target: string)

  /** Labels and targets the pattern accepts: non-empty, without `]` and `)` respectively. */
  predicate WellFormed(l: Link) {
    l.caption != "" && ']' !in l.caption && l.target != "" && ')' !in l.target
  }

  /** The link as it is written in markdown. */
  function Source(l: Link): string {
    "[" + l.caption + "](" + l.target + ")"
  }

  /** The link as it is displayed: `caption (target)`. */
  function Rendered(l: Link): string {
    l.caption + " (" + l.target + ")"
  }

  /** The length of the longest prefix of `s` that does not contain `stop`. */
  function RunUntil(s: string, stop: char): (n: nat)
    ensures n <= |s| && stop !in s[..n]
    ensures n < |s| ==> s[n] == stop
  {
    if stop in s then IndexOf(s, stop) else assert s[..|s|] == s; |s|
  }

  lemma RunUntilUnique(s: string, stop: char, n: nat)
    requires n < |s| && s[n] == stop && stop !in s[..n]
    ensures RunUntil(s, stop) == n
  {
  }

  /** What a well-formed link at the front of `s` fixes about `s`. */
  lemma SourceShape(l: Link, s: string)
    requires WellFormed(l) && StartsWith(s, Source(l))
    ensures var j := |l.caption| + 1;
            var k := j + 2 + |l.target|;
            && k < |s|
            && s[0] == '[' && s[j] == ']' && s[j + 1] == '(' && s[k] == ')'
            && s[1..j] == l.caption && s[j + 2..k] == l.target
  {
    var src := Source(l);
    assert s[..|src|] == src;
    assert src[1..|l.caption| + 1] == l.caption;
    assert src[|l.caption| + 3..|l.caption| + 3 + |l.target|] == l.target;
  }

  /** The only link that can stand at the front of `s` is the one the two runs find. */
  lemma SourceFound(l: Link, s: string)
    requires WellFormed(l) && StartsWith(s, Source(l))
    ensures var j := 1 + RunUntil(s[1..], ']');
            && j == |l.caption| + 1 && j + 1 < |s| && s[j + 1] == '('
            && var k := j + 2 + RunUntil(s[j + 2..], ')');
               && k == j + 2 + |l.target| && k < |s|
               && l == Link(s[1..j], s[j + 2..k])
  {
    SourceShape(l, s);
    var j := |l.caption| + 1;
    assert s[1..][..|l.caption|] == l.caption;
    RunUntilUnique(s[1..], ']', |l.caption|);
    assert s[j + 2..][..|l.target|] == l.target;
    RunUntilUnique(s[j + 2..], ')', |l.target|);
  }

  /** Delimiters found at `0`, `j`, `j + 1` and `k` spell out a link. */
  lemma SourceAssembled(s: string, j: nat, k: nat)
    requires 1 <= j && j + 2 <= k < |s|
    requires s[0] == '[' && s[j] == ']' && s[j + 1] == '(' && s[k] == ')'
    ensures StartsWith(s, Source(Link(s[1..j], s[j + 2..k])))
  {
    var l := Link(s[1..j], s[j + 2..k]);
    assert |Source(l)| == k + 1;
    assert s[..k + 1] == Source(l);
  }

  /** When both runs end at their delimiters, they spell out the only link at the front of `s`. */
  lemma LinkFound(s: string, j: nat, k: nat)
    requires |s| > 0 && s[0] == '['
    requires j == 1 + RunUntil(s[1..], ']') && j > 1 && j + 1 < |s| && s[j + 1] == '('
    requires k == j + 2 + RunUntil(s[j + 2..], ')') && j + 2 < k < |s|
    ensures var l := Link(s[1..j], s[j + 2..k]);
            && WellFormed(l) && StartsWith(s, Source(l))
            && forall l' :: WellFormed(l') && StartsWith(s, Source(l')) ==> l' == l
  {
    var l := Link(s[1..j], s[j + 2..k]);
    assert l.caption == s[1..][..j - 1];
    assert l.target == s[j + 2..][..k - (j + 2)];
    SourceAssembled(s, j, k);
    forall l' | WellFormed(l') && StartsWith(s, Source(l')) ensures l' == l {
      SourceFound(l', s);
    }
  }

  /**
   * The link `s` starts with, if any. Greedy runs cannot backtrack here: a
   * shorter run of non-`]` characters is never followed by `]`.
   */
  function LinkAt(s: string): (r: Option<Link>)
    ensures r.Some? ==> WellFormed(r.value) && StartsWith(s, Source(r.value))
    ensures forall l :: WellFormed(l) && StartsWith(s, Source(l)) ==> r == Some(l)
  {
    if |s| == 0 || s[0] != '[' then
      assert forall l :: !(WellFormed(l) && StartsWith(s, Source(l))) by {
        forall l | WellFormed(l) && StartsWith(s, Source(l)) ensures false { SourceShape(l, s); }
      }
      None
    else
      var j := 1 + RunUntil(s[1..], ']');
      if j == 1 || j + 1 >= |s| || s[j + 1] != '(' then
        assert forall l :: !(WellFormed(l) && StartsWith(s, Source(l))) by {
          forall l | WellFormed(l) && StartsWith(s, Source(l)) ensures false { SourceFound(l, s); }
        }
        None
      else
        var k := j + 2 + RunUntil(s[j + 2..], ')');
        if k == j + 2 || k >= |s| then
          assert forall l :: !(WellFormed(l) && StartsWith(s, Source(l))) by {
            forall l | WellFormed(l) && StartsWith(s, Source(l)) ensures false { SourceFound(l, s); }
          }
          None
        else
          LinkFound(s, j, k);
          Some(Link(s[1..j], s[j + 2..k]))
  }

  /** Rewrites every markdown link to its displayed form, leftmost first. */
  function ReplaceLinks(s: string): (r: string)
    ensures |r| <= |s|
    decreases |s|
  {
    if |s| == 0 then ""
    else match LinkAt(s)
      case Some(l) => Rendered(l) + ReplaceLinks(s[|Source(l)|..])
      case None => [s[0]] + ReplaceLinks(s[1..])
  }

  /** The two replacements, in the order the source chains them. */
  function Clean(s: string): (r: string)
    ensures |r| <= |s|
  {
    ReplaceLinks(StripRehype(s))
  }

  // ---------------------------------------------------------------------------
  // The 50,000-character cut.

  const MaxContentLength := 50000
  const TruncationNotice := "\n\n... (content truncated)"

  /** Keeps at most 50,000 characters, flagging a cut with a notice. */
  function Truncate(s: string): (r: string)
    ensures |r| <= MaxContentLength + |TruncationNotice|
    ensures |s| <= MaxContentLength ==> r == s
    ensures |s| > MaxContentLength ==>
              |r| == MaxContentLength + |TruncationNotice| && r[MaxContentLength..] == TruncationNotice
    ensures Min(|s|, MaxContentLength) <= |r|
    ensures r[..Min(|s|, MaxContentLength)] == s[..Min(|s|, MaxContentLength)]
  {
    if |s| > MaxContentLength then s[..MaxContentLength] + TruncationNotice else s
  }

  // ---------------------------------------------------------------------------
  // Properties of the cleaning.

  /** Text with no `[` has no link to rewrite. */
  lemma {:induction false} NoBracketNoRewrite(s: string)
    requires '[' !in s
    ensures ReplaceLinks(s) == s
    decreases |s|
  {
    if |s| > 0 {
      NoBracketNoRewrite(s[1..]);
      assert s == [s[0]] + s[1..];
    }
  }

  /** Text without an annotation opener is left alone by the stripping. */
  lemma {:induction false} NoAnnotationNoStrip(s: string)
    requires !Contains(s, RehypeOpen)
    ensures StripRehype(s) == s
    decreases |s|
  {
    if |s| > 0 {
      NoAnnotationNoStrip(s[1..]);
      assert s == [s[0]] + s[1..];
    }
  }

  /** Text with no `[` and no `<!--rehype:` comes out of cleaning unchanged. */
  lemma CleanPlainText(s: string)
    requires '[' !in s && !Contains(s, RehypeOpen)
    ensures Clean(s) == s
  {
    NoAnnotationNoStrip(s);
    NoBracketNoRewrite(s);
  }

  /** Where no `[` stands, the scan copies one character and moves on. */
  lemma ReplaceLinksSkips(s: string)
    requires |s| > 0 && s[0] != '['
    ensures ReplaceLinks(s) == [s[0]] + ReplaceLinks(s[1..])
  {
  }

  /** A run without `[` is copied through before the scan goes on. */
  lemma {:induction false} ReplaceLinksCopies(plain: string, rest: string)
    requires '[' !in plain
    ensures ReplaceLinks(plain + rest) == plain + ReplaceLinks(rest)
    decreases |plain|
  {
    if |plain| > 0 {
      var s := plain + rest;
      assert s[0] == plain[0] && s[0] != '[';
      ReplaceLinksSkips(s);
      assert s[1..] == plain[1..] + rest;
      ReplaceLinksCopies(plain[1..], rest);
      calc {
        ReplaceLinks(s);
        [plain[0]] + ReplaceLinks(plain[1..] + rest);
        [plain[0]] + (plain[1..] + ReplaceLinks(rest));
        { assert plain == [plain[0]] + plain[1..]; }
        plain + ReplaceLinks(rest);
      }
    } else {
      assert plain + rest == rest;
    }
  }

  /** A well-formed link at the scan position is rewritten, and the scan resumes after it. */
  lemma ReplaceLinksRewrites(l: Link, rest: string)
    requires WellFormed(l)
    ensures ReplaceLinks(Source(l) + rest) == Rendered(l) + ReplaceLinks(rest)
  {
    var s := Source(l) + rest;
    assert s[..|Source(l)|] == Source(l);
    assert s[|Source(l)|..] == rest;
  }

  /** Where no link begins, the scan copies one character and moves on. */
  lemma ReplaceLinksNoLink(s: string)
    requires |s| > 0 && forall l :: !(WellFormed(l) && StartsWith(s, Source(l)))
    ensures ReplaceLinks(s) == [s[0]] + ReplaceLinks(s[1..])
  {
  }

  /** A `]` not followed by `(`, and no earlier `]`, means no link begins at a `[`. */
  lemma ClosedBracketNoLink(s: string, close: nat)
    requires 0 < close < |s| && s[close] == ']' && ']' !in s[1..close]
    requires close + 1 == |s| || s[close + 1] != '('
    ensures forall l :: !(WellFormed(l) && StartsWith(s, Source(l)))
  {
    forall l | WellFormed(l) && StartsWith(s, Source(l)) ensures false {
      SourceShape(l, s);
    }
  }

  /** A bracketed word not followed by `(` is no link: the scan copies its `[` and moves on. */
  lemma BracketSkipped(s: string, close: nat)
    requires 0 < close < |s| && s[0] == '[' && s[close] == ']' && ']' !in s[1..close]
    requires close + 1 == |s| || s[close + 1] != '('
    ensures ReplaceLinks(s) == [s[0]] + ReplaceLinks(s[1..])
  {
    ClosedBracketNoLink(s, close);
    ReplaceLinksNoLink(s);
  }

  /**
   * A bracketed word without `[` inside, not followed by `(`, is copied through
   * unchanged, and the scan goes on after its `]`.
   */
  lemma BracketNotLink(s: string, close: nat)
    requires 0 < close < |s| && s[0] == '[' && s[close] == ']' && ']' !in s[1..close]
    requires close + 1 == |s| || s[close + 1] != '('
    requires '[' !in s[1..close]
    ensures ReplaceLinks(s) == s[..close + 1] + ReplaceLinks(s[close + 1..])
  {
    BracketPieces(s, close, '[');
    BracketSkipped(s, close);
    ReplaceLinksCopies(s[1..close + 1], s[close + 1..]);
    Regroup([s[0]], s[1..close + 1], ReplaceLinks(s[close + 1..]), ReplaceLinks(s[1..]));
  }

  /** Where no `<` stands, the scan copies one character and moves on. */
  lemma StripRehypeSkips(s: string)
    requires |s| > 0 && s[0] != '<'
    ensures StripRehype(s) == [s[0]] + StripRehype(s[1..])
  {
  }

  /** A run without `<` is copied through before the scan goes on. */
  lemma {:induction false} StripRehypeCopies(plain: string, rest: string)
    requires '<' !in plain
    ensures StripRehype(plain + rest) == plain + StripRehype(rest)
    decreases |plain|
  {
    if |plain| > 0 {
      var s := plain + rest;
      assert s[0] == plain[0] && s[0] != '<';
      StripRehypeSkips(s);
      assert s[1..] == plain[1..] + rest;
      StripRehypeCopies(plain[1..], rest);
      calc {
        StripRehype(s);
        [plain[0]] + StripRehype(plain[1..] + rest);
        [plain[0]] + (plain[1..] + StripRehype(rest));
        { assert plain == [plain[0]] + plain[1..]; }
        plain + StripRehype(rest);
      }
    } else {
      assert plain + rest == rest;
    }
  }

  /**
   * The lazy match stops at the first `-->`: when no line terminator and no
   * `-->` stands between `i` and a `-->` at `e`, the match ends right after it.
   */
  lemma {:induction false} LazyCloseFinds(s: string, i: nat, e: nat)
    requires i <= e && OccursAt(s, CommentClose, e)
    requires forall k :: i <= k < e ==> !IsLineTerminator(s[k]) && !OccursAt(s, CommentClose, k)
    ensures LazyClose(s, i) == Some(e + |CommentClose|)
    decreases e - i
  {
    if i < e {
      LazyCloseFinds(s, i + 1, e);
    }
  }

  /** Inside an annotation, the body's own characters and `-->` occurrences are the text's. */
  lemma AnnotationBody(body: string, rest: string)
    requires forall k :: 0 <= k < |body| ==>
               !IsLineTerminator(body[k]) && !OccursAt(body + CommentClose, CommentClose, k)
    ensures var s := RehypeOpen + body + CommentClose + rest;
            var start := |RehypeOpen|;
            forall k :: start <= k < start + |body| ==> !IsLineTerminator(s[k]) && !OccursAt(s, CommentClose, k)
  {
    var s := RehypeOpen + body + CommentClose + rest;
    var start := |RehypeOpen|;
    forall k | start <= k < start + |body|
      ensures !IsLineTerminator(s[k]) && !OccursAt(s, CommentClose, k)
    {
      assert s[k] == body[k - start];
      assert s[k..k + 3] == (body + CommentClose)[k - start..k - start + 3];
    }
  }

  /**
   * An annotation whose body has no line terminator, closed by its first
   * `-->`, is deleted together with its delimiters.
   */
  lemma StripRehypeDeletes(body: string, rest: string)
    requires forall k :: 0 <= k < |body| ==>
               !IsLineTerminator(body[k]) && !OccursAt(body + CommentClose, CommentClose, k)
    ensures StripRehype(RehypeOpen + body + CommentClose + rest) == StripRehype(rest)
  {
    var s := RehypeOpen + body + CommentClose + rest;
    var start := |RehypeOpen|;
    var e := start + |body|;
    assert s[..start] == RehypeOpen;
    assert s[e..e + 3] == CommentClose;
    AnnotationBody(body, rest);
    LazyCloseFinds(s, start, e);
    assert s[e + 3..] == rest;
  }

  /**
   * Where no annotation is matched, the scan copies one character and moves
   * on: either no `<!--rehype:` begins here, or every later `-->` lies beyond a
   * line terminator.
   */
  lemma StripRehypeNoMatch(s: string)
    requires |s| > 0
    requires !StartsWith(s, RehypeOpen)
             || forall e :: |RehypeOpen| <= e && OccursAt(s, CommentClose, e) ==>
                  exists k :: |RehypeOpen| <= k < e && IsLineTerminator(s[k])
    ensures StripRehype(s) == [s[0]] + StripRehype(s[1..])
  {
    NoRehypeAt(s);
    StripRehypeStep(s);
  }

  /** Without an opener, or with every later `-->` past a line terminator, no annotation starts here. */
  lemma NoRehypeAt(s: string)
    requires !StartsWith(s, RehypeOpen)
             || forall e :: |RehypeOpen| <= e && OccursAt(s, CommentClose, e) ==>
                  exists k :: |RehypeOpen| <= k < e && IsLineTerminator(s[k])
    ensures RehypeAt(s).None?
  {
    if StartsWith(s, RehypeOpen) {
      LazyCloseMisses(s, |RehypeOpen|);
    }
  }

  /** Where no annotation starts, the scan copies one character. */
  lemma StripRehypeStep(s: string)
    requires |s| > 0 && RehypeAt(s).None?
    ensures StripRehype(s) == [s[0]] + StripRehype(s[1..])
  {
  }

  /** The lazy match fails when every later `-->` lies beyond a line terminator. */
  lemma LazyCloseMisses(s: string, i: nat)
    requires i <= |s|
    requires forall e :: i <= e && OccursAt(s, CommentClose, e) ==>
               exists k :: i <= k < e && IsLineTerminator(s[k])
    ensures LazyClose(s, i) == None
  {
  }

  lemma NoAngleNoAnnotation(text: string)
    requires '<' !in text
    ensures !Contains(text, RehypeOpen)
  {
    assert forall i :: OccursAt(text, RehypeOpen, i) ==> text[i] == '<';
  }

  lemma StripAfterLink(l: Link, body: string, text: string)
    requires '<' !in l.caption && '<' !in l.target
    requires forall k :: 0 <= k < |body| ==>
               !IsLineTerminator(body[k]) && !OccursAt(body + CommentClose, CommentClose, k)
    requires '<' !in text
    ensures StripRehype(Source(l) + " " + RehypeOpen + body + CommentClose + text) == Source(l) + " " + text
  {
    SourceNoAngle(l);
    Regroup6(Source(l), " ", RehypeOpen, body, CommentClose, text);
    StripRehypeCopies(Source(l) + " ", RehypeOpen + body + CommentClose + text);
    StripRehypeDeletes(body, text);
    NoAngleNoAnnotation(text);
    NoAnnotationNoStrip(text);
  }

  lemma ReplaceLeadingLink(l: Link, text: string)
    requires WellFormed(l) && '[' !in text
    ensures ReplaceLinks(Source(l) + " " + text) == Rendered(l) + " " + text
  {
    Regroup3(Source(l), " ", text);
    Regroup3(Rendered(l), " ", text);
    ReplaceLinksRewrites(l, " " + text);
    NoBracketNoRewrite(" " + text);
  }

  /**
   * A link, a space, an annotation and plain text: the annotation disappears
   * and the link is displayed as `caption (target)`.
   */
  lemma CleanLinkAndAnnotation(l: Link, body: string, text: string)
    requires WellFormed(l) && '<' !in l.caption && '<' !in l.target
    requires forall k :: 0 <= k < |body| ==>
               !IsLineTerminator(body[k]) && !OccursAt(body + CommentClose, CommentClose, k)
    requires '[' !in text && '<' !in text
    ensures Clean(Source(l) + " " + RehypeOpen + body + CommentClose + text) == Rendered(l) + " " + text
  {
    StripAfterLink(l, body, text);
    ReplaceLeadingLink(l, text);
  }

  /**
   * A bracketed word that is no link, such as the `[OPTION]` of a synopsis,
   * comes out of cleaning unchanged.
   */
  lemma BracketedWordKept(word: string, rest: string)
    requires '[' !in word && ']' !in word && '<' !in word
    requires '[' !in rest && '<' !in rest && (|rest| == 0 || rest[0] != '(')
    ensures Clean("[" + word + "]" + rest) == "[" + word + "]" + rest
  {
    var s := "[" + word + "]" + rest;
    BracketedShape('[', word, ']', rest);
    assert '<' !in s;
    NoAngleNoAnnotation(s);
    NoAnnotationNoStrip(s);
    BracketNotLink(s, |word| + 1);
    NoBracketNoRewrite(rest);
  }

  /** The worked example: `[curl](https://x) <!--rehype:a=b-->text` cleans to `curl (https://x) text`. */
  lemma CleanExample()
    ensures Clean("[curl](https://x) <!--rehype:a=b-->text") == "curl (https://x) text"
  {
    CurlText();
    CleanExampleParts("curl", "https://x", "a=b", "text");
  }

  /** The worked example: `[OPTION]...` is kept as it is. */
  lemma OptionKept()
    ensures Clean("[OPTION]...") == "[OPTION]..."
  {
    OptionText();
    OptionKeptParts("OPTION", "...");
  }

  // ---------------------------------------------------------------------------
  // Proof helpers: sequence regrouping, literal pieces and pinned-parameter forms of the
  // worked examples. They carry no modelling content of their own.

  /** How a sequence falls apart around position `close`. */
  lemma BracketPieces<T>(s: seq<T>, close: nat, x: T)
    requires 0 < close < |s| && x !in s[1..close] && s[close] != x
    ensures s[1..] == s[1..close + 1] + s[close + 1..]
    ensures [s[0]] + s[1..close + 1] == s[..close + 1]
    ensures x !in s[1..close + 1]
  {
    assert s[1..close + 1] == s[1..close] + [s[close]];
  }

  /** Concatenation regrouped around a known tail. */
  lemma Regroup<T>(a: seq<T>, b: seq<T>, c: seq<T>, t: seq<T>)
    requires t == b + c
    ensures a + t == a + b + c
  {
  }

  /** Concatenation is associative. */
  lemma Regroup3<T>(a: seq<T>, b: seq<T>, c: seq<T>)
    ensures a + b + c == a + (b + c)
  {
  }

  /** Six pieces regrouped after the second. */
  lemma Regroup6<T>(a: seq<T>, b: seq<T>, c: seq<T>, d: seq<T>, e: seq<T>, f: seq<T>)
    ensures a + b + c + d + e + f == (a + b) + (c + d + e + f)
  {
  }

  /** Pieces known piecewise put back together. */
  lemma Assemble<T>(whole: seq<T>, a: seq<T>, a': seq<T>, b: seq<T>,
                    c1: seq<T>, c2: seq<T>, c3: seq<T>, c': seq<T>, d: seq<T>)
    requires whole == a' + b + c' + d && a == a' && c1 + c2 + c3 == c'
    ensures whole == a + b + c1 + c2 + c3 + d
  {
  }

  /** Where a bracketed word sits in `[` + word + `]` + rest. */
  lemma BracketedShape<T>(open: T, word: seq<T>, close: T, rest: seq<T>)
    ensures var s := [open] + word + [close] + rest;
            s[0] == open && s[|word| + 1] == close && s[1..|word| + 1] == word
            && s[..|word| + 2] == [open] + word + [close] && s[|word| + 2..] == rest
            && (|rest| == 0 || s[|word| + 2] == rest[0])
  {
  }

  /** A link whose caption and target hold no `<`, followed by a space, holds no `<`. */
  lemma SourceNoAngle(l: Link)
    requires '<' !in l.caption && '<' !in l.target
    ensures '<' !in Source(l) + " "
  {
  }

  /** A short annotation body with no dash and no line break closes at the first `-->`. */
  lemma ShortAnnotationBody(body: string)
    requires '-' !in body && forall k :: 0 <= k < |body| ==> !IsLineTerminator(body[k])
    ensures forall k :: 0 <= k < |body| ==>
              !IsLineTerminator(body[k]) && !OccursAt(body + CommentClose, CommentClose, k)
  {
    forall k | 0 <= k < |body|
      ensures !OccursAt(body + CommentClose, CommentClose, k)
    {
      assert (body + CommentClose)[k] == body[k];
      assert (body + CommentClose)[k..k + 3][0] == body[k];
    }
  }

  /** The link of the worked example is well-formed and displays as `curl (https://x)`. */
  lemma CurlLink(l: Link, text: string)
    requires l == Link("curl", "https://x") && text == "text"
    ensures WellFormed(l) && '<' !in l.caption && '<' !in l.target && '[' !in text && '<' !in text
  {
  }

  /** The displayed form of the worked example's link, followed by its text. */
  lemma CurlRendered(l: Link, text: string)
    requires l == Link("curl", "https://x") && text == "text"
    ensures Rendered(l) + " " + text == "curl (https://x) text"
  {
  }

  /** The worked example put together from its pieces. */
  lemma CleanExampleParts(caption: string, target: string, body: string, text: string)
    requires caption == "curl" && target == "https://x" && body == "a=b" && text == "text"
    ensures Clean(Source(Link(caption, target)) + " " + RehypeOpen + body + CommentClose + text)
         == "curl (https://x) text"
  {
    var l := Link(caption, target);
    CurlLink(l, text);
    CurlRendered(l, text);
    ShortAnnotationBody(body);
    CleanLinkAndAnnotation(l, body, text);
  }

  /** The text of the worked example is its link, a space, its annotation and its plain text. */
  lemma CurlText()
    ensures "[curl](https://x) <!--rehype:a=b-->text"
         == Source(Link("curl", "https://x")) + " " + RehypeOpen + "a=b" + CommentClose + "text"
  {
    CurlSplit();
    CurlSource();
    CurlAnnotation();
    Assemble("[curl](https://x) <!--rehype:a=b-->text", Source(Link("curl", "https://x")), "[curl](https://x)",
             " ", RehypeOpen, "a=b", CommentClose, "<!--rehype:a=b-->", "text");
  }

  lemma CurlSplit()
    ensures "[curl](https://x) <!--rehype:a=b-->text" == "[curl](https://x)" + " " + "<!--rehype:a=b-->" + "text"
  {
  }

  lemma CurlSource()
    ensures Source(Link("curl", "https://x")) == "[curl](https://x)"
  {
  }

  lemma CurlAnnotation()
    ensures RehypeOpen + "a=b" + CommentClose == "<!--rehype:a=b-->"
  {
  }

  /** `[OPTION]...` put together from its pieces is kept as it is. */
  lemma OptionKeptParts(word: string, rest: string)
    requires word == "OPTION" && rest == "..."
    ensures Clean("[" + word + "]" + rest) == "[" + word + "]" + rest
  {
    BracketedWordKept(word, rest);
  }

  /** `[OPTION]...` is a bracketed word followed by plain text. */
  lemma OptionText()
    ensures "[OPTION]..." == "[" + "OPTION" + "]" + "..."
  {
  }
}
