/**
 * The JavaScript string primitives the core relies on: `startsWith`, `includes`,
 * `trim`, `toLowerCase` and `split("\n")`, over strings as sequences of characters.
 */
module Text {

  /** `s.startsWith(prefix)`. */
  predicate StartsWith(s: string, prefix: string) {
    |prefix| <= |s| && s[..|prefix|] == prefix
  }

  /** `sub` occurs in `s` starting at index `i`. */
  predicate OccursAt(s: string, sub: string, i: int) {
    0 <= i && i + |sub| <= |s| && s[i..i + |sub|] == sub
  }

  lemma OccursAtShift(s: string, sub: string, i: int)
    requires |s| > 0 && i >= 0
    ensures OccursAt(s[1..], sub, i) <==> OccursAt(s, sub, i + 1)
  {
    if 0 <= i && i + |sub| <= |s| - 1 {
      assert s[1..][i..i + |sub|] == s[i + 1..i + 1 + |sub|];
    }
  }

  /** `s.includes(sub)`: tries every start position from the left. */
  function Contains(s: string, sub: string): (b: bool)
    ensures b <==> exists i :: OccursAt(s, sub, i)
    decreases |s|
  {
    if StartsWith(s, sub) then
      assert OccursAt(s, sub, 0);
      true
    else if |s| == 0 then
      assert forall i :: !OccursAt(s, sub, i);
      false
    else
      var rest := Contains(s[1..], sub);
      assert rest ==> exists i :: OccursAt(s, sub, i) by {
        if rest {
          var i :| OccursAt(s[1..], sub, i);
          OccursAtShift(s, sub, i);
        }
      }
      assert (exists i :: OccursAt(s, sub, i)) ==> rest by {
        if exists i :: OccursAt(s, sub, i) {
          var i :| OccursAt(s, sub, i);
          assert i != 0;
          OccursAtShift(s, sub, i - 1);
        }
      }
      rest
  }

  /**
   * The characters `String.prototype.trim` removes: the ECMAScript WhiteSpace
   * code points (tab, vertical tab, form feed, space, no-break space, byte order
   * mark and the Space_Separator category) and the four LineTerminator code points.
   */
  predicate IsWhitespace(c: char) {
    || c == '\t' || c == '\U{000B}' || c == '\U{000C}' || c == ' '
    || c == '\U{00A0}' || c == '\U{FEFF}' || c == '\U{1680}'
    || ('\U{2000}' <= c <= '\U{200A}')
    || c == '\U{202F}' || c == '\U{205F}' || c == '\U{3000}'
    || c == '\n' || c == '\r' || c == '\U{2028}' || c == '\U{2029}'
  }

  ghost predicate AllWhitespace(s: string) {
    forall k :: 0 <= k < |s| ==> IsWhitespace(s[k])
  }

  /** `s.trimStart()`: drops the leading whitespace and nothing else. */
  function TrimStart(s: string): (r: string)
    ensures |r| <= |s| && r == s[|s| - |r|..]
    ensures AllWhitespace(s[..|s| - |r|])
    ensures r == [] || !IsWhitespace(r[0])
    decreases |s|
  {
    if |s| > 0 && IsWhitespace(s[0]) then
      var r := TrimStart(s[1..]);
      DropFirst(s, |s| - |r|);
      WhitespaceAppend([s[0]], s[1..][..|s| - 1 - |r|]);
      r
    else
      s
  }

  /** `s.trimEnd()`: drops the trailing whitespace and nothing else. */
  function TrimEnd(s: string): (r: string)
    ensures |r| <= |s| && r == s[..|r|]
    ensures AllWhitespace(s[|r|..])
    ensures r == [] || !IsWhitespace(r[|r| - 1])
    decreases |s|
  {
    if |s| > 0 && IsWhitespace(s[|s| - 1]) then
      var r := TrimEnd(s[..|s| - 1]);
      DropLast(s, |r|);
      WhitespaceAppend(s[..|s| - 1][|r|..], [s[|s| - 1]]);
      r
    else
      s
  }

  /** Whitespace followed by whitespace is whitespace. */
  lemma WhitespaceAppend(a: string, b: string)
    requires AllWhitespace(a) && AllWhitespace(b)
    ensures AllWhitespace(a + b)
  {
    forall k | 0 <= k < |a + b| ensures IsWhitespace((a + b)[k]) {
      if k < |a| { assert (a + b)[k] == a[k]; } else { assert (a + b)[k] == b[k - |a|]; }
    }
  }

  /** The first `m` elements are the first one followed by `m - 1` more. */
  lemma DropFirst<T>(s: seq<T>, m: nat)
    requires 1 <= m <= |s|
    ensures s[..m] == [s[0]] + s[1..][..m - 1] && s[1..][m - 1..] == s[m..]
  {
  }

  /** From position `n` on, the elements are those of the front part followed by the last one. */
  lemma DropLast<T>(s: seq<T>, n: nat)
    requires n < |s|
    ensures s[n..] == s[..|s| - 1][n..] + [s[|s| - 1]] && s[..|s| - 1][..n] == s[..n]
  {
  }

  /** `s.trim()`. */
  function Trim(s: string): (r: string)
    ensures |r| <= |s|
    ensures r == [] || (!IsWhitespace(r[0]) && !IsWhitespace(r[|r| - 1]))
  {
    TrimEnd(TrimStart(s))
  }

  /** Removing a whitespace run in front of a non-whitespace start is all `TrimStart` does. */
  lemma {:induction false} TrimStartUnique(s: string, pre: string, rest: string)
    requires s == pre + rest && AllWhitespace(pre)
    requires rest == [] || !IsWhitespace(rest[0])
    ensures TrimStart(s) == rest
    decreases |pre|
  {
    if pre != [] {
      assert s[1..] == pre[1..] + rest;
      TrimStartUnique(s[1..], pre[1..], rest);
    }
  }

  /** Removing a whitespace run after a non-whitespace end is all `TrimEnd` does. */
  lemma {:induction false} TrimEndUnique(s: string, rest: string, post: string)
    requires s == rest + post && AllWhitespace(post)
    requires rest == [] || !IsWhitespace(rest[|rest| - 1])
    ensures TrimEnd(s) == rest
    decreases |post|
  {
    if post != [] {
      assert s[..|s| - 1] == rest + post[..|post| - 1];
      TrimEndUnique(s[..|s| - 1], rest, post[..|post| - 1]);
    }
  }

  /**
   * The reference definition of trimming: whatever surrounds a core that
   * neither starts nor ends with whitespace, if all of it is whitespace, is
   * exactly what `Trim` removes.
   */
  lemma TrimUnique(s: string, pre: string, core: string, post: string)
    requires s == pre + core + post
    requires AllWhitespace(pre) && AllWhitespace(post)
    requires core == [] || (!IsWhitespace(core[0]) && !IsWhitespace(core[|core| - 1]))
    ensures Trim(s) == core
  {
    if core == [] {
      assert AllWhitespace(s) by {
        forall k | 0 <= k < |s| ensures IsWhitespace(s[k]) {
          if k < |pre| { assert s[k] == pre[k]; } else { assert s[k] == post[k - |pre|]; }
        }
      }
      TrimStartUnique(s, s, []);
    } else {
      TrimStartUnique(s, pre, core + post);
      TrimEndUnique(core + post, core, post);
    }
  }

  lemma TrimIdempotent(s: string)
    ensures Trim(Trim(s)) == Trim(s)
  {
    var t := Trim(s);
    TrimStartFixed(t);
    TrimEndFixed(t);
  }

  /** Text that does not start with whitespace is left alone by `TrimStart`. */
  lemma TrimStartFixed(t: string)
    requires t == [] || !IsWhitespace(t[0])
    ensures TrimStart(t) == t
  {
  }

  /** Text that does not end with whitespace is left alone by `TrimEnd`. */
  lemma TrimEndFixed(t: string)
    requires t == [] || !IsWhitespace(t[|t| - 1])
    ensures TrimEnd(t) == t
  {
  }

  /** ASCII case folding of one character; every other character is left alone. */
  function LowerChar(c: char): (d: char)
    ensures 'A' <= c <= 'Z' ==> 'a' <= d <= 'z' && d as int - c as int == 32
    ensures !('A' <= c <= 'Z') ==> d == c
  {
    if 'A' <= c <= 'Z' then (c as int + 32) as char else c
  }

  /** `s.toLowerCase()`, restricted to ASCII letters. */
  function ToLower(s: string): (r: string)
    ensures |r| == |s|
    ensures forall i :: 0 <= i < |s| ==> r[i] == LowerChar(s[i])
  {
    seq(|s|, i requires 0 <= i < |s| => LowerChar(s[i]))
  }

  lemma ToLowerIdempotent(s: string)
    ensures ToLower(ToLower(s)) == ToLower(s)
  {
  }

  /** Index of the first occurrence of `c` in `s`. */
  function IndexOf(s: string, c: char): (i: nat)
    requires c in s
    ensures i < |s| && s[i] == c && c !in s[..i]
  {
    if s[0] == c then 0
    else
      var j := IndexOf(s[1..], c);
      assert s[..j + 1] == [s[0]] + s[1..][..j];
      j + 1
  }

  /** `s.split(sep)` for a one-character separator: always at least one piece. */
  function Split(s: string, sep: char): (r: seq<string>)
    ensures |r| >= 1
    ensures forall i :: 0 <= i < |r| ==> sep !in r[i]
    decreases |s|
  {
    if sep !in s then [s]
    else
      var i := IndexOf(s, sep);
      [s[..i]] + Split(s[i + 1..], sep)
  }

  /** `pieces.join(sep)`. */
  function Join(pieces: seq<string>, sep: char): string
    requires |pieces| >= 1
  {
    if |pieces| == 1 then pieces[0]
    else pieces[0] + [sep] + Join(pieces[1..], sep)
  }

  /** Joining the pieces of a split gives back the original text. */
  lemma {:induction false} JoinSplit(s: string, sep: char)
    ensures Join(Split(s, sep), sep) == s
    decreases |s|
  {
    if sep in s {
      var i := IndexOf(s, sep);
      SplitStep(s, sep);
      JoinSplit(s[i + 1..], sep);
      JoinCons(s[..i], Split(s[i + 1..], sep), sep);
      Around(s, i);
    }
  }

  /** Where the separator occurs, the split is the text before it followed by the split of the rest. */
  lemma SplitStep(s: string, sep: char)
    requires sep in s
    ensures Split(s, sep) == [s[..IndexOf(s, sep)]] + Split(s[IndexOf(s, sep) + 1..], sep)
  {
  }

  /** Joining a piece in front of at least one more puts the separator between them. */
  lemma JoinCons(x: string, rest: seq<string>, sep: char)
    requires |rest| >= 1
    ensures Join([x] + rest, sep) == x + [sep] + Join(rest, sep)
  {
    assert ([x] + rest)[1..] == rest;
  }

  /** A sequence is what comes before position `i`, the element there, and what follows. */
  lemma Around<T>(s: seq<T>, i: nat)
    requires i < |s|
    ensures s == s[..i] + [s[i]] + s[i + 1..]
  {
  }

  /** The first occurrence is determined by position: no earlier `c`, and `c` at `i`. */
  lemma IndexOfUnique(s: string, c: char, i: nat)
    requires i < |s| && s[i] == c && c !in s[..i]
    ensures IndexOf(s, c) == i
  {
  }

  /** A piece followed by the separator splits off as the first piece. */
  lemma SplitFirst(piece: string, sep: char, rest: string)
    requires sep !in piece
    ensures Split(piece + [sep] + rest, sep) == [piece] + Split(rest, sep)
  {
    var s := piece + [sep] + rest;
    var i := |piece|;
    assert s[..i] == piece;
    IndexOfUnique(s, sep, i);
    assert s[i + 1..] == rest;
  }

  /** Splitting a join of separator-free pieces gives back the pieces. */
  lemma {:induction false} SplitJoin(pieces: seq<string>, sep: char)
    requires |pieces| >= 1
    requires forall i :: 0 <= i < |pieces| ==> sep !in pieces[i]
    ensures Split(Join(pieces, sep), sep) == pieces
    decreases |pieces|
  {
    if |pieces| > 1 {
      SplitFirst(pieces[0], sep, Join(pieces[1..], sep));
      SplitJoin(pieces[1..], sep);
      assert pieces == [pieces[0]] + pieces[1..];
    }
  }

  /** `markdown.split("\n")`. */
  function Lines(s: string): seq<string> {
    Split(s, '\n')
  }
}
