/**
 * The description pass of `parseCommandMarkdown`: the first non-blank,
 * non-heading line after the first title marker line.
 */
module Description {
  import opened Text

  /** A line whose trimmed form starts with `===` or `---` (a title underline or a rule). */
  predicate IsTitleMarker(line: string) {
    var trimmed := Trim(line);
    StartsWith(trimmed, "===") || StartsWith(trimmed, "---")
  }

  /** A line that becomes the description when it comes after a title marker. */
  predicate IsDescriptionLine(line: string) {
    !IsTitleMarker(line) && Trim(line) != "" && !StartsWith(Trim(line), "#")
  }

  /**
   * The description loop run over `lines` with the flag `foundTitle` as it
   * stands before the first of them.
   */
  function Scan(lines: seq<string>, foundTitle: bool): (d: string)
    ensures d == "" || (Trim(d) == d && !StartsWith(d, "#"))
    ensures !StartsWith(d, "===") && !StartsWith(d, "---")
    decreases |lines|
  {
    if |lines| == 0 then ""
    else
      var trimmed := Trim(lines[0]);
      if StartsWith(trimmed, "===") || StartsWith(trimmed, "---") then
        Scan(lines[1..], true)
      else if foundTitle && trimmed != "" && !StartsWith(trimmed, "#") then
        TrimIdempotent(lines[0]);
        trimmed
      else
        Scan(lines[1..], foundTitle)
  }

  /** The description of a document split into `lines`: the loop starts with no title seen. */
  function Extract(lines: seq<string>): string {
    Scan(lines, false)
  }

  /** Some line before `j` satisfies `p`. */
  ghost predicate AnyBefore(p: string -> bool, lines: seq<string>, j: int)
    requires j <= |lines|
    decreases j
  {
    j > 0 && (p(lines[j - 1]) || AnyBefore(p, lines, j - 1))
  }

  lemma {:induction false} AnyBeforeSpec(p: string -> bool, lines: seq<string>, j: int)
    requires j <= |lines|
    ensures AnyBefore(p, lines, j) <==> exists m :: 0 <= m < j && p(lines[m])
    decreases j
  {
    if j > 0 {
      AnyBeforeSpec(p, lines, j - 1);
      if p(lines[j - 1]) {
        assert 0 <= j - 1 < j && p(lines[j - 1]);
      }
    }
  }

  /** Dropping the first line: a hit before `j + 1` is the first line or a hit before `j` in the rest. */
  lemma {:induction false} AnyBeforeShift(p: string -> bool, lines: seq<string>, j: nat)
    requires j < |lines|
    ensures AnyBefore(p, lines, j + 1) <==> p(lines[0]) || AnyBefore(p, lines[1..], j)
    decreases j
  {
    if j > 0 {
      AnyBeforeShift(p, lines, j - 1);
      assert lines[1..][j - 1] == lines[j];
    }
  }

  /**
   * Line `j` could be the description: it is a description line and either a
   * title marker was seen before the scan began or one occurs before `j`.
   */
  ghost predicate Eligible(lines: seq<string>, j: int, foundTitle: bool) {
    && 0 <= j < |lines|
    && IsDescriptionLine(lines[j])
    && (foundTitle || AnyBefore(IsTitleMarker, lines, j))
  }

  lemma EligibleShift(lines: seq<string>, j: int, foundTitle: bool)
    requires |lines| > 0 && 0 <= j
    ensures Eligible(lines, j + 1, foundTitle)
        <==> Eligible(lines[1..], j, foundTitle || IsTitleMarker(lines[0]))
  {
    if j + 1 < |lines| {
      AnyBeforeShift(IsTitleMarker, lines, j);
      assert lines[1..][j] == lines[j + 1];
    }
  }

  /** One step of the scan, in terms of the line predicates. */
  lemma ScanStep(lines: seq<string>, foundTitle: bool)
    requires |lines| > 0
    ensures IsTitleMarker(lines[0]) ==> Scan(lines, foundTitle) == Scan(lines[1..], true)
    ensures !IsTitleMarker(lines[0]) && foundTitle && IsDescriptionLine(lines[0]) ==>
              Scan(lines, foundTitle) == Trim(lines[0])
    ensures !IsTitleMarker(lines[0]) && !(foundTitle && IsDescriptionLine(lines[0])) ==>
              Scan(lines, foundTitle) == Scan(lines[1..], foundTitle)
  {
  }

  /** The first line is eligible exactly when it is a description line and a title was already seen. */
  lemma EligibleFirst(lines: seq<string>, foundTitle: bool)
    requires |lines| > 0
    ensures Eligible(lines, 0, foundTitle) <==> foundTitle && IsDescriptionLine(lines[0])
  {
  }

  /** Past an ineligible first line, no line is eligible exactly when none of the rest is. */
  lemma NoneEligibleShift(lines: seq<string>, foundTitle: bool, rest: seq<string>, next: bool)
    requires |lines| > 0 && !Eligible(lines, 0, foundTitle)
    requires rest == lines[1..] && next == (foundTitle || IsTitleMarker(lines[0]))
    ensures (forall j :: !Eligible(lines, j, foundTitle)) <==> (forall j :: !Eligible(rest, j, next))
  {
    forall j | Eligible(lines, j, foundTitle)
      ensures Eligible(rest, j - 1, next)
    {
      EligibleShift(lines, j - 1, foundTitle);
    }
    forall j | Eligible(rest, j, next)
      ensures Eligible(lines, j + 1, foundTitle)
    {
      EligibleShift(lines, j, foundTitle);
    }
  }

  /** The scan yields "" exactly when no line is eligible. */
  lemma {:induction false} ScanEmptyIff(lines: seq<string>, foundTitle: bool)
    ensures Scan(lines, foundTitle) == "" <==> forall j :: !Eligible(lines, j, foundTitle)
    decreases |lines|
  {
    if |lines| > 0 {
      if Eligible(lines, 0, foundTitle) {
        ScanStep(lines, foundTitle);
        EligibleFirst(lines, foundTitle);
        assert Trim(lines[0]) != "";
      } else {
        ScanPastIneligible(lines, foundTitle);
        NoneEligibleShift(lines, foundTitle, lines[1..], foundTitle || IsTitleMarker(lines[0]));
        ScanEmptyIff(lines[1..], foundTitle || IsTitleMarker(lines[0]));
      }
    }
  }

  /** Past an ineligible first line the scan goes on with the flag that line leaves. */
  lemma ScanPastIneligible(lines: seq<string>, foundTitle: bool)
    requires |lines| > 0 && !Eligible(lines, 0, foundTitle)
    ensures Scan(lines, foundTitle) == Scan(lines[1..], foundTitle || IsTitleMarker(lines[0]))
  {
    ScanStep(lines, foundTitle);
    EligibleFirst(lines, foundTitle);
  }

  /** A first eligible line at `j > 0` is the first eligible line at `j - 1` of the rest. */
  lemma FirstEligibleShift(lines: seq<string>, foundTitle: bool, j: int)
    requires 0 < j && Eligible(lines, j, foundTitle)
    requires forall k :: 0 <= k < j ==> !Eligible(lines, k, foundTitle)
    ensures var next := foundTitle || IsTitleMarker(lines[0]);
            && Eligible(lines[1..], j - 1, next)
            && forall k :: 0 <= k < j - 1 ==> !Eligible(lines[1..], k, next)
  {
    EligibleShift(lines, j - 1, foundTitle);
    var rest := lines[1..];
    var next := foundTitle || IsTitleMarker(lines[0]);
    forall k | 0 <= k < j - 1
      ensures !Eligible(rest, k, next)
    {
      EligibleShift(lines, k, foundTitle);
    }
  }

  /** When line `j` is the first eligible line, the scan yields its trimmed text. */
  lemma {:induction false} ScanChoosesFirstEligible(lines: seq<string>, foundTitle: bool, j: int)
    requires Eligible(lines, j, foundTitle)
    requires forall k :: 0 <= k < j ==> !Eligible(lines, k, foundTitle)
    ensures Scan(lines, foundTitle) == Trim(lines[j])
    decreases j
  {
    if j == 0 {
      ScanStep(lines, foundTitle);
      EligibleFirst(lines, foundTitle);
    } else {
      var next := foundTitle || IsTitleMarker(lines[0]);
      ScanPastIneligible(lines, foundTitle);
      FirstEligibleShift(lines, foundTitle, j);
      ScanChoosesFirstEligible(lines[1..], next, j - 1);
    }
  }

  /**
   * The description is "" exactly when no description line follows a title
   * marker; otherwise it is the trimmed text of the first line that does.
   */
  lemma ExtractSpec(lines: seq<string>)
    ensures Extract(lines) == "" <==> forall j :: !Eligible(lines, j, false)
    ensures forall j :: Eligible(lines, j, false) && (forall k :: 0 <= k < j ==> !Eligible(lines, k, false))
                     ==> Extract(lines) == Trim(lines[j])
  {
    ScanEmptyIff(lines, false);
    forall j | Eligible(lines, j, false) && (forall k :: 0 <= k < j ==> !Eligible(lines, k, false))
      ensures Extract(lines) == Trim(lines[j])
    {
      ScanChoosesFirstEligible(lines, false, j);
    }
  }

  /** Without a title marker line the description stays "". */
  lemma NoTitleNoDescription(lines: seq<string>)
    requires forall m :: 0 <= m < |lines| ==> !IsTitleMarker(lines[m])
    ensures Extract(lines) == ""
  {
    forall j | 0 <= j <= |lines|
      ensures !AnyBefore(IsTitleMarker, lines, j)
    {
      AnyBeforeSpec(IsTitleMarker, lines, j);
    }
    ScanEmptyIff(lines, false);
  }

  /** A title marker line itself is never the description. */
  lemma MarkerNeverChosen(lines: seq<string>, m: int)
    requires 0 <= m < |lines| && IsTitleMarker(lines[m])
    ensures Extract(lines) != Trim(lines[m])
  {
  }
}
