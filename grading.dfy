/**
 * The answer-grading helpers of the trivia test script (`test/test-script.py`):
 * `extract_answer`, which guesses the answer line of the program's output, and
 * `check_answer`, which decides whether the output names one of the expected
 * answers. Both are searches over lines and expected answers with early return.
 */
module Grading {
  import opened Wrappers
  import opened Text

  const AnswerMarker := "ANSWER:"
  const Rationale := "rationale"
  const Reasoning := "reasoning"
  const AnalysisWord := "analysis"

  /** The longest text the last-resort answer may have, and how much of it is kept. */
  const MaxFallback := 50
  const KeptPrefix := 47

  // ---------------------------------------------------------------------------
  // extract_answer
  // ---------------------------------------------------------------------------

  predicate Marked(line: string) {
    Contains(line, AnswerMarker)
  }

  /** A line that may introduce the answer: it names a rationale, reasoning or analysis
      in any case. */
  predicate Introduces(line: string) {
    Contains(Lower(line), Rationale) || Contains(Lower(line), Reasoning) || Contains(Lower(line), AnalysisWord)
  }

  predicate NonBlank(line: string) {
    Strip(line) != ""
  }

  /** The first line at or after `from` that holds the answer marker. */
  function FirstMarked(lines: seq<string>, from: nat): (r: Option<nat>)
    ensures r.Some? ==> from <= r.value < |lines| && Marked(lines[r.value])
    ensures r.Some? ==> forall j :: from <= j < r.value ==> !Marked(lines[j])
    ensures r.None? ==> forall j :: from <= j < |lines| ==> !Marked(lines[j])
    decreases |lines| - from
  {
    if from >= |lines| then None
    else if Marked(lines[from]) then Some(from)
    else FirstMarked(lines, from + 1)
  }

  /** What the line at `i` offers when it introduces the answer: the next line, or
      else the one after it, stripped, if that is not blank. */
  function FollowUpAt(lines: seq<string>, i: nat): Option<string>
    requires i < |lines|
  {
    if !Introduces(lines[i]) then None
    else if i + 1 < |lines| && Strip(lines[i + 1]) != "" then Some(Strip(lines[i + 1]))
    else if i + 2 < |lines| && Strip(lines[i + 2]) != "" then Some(Strip(lines[i + 2]))
    else None
  }

  /** What every line offers, in line order. */
  function Offers(lines: seq<string>): (o: seq<Option<string>>)
    ensures |o| == |lines|
    ensures forall i :: 0 <= i < |lines| ==> o[i] == FollowUpAt(lines, i)
  {
    seq(|lines|, i requires 0 <= i < |lines| => FollowUpAt(lines, i))
  }

  /** The loop over the lines with its early return: the first offer at or after `from`. */
  function FirstOffer(offers: seq<Option<string>>, from: nat): Option<string>
    decreases |offers| - from
  {
    if from >= |offers| then None
    else if offers[from].Some? then offers[from]
    else FirstOffer(offers, from + 1)
  }

  /** The last resort: the output itself, cut to 47 characters and `"..."` when it is
      longer than 50. */
  function Truncated(output: string): (r: string)
    ensures |r| <= MaxFallback
    ensures |output| <= MaxFallback ==> r == output
    ensures |output| > MaxFallback ==> |r| == MaxFallback && StartsWith(r, output[..KeptPrefix]) && EndsWith(r, "...")
  {
    if |output| > MaxFallback then output[..KeptPrefix] + "..." else output
  }

  /** `extract_answer`. */
  function ExtractAnswer(output: string): string {
    if output == "" then "" else FromLines(output, Split(output, '\n'))
  }

  /** The first marked line, without its markers, if there is one. */
  function FromLines(output: string, lines: seq<string>): string {
    match FirstMarked(lines, 0)
    case Some(k) => Strip(RemoveAll(lines[k], AnswerMarker))
    case None => Unmarked(output, lines)
  }

  /** Else the first offer, if there is one. */
  function Unmarked(output: string, lines: seq<string>): string {
    match FirstOffer(Offers(lines), 0)
    case Some(v) => v
    case None => LastResort(output, FilterMap(NonBlank, Strip, lines))
  }

  /** Else the last of the non-blank lines, stripped, or the output cut short. */
  function LastResort(output: string, kept: seq<string>): string {
    if kept != [] then kept[|kept| - 1] else Truncated(output)
  }

  /** The empty output has the empty answer. */
  lemma EmptyOutput()
    ensures ExtractAnswer("") == ""
  {
  }

  /** The first marked line wins: its text without any marker, stripped. */
  lemma MarkedLineWins(output: string, k: nat)
    requires output != ""
    requires k < |Split(output, '\n')| && Marked(Split(output, '\n')[k])
    requires forall j :: 0 <= j < k ==> !Marked(Split(output, '\n')[j])
    ensures ExtractAnswer(output) == Strip(RemoveAll(Split(output, '\n')[k], AnswerMarker))
  {
    var r := FirstMarked(Split(output, '\n'), 0);
    assert r.Some?;
    assert r.value == k;
  }

  /** The search stops at the first offer. */
  lemma {:induction false} FirstOfferAt(offers: seq<Option<string>>, from: nat, k: nat)
    requires from <= k < |offers| && offers[k].Some?
    requires forall j :: from <= j < k ==> offers[j].None?
    ensures FirstOffer(offers, from) == offers[k]
    decreases k - from
  {
    if from < k {
      FirstOfferAt(offers, from + 1, k);
    }
  }

  /** Without an offer the search finds none. */
  lemma {:induction false} NoOffer(offers: seq<Option<string>>, from: nat)
    requires forall j :: from <= j < |offers| ==> offers[j].None?
    ensures FirstOffer(offers, from).None?
    decreases |offers| - from
  {
    if from < |offers| {
      NoOffer(offers, from + 1);
    }
  }

  /** Without a marked line, the first line that introduces the answer and has a
      non-blank next (or next-but-one) line decides: that line, stripped. */
  lemma IntroducedLineWins(output: string, k: nat)
    requires output != ""
    requires forall j :: 0 <= j < |Split(output, '\n')| ==> !Marked(Split(output, '\n')[j])
    requires k < |Split(output, '\n')| && FollowUpAt(Split(output, '\n'), k).Some?
    requires forall j :: 0 <= j < k ==> FollowUpAt(Split(output, '\n'), j).None?
    ensures Introduces(Split(output, '\n')[k])
    ensures var lines := Split(output, '\n');
            ExtractAnswer(output) == (if k + 1 < |lines| && Strip(lines[k + 1]) != "" then Strip(lines[k + 1])
                                      else Strip(lines[k + 2]))
    ensures ExtractAnswer(output) != ""
  {
    var lines := Split(output, '\n');
    FirstOfferAt(Offers(lines), 0, k);
    assert FirstMarked(lines, 0).None?;
  }

  /** `[f(x) for x in xs if p(x)]` is empty iff no element passes `p`. */
  lemma {:induction false} FilterMapEmpty(p: string -> bool, f: string -> string, xs: seq<string>)
    ensures FilterMap(p, f, xs) == [] <==> forall i :: 0 <= i < |xs| ==> !p(xs[i])
    decreases |xs|
  {
    if xs != [] {
      FilterMapEmpty(p, f, xs[1..]);
      assert forall i :: 1 <= i < |xs| ==> xs[i] == xs[1..][i - 1];
    }
  }

  /** The last kept element is the image of the last element that passes `p`. */
  lemma {:induction false} FilterMapLastKept(p: string -> bool, f: string -> string, xs: seq<string>, k: nat)
    requires k < |xs| && p(xs[k])
    requires forall j :: k < j < |xs| ==> !p(xs[j])
    ensures FilterMap(p, f, xs) != [] && FilterMap(p, f, xs)[|FilterMap(p, f, xs)| - 1] == f(xs[k])
    decreases |xs|
  {
    FilterMapLast(p, f, xs);
    if k < |xs| - 1 {
      var init := xs[..|xs| - 1];
      assert forall j :: k < j < |init| ==> init[j] == xs[j];
      FilterMapLastKept(p, f, init, k);
    }
  }

  /** Otherwise the last non-blank line, stripped, is the answer. Stated over the
      lines the output splits into, which `ExtractAnswer` hands to `FromLines`. */
  lemma LastNonBlankLine(output: string, lines: seq<string>, k: nat)
    requires forall j :: 0 <= j < |lines| ==> !Marked(lines[j])
    requires forall j :: 0 <= j < |lines| ==> FollowUpAt(lines, j).None?
    requires k < |lines| && NonBlank(lines[k])
    requires forall j :: k < j < |lines| ==> !NonBlank(lines[j])
    ensures FromLines(output, lines) == Strip(lines[k])
    ensures FromLines(output, lines) != ""
  {
    NoneOffered(lines);
    Unoffered(output, lines);
    LastKept(output, lines, k);
  }

  /** With no marked line and no offer, the last resort decides. */
  lemma Unoffered(output: string, lines: seq<string>)
    requires FirstMarked(lines, 0).None? && FirstOffer(Offers(lines), 0).None?
    ensures FromLines(output, lines) == LastResort(output, FilterMap(NonBlank, Strip, lines))
  {
  }

  /** The last resort picks the last non-blank line, stripped. */
  lemma LastKept(output: string, lines: seq<string>, k: nat)
    requires k < |lines| && NonBlank(lines[k])
    requires forall j :: k < j < |lines| ==> !NonBlank(lines[j])
    ensures LastResort(output, FilterMap(NonBlank, Strip, lines)) == Strip(lines[k])
  {
    FilterMapLastKept(NonBlank, Strip, lines, k);
  }

  /** A non-empty output is answered from the lines it splits into. */
  lemma ByLines(output: string)
    requires output != ""
    ensures ExtractAnswer(output) == FromLines(output, Split(output, '\n'))
  {
  }

  /** Lines that offer no follow-up leave the search empty-handed. */
  lemma NoneOffered(lines: seq<string>)
    requires forall j :: 0 <= j < |lines| ==> FollowUpAt(lines, j).None?
    ensures FirstOffer(Offers(lines), 0).None?
  {
    var offers := Offers(lines);
    assert forall j :: 0 <= j < |offers| ==> offers[j].None?;
    NoOffer(offers, 0);
  }

  /** Lines that are all blank leave the output itself as the answer, cut to at most
      50 characters. */
  lemma AllBlankLines(output: string, lines: seq<string>)
    requires forall j :: 0 <= j < |lines| ==> IsBlank(lines[j])
    ensures FromLines(output, lines) == Truncated(output)
    ensures |FromLines(output, lines)| <= MaxFallback
  {
    forall j | 0 <= j < |lines|
      ensures !Marked(lines[j]) && FollowUpAt(lines, j).None? && !NonBlank(lines[j])
    {
      BlankHasNoMarker(lines[j]);
      if j + 1 < |lines| {
        assert Strip(lines[j + 1]) == "";
      }
      if j + 2 < |lines| {
        assert Strip(lines[j + 2]) == "";
      }
    }
    NoneOffered(lines);
    FilterMapEmpty(NonBlank, Strip, lines);
    Unoffered(output, lines);
  }

  /** A blank line cannot hold the marker, whose first character is not a space. */
  lemma BlankHasNoMarker(line: string)
    requires IsBlank(line)
    ensures !Marked(line)
  {
    assert !IsSpace(AnswerMarker[0]);
    forall m | 0 <= m < |line|
      ensures line[m] != AnswerMarker[0]
    {
      assert IsSpace(line[m]);
    }
    AbsentCharNoOccurrence(line, AnswerMarker, 0);
  }

  // ---------------------------------------------------------------------------
  // check_answer
  // ---------------------------------------------------------------------------

  /** `expected_answers`: one string, or a list of them. */
  datatype Expected = Single(answer: string) | Several(answers: seq<string>)

  function AsList(e: Expected): (xs: seq<string>)
    ensures e.Single? ==> xs == [e.answer]
    ensures e.Several? ==> xs == e.answers
  {
    match e
    case Single(a) => [a]
    case Several(xs) => xs
  }

  predicate HasDigit(s: string) {
    exists i :: 0 <= i < |s| && IsDigit(s[i])
  }

  /** One expected answer matches: lower-cased, it occurs in the lower-cased output or
      in the non-empty extracted answer; or it has a digit and its digits occur in the
      digits of the output or of the extracted answer. */
  predicate Matches(output: string, extracted: string, expected: string) {
    Contains(Lower(output), Lower(expected))
    || (extracted != "" && Contains(Lower(extracted), Lower(expected)))
    || (HasDigit(expected)
        && (Contains(DigitsOf(output), DigitsOf(expected)) || Contains(DigitsOf(extracted), DigitsOf(expected))))
  }

  /** The loop over the expected answers, returning at the first match. */
  function AnyMatches(output: string, extracted: string, answers: seq<string>): bool
    decreases |answers|
  {
    if answers == [] then false
    else if Matches(output, extracted, answers[0]) then true
    else AnyMatches(output, extracted, answers[1..])
  }

  lemma {:induction false} AnyMatchesIff(output: string, extracted: string, answers: seq<string>)
    ensures AnyMatches(output, extracted, answers)
            <==> exists k :: 0 <= k < |answers| && Matches(output, extracted, answers[k])
    decreases |answers|
  {
    if answers != [] {
      AnyMatchesIff(output, extracted, answers[1..]);
      if exists k :: 0 <= k < |answers| && Matches(output, extracted, answers[k]) {
        var k :| 0 <= k < |answers| && Matches(output, extracted, answers[k]);
        if k > 0 {
          assert answers[1..][k - 1] == answers[k];
        }
      }
      if exists k :: 0 <= k < |answers[1..]| && Matches(output, extracted, answers[1..][k]) {
        var k :| 0 <= k < |answers[1..]| && Matches(output, extracted, answers[1..][k]);
        assert answers[k + 1] == answers[1..][k];
      }
    }
  }

  /** `check_answer`. */
  function CheckAnswer(output: string, expected: Expected): bool {
    AnyMatches(output, ExtractAnswer(output), AsList(expected))
  }

  /** `check_answer` holds iff some expected answer matches. */
  lemma CheckAnswerIff(output: string, expected: Expected)
    ensures CheckAnswer(output, expected)
            <==> exists k :: 0 <= k < |AsList(expected)| && Matches(output, ExtractAnswer(output), AsList(expected)[k])
  {
    AnyMatchesIff(output, ExtractAnswer(output), AsList(expected));
  }

  /** A single expected string is the one-element list. */
  lemma SingleIsList(output: string, answer: string)
    ensures CheckAnswer(output, Single(answer)) == CheckAnswer(output, Several([answer]))
  {
  }

  /** An empty list of expected answers never matches. */
  lemma NothingExpected(output: string)
    ensures !CheckAnswer(output, Several([]))
  {
  }

  /** Matching ignores case: an expected answer that occurs in the output up to case
      is accepted. */
  lemma CaseInsensitive(output: string, expected: Expected, k: nat)
    requires k < |AsList(expected)| && Contains(Lower(output), Lower(AsList(expected)[k]))
    ensures CheckAnswer(output, expected)
  {
    CheckAnswerIff(output, expected);
  }

  /** An expected answer with a digit is accepted when its digits occur among the
      digits of the output, whatever the separators and currency signs. */
  lemma DigitsOnly(output: string, expected: Expected, k: nat)
    requires k < |AsList(expected)| && HasDigit(AsList(expected)[k])
    requires Contains(DigitsOf(output), DigitsOf(AsList(expected)[k]))
    ensures CheckAnswer(output, expected)
  {
    CheckAnswerIff(output, expected);
  }

  /** `"$7,000"` is accepted for the output `"7000"`. */
  lemma DollarsMatchDigits()
    ensures CheckAnswer("7000", Single("$7,000"))
  {
    var e := "$7,000";
    assert IsDigit(e[1]);
    assert DigitsOf(e) == "7000" by {
      assert DigitsOf(e[5..]) == "0";
      assert DigitsOf(e[4..]) == "00";
      assert DigitsOf(e[3..]) == "000";
      assert DigitsOf(e[2..]) == "000";
      assert DigitsOf(e[1..]) == "7000";
    }
    assert DigitsOf("7000") == "7000" by {
      assert DigitsOf("7000"[1..]) == "000";
    }
    ContainsAt("7000", "7000", 0);
    DigitsOnly("7000", Single(e), 0);
  }
}
