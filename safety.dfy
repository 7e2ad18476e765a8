/** The clinical safety filter of teslamind/safety.py: it finds blocked terms in
    a text, case-insensitively, records each hit with its offsets, optionally
    masks the hits, and optionally raises when anything was found. */
module Safety {
  import opened Results
  import opened Text

  /** One hit: the blocked term as configured and the half-open span
      `[start, end)` it covers in the scanned text. */
  datatype Violation = Violation(term: string, start: nat, end: nat)

  /** What a scan returns. */
  datatype Report = Report(originalText: string, sanitizedText: string, violations: seq<Violation>) {
    /** `SafetyReport.is_clean`: no violation was recorded. */
    predicate IsClean() {
      violations == []
    }
  }

  /** The `ValueError` raised when the filter is configured to raise. */
  datatype ScanError = ValueError(message: string)

  const ViolationMessage := "clinical safety violation detected"

  /** The default `mask_char`, U+2588 FULL BLOCK. */
  const DefaultMaskChar := '\U{2588}'

  // ---------------------------------------------------------------------
  // Substring search

  /** `needle` occurs in `hay` at offset `k`. */
  predicate OccursAt(hay: string, needle: string, k: nat) {
    k + |needle| <= |hay| && hay[k..k + |needle|] == needle
  }

  /** `hay.find(needle, start)`: the least offset at or after `start` where
      `needle` occurs, or -1 when there is none. */
  function Find(hay: string, needle: string, start: nat): (r: int)
    ensures r == -1 || (start <= r && OccursAt(hay, needle, r))
    ensures forall k: nat :: start <= k && (r == -1 || k < r) ==> !OccursAt(hay, needle, k)
    decreases |hay| - start
  {
    if start + |needle| > |hay| then -1
    else if hay[start..start + |needle|] == needle then start
    else Find(hay, needle, start + 1)
  }

  // ---------------------------------------------------------------------
  // The violations a scan records

  /** The hits of one term, found by repeated `find` from `start` on the
      lower-cased text, each search resuming at the end of the previous hit. */
  function TermViolations(term: string, lowered: string, start: nat): (r: seq<Violation>)
    requires term != []
    ensures forall j :: 0 <= j < |r| ==>
      && r[j].term == term
      && start <= r[j].start
      && r[j].end == r[j].start + |term|
      && OccursAt(lowered, Lower(term), r[j].start)
    ensures forall j :: 0 < j < |r| ==> r[j - 1].end <= r[j].start
    decreases |lowered| - start
  {
    var index := Find(lowered, Lower(term), start);
    if index == -1 then []
    else
      var end := index + |term|;
      var rest := TermViolations(term, lowered, end);
      assert forall j :: 0 < j <= |rest| ==> ([Violation(term, index, end)] + rest)[j] == rest[j - 1];
      [Violation(term, index, end)] + rest
  }

  /** The hits one term contributes to a scan: none when its lower-cased
      form is empty (`if not needle: continue`), its greedy hits otherwise. */
  function TermGroup(term: string, lowered: string): (r: seq<Violation>)
    ensures forall v :: v in r ==>
      && v.term == term
      && term != []
      && v.end == v.start + |term|
      && OccursAt(lowered, Lower(term), v.start)
  {
    if Lower(term) == [] then []
    else
      var group := TermViolations(term, lowered, 0);
      assert forall v :: v in group ==> v == group[IndexOf(group, v)];
      group
  }

  /** The violations of all terms, grouped by term in order. */
  function AllViolations(terms: seq<string>, lowered: string): (r: seq<Violation>)
    ensures forall v :: v in r ==>
      && v.term in terms
      && v.term != []
      && v.end == v.start + |v.term|
      && OccursAt(lowered, Lower(v.term), v.start)
    decreases |terms|
  {
    if terms == [] then []
    else AllViolations(terms[..|terms| - 1], lowered) + TermGroup(terms[|terms| - 1], lowered)
  }

  /** A position of `v` in `vs`, a proof device. */
  ghost function IndexOf(vs: seq<Violation>, v: Violation): (j: nat)
    requires v in vs
    ensures j < |vs| && vs[j] == v
  {
    if vs[0] == v then 0 else 1 + IndexOf(vs[1..], v)
  }

  /** Position `k` lies in the span of some violation. */
  predicate Covered(vs: seq<Violation>, k: nat) {
    exists v :: v in vs && v.start <= k < v.end
  }

  /** The text with every covered position replaced by `maskChar`. */
  function Masked(text: string, vs: seq<Violation>, maskChar: char): (r: string) {
    seq(|text|, k requires 0 <= k < |text| => if Covered(vs, k) then maskChar else text[k])
  }

  /** The outcome `ClinicalSafetyFilter.scan` produces for a filter with the
      given configuration. */
  function ScanOutcome(terms: seq<string>, mask: bool, maskChar: char, raiseOnViolation: bool, text: string): (r: Result<Report, ScanError>) {
    var violations := AllViolations(terms, Lower(text));
    var report := Report(text, if mask then Masked(text, violations, maskChar) else text, violations);
    if raiseOnViolation && !report.IsClean() then Failure(ValueError(ViolationMessage))
    else Success(report)
  }

  /** Scanning one more term appends that term's hits. */
  lemma AllViolationsNext(terms: seq<string>, i: nat, lowered: string)
    requires i < |terms|
    ensures AllViolations(terms[..i + 1], lowered) == AllViolations(terms[..i], lowered) + TermGroup(terms[i], lowered)
  {
    assert terms[..i + 1][..i] == terms[..i];
  }

  /** The terms kept at construction: the non-empty ones, in order. */
  function NonEmptyTerms(terms: seq<string>): (r: seq<string>)
    ensures |r| <= |terms|
    ensures forall t :: t in r <==> t in terms && t != []
    decreases |terms|
  {
    if terms == [] then []
    else
      var prefix := NonEmptyTerms(terms[..|terms| - 1]);
      var term := terms[|terms| - 1];
      assert terms == terms[..|terms| - 1] + [term];
      if term == [] then prefix else prefix + [term]
  }

  // ---------------------------------------------------------------------
  // The filter

  /** `ClinicalSafetyFilter`: its configuration is fixed at construction. */
  class ClinicalSafetyFilter {
    const blockedTerms: seq<string>
    const mask: bool
    const maskChar: char
    const raiseOnViolation: bool

    /** Keeps the non-empty blocked terms, in order, and the options. */
    constructor (blockedTerms: seq<string>, mask: bool := false, maskChar: char := DefaultMaskChar, raiseOnViolation: bool := false)
      ensures this.blockedTerms == NonEmptyTerms(blockedTerms)
      ensures this.mask == mask && this.maskChar == maskChar && this.raiseOnViolation == raiseOnViolation
    {
      this.blockedTerms := NonEmptyTerms(blockedTerms);
      this.mask := mask;
      this.maskChar := maskChar;
      this.raiseOnViolation := raiseOnViolation;
    }

    /** `scan`: searches the lower-cased text for each term in turn, records
        every hit, masks it in a character buffer when masking is on, and
        fails with `ValueError` when raising is on and anything was found. */
    method Scan(text: string) returns (r: Result<Report, ScanError>)
      ensures r == ScanOutcome(blockedTerms, mask, maskChar, raiseOnViolation, text)
      ensures r.Failure? <==> raiseOnViolation && AllViolations(blockedTerms, Lower(text)) != []
    {
      var lowered := Lower(text);
      var sanitized := new char[|text|](k requires 0 <= k < |text| => text[k]);
      var violations: seq<Violation> := [];
      assert sanitized[..] == text;
      MaskedNone(text, maskChar);

      for i := 0 to |blockedTerms|
        invariant violations == AllViolations(blockedTerms[..i], lowered)
        invariant sanitized[..] == if mask then Masked(text, violations, maskChar) else text
      {
        var term := blockedTerms[i];
        AllViolationsNext(blockedTerms, i, lowered);
        if Lower(term) == [] {
          assert TermGroup(term, lowered) == [];
          continue;
        }
        assert TermGroup(term, lowered) == TermViolations(term, lowered, 0);
        violations := ScanTerm(term, lowered, text, mask, maskChar, sanitized, violations);
      }

      assert blockedTerms[..|blockedTerms|] == blockedTerms;
      var report := Report(text, sanitized[..], violations);
      if raiseOnViolation && !report.IsClean() {
        r := Failure(ValueError(ViolationMessage));
      } else {
        r := Success(report);
      }
    }
  }

  /** The inner `while True` loop of `scan` for one term: repeated `find`
      from the end of the previous hit, appending each hit and masking it when
      masking is on. */
  method ScanTerm(term: string, lowered: string, text: string, mask: bool, maskChar: char,
                  sanitized: array<char>, violations: seq<Violation>) returns (result: seq<Violation>)
    requires term != [] && |lowered| == |text| == sanitized.Length
    requires sanitized[..] == if mask then Masked(text, violations, maskChar) else text
    modifies sanitized
    ensures result == violations + TermViolations(term, lowered, 0)
    ensures sanitized[..] == if mask then Masked(text, result, maskChar) else text
  {
    var start := 0;
    var needle := Lower(term);
    result := violations;
    while true
      invariant start <= |lowered|
      invariant result + TermViolations(term, lowered, start) == violations + TermViolations(term, lowered, 0)
      invariant sanitized[..] == if mask then Masked(text, result, maskChar) else text
      decreases |lowered| - start
    {
      var index := Find(lowered, needle, start);
      if index == -1 {
        break;
      }
      var end := index + |term|;
      var hit := Violation(term, index, end);
      assert TermViolations(term, lowered, start) == [hit] + TermViolations(term, lowered, end);
      MaskedAppend(text, result, hit, maskChar);
      result := result + [hit];
      if mask {
        MaskSpan(sanitized, index, end, maskChar);
      }
      start := end;
    }
  }

  /** `buffer[start:end] = maskChar * (end - start)` for a one-character
      `maskChar`. */
  method MaskSpan(buffer: array<char>, start: nat, end: nat, maskChar: char)
    requires start <= end <= buffer.Length
    modifies buffer
    ensures buffer[..] == Overwrite(old(buffer[..]), start, end, maskChar)
  {
    for j := start to end
      invariant buffer[..] == Overwrite(old(buffer[..]), start, j, maskChar)
    {
      buffer[j] := maskChar;
    }
  }

  /** `s` with positions `[start, end)` set to `c`. */
  function Overwrite(s: string, start: nat, end: nat, c: char): (r: string) {
    seq(|s|, k requires 0 <= k < |s| => if start <= k < end then c else s[k])
  }

  lemma MaskedNone(text: string, maskChar: char)
    ensures Masked(text, [], maskChar) == text
  {
  }

  /** Masking one more violation overwrites exactly its span. */
  lemma MaskedAppend(text: string, vs: seq<Violation>, v: Violation, maskChar: char)
    ensures Masked(text, vs + [v], maskChar) == Overwrite(Masked(text, vs, maskChar), v.start, v.end, maskChar)
  {
    forall k | 0 <= k < |text| {
      CoveredAppend(vs, v, k);
    }
  }

  lemma CoveredAppend(vs: seq<Violation>, v: Violation, k: nat)
    ensures Covered(vs + [v], k) <==> Covered(vs, k) || v.start <= k < v.end
  {
    if v.start <= k < v.end {
      assert v in vs + [v];
    }
    if Covered(vs, k) {
      var w :| w in vs && w.start <= k < w.end;
      assert w in vs + [v];
    }
  }
}

/** What a scan promises, stated as lemmas about the functions `Scan` is proved
    against. */
module SafetyProperties {
  import opened Results
  import opened Text
  import opened Safety

  /** The start offsets of a list of violations. */
  function Starts(vs: seq<Violation>): (r: seq<nat>)
    ensures |r| == |vs|
    ensures forall j :: 0 <= j < |vs| ==> r[j] == vs[j].start
  {
    seq(|vs|, j requires 0 <= j < |vs| => vs[j].start)
  }

  /** `starts` are the greedy leftmost non-overlapping occurrences of `needle`
      from offset `from` on: each is the first occurrence at or after the end
      of the previous one, and none follows the last. */
  ghost predicate GreedyStarts(lowered: string, needle: string, from: nat, starts: seq<nat>)
    decreases |starts|
  {
    if starts == [] then
      forall k: nat :: from <= k ==> !OccursAt(lowered, needle, k)
    else
      && from <= starts[0]
      && OccursAt(lowered, needle, starts[0])
      && (forall k: nat :: from <= k < starts[0] ==> !OccursAt(lowered, needle, k))
      && GreedyStarts(lowered, needle, starts[0] + |needle|, starts[1..])
  }

  /** Filtering keeps each term where it was: the kept terms of two lists
      joined are the kept terms of the first followed by those of the
      second. */
  lemma {:induction false} NonEmptyTermsAppend(a: seq<string>, b: seq<string>)
    ensures NonEmptyTerms(a + b) == NonEmptyTerms(a) + NonEmptyTerms(b)
    decreases |b|
  {
    if b == [] {
      assert a + b == a;
    } else {
      var front, last := b[..|b| - 1], b[|b| - 1];
      assert (a + b)[..|a + b| - 1] == a + front;
      assert (a + b)[|a + b| - 1] == last;
      NonEmptyTermsAppend(a, front);
      var kept := if last == [] then [] else [last];
      Associative(NonEmptyTerms(a), NonEmptyTerms(front), kept);
    }
  }

  /** A single term is kept exactly when it is non-empty. */
  lemma NonEmptyTermsSingle(t: string)
    ensures NonEmptyTerms([t]) == if t == [] then [] else [t]
  {
    assert [t][..0] == [];
  }

  /** The hits of one term are exactly its greedy occurrences. */
  lemma {:induction false} TermViolationsGreedy(term: string, lowered: string, start: nat)
    requires term != []
    ensures GreedyStarts(lowered, Lower(term), start, Starts(TermViolations(term, lowered, start)))
    decreases |lowered| - start
  {
    var needle := Lower(term);
    var r := TermViolations(term, lowered, start);
    var index := Find(lowered, needle, start);
    if index != -1 {
      var end := index + |term|;
      var rest := TermViolations(term, lowered, end);
      assert r == [Violation(term, index, end)] + rest;
      TermViolationsGreedy(term, lowered, end);
      assert |needle| == |term|;
      assert Starts(r) == [index] + Starts(rest);
    }
  }

  /** There is only one greedy list of occurrences. */
  lemma {:induction false} GreedyUnique(lowered: string, needle: string, from: nat, a: seq<nat>, b: seq<nat>)
    requires needle != []
    requires GreedyStarts(lowered, needle, from, a)
    requires GreedyStarts(lowered, needle, from, b)
    ensures a == b
    decreases |a|
  {
    if a != [] && b != [] && a[0] == b[0] {
      GreedyUnique(lowered, needle, a[0] + |needle|, a[1..], b[1..]);
      assert a == [a[0]] + a[1..] && b == [b[0]] + b[1..];
    }
  }

  /** No occurrence is skipped: every occurrence at or after `start` lies inside
      the span of a recorded hit of the same term (it is that hit, or it
      overlaps an earlier hit). */
  lemma {:induction false} TermViolationsComplete(term: string, lowered: string, start: nat, k: nat)
    requires term != []
    requires start <= k && OccursAt(lowered, Lower(term), k)
    ensures Covered(TermViolations(term, lowered, start), k)
    decreases |lowered| - start
  {
    var r := TermViolations(term, lowered, start);
    var index := Find(lowered, Lower(term), start);
    assert index != -1 && index <= k;
    var end := index + |term|;
    var rest := TermViolations(term, lowered, end);
    assert r == [Violation(term, index, end)] + rest;
    if k < end {
      assert r[0] in r;
    } else {
      TermViolationsComplete(term, lowered, end, k);
      var v :| v in rest && v.start <= k < v.end;
      assert v in r;
    }
  }

  /** The violations of `a + b` are those of `a` followed by those of `b`:
      terms are scanned one after another, each independently of the others. */
  lemma {:induction false} AllViolationsAppend(a: seq<string>, b: seq<string>, lowered: string)
    ensures AllViolations(a + b, lowered) == AllViolations(a, lowered) + AllViolations(b, lowered)
    decreases |b|
  {
    if b == [] {
      assert a + b == a;
    } else {
      var b' := b[..|b| - 1];
      var last := b[|b| - 1];
      calc {
        AllViolations(a + b, lowered);
        { assert (a + b)[..|a + b| - 1] == a + b';
          assert (a + b)[|a + b| - 1] == last; }
        AllViolations(a + b', lowered) + TermGroup(last, lowered);
        { AllViolationsAppend(a, b', lowered); }
        AllViolations(a, lowered) + AllViolations(b', lowered) + TermGroup(last, lowered);
      }
    }
  }

  /** A single non-empty term contributes exactly its own greedy hits. */
  lemma AllViolationsSingle(term: string, lowered: string)
    requires term != []
    ensures AllViolations([term], lowered) == TermViolations(term, lowered, 0)
  {
    assert [term][..0] == [];
  }

  /** The violations are grouped by term, in the order of the terms: those of
      term `i` come after those of every earlier term and before those of
      every later one. */
  lemma ViolationsGroupedByTerm(terms: seq<string>, i: nat, lowered: string)
    requires i < |terms| && terms[i] != []
    ensures AllViolations(terms, lowered)
      == AllViolations(terms[..i], lowered) + TermViolations(terms[i], lowered, 0) + AllViolations(terms[i + 1..], lowered)
  {
    assert terms == terms[..i] + [terms[i]] + terms[i + 1..];
    AllViolationsAppend(terms[..i] + [terms[i]], terms[i + 1..], lowered);
    AllViolationsAppend(terms[..i], [terms[i]], lowered);
    AllViolationsSingle(terms[i], lowered);
  }

  /** Dropping empty terms at construction changes nothing: they can never
      produce a violation. */
  lemma {:induction false} EmptyTermsIrrelevant(terms: seq<string>, lowered: string)
    ensures AllViolations(NonEmptyTerms(terms), lowered) == AllViolations(terms, lowered)
    decreases |terms|
  {
    if terms != [] {
      var prefix := terms[..|terms| - 1];
      var term := terms[|terms| - 1];
      EmptyTermsIrrelevant(prefix, lowered);
      if term != [] {
        AllViolationsAppend(NonEmptyTerms(prefix), [term], lowered);
        assert [term][..0] == [];
      }
    }
  }

  /** Every violation lies inside the text, spans exactly its term, and the
      lower-cased text there equals the lower-cased term. */
  lemma ViolationBounds(terms: seq<string>, text: string, v: Violation)
    requires v in AllViolations(terms, Lower(text))
    ensures v.term in terms && v.term != []
    ensures v.start < v.end == v.start + |v.term| <= |text|
    ensures Lower(text)[v.start..v.end] == Lower(v.term)
  {
  }

  /** Within one term the hits strictly increase and never overlap. */
  lemma TermViolationsOrdered(term: string, lowered: string, j: nat, j': nat)
    requires term != []
    requires j < j' < |TermViolations(term, lowered, 0)|
    ensures TermViolations(term, lowered, 0)[j].end <= TermViolations(term, lowered, 0)[j'].start
    ensures TermViolations(term, lowered, 0)[j].start < TermViolations(term, lowered, 0)[j'].start
    decreases j' - j
  {
    if j' > j + 1 {
      TermViolationsOrdered(term, lowered, j, j' - 1);
    }
  }

  /** Every occurrence of every non-empty blocked term in the lower-cased
      original text is inside a recorded hit of that term, even where it
      overlaps a hit of another term. */
  lemma EveryOccurrenceRecorded(terms: seq<string>, text: string, i: nat, k: nat)
    requires i < |terms| && terms[i] != []
    requires OccursAt(Lower(text), Lower(terms[i]), k)
    ensures exists v :: v in AllViolations(terms, Lower(text)) && v.term == terms[i] && v.start <= k < v.end
  {
    var lowered := Lower(text);
    ViolationsGroupedByTerm(terms, i, lowered);
    TermViolationsComplete(terms[i], lowered, 0, k);
    var group := TermViolations(terms[i], lowered, 0);
    var v :| v in group && v.start <= k < v.end;
    assert v in AllViolations(terms, lowered);
  }

  /** The report a scan returns, or raises in place of. */
  function ReportOf(terms: seq<string>, mask: bool, maskChar: char, text: string): (r: Report) {
    ScanOutcome(terms, mask, maskChar, false, text).value
  }

  /** Raising happens exactly when the report would not be clean; otherwise
      the report is returned. */
  lemma RaiseExactlyWhenUnclean(terms: seq<string>, mask: bool, maskChar: char, raiseOnViolation: bool, text: string)
    ensures ScanOutcome(terms, mask, maskChar, raiseOnViolation, text).Failure?
      <==> raiseOnViolation && !ReportOf(terms, mask, maskChar, text).IsClean()
    ensures ScanOutcome(terms, mask, maskChar, raiseOnViolation, text).Success? ==>
      ScanOutcome(terms, mask, maskChar, raiseOnViolation, text).value == ReportOf(terms, mask, maskChar, text)
    ensures ReportOf(terms, mask, maskChar, text).IsClean() <==> AllViolations(terms, Lower(text)) == []
  {
  }

  /** Without masking the text comes back unchanged. */
  lemma UnmaskedKeepsText(terms: seq<string>, maskChar: char, text: string)
    ensures ReportOf(terms, false, maskChar, text).sanitizedText == text
    ensures ReportOf(terms, false, maskChar, text).originalText == text
  {
  }

  /** With masking, the text keeps its length, every position inside a
      violation becomes the mask character, and every other position is left
      as it was. Which violations are recorded does not depend on masking. */
  lemma MaskingSpec(terms: seq<string>, maskChar: char, text: string)
    ensures |ReportOf(terms, true, maskChar, text).sanitizedText| == |text|
    ensures forall k :: 0 <= k < |text| && Covered(AllViolations(terms, Lower(text)), k) ==>
      ReportOf(terms, true, maskChar, text).sanitizedText[k] == maskChar
    ensures forall k :: 0 <= k < |text| && !Covered(AllViolations(terms, Lower(text)), k) ==>
      ReportOf(terms, true, maskChar, text).sanitizedText[k] == text[k]
    ensures ReportOf(terms, true, maskChar, text).violations == ReportOf(terms, false, maskChar, text).violations
  {
  }

  /** The mask character, lower-cased, occurs in none of the lower-cased terms. */
  predicate MaskCharOutsideTerms(terms: seq<string>, maskChar: char) {
    forall t :: t in terms ==> LowerChar(maskChar) !in Lower(t)
  }

  /** With masking, the sanitised text contains no case-insensitive
      occurrence of any blocked term, provided the mask character cannot be
      part of one. */
  lemma MaskedTextHasNoTerm(terms: seq<string>, maskChar: char, text: string, i: nat, k: nat)
    requires i < |terms| && terms[i] != []
    requires MaskCharOutsideTerms(terms, maskChar)
    ensures !OccursAt(Lower(ReportOf(terms, true, maskChar, text).sanitizedText), Lower(terms[i]), k)
  {
    var vs := AllViolations(terms, Lower(text));
    var s := Masked(text, vs, maskChar);
    var needle := Lower(terms[i]);
    assert terms[i] in terms;
    if OccursAt(Lower(s), needle, k) {
      forall p | k <= p < k + |needle| ensures Lower(text)[p] == needle[p - k] && !Covered(vs, p) {
        assert Lower(s)[p] == needle[p - k];
      }
      assert OccursAt(Lower(text), needle, k);
      EveryOccurrenceRecorded(terms, text, i, k);
      assert Covered(vs, k);
      assert false;
    }
  }

  /** With no occurrence of any term, nothing is recorded. */
  lemma {:induction false} NoOccurrenceNoViolation(terms: seq<string>, lowered: string)
    requires forall i, k: nat :: 0 <= i < |terms| && terms[i] != [] ==> !OccursAt(lowered, Lower(terms[i]), k)
    ensures AllViolations(terms, lowered) == []
    decreases |terms|
  {
    if terms != [] {
      var prefix := terms[..|terms| - 1];
      forall i, k: nat | 0 <= i < |prefix| && prefix[i] != [] ensures !OccursAt(lowered, Lower(prefix[i]), k) {
        assert prefix[i] == terms[i];
      }
      NoOccurrenceNoViolation(prefix, lowered);
      var term := terms[|terms| - 1];
      if term != [] {
        assert Find(lowered, Lower(term), 0) == -1;
      }
    }
  }

  /** Scanning the masked text again with the same terms finds nothing. */
  lemma RescanIsClean(terms: seq<string>, maskChar: char, text: string)
    requires MaskCharOutsideTerms(terms, maskChar)
    ensures AllViolations(terms, Lower(ReportOf(terms, true, maskChar, text).sanitizedText)) == []
  {
    var s := ReportOf(terms, true, maskChar, text).sanitizedText;
    forall i, k: nat | 0 <= i < |terms| && terms[i] != [] ensures !OccursAt(Lower(s), Lower(terms[i]), k) {
      MaskedTextHasNoTerm(terms, maskChar, text, i, k);
    }
    NoOccurrenceNoViolation(terms, Lower(s));
  }

  /** Hits of different terms may overlap; both are recorded. */
  lemma OverlappingTermsBothRecorded()
    ensures AllViolations(["ab", "bc"], Lower("xABc")) == [Violation("ab", 1, 3), Violation("bc", 2, 4)]
  {
    var lowered := Lower("xABc");
    assert lowered == "xabc";
    FirstOverlappingTerm();
    SecondOverlappingTerm();
    assert ["ab", "bc"][..1] == ["ab"];
    AllViolationsSingle("ab", lowered);
  }

  /** The hits of "ab" in "xabc". */
  lemma FirstOverlappingTerm()
    ensures TermGroup("ab", "xabc") == [Violation("ab", 1, 3)]
  {
    var lowered := "xabc";
    assert Lower("ab") == "ab";
    assert Find(lowered, "ab", 0) == 1 by {
      assert lowered[0..2][0] == 'x';
      assert lowered[1..3] == "ab";
    }
    assert Find(lowered, "ab", 3) == -1;
  }

  /** The hits of "bc" in "xabc". */
  lemma SecondOverlappingTerm()
    ensures TermGroup("bc", "xabc") == [Violation("bc", 2, 4)]
  {
    var lowered := "xabc";
    assert Lower("bc") == "bc";
    assert Find(lowered, "bc", 0) == 2 by {
      assert lowered[0..2][0] == 'x';
      assert lowered[1..3][0] == 'a';
      assert lowered[2..4] == "bc";
    }
    assert Find(lowered, "bc", 4) == -1;
  }
}
