/** `slugify` of teslamind/utils/strings.py:
    `re.sub(r"\W+", "-", text).strip("-").lower()`, with `\w` taken as the
    ASCII word characters. */
module Slugs {
  import opened Text

  /** `\w` on ASCII: a letter, a digit or the underscore. */
  predicate IsWordChar(c: char) {
    'a' <= c <= 'z' || 'A' <= c <= 'Z' || '0' <= c <= '9' || c == '_'
  }

  predicate IsDash(c: char) {
    c == '-'
  }

  /** A character a slug may contain: a lower-case word character or `-`. */
  predicate IsSlugChar(c: char) {
    'a' <= c <= 'z' || '0' <= c <= '9' || c == '_' || c == '-'
  }

  predicate NoDoubleDash(s: string) {
    forall k :: 0 <= k < |s| - 1 ==> !(s[k] == '-' && s[k + 1] == '-')
  }

  /** The word characters of `s`, in order. */
  function WordChars(s: string): (r: string)
    decreases |s|
  {
    if s == [] then [] else (if IsWordChar(s[0]) then [s[0]] else []) + WordChars(s[1..])
  }

  /** `s` without its `-` characters. */
  function RemoveDashes(s: string): (r: string)
    decreases |s|
  {
    if s == [] then [] else (if s[0] == '-' then [] else [s[0]]) + RemoveDashes(s[1..])
  }

  /** The length of the run of non-word characters that `s` starts with. */
  function GapEnd(s: string): (n: nat)
    ensures n <= |s|
    ensures forall k :: 0 <= k < n ==> !IsWordChar(s[k])
    ensures n < |s| ==> IsWordChar(s[n])
    decreases |s|
  {
    if s == [] || IsWordChar(s[0]) then 0 else 1 + GapEnd(s[1..])
  }

  lemma GapEndUnique(s: string, n: nat)
    requires n <= |s|
    requires forall k :: 0 <= k < n ==> !IsWordChar(s[k])
    requires n < |s| ==> IsWordChar(s[n])
    ensures GapEnd(s) == n
  {
  }

  /** `re.sub(r"\W+", "-", s)`: each maximal run of non-word characters becomes
      one `-`; word characters are kept. */
  function CollapseNonWord(s: string): (r: string)
    decreases |s|
  {
    if s == [] then []
    else if IsWordChar(s[0]) then [s[0]] + CollapseNonWord(s[1..])
    else "-" + CollapseNonWord(s[GapEnd(s)..])
  }

  /** The substitution leaves only word characters and single dashes, keeps
      the first character when it is a word character, is empty only for the
      empty text, and keeps every word character in order. */
  lemma {:induction false} CollapseNonWordSpec(s: string)
    ensures var r := CollapseNonWord(s);
      && (forall k :: 0 <= k < |r| ==> IsWordChar(r[k]) || r[k] == '-')
      && NoDoubleDash(r)
      && (s != [] && IsWordChar(s[0]) ==> r != [] && r[0] == s[0])
      && (s != [] ==> r != [])
      && RemoveDashes(r) == WordChars(s)
    decreases |s|
  {
    if s == [] {
    } else if IsWordChar(s[0]) {
      var rest := CollapseNonWord(s[1..]);
      assert CollapseNonWord(s) == [s[0]] + rest;
      CollapseNonWordSpec(s[1..]);
      assert RemoveDashes([s[0]] + rest) == [s[0]] + RemoveDashes(rest) by {
        assert ([s[0]] + rest)[1..] == rest;
      }
    } else {
      var n := GapEnd(s);
      var rest := CollapseNonWord(s[n..]);
      assert CollapseNonWord(s) == "-" + rest;
      CollapseNonWordSpec(s[n..]);
      assert RemoveDashes("-" + rest) == RemoveDashes(rest) by {
        assert ("-" + rest)[1..] == rest;
      }
      NonWordPrefix(s, n);
    }
  }

  /** `slugify`. */
  function Slugify(text: string): (r: string) {
    Lower(StripWhere(CollapseNonWord(text), IsDash))
  }

  /** Skipping a run of non-word characters skips no word character. */
  lemma {:induction false} NonWordPrefix(s: string, n: nat)
    requires n <= |s|
    requires forall k :: 0 <= k < n ==> !IsWordChar(s[k])
    ensures WordChars(s) == WordChars(s[n..])
    decreases n
  {
    if n > 0 {
      NonWordPrefix(s[1..], n - 1);
      assert s[1..][n - 1..] == s[n..];
    }
  }

  lemma {:induction false} RemoveDashesAppend(a: string, b: string)
    ensures RemoveDashes(a + b) == RemoveDashes(a) + RemoveDashes(b)
    decreases |a|
  {
    if a == [] {
      assert a + b == b;
    } else {
      assert (a + b)[1..] == a[1..] + b;
      RemoveDashesAppend(a[1..], b);
    }
  }

  lemma {:induction false} RemoveDashesOfDashes(s: string)
    requires forall k :: 0 <= k < |s| ==> s[k] == '-'
    ensures RemoveDashes(s) == []
    decreases |s|
  {
    if s != [] {
      RemoveDashesOfDashes(s[1..]);
    }
  }

  lemma {:induction false} RemoveDashesLower(s: string)
    ensures RemoveDashes(Lower(s)) == Lower(RemoveDashes(s))
    decreases |s|
  {
    if s != [] {
      assert Lower(s)[1..] == Lower(s[1..]);
      RemoveDashesLower(s[1..]);
      LowerAppend(if s[0] == '-' then [] else [s[0]], RemoveDashes(s[1..]));
    }
  }

  /** A slug: only slug characters, no `-` at either end, no two `-` in a row. */
  predicate IsSlug(s: string) {
    && (forall k :: 0 <= k < |s| ==> IsSlugChar(s[k]))
    && (s == [] || (s[0] != '-' && s[|s| - 1] != '-'))
    && NoDoubleDash(s)
  }

  /** Stripping dashes from the substituted text keeps its shape and its
      non-dash characters. */
  lemma StripDashes(c: string)
    requires forall k :: 0 <= k < |c| ==> IsWordChar(c[k]) || c[k] == '-'
    requires NoDoubleDash(c)
    ensures var r := StripWhere(c, IsDash);
      && (forall k :: 0 <= k < |r| ==> IsWordChar(r[k]) || r[k] == '-')
      && NoDoubleDash(r)
      && RemoveDashes(r) == RemoveDashes(c)
  {
    var stripped := StripWhere(c, IsDash);
    var i := Leading(c, IsDash);
    var j := i + |stripped|;
    assert stripped == c[i..j];
    var front, back := c[..i], c[j..];
    forall k | 0 <= k < |stripped| ensures IsWordChar(stripped[k]) || stripped[k] == '-' {
      assert stripped[k] == c[i + k];
    }
    forall k | 0 <= k < |stripped| - 1 ensures !(stripped[k] == '-' && stripped[k + 1] == '-') {
      assert stripped[k] == c[i + k] && stripped[k + 1] == c[i + k + 1];
    }
    forall k | 0 <= k < |front| ensures front[k] == '-' {
      assert IsDash(c[k]);
    }
    forall k | 0 <= k < |back| ensures back[k] == '-' {
      assert IsDash(c[j + k]);
    }
    assert c == front + stripped + back;
    RemoveDashesAppend(front + stripped, back);
    RemoveDashesAppend(front, stripped);
    RemoveDashesOfDashes(front);
    RemoveDashesOfDashes(back);
  }

  /** Lower-casing turns word characters and dashes into slug characters and
      keeps the dashes where they are. */
  lemma LowerKeepsShape(s: string)
    requires forall k :: 0 <= k < |s| ==> IsWordChar(s[k]) || s[k] == '-'
    requires NoDoubleDash(s)
    requires s == [] || (s[0] != '-' && s[|s| - 1] != '-')
    ensures IsSlug(Lower(s))
  {
    var r := Lower(s);
    assert forall k :: 0 <= k < |s| ==> (r[k] == '-' <==> s[k] == '-');
  }

  /** What `slugify` returns is a slug, and deleting its dashes gives the word
      characters of the input, in order, lower-cased. */
  lemma SlugifySpec(text: string)
    ensures IsSlug(Slugify(text))
    ensures RemoveDashes(Slugify(text)) == Lower(WordChars(text))
  {
    var c := CollapseNonWord(text);
    var stripped := StripWhere(c, IsDash);
    CollapseNonWordSpec(text);
    StripDashes(c);
    LowerKeepsShape(stripped);
    RemoveDashesLower(stripped);
  }

  /** A slug has no non-word run other than single dashes, so the substitution
      leaves it alone. */
  lemma {:induction false} CollapseSlug(s: string)
    requires forall k :: 0 <= k < |s| ==> IsWordChar(s[k]) || s[k] == '-'
    requires NoDoubleDash(s)
    ensures CollapseNonWord(s) == s
    decreases |s|
  {
    if s != [] {
      if IsWordChar(s[0]) {
        CollapseSlug(s[1..]);
        assert s == [s[0]] + s[1..];
      } else {
        GapEndUnique(s, 1);
        CollapseSlug(s[1..]);
        assert s == "-" + s[1..];
      }
    }
  }

  /** `slugify` is idempotent. */
  lemma SlugifyIdempotent(text: string)
    ensures Slugify(Slugify(text)) == Slugify(text)
  {
    var s := Slugify(text);
    SlugifySpec(text);
    CollapseSlug(s);
    StripWhereNoEdges(s, IsDash);
    assert Lower(s) == s;
  }

  /** The length of the run of word characters that `s` starts with. */
  function RunEnd(s: string): (n: nat)
    ensures n <= |s|
    ensures forall k :: 0 <= k < n ==> IsWordChar(s[k])
    ensures n < |s| ==> !IsWordChar(s[n])
    decreases |s|
  {
    if s == [] || !IsWordChar(s[0]) then 0 else 1 + RunEnd(s[1..])
  }

  /** The maximal runs of word characters of `s`, in order: what `\W+`
      separates. */
  function WordRuns(s: string): (r: seq<string>)
    ensures forall w :: w in r ==> w != [] && forall k :: 0 <= k < |w| ==> IsWordChar(w[k])
    decreases |s|
  {
    if s == [] then []
    else if !IsWordChar(s[0]) then WordRuns(s[1..])
    else
      var n := RunEnd(s);
      [s[..n]] + WordRuns(s[n..])
  }

  /** Each string lower-cased. */
  function LowerAll(ws: seq<string>): (r: seq<string>)
    ensures |r| == |ws|
  {
    seq(|ws|, i requires 0 <= i < |ws| => Lower(ws[i]))
  }

  /** A leading word character is kept. */
  lemma CollapseWordHead(s: string)
    requires s != [] && IsWordChar(s[0])
    ensures CollapseNonWord(s) == [s[0]] + CollapseNonWord(s[1..])
  {
  }

  /** A run of word characters passes through the substitution unchanged. */
  lemma {:induction false} CollapseRun(s: string, n: nat)
    requires n <= |s|
    requires forall k :: 0 <= k < n ==> IsWordChar(s[k])
    ensures CollapseNonWord(s) == s[..n] + CollapseNonWord(s[n..])
    decreases n
  {
    if n > 0 {
      CollapseWordHead(s);
      CollapseRun(s[1..], n - 1);
      assert s[1..][n - 1..] == s[n..];
      assert s[..n] == [s[0]] + s[1..][..n - 1];
    }
  }

  /** Non-word characters at the front of a text add no run. */
  lemma {:induction false} WordRunsGap(s: string, n: nat)
    requires n <= |s|
    requires forall k :: 0 <= k < n ==> !IsWordChar(s[k])
    ensures WordRuns(s) == WordRuns(s[n..])
    decreases n
  {
    if n > 0 {
      WordRunsGap(s[1..], n - 1);
      assert s[1..][n - 1..] == s[n..];
    }
  }

  /** What the runs of a text come to, once non-word characters at its front
      are dropped. */
  lemma JoinRunsGap(s: string, n: nat)
    requires n == GapEnd(s)
    ensures JoinWith(WordRuns(s), "-") == JoinWith(WordRuns(s[n..]), "-")
    ensures WordRuns(s) == [] <==> WordRuns(s[n..]) == []
  {
    WordRunsGap(s, n);
  }

  /** A text without runs has no word character. */
  lemma {:induction false} NoRunsNoWordChars(s: string)
    requires WordRuns(s) == []
    ensures forall k :: 0 <= k < |s| ==> !IsWordChar(s[k])
    decreases |s|
  {
    if s != [] {
      NoRunsNoWordChars(s[1..]);
      assert forall k :: 1 <= k < |s| ==> s[k] == s[1..][k - 1];
    }
  }

  /** `-` when `s` starts with a non-word character. */
  function LeadDash(s: string): (r: string) {
    if s != [] && !IsWordChar(s[0]) then "-" else ""
  }

  /** `-` when `s` ends with a non-word character that follows some run. */
  function TrailDash(s: string): (r: string) {
    if s != [] && !IsWordChar(s[|s| - 1]) && WordRuns(s) != [] then "-" else ""
  }

  /** Two texts ending alike, with or without runs alike, end alike after the
      substitution. */
  lemma TrailDashSame(s: string, rest: string)
    requires s != [] && rest != [] && s[|s| - 1] == rest[|rest| - 1]
    requires (WordRuns(s) == []) == (WordRuns(rest) == [])
    ensures TrailDash(s) == TrailDash(rest)
  {
  }

  /** The substitution joins the runs with `-`, plus a `-` for a non-word
      edge at either end. */
  lemma {:induction false} CollapseShape(s: string)
    ensures CollapseNonWord(s) == LeadDash(s) + JoinWith(WordRuns(s), "-") + TrailDash(s)
    decreases |s|
  {
    if s == [] {
    } else if IsWordChar(s[0]) {
      var n := RunEnd(s);
      CollapseShape(s[n..]);
      ShapeAfterRun(s, n);
    } else {
      var n := GapEnd(s);
      CollapseShape(s[n..]);
      ShapeAfterGap(s, n);
    }
  }

  /** The step of `CollapseShape` over a leading run of word characters. */
  lemma ShapeAfterRun(s: string, n: nat)
    requires s != [] && IsWordChar(s[0]) && n == RunEnd(s)
    requires var rest := s[n..];
      CollapseNonWord(rest) == LeadDash(rest) + JoinWith(WordRuns(rest), "-") + TrailDash(rest)
    ensures CollapseNonWord(s) == LeadDash(s) + JoinWith(WordRuns(s), "-") + TrailDash(s)
  {
    var run, rest := s[..n], s[n..];
    var runs := WordRuns(rest);
    var tail := JoinWith(runs, "-");
    CollapseRun(s, n);
    assert WordRuns(s) == [run] + runs;
    assert LeadDash(s) == "";
    if rest == [] {
      assert s[|s| - 1] == run[n - 1];
      assert TrailDash(s) == "";
      assert CollapseNonWord(rest) == [];
      assert JoinWith(WordRuns(s), "-") == run;
      Glue(CollapseNonWord(s), run, CollapseNonWord(rest), "", "", "", "", run);
    } else {
      assert s[|s| - 1] == rest[|rest| - 1];
      assert rest[0] == s[n];
      assert LeadDash(rest) == "-";
      if runs == [] {
        NoRunsNoWordChars(rest);
        assert TrailDash(s) == "-" && TrailDash(rest) == "";
        assert JoinWith(WordRuns(s), "-") == run;
        Glue(CollapseNonWord(s), run, CollapseNonWord(rest), "-", "", "-", "", run);
      } else {
        TrailDashSame(s, rest);
        JoinWithCons(run, runs, "-");
        Glue(CollapseNonWord(s), run, CollapseNonWord(rest), "-", tail,
          TrailDash(s), TrailDash(rest), run + "-" + tail);
      }
    }
  }

  /** The string algebra that closes `ShapeAfterRun`. */
  lemma Glue(cs: string, run: string, c: string, lead: string, tail: string,
             t: string, tr: string, joined: string)
    requires cs == run + c
    requires c == lead + tail + tr
    requires (lead == "" && tail == "" && tr == "" && t == "" && joined == run)
          || (lead == "-" && tail == "" && tr == "" && t == "-" && joined == run)
          || (lead == "-" && tr == t && joined == run + "-" + tail)
    ensures cs == "" + joined + t
  {
    Associative(run, "-" + tail, t);
    Associative(run, "-", tail);
  }

  /** The step of `CollapseShape` over a leading run of non-word characters. */
  lemma ShapeAfterGap(s: string, n: nat)
    requires s != [] && !IsWordChar(s[0]) && n == GapEnd(s)
    requires var rest := s[n..];
      CollapseNonWord(rest) == LeadDash(rest) + JoinWith(WordRuns(rest), "-") + TrailDash(rest)
    ensures CollapseNonWord(s) == LeadDash(s) + JoinWith(WordRuns(s), "-") + TrailDash(s)
  {
    var rest := s[n..];
    JoinRunsGap(s, n);
    TrailDashGap(s, n);
    assert LeadDash(rest) == "";
    assert CollapseNonWord(s) == "-" + CollapseNonWord(rest);
    assert LeadDash(s) == "-";
    GapGlue(CollapseNonWord(s), CollapseNonWord(rest), LeadDash(s), LeadDash(rest),
      JoinWith(WordRuns(rest), "-"), JoinWith(WordRuns(s), "-"), TrailDash(rest), TrailDash(s));
  }

  /** The string algebra that closes `ShapeAfterGap`. */
  lemma GapGlue(cs: string, crest: string, lead: string, leadRest: string,
                j: string, j2: string, t: string, t2: string)
    requires cs == "-" + crest && crest == leadRest + j + t
    requires leadRest == "" && lead == "-" && j2 == j && t2 == t
    ensures cs == lead + j2 + t2
  {
    Associative("-", j, t);
  }

  /** Non-word characters at the front of a text do not change its trailing
      dash. */
  lemma TrailDashGap(s: string, n: nat)
    requires n == GapEnd(s)
    ensures TrailDash(s) == TrailDash(s[n..])
  {
    var rest := s[n..];
    JoinRunsGap(s, n);
    if rest != [] {
      assert s[|s| - 1] == rest[|rest| - 1];
      TrailDashSame(s, rest);
    } else {
      assert WordRuns(rest) == [];
    }
  }

  /** The runs joined with `-` neither start nor end with `-`. */
  lemma JoinRunsEdges(ws: seq<string>)
    requires forall w :: w in ws ==> w != [] && forall k :: 0 <= k < |w| ==> IsWordChar(w[k])
    ensures var j := JoinWith(ws, "-");
      && (ws == [] <==> j == [])
      && (j == [] || (IsWordChar(j[0]) && IsWordChar(j[|j| - 1])))
  {
    if ws != [] {
      JoinWithEnds(ws, "-");
      var j := JoinWith(ws, "-");
      var first, last := ws[0], ws[|ws| - 1];
      assert first in ws && last in ws;
      assert j[0] == j[..|first|][0] == first[0];
      assert j[|j| - 1] == j[|j| - |last|..][|last| - 1] == last[|last| - 1];
    }
  }

  /** Lower-casing the joined runs lower-cases each run. */
  lemma {:induction false} LowerJoin(ws: seq<string>)
    ensures Lower(JoinWith(ws, "-")) == JoinWith(LowerAll(ws), "-")
    decreases |ws|
  {
    if |ws| > 1 {
      LowerJoin(ws[1..]);
      LowerAppend(ws[0] + "-", JoinWith(ws[1..], "-"));
      LowerAppend(ws[0], "-");
      assert LowerAll(ws)[1..] == LowerAll(ws[1..]);
    }
  }

  /** `slugify`: the maximal runs of word characters of the input,
      lower-cased, joined by single dashes. */
  lemma SlugifyRuns(text: string)
    ensures Slugify(text) == JoinWith(LowerAll(WordRuns(text)), "-")
  {
    var runs := WordRuns(text);
    var j := JoinWith(runs, "-");
    CollapseShape(text);
    JoinRunsEdges(runs);
    StripWhereFrame(LeadDash(text), j, TrailDash(text), IsDash);
    LowerJoin(runs);
  }

  /** Splitting a slug at its dashes gives back the input's word runs,
      lower-cased; the slug is empty exactly when there is no run. */
  lemma SlugifySplit(text: string)
    ensures WordRuns(text) == [] <==> Slugify(text) == []
    ensures WordRuns(text) != [] ==> Split(Slugify(text), '-') == LowerAll(WordRuns(text))
  {
    var runs := WordRuns(text);
    var lowered := LowerAll(runs);
    SlugifyRuns(text);
    JoinRunsEdges(runs);
    LowerJoin(runs);
    if runs != [] {
      forall piece | piece in lowered ensures '-' !in piece {
        var i :| 0 <= i < |lowered| && lowered[i] == piece;
        assert runs[i] in runs;
        assert forall k :: 0 <= k < |piece| ==> piece[k] == LowerChar(runs[i][k]);
      }
      SplitJoin(lowered, '-');
    }
  }
}
