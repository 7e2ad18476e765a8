/** Prompt modes of teslamind/modes/catalog.py: a mode wraps a task in its
    tagline and lists its style commitments. */
module Modes {
  import opened Results
  import opened Text

  /** A stylistic prompt mode. */
  datatype Mode = Mode(slug: string, title: string, description: string, voice: string,
                       prefix: string, commitments: seq<string>)
  {
    /** `Mode.apply`: the prefix, one space, the task with its whitespace
        normalised, then the commitments as a bullet list when there are any. */
    function Apply(task: string): (r: string) {
      var prompt := prefix + " " + NormalizeSpaces(task);
      if commitments == [] then prompt
      else prompt + "\n\n" + CommitmentsHeader + "\n" + JoinWith(Bullets(commitments), "\n")
    }

    /** The lines `Mode.summary` joins. */
    function SummaryLines(): (r: seq<string>) {
      [title, "", description, "", "Voice: " + voice]
        + (if commitments == [] then [] else [CommitmentsHeader] + Bullets(commitments))
    }

    /** `Mode.summary`. */
    function Summary(): (r: string) {
      JoinWith(SummaryLines(), "\n")
    }
  }

  /** The line that introduces the commitments, in `apply` and `summary`. */
  const CommitmentsHeader := "Style commitments:"

  /** `"- " + item` for each item, in order. */
  function Bullets(items: seq<string>): (r: seq<string>)
    ensures |r| == |items|
    ensures forall i :: 0 <= i < |items| ==> r[i] == "- " + items[i]
  {
    seq(|items|, i requires 0 <= i < |items| => "- " + items[i])
  }

  /** `_MODE_CATALOG`, in definition order. */
  const ModeCatalog: seq<(string, Mode)> := [
    ("energy", EnergyMode),
    ("patent", PatentMode),
    ("invention", InventionMode),
    ("visionary", VisionaryMode),
    ("hyperscience", HyperscienceMode),
    ("coop", CoopMode)
  ]

  const EnergyMode: Mode := Mode(
    "energy", "Energy Mode",
    "Enthusiastic, action-focused output for rapid execution.",
    "High-voltage direction with decisive verbs and measurable wins.",
    "[Energy Mode]",
    ["Lead with momentum and clearly defined next steps.",
     "Quantify energetic impact and efficiency gains whenever possible.",
     "Translate insights into execution-ready checklists."])

  const PatentMode: Mode := Mode(
    "patent", "Patent Mode",
    "Formal technical tone suited for defensible disclosures.",
    "Precise, reference-heavy prose with legal-ready clarity.",
    "[Patent Mode]",
    ["Define claims, embodiments, and novelty explicitly.",
     "Cite supporting mechanisms and instrumentation rigorously.",
     "Flag prior art considerations and validation evidence."])

  const InventionMode: Mode := Mode(
    "invention", "Invention Mode",
    "Divergent brainstorming channeling Tesla's experimental flair.",
    "Playful but technical ideation with rapid prototyping hooks.",
    "[Invention Mode]",
    ["Surface multiple concept variations with feasibility signals.",
     "Propose instrumentation or experiments for each leap.",
     "Highlight risks and possible adjacent breakthroughs."])

  const VisionaryMode: Mode := Mode(
    "visionary", "Visionary Mode",
    "Futuristic narratives that align bold visions with delivery.",
    "Inspiring storytelling grounded in systems thinking.",
    "[Visionary Mode]",
    ["Connect present decisions to long-horizon outcomes.",
     "Balance inspiration with credible technical scaffolding.",
     "Surface societal or ecosystem-level reverberations."])

  const HyperscienceMode: Mode := Mode(
    "hyperscience", "Hyperscience Mode",
    "Deep scientific exposition for complex phenomena.",
    "Lab-grade precision with references to theory and experiment.",
    "[Hyperscience Mode]",
    ["Explain mechanisms with stepwise derivations or models.",
     "Call out measurement apparatus, tolerances, and assumptions.",
     "Contrast competing hypotheses and justify chosen approaches."])

  const CoopMode: Mode := Mode(
    "coop", "Cooperative Mode",
    "Collaborative tone optimized for cross-functional teams.",
    "Inclusive facilitation that keeps stakeholders aligned.",
    "[Cooperative Mode]",
    ["Invite feedback loops and surface shared objectives.",
     "Map decision points to accountable owners and timelines.",
     "Celebrate progress while identifying support requests."])

  /** `list_modes`: the catalog's modes in definition order. */
  function ListModes(): (r: seq<Mode>) {
    Values(ModeCatalog)
  }

  /** The lookup key `get_mode` derives from a slug: lower-cased, spaces
      replaced by `-`. */
  function NormalizeModeSlug(slug: string): (r: string) {
    ReplaceChar(Lower(slug), ' ', '-')
  }

  /** `get_mode`: the mode stored under the normalised slug, or `KeyError`
      naming the slug as given and the known slugs. */
  function GetMode(slug: string): (r: Result<Mode, LookupError>)
    ensures r.Success? <==> NormalizeModeSlug(slug) in Keys(ModeCatalog)
    ensures r.Success? ==> r.value.slug == NormalizeModeSlug(slug) && r.value in ListModes()
    ensures r.Failure? ==>
      r.error.message == "Unknown mode '" + slug + "'. Known modes: " + JoinWith(Keys(ModeCatalog), ", ")
  {
    var key := NormalizeModeSlug(slug);
    LookupFound(ModeCatalog, key);
    match Lookup(ModeCatalog, key)
    case Some(mode) =>
      CatalogWellFormed();
      Success(mode)
    case None =>
      Failure(KeyError("Unknown mode '" + slug + "'. Known modes: " + JoinWith(Keys(ModeCatalog), ", ")))
  }

  /** Each catalog entry's slug is its key, keys are distinct, and keys are
      already normalised. */
  lemma CatalogWellFormed()
    ensures forall i :: 0 <= i < |ModeCatalog| ==> ModeCatalog[i].1.slug == ModeCatalog[i].0
    ensures forall i, j :: 0 <= i < j < |ModeCatalog| ==> ModeCatalog[i].0 != ModeCatalog[j].0
    ensures forall i :: 0 <= i < |ModeCatalog| ==> NormalizeModeSlug(ModeCatalog[i].0) == ModeCatalog[i].0
  {
    forall i | 0 <= i < |ModeCatalog| ensures NormalizeModeSlug(ModeCatalog[i].0) == ModeCatalog[i].0 {
      var key := ModeCatalog[i].0;
      assert forall k :: 0 <= k < |key| ==> 'a' <= key[k] <= 'z';
    }
  }

  // ---------------------------------------------------------------------
  // Properties

  /** No line break in the prefix or in any commitment. */
  predicate SingleLineFields(m: Mode) {
    && '\n' !in m.prefix
    && forall c :: c in m.commitments ==> '\n' !in c
  }

  /** `Bullets` of single-line items are single lines. */
  lemma BulletsSingleLine(items: seq<string>)
    requires forall c :: c in items ==> '\n' !in c
    ensures forall b :: b in Bullets(items) ==> '\n' !in b
  {
    forall b | b in Bullets(items) ensures '\n' !in b {
      var i :| 0 <= i < |items| && Bullets(items)[i] == b;
      assert items[i] in items;
    }
  }

  /** The normalised task never holds a line break. */
  lemma NormalizedSingleLine(task: string)
    ensures '\n' !in NormalizeSpaces(task)
  {
    NormalizeSpacesOnlySpaces(task);
  }

  /** The lines of `apply`'s output: the prefixed, normalised task; then, only
      when there are commitments, a blank line, the `Style commitments:` header
      and one `- c` line per commitment, in order. */
  lemma ApplyLines(m: Mode, task: string)
    requires SingleLineFields(m)
    ensures Split(m.Apply(task), '\n')
      == [m.prefix + " " + NormalizeSpaces(task)]
         + (if m.commitments == [] then [] else ["", CommitmentsHeader] + Bullets(m.commitments))
  {
    var first := m.prefix + " " + NormalizeSpaces(task);
    NormalizedSingleLine(task);
    assert '\n' !in first;
    if m.commitments == [] {
      SplitJoin([first], '\n');
    } else {
      var bullets := Bullets(m.commitments);
      BulletsSingleLine(m.commitments);
      assert m.Apply(task) == first + "\n" + "" + "\n" + CommitmentsHeader + "\n" + JoinWith(bullets, "\n");
      SplitThreeThenJoin(first, "", CommitmentsHeader, bullets, '\n');
      ConsThree(first, "", CommitmentsHeader, bullets);
    }
  }

  /** `apply` always begins with the prefix, a space and the normalised task,
      and is exactly that when the mode has no commitments. */
  lemma ApplyStartsWithPrompt(m: Mode, task: string)
    ensures var prompt := m.prefix + " " + NormalizeSpaces(task);
      && |prompt| <= |m.Apply(task)| && m.Apply(task)[..|prompt|] == prompt
      && (m.commitments == [] <==> m.Apply(task) == prompt)
  {
  }

  /** `apply` sees only the words of the task: tasks with the same words,
      however spaced, render identically. */
  lemma ApplyByWords(m: Mode, task: string, task': string)
    requires Words(task) == Words(task')
    ensures m.Apply(task) == m.Apply(task')
  {
    NormalizeSpacesByWords(task, task');
  }

  /** Stripping the task first changes nothing. */
  lemma ApplyIgnoresStrip(m: Mode, task: string)
    ensures m.Apply(Strip(task)) == m.Apply(task)
  {
    WordsStrip(task);
    ApplyByWords(m, Strip(task), task);
  }

  /** The lines of `summary`: title, blank, description, blank, voice, and only
      when there are commitments the header and one bullet each. */
  lemma SummaryLineCount(m: Mode)
    requires SingleLineFields(m)
    requires '\n' !in m.title && '\n' !in m.description && '\n' !in m.voice
    ensures Split(m.Summary(), '\n') == m.SummaryLines()
    ensures |Split(m.Summary(), '\n')| == 5 + (if m.commitments == [] then 0 else 1 + |m.commitments|)
    ensures Split(m.Summary(), '\n')[4] == "Voice: " + m.voice
  {
    BulletsSingleLine(m.commitments);
    var lines := m.SummaryLines();
    forall l | l in lines ensures '\n' !in l {
      if l !in [m.title, "", m.description, "", "Voice: " + m.voice] {
        assert l in [CommitmentsHeader] + Bullets(m.commitments);
      }
    }
    SplitJoin(lines, '\n');
  }

  /** Normalising a slug twice, or lower-casing it first, gives the same key:
      differently cased or spaced spellings reach the same mode. */
  lemma NormalizeModeSlugAbsorbs(slug: string)
    ensures NormalizeModeSlug(NormalizeModeSlug(slug)) == NormalizeModeSlug(slug)
    ensures NormalizeModeSlug(Lower(slug)) == NormalizeModeSlug(slug)
  {
  }

  /** Slugs with the same key resolve to the same mode, or both fail. */
  lemma GetModeByKey(slug: string, slug': string)
    requires NormalizeModeSlug(slug) == NormalizeModeSlug(slug')
    ensures GetMode(slug).Success? <==> GetMode(slug').Success?
    ensures GetMode(slug).Success? ==> GetMode(slug).value == GetMode(slug').value
  {
  }

  /** `list_modes` yields the catalog in definition order, and each listed
      mode is found again by its own slug. */
  lemma ListModesResolve(i: nat)
    requires i < |ListModes()|
    ensures |ListModes()| == |ModeCatalog| && ListModes()[i] == ModeCatalog[i].1
    ensures GetMode(ListModes()[i].slug) == Success(ListModes()[i])
  {
    CatalogWellFormed();
    LookupDistinct(ModeCatalog, i);
  }

  /** An unknown slug raises `KeyError`. */
  lemma UnknownModeFails()
    ensures GetMode("unknown-mode").Failure?
  {
    var key := NormalizeModeSlug("unknown-mode");
    assert key == "unknown-mode";
    forall i | 0 <= i < |ModeCatalog| ensures ModeCatalog[i].0 != key {
      assert |ModeCatalog[i].0| != |key| || ModeCatalog[i].0[0] != key[0];
    }
    LookupFound(ModeCatalog, key);
  }
}
