/** Personas of teslamind/persona.py: a persona renders a system prompt and
    wraps a task in it. */
module Personas {
  import opened Results
  import opened Text
  import Modes

  /** A persona; the optional fields are `None` or a string. */
  datatype Persona = Persona(name: string, description: string, slug: Option<string>,
                             expertise: Option<string>, communicationStyle: Option<string>,
                             priorities: seq<string>, guardrails: seq<string>)
  {
    /** The lines `Persona.system_prompt` joins: the introduction and the
        description, then each optional part only when it is truthy. */
    function SystemPromptLines(): (r: seq<string>) {
      ["You are the " + name + ".", description]
        + (if Truthy(expertise) then ["Expertise: " + expertise.value + "."] else [])
        + (if Truthy(communicationStyle) then ["Communication style: " + communicationStyle.value + "."] else [])
        + (if priorities == [] then [] else ["Priorities:"] + Modes.Bullets(priorities))
        + (if guardrails == [] then [] else ["Guardrails:"] + Modes.Bullets(guardrails))
    }

    /** `Persona.system_prompt`. */
    function SystemPrompt(): (r: string) {
      JoinWith(SystemPromptLines(), "\n")
    }

    /** `Persona.apply`: the system prompt, a blank line, `Task:` and the
        stripped task. */
    function Apply(task: string): (r: string) {
      SystemPrompt() + "\n\nTask:\n" + Strip(task)
    }
  }

  /** `_PERSONA_CATALOG`, in definition order. */
  const PersonaCatalog: seq<(string, Persona)> := [
    ("visionary-inventor", VisionaryInventor),
    ("practical-engineer", PracticalEngineer),
    ("curious-student", CuriousStudent)
  ]

  const VisionaryInventor: Persona := Persona(
    "Visionary Inventor",
    "An ambitious, future-forward narrator who frames discoveries as systems that can reshape industries.",
    Some("visionary-inventor"),
    Some("Moonshot ideation and multi-domain synthesis"),
    Some("Sweeping inspiration grounded by technical checkpoints"),
    ["Propose bold yet testable prototypes.",
     "Show the ripple effects across infrastructure and society.",
     "Tie every idea back to Tesla's ethos of elegant efficiency."],
    ["Ground lofty claims with at least one concrete validation step."])

  const PracticalEngineer: Persona := Persona(
    "Practical Engineer",
    "A builder who obsesses over constraints, instrumentation, and clear acceptance criteria.",
    Some("practical-engineer"),
    Some("Systems integration and reliability engineering"),
    Some("Direct execution focus with numbered procedures"),
    ["Surface material limits, thermal edges, and test harnesses.",
     "Document fallback plans and monitoring hooks.",
     "Report progress with DM-approved sign-off cues."],
    ["Flag any unknowns that could block delivery before committing."])

  const CuriousStudent: Persona := Persona(
    "Curious Student",
    "An inquisitive learner eager to unpack how and why Tesla-inspired technologies operate.",
    Some("curious-student"),
    Some("Rapid learning and knowledge distillation"),
    Some("Question-driven exploration with analogies"),
    ["Break complex ideas into layered explanations.",
     "Surface follow-up experiments or study paths.",
     "Invite reflective questions to confirm understanding."],
    ["Clarify uncertainty and cite sources before extrapolating."])

  /** `list_personas`: the catalog's personas in definition order. */
  function ListPersonas(): (r: seq<Persona>) {
    Values(PersonaCatalog)
  }

  /** The lookup key `get_persona` derives from a slug: lower-cased, `_`
      replaced by `-`. */
  function NormalizePersonaSlug(slug: string): (r: string) {
    ReplaceChar(Lower(slug), '_', '-')
  }

  /** `get_persona`: the persona stored under the normalised slug, or
      `KeyError` naming the slug as given and the known slugs. */
  function GetPersona(slug: string): (r: Result<Persona, LookupError>)
    ensures r.Success? <==> NormalizePersonaSlug(slug) in Keys(PersonaCatalog)
    ensures r.Success? ==> r.value.slug == Some(NormalizePersonaSlug(slug)) && r.value in ListPersonas()
    ensures r.Failure? ==>
      r.error.message == "Unknown persona '" + slug + "'. Known personas: " + JoinWith(Keys(PersonaCatalog), ", ")
  {
    var key := NormalizePersonaSlug(slug);
    LookupFound(PersonaCatalog, key);
    match Lookup(PersonaCatalog, key)
    case Some(persona) =>
      CatalogWellFormed();
      Success(persona)
    case None =>
      Failure(KeyError("Unknown persona '" + slug + "'. Known personas: " + JoinWith(Keys(PersonaCatalog), ", ")))
  }

  /** Each catalog entry's slug is its key, keys are distinct, and keys are
      already normalised. */
  lemma CatalogWellFormed()
    ensures forall i :: 0 <= i < |PersonaCatalog| ==> PersonaCatalog[i].1.slug == Some(PersonaCatalog[i].0)
    ensures forall i, j :: 0 <= i < j < |PersonaCatalog| ==> PersonaCatalog[i].0 != PersonaCatalog[j].0
    ensures forall i :: 0 <= i < |PersonaCatalog| ==> NormalizePersonaSlug(PersonaCatalog[i].0) == PersonaCatalog[i].0
  {
    forall i | 0 <= i < |PersonaCatalog| ensures NormalizePersonaSlug(PersonaCatalog[i].0) == PersonaCatalog[i].0 {
      var key := PersonaCatalog[i].0;
      assert forall k :: 0 <= k < |key| ==> 'a' <= key[k] <= 'z' || key[k] == '-';
    }
  }

  // ---------------------------------------------------------------------
  // Properties

  /** No line break in any field the system prompt renders. */
  predicate SingleLineFields(p: Persona) {
    && '\n' !in p.name && '\n' !in p.description
    && (p.expertise.Some? ==> '\n' !in p.expertise.value)
    && (p.communicationStyle.Some? ==> '\n' !in p.communicationStyle.value)
    && (forall c :: c in p.priorities ==> '\n' !in c)
    && (forall c :: c in p.guardrails ==> '\n' !in c)
  }

  /** None of the lines a single-line persona renders holds a line break. */
  lemma SystemPromptLinesSingle(p: Persona)
    requires SingleLineFields(p)
    ensures forall l :: l in p.SystemPromptLines() ==> '\n' !in l
  {
    Modes.BulletsSingleLine(p.priorities);
    Modes.BulletsSingleLine(p.guardrails);
  }

  /** The lines of the system prompt: `You are the <name>.`, the description,
      one line each for a truthy expertise and communication style, and a
      headed bullet list each for non-empty priorities and guardrails. */
  lemma SystemPromptShape(p: Persona)
    requires SingleLineFields(p)
    ensures Split(p.SystemPrompt(), '\n') == p.SystemPromptLines()
    ensures |p.SystemPromptLines()| == 2
      + (if Truthy(p.expertise) then 1 else 0)
      + (if Truthy(p.communicationStyle) then 1 else 0)
      + (if p.priorities == [] then 0 else 1 + |p.priorities|)
      + (if p.guardrails == [] then 0 else 1 + |p.guardrails|)
    ensures p.SystemPromptLines()[0] == "You are the " + p.name + "."
    ensures p.SystemPromptLines()[1] == p.description
  {
    SystemPromptLinesSingle(p);
    SplitJoin(p.SystemPromptLines(), '\n');
  }

  /** A truthy expertise is rendered as the third line; a truthy
      communication style follows it. */
  lemma OptionalLines(p: Persona)
    ensures Truthy(p.expertise) ==> p.SystemPromptLines()[2] == "Expertise: " + p.expertise.value + "."
    ensures Truthy(p.communicationStyle) ==>
      p.SystemPromptLines()[if Truthy(p.expertise) then 3 else 2]
        == "Communication style: " + p.communicationStyle.value + "."
  {
  }

  /** The lines of `apply`'s output: the system prompt's lines, a blank line,
      `Task:`, then the lines of the stripped task. */
  lemma ApplyShape(p: Persona, task: string)
    requires SingleLineFields(p)
    ensures Split(p.Apply(task), '\n') == p.SystemPromptLines() + ["", "Task:"] + Split(Strip(task), '\n')
  {
    var lines := p.SystemPromptLines() + ["", "Task:"];
    SystemPromptLinesSingle(p);
    JoinWithAppend(p.SystemPromptLines(), ["", "Task:"], "\n");
    assert JoinWith(["", "Task:"], "\n") == "" + "\n" + "Task:";
    assert p.Apply(task) == JoinWith(lines, "\n") + "\n" + Strip(task);
    SplitJoinThen(lines, '\n', Strip(task));
  }

  /** `apply` begins with the system prompt and ends with the stripped task. */
  lemma ApplyEnds(p: Persona, task: string)
    ensures |p.SystemPrompt()| <= |p.Apply(task)| && p.Apply(task)[..|p.SystemPrompt()|] == p.SystemPrompt()
    ensures var t := Strip(task);
      |t| <= |p.Apply(task)| && p.Apply(task)[|p.Apply(task)| - |t|..] == t
  {
  }

  /** Stripping the task first changes nothing. */
  lemma ApplyIgnoresStrip(p: Persona, task: string)
    ensures p.Apply(Strip(task)) == p.Apply(task)
  {
    StripIdempotent(task);
  }

  /** Normalising a slug twice, or lower-casing it first, gives the same key. */
  lemma NormalizePersonaSlugAbsorbs(slug: string)
    ensures NormalizePersonaSlug(NormalizePersonaSlug(slug)) == NormalizePersonaSlug(slug)
    ensures NormalizePersonaSlug(Lower(slug)) == NormalizePersonaSlug(slug)
  {
  }

  /** Slugs with the same key resolve to the same persona, or both fail. */
  lemma GetPersonaByKey(slug: string, slug': string)
    requires NormalizePersonaSlug(slug) == NormalizePersonaSlug(slug')
    ensures GetPersona(slug).Success? <==> GetPersona(slug').Success?
    ensures GetPersona(slug).Success? ==> GetPersona(slug).value == GetPersona(slug').value
  {
  }

  /** `list_personas` yields the catalog in definition order and each listed
      persona is found again by its own slug. */
  lemma ListPersonasResolve(i: nat)
    requires i < |ListPersonas()|
    ensures |ListPersonas()| == |PersonaCatalog| && ListPersonas()[i] == PersonaCatalog[i].1
    ensures ListPersonas()[i].slug.Some?
    ensures GetPersona(ListPersonas()[i].slug.value) == Success(ListPersonas()[i])
  {
    CatalogWellFormed();
    LookupDistinct(PersonaCatalog, i);
  }

  /** Upper case and underscores are accepted: `Practical_Engineer` finds the
      practical engineer. */
  lemma GetPersonaNormalizes()
    ensures GetPersona("Practical_Engineer") == Success(PersonaCatalog[1].1)
  {
    var key := NormalizePersonaSlug("Practical_Engineer");
    assert key == "practical-engineer";
    CatalogWellFormed();
    LookupDistinct(PersonaCatalog, 1);
  }

  /** The lookup matches slugs only: a display name with a space, such as
      `Visionary Inventor`, is not found, although the `get_persona` docstring
      promises lookup by case-insensitive name. */
  lemma GetPersonaRejectsDisplayName()
    ensures NormalizePersonaSlug(PersonaCatalog[0].1.name) == "visionary inventor"
    ensures GetPersona(PersonaCatalog[0].1.name).Failure?
  {
    var key := NormalizePersonaSlug(PersonaCatalog[0].1.name);
    assert key == "visionary inventor";
    forall i | 0 <= i < |PersonaCatalog| ensures PersonaCatalog[i].0 != key {
      assert |PersonaCatalog[i].0| != |key| || PersonaCatalog[i].0[9] != key[9];
    }
    LookupFound(PersonaCatalog, key);
  }
}
