/** Prompt composition of teslamind/prompt.py: a persona's system prompt, the
    base template filled with the task, and a mode's rendering of the task,
    joined by blank lines under a derived name. */
module Prompts {
  import opened Results
  import opened Text
  import Modes
  import Personas

  /** A named prompt text (`Prompt`). */
  datatype Prompt = Prompt(name: string, text: string)

  /** The `mode` argument of `compose_prompt`: absent, a mode, or a slug. */
  datatype ModeArg = NoMode | ModeValue(mode: Modes.Mode) | ModeSlug(slug: string)

  /** The `persona` argument of `compose_prompt`: absent, a persona, or a slug. */
  datatype PersonaArg = NoPersona | PersonaValue(persona: Personas.Persona) | PersonaSlug(slug: string)

  /** `_resolve_mode`: a mode or nothing is kept, a slug is looked up. */
  function ResolveMode(arg: ModeArg): (r: Result<Option<Modes.Mode>, LookupError>)
    ensures r.Failure? <==> arg.ModeSlug? && Modes.GetMode(arg.slug).Failure?
    ensures r.Failure? ==> r.error == Modes.GetMode(arg.slug).error
    ensures r.Success? && r.value.None? <==> arg.NoMode?
    ensures r.Success? && r.value.Some? && arg.ModeValue? ==> r.value.value == arg.mode
    ensures r.Success? && r.value.Some? && arg.ModeSlug? ==>
      r.value.value.slug == Modes.NormalizeModeSlug(arg.slug) && r.value.value in Modes.ListModes()
  {
    match arg
    case NoMode => Success(None)
    case ModeValue(m) => Success(Some(m))
    case ModeSlug(s) =>
      match Modes.GetMode(s)
      case Success(m) => Success(Some(m))
      case Failure(e) => Failure(e)
  }

  /** `_resolve_persona`: a persona or nothing is kept, a slug is looked up. */
  function ResolvePersona(arg: PersonaArg): (r: Result<Option<Personas.Persona>, LookupError>)
    ensures r.Failure? <==> arg.PersonaSlug? && Personas.GetPersona(arg.slug).Failure?
    ensures r.Failure? ==> r.error == Personas.GetPersona(arg.slug).error
    ensures r.Success? && r.value.None? <==> arg.NoPersona?
    ensures r.Success? && r.value.Some? && arg.PersonaValue? ==> r.value.value == arg.persona
    ensures r.Success? && r.value.Some? && arg.PersonaSlug? ==>
      r.value.value.slug == Some(Personas.NormalizePersonaSlug(arg.slug))
      && r.value.value in Personas.ListPersonas()
  {
    match arg
    case NoPersona => Success(None)
    case PersonaValue(p) => Success(Some(p))
    case PersonaSlug(s) =>
      match Personas.GetPersona(s)
      case Success(p) => Success(Some(p))
      case Failure(e) => Failure(e)
  }

  /** `template or DEFAULT_TEMPLATE`. */
  function BaseTemplate(template: Option<string>, defaultTemplate: string): (r: string)
    ensures Truthy(template) ==> r == template.value
    ensures !Truthy(template) ==> r == defaultTemplate
  {
    if Truthy(template) then template.value else defaultTemplate
  }

  /** The name candidates, in priority order: the explicit name, the
      persona's slug, the mode's slug. */
  function NameCandidates(name: Option<string>, persona: Option<Personas.Persona>,
                          mode: Option<Modes.Mode>): (r: seq<Option<string>>)
    ensures |r| == 3 && r[0] == name
    ensures r[1] == (if persona.Some? then persona.value.slug else None)
    ensures r[2] == (if mode.Some? then Some(mode.value.slug) else None)
  {
    [name, if persona.Some? then persona.value.slug else None,
     if mode.Some? then Some(mode.value.slug) else None]
  }

  /** The position of the first truthy candidate, if any. */
  function FirstTruthy(candidates: seq<Option<string>>): (r: Option<nat>)
    ensures r.Some? ==> r.value < |candidates| && Truthy(candidates[r.value])
    ensures r.Some? ==> forall j :: 0 <= j < r.value ==> !Truthy(candidates[j])
    ensures r.None? ==> forall j :: 0 <= j < |candidates| ==> !Truthy(candidates[j])
    decreases |candidates|
  {
    if candidates == [] then None
    else if Truthy(candidates[0]) then Some(0)
    else
      match FirstTruthy(candidates[1..])
      case None => None
      case Some(i) => Some(i + 1)
  }

  /** The prompt's name: the first truthy candidate with spaces replaced by
      `-`, or `composed` when there is none. */
  function PromptName(candidates: seq<Option<string>>): (r: string) {
    match FirstTruthy(candidates)
    case Some(i) => ReplaceChar(candidates[i].value, ' ', '-')
    case None => "composed"
  }

  /** The loop of `compose_prompt` that picks the name. */
  method SelectName(candidates: seq<Option<string>>) returns (n: string)
    ensures n == PromptName(candidates)
    ensures n != [] && ' ' !in n
  {
    var i := 0;
    while i < |candidates|
      invariant i <= |candidates|
      invariant forall j :: 0 <= j < i ==> !Truthy(candidates[j])
    {
      var candidate := candidates[i];
      if Truthy(candidate) {
        n := ReplaceChar(candidate.value, ' ', '-');
        assert FirstTruthy(candidates) == Some(i) by {
          FirstTruthyIs(candidates, i);
        }
        return;
      }
      i := i + 1;
    }
    n := "composed";
  }

  /** A truthy candidate preceded only by falsy ones is the first truthy one. */
  lemma {:induction false} FirstTruthyIs(candidates: seq<Option<string>>, i: nat)
    requires i < |candidates| && Truthy(candidates[i])
    requires forall j :: 0 <= j < i ==> !Truthy(candidates[j])
    ensures FirstTruthy(candidates) == Some(i)
    decreases i
  {
    if i > 0 {
      FirstTruthyIs(candidates[1..], i - 1);
    }
  }

  /** The sections `compose_prompt` joins: the persona's system prompt if
      any, the filled base template, the mode's rendering if any. */
  function Sections(personaPrompt: Option<string>, basePrompt: string, modeText: Option<string>): (r: seq<string>) {
    (if personaPrompt.Some? then [personaPrompt.value] else [])
      + [basePrompt]
      + (if modeText.Some? then [modeText.value] else [])
  }

  /** The joined sections: each optional section is set off from the base
      prompt by a blank line. */
  lemma JoinSections(personaPrompt: Option<string>, basePrompt: string, modeText: Option<string>)
    ensures JoinWith(Sections(personaPrompt, basePrompt, modeText), "\n\n")
      == (if personaPrompt.Some? then personaPrompt.value + "\n\n" else "") + basePrompt
         + (if modeText.Some? then "\n\n" + modeText.value else "")
  {
    var parts := Sections(personaPrompt, basePrompt, modeText);
    if personaPrompt.Some? && modeText.Some? {
      assert parts == [personaPrompt.value, basePrompt, modeText.value];
      JoinThree(personaPrompt.value, basePrompt, modeText.value, "\n\n");
    } else if personaPrompt.Some? {
      assert parts == [personaPrompt.value, basePrompt];
      JoinTwo(personaPrompt.value, basePrompt, "\n\n");
    } else if modeText.Some? {
      assert parts == [basePrompt, modeText.value];
      JoinTwo(basePrompt, modeText.value, "\n\n");
    } else {
      assert parts == [basePrompt];
    }
  }

  /** The persona's system prompt, if there is a persona. */
  function PersonaSection(persona: Option<Personas.Persona>): (r: Option<string>) {
    if persona.Some? then Some(persona.value.SystemPrompt()) else None
  }

  /** The mode's rendering of the task, if there is a mode. */
  function ModeSection(mode: Option<Modes.Mode>, normalizedTask: string): (r: Option<string>) {
    if mode.Some? then Some(mode.value.Apply(normalizedTask)) else None
  }

  /** The prompt `compose_prompt` builds from the resolved mode and persona.
      `format(template, task)` stands for `template.format(task=task)`. */
  function Render(task: string, mode: Option<Modes.Mode>, persona: Option<Personas.Persona>,
                  template: Option<string>, name: Option<string>, defaultTemplate: string,
                  format: (string, string) -> string): (r: Prompt) {
    var normalized := Strip(task);
    var basePrompt := format(BaseTemplate(template, defaultTemplate), normalized);
    Prompt(PromptName(NameCandidates(name, persona, mode)),
           JoinWith(Sections(PersonaSection(persona), basePrompt, ModeSection(mode, normalized)), "\n\n"))
  }

  /** What `compose_prompt` returns or raises: the mode is resolved first,
      then the persona. */
  function Compose(task: string, mode: ModeArg, persona: PersonaArg, template: Option<string>,
                   name: Option<string>, defaultTemplate: string,
                   format: (string, string) -> string): (r: Result<Prompt, LookupError>) {
    match ResolveMode(mode)
    case Failure(e) => Failure(e)
    case Success(m) =>
      match ResolvePersona(persona)
      case Failure(e) => Failure(e)
      case Success(p) => Success(Render(task, m, p, template, name, defaultTemplate, format))
  }

  /** `compose_prompt`. */
  method ComposePrompt(task: string, mode: ModeArg, persona: PersonaArg, template: Option<string>,
                       name: Option<string>, defaultTemplate: string,
                       format: (string, string) -> string)
    returns (r: Result<Prompt, LookupError>)
    ensures r == Compose(task, mode, persona, template, name, defaultTemplate, format)
    ensures r.Success? ==> r.value.name != [] && ' ' !in r.value.name
  {
    var resolvedMode := ResolveMode(mode);
    if resolvedMode.Failure? {
      return Failure(resolvedMode.error);
    }
    var resolvedPersona := ResolvePersona(persona);
    if resolvedPersona.Failure? {
      return Failure(resolvedPersona.error);
    }
    var prompt := RenderPrompt(task, resolvedMode.value, resolvedPersona.value, template, name,
                               defaultTemplate, format);
    return Success(prompt);
  }

  /** The body of `compose_prompt` once the mode and persona are resolved:
      the sections are collected in order and the name is picked by the
      candidate loop. */
  method RenderPrompt(task: string, m: Option<Modes.Mode>, p: Option<Personas.Persona>,
                      template: Option<string>, name: Option<string>, defaultTemplate: string,
                      format: (string, string) -> string)
    returns (prompt: Prompt)
    ensures prompt == Render(task, m, p, template, name, defaultTemplate, format)
    ensures prompt.name != [] && ' ' !in prompt.name
  {
    var baseTemplate := BaseTemplate(template, defaultTemplate);
    var normalizedTask := Strip(task);
    var basePrompt := format(baseTemplate, normalizedTask);

    var sections: seq<string> := [];
    if p.Some? {
      sections := sections + [p.value.SystemPrompt()];
    }
    sections := sections + [basePrompt];
    if m.Some? {
      sections := sections + [m.value.Apply(normalizedTask)];
    }
    assert sections == Sections(PersonaSection(p), basePrompt, ModeSection(m, normalizedTask));

    var promptName := SelectName(NameCandidates(name, p, m));
    prompt := Prompt(promptName, JoinWith(sections, "\n\n"));
  }

  // ---------------------------------------------------------------------
  // Properties

  /** Composition fails exactly when a slug is unknown; the mode is resolved
      first, so its error wins when both slugs are unknown. */
  lemma ComposeFailure(task: string, mode: ModeArg, persona: PersonaArg, template: Option<string>,
                       name: Option<string>, defaultTemplate: string, format: (string, string) -> string)
    ensures var r := Compose(task, mode, persona, template, name, defaultTemplate, format);
      && (r.Failure? <==>
           (mode.ModeSlug? && Modes.GetMode(mode.slug).Failure?)
           || (persona.PersonaSlug? && Personas.GetPersona(persona.slug).Failure?))
      && (mode.ModeSlug? && Modes.GetMode(mode.slug).Failure? ==> r == Failure(Modes.GetMode(mode.slug).error))
  {
  }

  /** Mode and persona values, or their absence, are used as given: the
      composition never fails and renders exactly them. */
  lemma ComposeValues(task: string, mode: Option<Modes.Mode>, persona: Option<Personas.Persona>,
                      template: Option<string>, name: Option<string>, defaultTemplate: string,
                      format: (string, string) -> string)
    ensures Compose(task, if mode.Some? then ModeValue(mode.value) else NoMode,
                    if persona.Some? then PersonaValue(persona.value) else NoPersona,
                    template, name, defaultTemplate, format)
      == Success(Render(task, mode, persona, template, name, defaultTemplate, format))
  {
  }

  /** The rendered text: the persona's system prompt and a blank line when
      there is a persona, the base template filled with the stripped task,
      and a blank line and the mode's rendering of the task when there is a
      mode. */
  lemma RenderText(task: string, m: Option<Modes.Mode>, p: Option<Personas.Persona>,
                   template: Option<string>, name: Option<string>, defaultTemplate: string,
                   format: (string, string) -> string)
    ensures Render(task, m, p, template, name, defaultTemplate, format).text
      == (if p.Some? then p.value.SystemPrompt() + "\n\n" else "")
         + format(BaseTemplate(template, defaultTemplate), Strip(task))
         + (if m.Some? then "\n\n" + m.value.Apply(task) else "")
  {
    if m.Some? {
      Modes.ApplyIgnoresStrip(m.value, task);
    }
    JoinSections(PersonaSection(p), format(BaseTemplate(template, defaultTemplate), Strip(task)),
                 ModeSection(m, Strip(task)));
  }

  lemma JoinTwo(a: string, b: string, sep: string)
    ensures JoinWith([a, b], sep) == a + sep + b
  {
    assert [a, b][1..] == [b];
  }

  lemma JoinThree(a: string, b: string, c: string, sep: string)
    ensures JoinWith([a, b, c], sep) == a + sep + b + sep + c
  {
    assert [a, b, c][1..] == [b, c];
    JoinTwo(b, c, sep);
  }

  /** Without a persona or a mode the text is the filled base template and
      the name is the explicit one or `composed`. */
  lemma RenderBareTemplate(task: string, template: Option<string>, name: Option<string>,
                           defaultTemplate: string, format: (string, string) -> string)
    ensures Render(task, None, None, template, name, defaultTemplate, format)
      == Prompt(if Truthy(name) then ReplaceChar(name.value, ' ', '-') else "composed",
                format(BaseTemplate(template, defaultTemplate), Strip(task)))
  {
    var c := NameCandidates(name, None, None);
    if !Truthy(name) {
      assert !Truthy(c[0]) && !Truthy(c[1]) && !Truthy(c[2]);
    }
  }

  /** The name is the explicit name if truthy, else the persona's slug if
      truthy, else the mode's slug if non-empty, else `composed`, always with
      spaces turned into `-`; it is never empty and has no space. */
  lemma RenderName(task: string, m: Option<Modes.Mode>, p: Option<Personas.Persona>,
                   template: Option<string>, name: Option<string>, defaultTemplate: string,
                   format: (string, string) -> string)
    ensures var n := Render(task, m, p, template, name, defaultTemplate, format).name;
      && n == (if Truthy(name) then ReplaceChar(name.value, ' ', '-')
               else if p.Some? && Truthy(p.value.slug) then ReplaceChar(p.value.slug.value, ' ', '-')
               else if m.Some? && m.value.slug != "" then ReplaceChar(m.value.slug, ' ', '-')
               else "composed")
      && n != [] && ' ' !in n
  {
    var c := NameCandidates(name, p, m);
    PromptNameShape(c);
    if Truthy(c[0]) {
      FirstTruthyIs(c, 0);
    } else if Truthy(c[1]) {
      FirstTruthyIs(c, 1);
    } else if Truthy(c[2]) {
      FirstTruthyIs(c, 2);
    }
  }

  /** A prompt name is never empty and never holds a space. */
  lemma PromptNameShape(candidates: seq<Option<string>>)
    ensures PromptName(candidates) != [] && ' ' !in PromptName(candidates)
  {
    match FirstTruthy(candidates)
    case Some(i) =>
      assert |candidates[i].value| > 0;
    case None =>
  }

  /** A falsy template falls back to the default template. */
  lemma RenderDefaultTemplate(task: string, m: Option<Modes.Mode>, p: Option<Personas.Persona>,
                              template: Option<string>, name: Option<string>, defaultTemplate: string,
                              format: (string, string) -> string)
    requires !Truthy(template)
    ensures Render(task, m, p, template, name, defaultTemplate, format)
      == Render(task, m, p, Some(defaultTemplate), name, defaultTemplate, format)
  {
  }

  /** Surrounding whitespace of the task never matters. */
  lemma RenderStripsTask(task: string, m: Option<Modes.Mode>, p: Option<Personas.Persona>,
                         template: Option<string>, name: Option<string>, defaultTemplate: string,
                         format: (string, string) -> string)
    ensures Render(Strip(task), m, p, template, name, defaultTemplate, format)
      == Render(task, m, p, template, name, defaultTemplate, format)
  {
    StripIdempotent(task);
  }

  /** The persona's system prompt opens the text and the mode's rendering of
      the task closes it. */
  lemma RenderEnds(task: string, m: Option<Modes.Mode>, p: Option<Personas.Persona>,
                   template: Option<string>, name: Option<string>, defaultTemplate: string,
                   format: (string, string) -> string)
    ensures var text := Render(task, m, p, template, name, defaultTemplate, format).text;
      && (p.Some? ==> |p.value.SystemPrompt()| <= |text| && text[..|p.value.SystemPrompt()|] == p.value.SystemPrompt())
      && (m.Some? ==> |m.value.Apply(task)| <= |text|
                      && text[|text| - |m.value.Apply(task)|..] == m.value.Apply(task))
  {
    RenderText(task, m, p, template, name, defaultTemplate, format);
  }
}
