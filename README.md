# TeslaMind prompt core in Dafny

TeslaMind composes prompts for a language model. A task is normalised, then
wrapped in a persona's system prompt, filled into a base template and
rendered by a stylistic mode. The resulting text can be checked by a clinical
safety filter, which finds blocked medical terms. This project models that
core and proves what it promises:

- `safety.dfy` holds module `Safety`, the clinical safety filter
  (`ClinicalSafetyFilter`). It is a class with its configuration fixed at
  construction. `Scan` copies the text into a character `array`, runs the
  outer loop over the terms and the inner `find` loop, masks hits in place
  and raises `ValueError` when configured to. `Scan` is proved equal to the
  functional specification `ScanOutcome`. Module `SafetyProperties` proves
  the rest about that specification: bounds, grouping, ordering, greedy
  completeness, masking and raising.
- `modes.dfy` holds module `Modes`: the `Mode` record, `apply`, `summary`,
  the six-entry catalog, `list_modes` and `get_mode`.
- `personas.dfy` holds module `Personas`: the `Persona` record,
  `system_prompt`, `apply`, the three-entry catalog, `list_personas` and
  `get_persona`.
- `prompts.dfy` holds module `Prompts`: `compose_prompt`, with
  `_resolve_mode` and `_resolve_persona`. The name-selection loop is the
  method `SelectName`, the section assembly is the method `RenderPrompt`, and
  both are proved against the functions `PromptName`, `Render` and
  `Compose`.
- `slugs.dfy` holds module `Slugs`: `slugify`, proved to return the
  input's maximal runs of word characters, lower-cased and joined by single
  dashes.
- `cache.dfy` holds module `Caching`: the in-memory cache. The module-level
  dictionary is a `map` field of one `Cache` object, and `get` and `set` are
  its methods.
- `text.dfy` holds module `Text`, the Python string operations used above:
  `lower`, `strip`, `split()`, `split(sep)`, `join` and `replace`.
- `results.dfy` holds module `Results`: `Option` and `Result` (standing for
  `None` and for raising), `KeyError`, and dictionary lookup over an
  insertion-ordered association list.

The tests of `filter_clinical_content` (tests/test_advanced_features.py)
describe a different filter from the one in `teslamind/safety.py`. The model
follows `teslamind/safety.py`:

- There is no `case_sensitive` switch, and a violation records no matched
  substring.
- The lower-cased text is computed once, from the original text, before
  any masking. Masking therefore never hides or creates a match for a later
  term, and overlapping hits of different terms are all recorded
  (`OverlappingTermsBothRecorded`).
- A violation's `end` is `start + len(term)`.
- Raising depends only on `raise_on_violation` and on whether anything was
  found, whatever the masking setting.

The docstring of `get_persona` promises lookup "by slug or case-insensitive
name". The code only lower-cases and replaces `_` by `-`. So a display name
such as `Visionary Inventor` does not resolve, and the model follows the code
(`Personas.GetPersonaRejectsDisplayName`).

## Model

| member | source | states |
|---|---|---|
| Safety.NonEmptyTerms | teslamind/safety.py:41 | a term is kept exactly when it was given and is non-empty; no more terms come out than went in |
| SafetyProperties.NonEmptyTermsAppend | teslamind/safety.py:41 | the order of the terms is kept: the kept terms of `a + b` are the kept terms of `a` followed by those of `b` |
| SafetyProperties.NonEmptyTermsSingle | teslamind/safety.py:41 | a single term is kept exactly when it is non-empty |
| Safety.ClinicalSafetyFilter.constructor | teslamind/safety.py:33-44 | the filter keeps only the non-empty blocked terms, in order, and stores the mask flag, mask character and raise flag |
| Safety.Find | teslamind/safety.py:57 | `find` returns the least offset at or after `start` where the needle occurs, or -1 exactly when it occurs nowhere from `start` on |
| Safety.TermViolations | teslamind/safety.py:56-64 | every hit of a term records the term, starts at or after the search start, spans `len(term)` characters, matches the lowered term there, and hits do not overlap |
| Safety.TermGroup | teslamind/safety.py:53-55 | a term whose lowered form is empty contributes nothing; every recorded hit is an occurrence of the lowered term |
| Safety.AllViolations | teslamind/safety.py:51-64 | every violation's term is a non-empty configured term that occurs in the lowered text at `[start, end)` with `end == start + len(term)` |
| Safety.ClinicalSafetyFilter.Scan | teslamind/safety.py:46-73 | the scan returns exactly the report, or the `ValueError`, of the specification `ScanOutcome`, and fails exactly when raising is on and some violation was found |
| Safety.ScanTerm | teslamind/safety.py:52-64 | the `while True` loop for one term appends exactly that term's greedy hits, and the buffer stays the text with all hits so far masked, or untouched when masking is off |
| Safety.MaskSpan | teslamind/safety.py:62-63 | the slice assignment overwrites exactly positions `[start, end)` with the mask character |
| SafetyProperties.TermViolationsGreedy | teslamind/safety.py:56-64 | the recorded starts of a term are its greedy leftmost non-overlapping occurrences: each hit is the first occurrence at or after the previous hit's end, and no occurrence follows the last |
| SafetyProperties.GreedyUnique | teslamind/safety.py:56-64 | there is only one such greedy list of occurrences, so the hits are determined by the text and the term |
| SafetyProperties.TermViolationsComplete | teslamind/safety.py:56-64 | every occurrence of the lowered term at or after the search start lies inside the span of a recorded hit |
| SafetyProperties.AllViolationsAppend | teslamind/safety.py:51 | the violations of a concatenated term list are those of the first part followed by those of the second |
| SafetyProperties.AllViolationsSingle | teslamind/safety.py:51-64 | scanning a single non-empty term yields exactly its hits from offset 0 |
| SafetyProperties.ViolationsGroupedByTerm | teslamind/safety.py:51-64 | violations are grouped in blocked-term order: the earlier terms' violations, then term `i`'s hits, then the later terms' violations |
| SafetyProperties.EmptyTermsIrrelevant | teslamind/safety.py:41-55 | dropping empty terms at construction changes no scan result |
| SafetyProperties.ViolationBounds | teslamind/safety.py:57-61 | each violation has `start < end == start + len(term) <= len(text)`, and the lowered text at `[start, end)` is the lowered term |
| SafetyProperties.TermViolationsOrdered | teslamind/safety.py:56-64 | within a term, starts strictly increase and each start is at or after the previous end |
| SafetyProperties.EveryOccurrenceRecorded | teslamind/safety.py:47-64 | every occurrence of a non-empty term in the lowered original text is covered by a recorded violation of that term |
| SafetyProperties.RaiseExactlyWhenUnclean | teslamind/safety.py:66-73 | with raising on, the scan fails exactly when the report is not clean, and otherwise returns the report; the report is clean exactly when no violation was found |
| SafetyProperties.UnmaskedKeepsText | teslamind/safety.py:48-69 | without masking, both the original and the sanitised text are the input |
| SafetyProperties.MaskingSpec | teslamind/safety.py:48-69 | with masking, the sanitised text has the input's length, every covered position is the mask character, every other position is unchanged, and the violations are those of an unmasked scan |
| SafetyProperties.MaskedTextHasNoTerm | teslamind/safety.py:62-63 | when the mask character occurs in no lowered term, the masked text contains no case-insensitive occurrence of any blocked term |
| SafetyProperties.NoOccurrenceNoViolation | teslamind/safety.py:56-59 | a text in which no non-empty term occurs yields no violation |
| SafetyProperties.RescanIsClean | teslamind/safety.py:46-73 | scanning the masked text again finds nothing, when the mask character occurs in no lowered term |
| SafetyProperties.OverlappingTermsBothRecorded | teslamind/safety.py:47-57 | overlapping hits of different terms (`ab` and `bc` in `xABc`) are both recorded, with offsets into the original text |
| Slugs.CollapseNonWordSpec | teslamind/utils/strings.py:5 | the substitution yields only word characters and `-`, never two `-` in a row, is empty only for the empty text, keeps a leading word character first, and keeps the word characters in order |
| Slugs.CollapseShape | teslamind/utils/strings.py:5 | the substitution is the maximal runs of word characters joined by single `-`, with a leading `-` when the text starts with a non-word character and a trailing `-` when it ends with one after a word run (so `!!` becomes `-`) |
| Slugs.SlugifyRuns | teslamind/utils/strings.py:4-5 | the slug is the maximal runs of word characters of the input, each lower-cased, joined by single `-` |
| Slugs.SlugifySplit | teslamind/utils/strings.py:4-5 | the slug is empty exactly when the input has no word character run; otherwise splitting it at `-` gives back those runs, lower-cased, in order |
| Slugs.SlugifySpec | teslamind/utils/strings.py:4-5 | a slug has only lower-case word characters and `-`, no `-` at either end and no two in a row; deleting its dashes gives the input's word characters, lower-cased, in order |
| Slugs.SlugifyIdempotent | teslamind/utils/strings.py:4-5 | slugifying a slug changes nothing |
| Text.NormalizeSpacesSpec | teslamind/modes/catalog.py:41 | the normalised task is single-spaced with no surrounding whitespace, has exactly the input's words in order, and normalising again changes nothing |
| Text.StripIdempotent | teslamind/persona.py:41 | stripping twice is stripping once |
| Modes.ApplyLines | teslamind/modes/catalog.py:38-46 | the lines of `apply` are the prefixed normalised task and, only when there are commitments, a blank line, `Style commitments:` and one bullet per commitment in order |
| Modes.ApplyStartsWithPrompt | teslamind/modes/catalog.py:41-44 | `apply` begins with prefix, space and normalised task, and is exactly that when there are no commitments |
| Modes.ApplyByWords | teslamind/modes/catalog.py:41 | two tasks with the same words render identically, however they are spaced |
| Modes.ApplyIgnoresStrip | teslamind/modes/catalog.py:41 | stripping the task beforehand changes nothing |
| Modes.SummaryLineCount | teslamind/modes/catalog.py:48-55 | the lines of `summary` are title, blank, description, blank, `Voice: v`, and only with commitments the header and the bullets; there are 5 lines, plus 1 + the number of commitments when there are any |
| Modes.CatalogWellFormed | teslamind/modes/catalog.py:58-131 | every catalog entry's slug equals its key, the keys are distinct, and each key is already normalised |
| Modes.GetMode | teslamind/modes/catalog.py:140-148 | lookup succeeds exactly when the normalised slug is a catalog key and then returns a listed mode with that slug; otherwise it raises `KeyError` naming the slug and all known slugs |
| Modes.NormalizeModeSlugAbsorbs | teslamind/modes/catalog.py:143 | normalising is idempotent and does not depend on case |
| Modes.GetModeByKey | teslamind/modes/catalog.py:143-145 | slugs with the same normalised key resolve to the same mode or both fail |
| Modes.ListModesResolve | teslamind/modes/catalog.py:134-145 | `list_modes` yields the catalog's modes in definition order, and each listed mode is found again by its slug |
| Modes.UnknownModeFails | teslamind/modes/catalog.py:144-148 | the slug `unknown-mode` raises `KeyError` |
| Personas.SystemPromptShape | teslamind/persona.py:21-35 | the system prompt's lines are its line list; it starts with `You are the <name>.` and the description; its line count is 2, plus one per truthy optional field, plus 1 + size for each non-empty list |
| Personas.SystemPromptLinesSingle | teslamind/persona.py:21-35 | a persona with single-line fields renders no line holding a line break |
| Personas.OptionalLines | teslamind/persona.py:25-28 | a truthy expertise is line 3 as `Expertise: e.`, and a truthy communication style follows it as `Communication style: s.` |
| Personas.ApplyShape | teslamind/persona.py:37-42 | the lines of `apply` are the system prompt's lines, a blank line, `Task:` and the lines of the stripped task |
| Personas.ApplyEnds | teslamind/persona.py:37-42 | `apply` begins with the system prompt and ends with the stripped task |
| Personas.ApplyIgnoresStrip | teslamind/persona.py:41 | stripping the task beforehand changes nothing |
| Personas.CatalogWellFormed | teslamind/persona.py:45-100 | every catalog entry's slug is its key, keys are distinct, and keys are already normalised |
| Personas.GetPersona | teslamind/persona.py:109-117 | lookup succeeds exactly when the normalised slug is a catalog key and then returns a listed persona with that slug; otherwise it raises `KeyError` naming the slug and all known slugs |
| Personas.NormalizePersonaSlugAbsorbs | teslamind/persona.py:112 | normalising is idempotent and does not depend on case |
| Personas.GetPersonaByKey | teslamind/persona.py:112-114 | slugs with the same normalised key resolve to the same persona or both fail |
| Personas.ListPersonasResolve | teslamind/persona.py:103-114 | `list_personas` yields the catalog in definition order, and each listed persona has a slug that finds it again |
| Personas.GetPersonaNormalizes | teslamind/persona.py:112-114 | `Practical_Engineer` finds the practical engineer |
| Personas.GetPersonaRejectsDisplayName | teslamind/persona.py:109-117 | a display name with a space (`Visionary Inventor`) is not found, although the docstring promises name lookup |
| Prompts.ResolveMode | teslamind/prompt.py:29-32 | `None` and mode objects pass through unchanged; a slug fails exactly when `get_mode` fails, with its error, and otherwise yields a listed mode with the normalised slug |
| Prompts.ResolvePersona | teslamind/prompt.py:35-38 | `None` and persona objects pass through unchanged; a slug fails exactly when `get_persona` fails, with its error, and otherwise yields a listed persona with the normalised slug |
| Prompts.FirstTruthy | teslamind/prompt.py:86-87 | the position found is truthy and every earlier candidate is falsy; none is found only when all are falsy |
| Prompts.SelectName | teslamind/prompt.py:86-91 | the loop returns the first truthy candidate with spaces replaced by `-`, or `composed`; the result is never empty and holds no space |
| Prompts.RenderPrompt | teslamind/prompt.py:70-93 | collecting the sections and picking the name yields exactly `Render`, with a non-empty, space-free name |
| Prompts.ComposePrompt | teslamind/prompt.py:41-93 | `compose_prompt` returns or raises exactly as `Compose` says, and any prompt it returns has a non-empty, space-free name |
| Prompts.ComposeFailure | teslamind/prompt.py:29-69 | composition raises exactly when a given slug is unknown, and the mode's `KeyError` wins when both are unknown |
| Prompts.ComposeValues | teslamind/prompt.py:29-38 | mode and persona values, or their absence, never fail and are rendered as given |
| Prompts.JoinSections | teslamind/prompt.py:74-93 | the optional persona and mode sections are each set off from the base prompt by a blank line |
| Prompts.RenderText | teslamind/prompt.py:70-93 | the text is the persona's system prompt and a blank line if there is a persona, the template filled with the stripped task, then a blank line and the mode's rendering of the task if there is a mode |
| Prompts.RenderBareTemplate | teslamind/prompt.py:70-93 | with no persona and no mode, the text is the filled template and the name the explicit one or `composed` |
| Prompts.RenderName | teslamind/prompt.py:81-91 | the name is the truthy explicit name, else the truthy persona slug, else the non-empty mode slug, else `composed`, with spaces replaced by `-`; it is never empty and holds no space |
| Prompts.PromptNameShape | teslamind/prompt.py:86-91 | a chosen name is never empty and holds no space |
| Prompts.RenderDefaultTemplate | teslamind/prompt.py:70 | a falsy template renders as the default template does |
| Prompts.RenderStripsTask | teslamind/prompt.py:71-79 | whitespace around the task never changes the prompt |
| Prompts.RenderEnds | teslamind/prompt.py:74-93 | the persona's system prompt opens the text and the mode's rendering of the task closes it |
| Results.Lookup | teslamind/modes/catalog.py:145 | a dictionary lookup finds a value exactly when the key is present, and the value found is stored under that key |
| Caching.Cache.constructor | teslamind/cache.py:4 | the cache starts empty |
| Caching.Cache.Get | teslamind/cache.py:7-8 | `get` returns the stored value for a present key and `None` for any other, changing nothing |
| Caching.Cache.Set | teslamind/cache.py:11-12 | `set` stores the value under the key and leaves every other key as it was |
| Caching.LastWriteWins | teslamind/cache.py:7-12 | after two writes to a key, `get` returns the second; any other key reads as before the writes |

## Left out

- Unicode: lower-casing is ASCII and preserves length, whitespace is the
  ASCII whitespace that `str.split()` and `str.strip()` recognise, and
  `\w` is `[A-Za-z0-9_]`. Python's Unicode `str.lower()` can change a
  string's length, which would misalign the scan's offsets.
- Multi-character `mask_char`: the mask is one character. A longer one
  makes the slice assignment at teslamind/safety.py:63 shift later
  positions.
- `str.format`: `template.format(task=...)` is the function parameter
  `format`. A template that raises while formatting is not modelled.
- `DEFAULT_TEMPLATE`: it lives in `teslamind/templates`, which is not part
  of this model, and is the parameter `defaultTemplate`.
- `Prompt.from_file` and `Prompt.save`: they read and write files.
- `filter_clinical_content`, `DEFAULT_BLOCKED_TERMS` and the
  case-sensitivity switch: the root `safety.py` re-exports names that
  `teslamind/safety.py` does not define.
- The refinement loop, federated evaluation and RLHF trainer
  (`refinement.py`, `federated.py`, `rlhf.py`, `advanced.py`): no
  implementation of them is part of this model.
- The CLI (`teslamind/cli.py`): argument parsing and printing. Its
  `list_prompts` and `show_prompt` list and read prompt files;
  `list_personas_cli` prints each persona under its slug, falling back to
  `persona.name.lower().replace(" ", "-")` when the slug is empty (never
  the case for a catalog persona, each of which has a slug); its other
  commands print what the modelled functions return.
- `evaluation/run_eval.py`: it sends prompts to a language-model client and
  writes the scores as JSON to disk.
- `teslamind/utils/__init__.py` only re-exports `read_file`, `slugify` and
  `bold`; `read_file` reads a file and `bold` is not part of this model.
- `scripts/validate_metadata.py` and `scripts/lint_markdown.py`: they read
  JSON and Markdown files from disk and print problems. Neither calls a
  modelled function.
- `teslamind/metrics.py`: it builds a `Score`, a type from
  `teslamind/models/score.py`, which is not part of this model.
- The mode sub-modules (`teslamind/modes/energy.py` and the others) and the
  helpers in `teslamind/modes/__init__.py`: each one applies a single catalog
  mode to the task (`get_mode(slug).apply(task)`), which `Modes.GetMode` and
  the `Mode.Apply` lemmas cover.
- `teslamind/__init__.py` and `teslamind/models/__init__.py` only re-export
  names. `teslamind/models/prompt.py` declares the `PromptMeta` record, and no
  modelled function uses it.
- Catalog prose: the mode and persona catalogs are copied entry by entry.
  The lemmas about them prove only slugs, keys and lookup, not the prose.
- The cache is one `Cache` object standing for the module-level dictionary;
  sharing it between callers is not modelled.
