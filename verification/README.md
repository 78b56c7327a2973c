# Resume LaTeX generator and resume form edits, in Dafny

This project models the core of the Resumeow resume builder:

- `generateLatexResume` (lib/latex/template.ts) turns a `ResumeData` record into one LaTeX source
  string. The record holds personal info plus education, experience, co-curricular, skills and
  projects lists. The model produces the exact output string, whitespace included. It is the
  constant preamble followed by seven blocks joined by blank lines: the heading, the five
  optional sections and `\end{document}`. A section block is the empty string when its list is
  empty or absent.
- `escapeLatex` is modelled as the source writes it: four global replacement passes, one after
  another (backslash, then `& % $ # _ { }`, then `~`, then `^`). Because the brace pass runs after
  the backslash pass, a backslash comes out as `\textbackslash\{\}`.
- The pure list edits that the experience, co-curricular, skills and projects form components
  pass to `onChange`. Each is a function from the old list to the new one. The fresh id that
  `crypto.randomUUID()` would produce is a parameter.

Modules:

- `Resume`: the record types of lib/types/resume.ts. Optional properties are `Option<string>`,
  and `Truthy` gives JavaScript truthiness, so `Some("")` counts as absent.
- `Strings`: `join`, `split` on one character, `trim` (with the ECMAScript whitespace set
  written out) and substring occurrence and order.
- `Seqs`: `filter`, `map`, and replacement and deletion by position.
- `Escape`, `Template`: the generator.
- `TemplateProps`, `EntryProps`: what the generated document promises.
- `ExperienceForm`, `CoCurricularForm`, `SkillsForm`, `ProjectsForm`: the list edits.
- `Bullets`: the bullet edits the experience and co-curricular forms share, on one description.

Three behaviours of the code are not what a reader would expect; the model follows the code:

- lib/latex/template.ts:13-14: the backslash pass writes `\textbackslash{}`, and the next pass
  escapes every brace, those two included. A backslash therefore becomes `\textbackslash\{\}`,
  which LaTeX prints as `\{}` rather than as a lone backslash (`Escape.EscapeLoneBackslash`).
  The output is still safe LaTeX (`Escape.EscapeIsSafe`) and still loses nothing
  (`Escape.EscapeRoundTrip`).
- lib/latex/template.ts:164: a project link is escaped in the `\href` target as well as in the
  shown text, so a URL holding `_`, `%`, `#` or `~` reaches `\href` as escaped text rather than
  as the URL (`EntryProps.ProjectLinkIff`, `EntryProps.ProjectLinkEscapedBothWays`).
- lib/latex/template.ts:21: the phone number is inserted as typed, while every other free-text
  value goes through `escapeLatex` (`EntryProps.ContactShown` states the phone part is the phone
  itself). A phone containing LaTeX commands therefore reaches the document unchanged.

## Model

| member | source | states |
|---|---|---|
| Escape.EscapeLatex | lib/latex/template.ts:11-17 | the four replacement passes in source order; no contract of its own, its properties are carried by `Escape.EscapeIsPerChar`, `Escape.EscapeLoneBackslash`, `Escape.EscapeIsSafe` and `Escape.EscapeRoundTrip` |
| Template.GenerateLatexResume | lib/latex/template.ts:7-170 | the whole output string, the preamble followed by the seven blocks joined by blank lines; no contract of its own, carried by `TemplateProps.DocumentStart`, `TemplateProps.DocumentOrder`, `TemplateProps.DocumentEnd`, `TemplateProps.EmptyRecordDocument` the five `InListOrder` lemmas, the five `Shown` lemmas (every entry of every list reaches the document) and `TemplateProps.ContactInDocument` |
| Template.Compact | lib/latex/template.ts:26 | `.filter(Boolean)` on the contact candidates: one part per non-null, non-empty candidate, each part is the text of such a candidate, and every such candidate's text is a part |
| Template.ContactLine | lib/latex/template.ts:20-26 | the kept contact parts joined by a separator of space, `$`, vertical bar, `$`, space; no contract of its own, carried by `EntryProps.ContactCount`, `EntryProps.ContactShown`, `EntryProps.ContactOrder`, `EntryProps.ContactLineEmpty`, `EntryProps.ContactPhoneAndEmail` and `EntryProps.ContactPartsAreChannels` |
| Template.HeadingBlock | lib/latex/template.ts:103-107 | the `center` block with the escaped name and the contact line; no contract of its own, carried by `TemplateProps.HeadingHasName` and `TemplateProps.HeadingHasContact` |
| TemplateProps.HeadingHasName | lib/latex/template.ts:105 | the heading contains the bold small-caps line with the escaped full name |
| TemplateProps.HeadingHasContact | lib/latex/template.ts:105-106 | the heading holds the name line and, after it, the contact line |
| TemplateProps.ContactInDocument | lib/latex/template.ts:103-107 | the document holds the name line and, after it, the contact line |
| Template.EducationSection | lib/latex/template.ts:109-117 | the education block; no contract of its own, carried by `TemplateProps.EducationBlock`, `TemplateProps.SectionBlock`, `TemplateProps.EducationShown` and `TemplateProps.EducationInListOrder` |
| Template.EducationEntry | lib/latex/template.ts:113-115 | one `\resumeSubheading` with institution, location, degree, GPA suffix and dates; no contract of its own, carried by `EntryProps.EducationFields`, `EntryProps.GpaShown` and `EntryProps.GpaInEntry` |
| Template.ExperienceSection | lib/latex/template.ts:119-132 | the experience block; no contract of its own, carried by `TemplateProps.ExperienceBlock`, `TemplateProps.SectionBlock`, `TemplateProps.ExperienceShown` and `TemplateProps.ExperienceInListOrder` |
| Template.SubheadingEntry | lib/latex/template.ts:123-129 | one `\resumeSubheading` with four escaped fields and the bullet list; no contract of its own, carried by `EntryProps.SubheadingFields` and `EntryProps.SubheadingAlwaysEmitted` |
| Template.BulletList | lib/latex/template.ts:127-129 | the item list of the bullets that are not blank after trimming; no contract of its own, carried by `EntryProps.BulletListEmptyIff`, `EntryProps.BulletShown`, `EntryProps.BulletsInOrder`, `EntryProps.BlankBulletIgnored`, `EntryProps.BlankBulletAppended` and `EntryProps.OneRealBullet` |
| Template.CoCurricularSection | lib/latex/template.ts:134-147 | the co-curricular block; no contract of its own, carried by `TemplateProps.CoCurricularBlock`, `TemplateProps.SectionBlock`, `TemplateProps.ActivityShown` and `TemplateProps.ActivitiesInListOrder` |
| Template.SkillsSection | lib/latex/template.ts:149-157 | the skills block; no contract of its own, carried by `TemplateProps.SkillsBlock`, `TemplateProps.SectionBlock`, `TemplateProps.SkillShown` and `TemplateProps.SkillsInListOrder` |
| Template.SkillLine | lib/latex/template.ts:154 | one skill category line; no contract of its own, carried by `EntryProps.SkillCategoryLeads`, `EntryProps.SkillItemsInOrder` and `EntryProps.SkillItemsAdjacent` |
| Template.ProjectsSection | lib/latex/template.ts:159-167 | the projects block; no contract of its own, carried by `TemplateProps.ProjectsBlock`, `TemplateProps.SectionBlock`, `TemplateProps.ProjectShown` and `TemplateProps.ProjectsInListOrder` |
| Template.ProjectLine | lib/latex/template.ts:164 | one project line with its optional link; no contract of its own, carried by `EntryProps.ProjectLinkIff` and `EntryProps.ProjectLinkEscapedBothWays` |
| Escape.EscapeIsPerChar | lib/latex/template.ts:11-17 | the four successive passes equal one per-character substitution applied to every character in order |
| Escape.EscapeCharTable | lib/latex/template.ts:13-16 | each of `\ & % $ # _ { } ~ ^` becomes a sequence starting with a backslash, each of `& % $ # _ { }` becomes itself after one backslash, and every other character is kept as it is |
| Escape.EscapeLoneBackslash | lib/latex/template.ts:13-14 | because the brace pass runs after the backslash pass, `\` escapes to `\textbackslash\{\}` and not to `\textbackslash{}` |
| Escape.EscapeOneChar | lib/latex/template.ts:11-17 | a one-character string escapes to that character's table entry (`~` to `\textasciitilde{}`, `^` to `\textasciicircum{}`) |
| Escape.EscapeEmpty | lib/latex/template.ts:11-17 | the empty string escapes to the empty string |
| Escape.EscapePlain | lib/latex/template.ts:11-17 | text with no reserved character is returned unchanged |
| Escape.EscapeAppend | lib/latex/template.ts:11-17 | escaping a concatenation is the concatenation of the escapes |
| Escape.EscapeIsSafe | lib/latex/template.ts:11-17 | escaped text has no `~` or `^`, a backslash before every `& % $ # _`, every backslash starts `\t…` or an escaped special, and every unescaped brace is part of an empty `{}` |
| Escape.EscapedHasNoCommand | lib/latex/template.ts:11-17 | escaped user text cannot contain a command such as `\href` or `\section` |
| Escape.EscapeRoundTrip | lib/latex/template.ts:11-17 | reading the escaped text back recovers the input, so the escaper is injective |
| Strings.Trim | lib/latex/template.ts:127 | `trim()` gives the slice of the input left once whitespace is cut from its two ends and nowhere else, with no whitespace at either end of its own; it is empty exactly when the input is all whitespace |
| Strings.TrimUnique | lib/latex/template.ts:127 | only one string is such a slice, so the contract of `Strings.Trim` fixes its result completely |
| Strings.Split | components/resumeow/skills-form.tsx:30 | `split(",")` gives one piece per comma plus one, no piece holds a comma, and joining the pieces with the comma gives back the input |
| Strings.SplitJoin | components/resumeow/skills-form.tsx:30 | splitting undoes joining when no part contains the separator |
| Strings.JoinInOrder | lib/latex/template.ts:106 | `join` keeps the parts in list order |
| Strings.JoinAdjacent | lib/latex/template.ts:106 | neighbouring parts are separated by exactly one separator |
| EntryProps.CandidateMatchesChannel | lib/latex/template.ts:20-25 | the k-th candidate is kept exactly when the k-th channel is a non-empty string; phone is raw, email is a `mailto:` link and linkedin, website and github are `https://` links, each with the escaped handle as target and as underlined text |
| EntryProps.ContactCount | lib/latex/template.ts:20-26 | the contact line has one part per non-empty channel and no other part |
| EntryProps.ContactShown | lib/latex/template.ts:20-26 | every non-empty channel appears on the contact line with its link text |
| EntryProps.ContactOrder | lib/latex/template.ts:20-26 | non-empty channels appear in the order phone, email, linkedin, website, github |
| EntryProps.PartsFrom | lib/latex/template.ts:20-26 | the candidates from channel k on, filtered and unwrapped, are exactly the texts of the non-empty channels from k on, in channel order |
| EntryProps.ContactPartsAreChannels | lib/latex/template.ts:20-26 | `contactParts` equals the list of texts of the non-empty channels in the order phone, email, linkedin, website, github, and the contact line is that list joined by the separator |
| EntryProps.ContactLineEmpty | lib/latex/template.ts:26 | the contact line is empty exactly when no channel is non-empty, so there are no stray separators |
| EntryProps.ContactPhoneAndEmail | lib/latex/template.ts:106 | with only phone and email set, the line is exactly the phone, the contact separator and the mailto link |
| EntryProps.BulletListEmptyIff | lib/latex/template.ts:127-129 | the `\resumeItemListStart`/`End` pair is omitted exactly when every bullet trims to empty |
| EntryProps.BulletShown | lib/latex/template.ts:128 | every bullet that is not blank is emitted as one escaped `\resumeItem` |
| EntryProps.BulletsInOrder | lib/latex/template.ts:128 | bullets that are not blank are emitted in description order |
| EntryProps.BlankBulletIgnored | lib/latex/template.ts:127-128 | deleting a blank bullet does not change the emitted list |
| EntryProps.BlankBulletAppended | lib/latex/template.ts:127-129 | appending an empty bullet does not change the emitted list |
| EntryProps.SubheadingAlwaysEmitted | lib/latex/template.ts:123-129 | the `\resumeSubheading` of an entry is emitted even when no bullet is left, and an all-blank description renders exactly as an empty one |
| EntryProps.OneRealBullet | lib/latex/template.ts:127-129 | two blank bullets and one real one give an item list with exactly one `\resumeItem` |
| EntryProps.SpacesAreBlank | lib/latex/template.ts:127 | `""`, `"  "` and `"\t\n"` are blank and `" x "` is not |
| EntryProps.GpaShown | lib/latex/template.ts:115 | a non-empty GPA is shown as ` (gpa)` right after the escaped degree; an empty or missing one renders as no GPA |
| EntryProps.SkillCategoryLeads | lib/latex/template.ts:154 | the skills line holds `\textbf{` with the escaped category and `}{: `, and that comes before the first escaped item |
| EntryProps.SkillItemsInOrder | lib/latex/template.ts:154 | each skill item appears escaped, in list order |
| EntryProps.SkillItemsAdjacent | lib/latex/template.ts:154 | neighbouring skill items are separated by exactly `, ` |
| EntryProps.ProjectLinkIff | lib/latex/template.ts:164 | a project `\href` is emitted exactly when the link is non-empty, and it carries the escaped link as both target and text |
| EntryProps.ProjectLinkEscapedBothWays | lib/latex/template.ts:164 | worked example: link `a_b.com` appears as `a\_b.com` in the target and in the text |
| TemplateProps.EducationBlock | lib/latex/template.ts:109-117 | the education block is non-empty exactly when the list has entries, and then it holds `\section{Education}` |
| TemplateProps.ExperienceBlock | lib/latex/template.ts:119-132 | the experience block is non-empty exactly when the list has entries, and then it holds `\section{Experience}` |
| TemplateProps.CoCurricularBlock | lib/latex/template.ts:134-147 | the co-curricular block is non-empty exactly when the list is present with entries, and then it holds `\section{Co-Curricular Activities}` |
| TemplateProps.SkillsBlock | lib/latex/template.ts:149-157 | the skills block is non-empty exactly when the list has entries, and then it holds `\section{Skills}` |
| TemplateProps.ProjectsBlock | lib/latex/template.ts:159-167 | the projects block is non-empty exactly when the list is present with entries, and then it holds `\section{Relevant Projects}` |
| TemplateProps.SectionBlock | lib/latex/template.ts:109-167 | each of the five sections is emitted if and only if its list is non-empty, with an absent list counting as empty |
| TemplateProps.DocumentStart | lib/latex/template.ts:28-101 | the document starts with `\documentclass[letterpaper,11pt]{article}` and the constant preamble |
| TemplateProps.DocumentOrder | lib/latex/template.ts:103-169 | the escaped name heading, the emitted sections and `\end{document}` appear in the fixed order heading, education, experience, co-curricular, skills, projects, end |
| TemplateProps.DocumentEnd | lib/latex/template.ts:169 | the document ends with `\end{document}` |
| TemplateProps.EmptyRecordDocument | lib/latex/template.ts:28-169 | with every list empty or absent, the document is exactly the preamble, the heading, six blank-line separators and `\end{document}`: no section block is emitted (the raw phone inside the heading is still copied as typed) |
| TemplateProps.EducationInListOrder | lib/latex/template.ts:113-115 | education entries appear in list order |
| TemplateProps.ExperienceInListOrder | lib/latex/template.ts:123-129 | experience entries appear in list order |
| TemplateProps.ActivitiesInListOrder | lib/latex/template.ts:138-144 | co-curricular entries appear in list order |
| TemplateProps.SkillsInListOrder | lib/latex/template.ts:154 | skill lines appear in list order |
| TemplateProps.ProjectsInListOrder | lib/latex/template.ts:164 | project lines appear in list order |
| TemplateProps.EducationShown | lib/latex/template.ts:113-115 | every education entry, one-entry lists included, is in the document |
| TemplateProps.ExperienceShown | lib/latex/template.ts:123-129 | every experience entry, one-entry lists included, is in the document |
| TemplateProps.ActivityShown | lib/latex/template.ts:138-144 | every co-curricular entry of a present list, one-entry lists included, is in the document |
| TemplateProps.SkillShown | lib/latex/template.ts:154 | every skill category line, one-entry lists included, is in the document |
| TemplateProps.ProjectShown | lib/latex/template.ts:164 | every project line of a present list, one-entry lists included, is in the document |
| EntryProps.EducationFields | lib/latex/template.ts:113-115 | an education entry puts the escaped institution and location cells before the degree-with-GPA and dates cells |
| EntryProps.SubheadingFields | lib/latex/template.ts:124-129 | an experience or activity entry puts the escaped title and date cells first, then the escaped organisation and location cells, then the bullet list |
| ExperienceForm.AddExperience | components/resumeow/experience-form.tsx:14-24 | exactly one entry is appended, with the fresh id, empty position, dateRange, company and location and the description `[""]` (one empty bullet), which renders no bullet; earlier entries are unchanged |
| ExperienceForm.UpdateExperience | components/resumeow/experience-form.tsx:26-30 | entries with the id get the field edit and all others are kept; length and order are preserved |
| ExperienceForm.UpdateKeepsIds | components/resumeow/experience-form.tsx:26-30 | an edit of any field but the id keeps every id in place |
| ExperienceForm.UpdateIdempotent | components/resumeow/experience-form.tsx:26-30 | applying the same field edit twice equals applying it once |
| ExperienceForm.UpdateUnknownId | components/resumeow/experience-form.tsx:26-30 | an id no entry carries changes nothing |
| ExperienceForm.RemoveExperience | components/resumeow/experience-form.tsx:32-39 | with at most one entry the removal is refused with the alert; otherwise the result is a subsequence holding exactly the entries without the id, as many as `data` has, duplicates included |
| ExperienceForm.RemoveLeavesOne | components/resumeow/experience-form.tsx:32-39 | with unique ids an accepted removal never empties the list |
| ExperienceForm.AddThenRemove | components/resumeow/experience-form.tsx:14-39 | removing a just-added entry by its fresh id restores the list |
| Bullets.Add | components/resumeow/experience-form.tsx:44 | one empty bullet is appended after the existing ones, which are kept in place |
| Bullets.AddRendersSame | components/resumeow/experience-form.tsx:41-47 | the appended empty bullet is blank, so the emitted item list is unchanged |
| Bullets.RemoveAdded | components/resumeow/experience-form.tsx:41-75 | deleting the position the added bullet took gives the description back |
| Bullets.UpdateSameText | components/resumeow/experience-form.tsx:49-62 | writing a bullet's own text back at its position changes nothing |
| Bullets.RemoveKeepsOne | components/resumeow/experience-form.tsx:186 | a deletion from a description of more than one bullet leaves at least one |
| ExperienceForm.AddBullet | components/resumeow/experience-form.tsx:41-47 | `""` is appended to the description of the entries with the id only |
| ExperienceForm.AddBulletRendersSame | components/resumeow/experience-form.tsx:41-47 | the added blank bullet does not change the generated entry |
| ExperienceForm.UpdateBullet | components/resumeow/experience-form.tsx:49-62 | position `index` of the matching entries' descriptions is replaced and the length is kept; an out-of-range index changes nothing |
| ExperienceForm.UpdateBulletSameText | components/resumeow/experience-form.tsx:49-62 | writing back a bullet's own text changes nothing |
| ExperienceForm.RemoveBullet | components/resumeow/experience-form.tsx:64-75 | position `index` is deleted from the matching entries' descriptions and the other bullets keep their order |
| ExperienceForm.RemoveBulletKeepsOne | components/resumeow/experience-form.tsx:186 | removal is offered only when there is more than one bullet, so a description never becomes empty through the form |
| ExperienceForm.AddThenRemoveBullet | components/resumeow/experience-form.tsx:41-75 | removing the bullet just added restores the list |
| CoCurricularForm.AddActivity | components/resumeow/cocurricular-form.tsx:13-23 | exactly one entry is appended, with the fresh id, empty position, dateRange, organization and location and the description `[""]` (one empty bullet), which renders no bullet; earlier activities are unchanged |
| CoCurricularForm.UpdateActivity | components/resumeow/cocurricular-form.tsx:25-29 | entries with the id get the field edit and all others are kept; length and order are preserved |
| CoCurricularForm.UpdateKeepsIds | components/resumeow/cocurricular-form.tsx:25-29 | an edit of any field but the id keeps every id in place |
| CoCurricularForm.UpdateIdempotent | components/resumeow/cocurricular-form.tsx:25-29 | applying the same field edit twice equals applying it once |
| CoCurricularForm.UpdateUnknownId | components/resumeow/cocurricular-form.tsx:25-29 | an id no entry carries changes nothing |
| CoCurricularForm.RemoveActivity | components/resumeow/cocurricular-form.tsx:31-33 | the result is a subsequence holding exactly the entries without the id, as many as `data` has, duplicates included, with no minimum |
| CoCurricularForm.RemoveLastActivity | components/resumeow/cocurricular-form.tsx:31-33 | removing the only activity empties the list |
| CoCurricularForm.RemoveActivityCount | components/resumeow/cocurricular-form.tsx:31-33 | with unique ids exactly one entry goes when the id is present, and none otherwise |
| CoCurricularForm.AddThenRemove | components/resumeow/cocurricular-form.tsx:13-33 | removing a just-added activity by its fresh id restores the list |
| CoCurricularForm.AddBullet | components/resumeow/cocurricular-form.tsx:35-41 | `""` is appended to the description of the activities with the id only |
| CoCurricularForm.AddBulletRendersSame | components/resumeow/cocurricular-form.tsx:35-41 | the added blank bullet does not change the generated entry |
| CoCurricularForm.UpdateBullet | components/resumeow/cocurricular-form.tsx:43-56 | exactly position `index` is replaced and the description length is kept |
| CoCurricularForm.UpdateBulletSameText | components/resumeow/cocurricular-form.tsx:43-56 | writing back a bullet's own text changes nothing |
| CoCurricularForm.RemoveBullet | components/resumeow/cocurricular-form.tsx:58-69 | exactly position `index` is deleted and the other bullets keep their order |
| CoCurricularForm.RemoveBulletKeepsOne | components/resumeow/cocurricular-form.tsx:166 | removal is offered only when there is more than one bullet, so a description never becomes empty through the form |
| CoCurricularForm.AddThenRemoveBullet | components/resumeow/cocurricular-form.tsx:35-69 | removing the bullet just added restores the list |
| SkillsForm.AddSkillCategory | components/resumeow/skills-form.tsx:13-19 | `{category: "", items: [""]}` is appended and earlier categories are unchanged |
| SkillsForm.UpdateCategory | components/resumeow/skills-form.tsx:21-25 | only the category at the index changes; its items and every other entry are kept |
| SkillsForm.ParseItems | components/resumeow/skills-form.tsx:30 | there is one item per comma plus one, item `k` is the `k`-th comma-separated piece with its surrounding whitespace cut off, and no item holds a comma |
| SkillsForm.UpdateCategorySameText | components/resumeow/skills-form.tsx:66-68 | the category input shows `skill.category`, so typing it back changes nothing |
| SkillsForm.UpdateCategoryIdempotent | components/resumeow/skills-form.tsx:21-25 | renaming a category twice to the same name is renaming it once |
| SkillsForm.ParseEmpty | components/resumeow/skills-form.tsx:30 | the empty input gives `[""]` |
| SkillsForm.UpdateItems | components/resumeow/skills-form.tsx:27-33 | the items at the index become the parsed text and the category and every other entry are kept |
| SkillsForm.RemoveCategory | components/resumeow/skills-form.tsx:35-37 | exactly position `index` is deleted and the rest keep their order; an out-of-range index changes nothing |
| SkillsForm.UpdateItemsIdempotent | components/resumeow/skills-form.tsx:27-33 | entering the same items text twice is entering it once |
| SkillsForm.AddThenRemoveCategory | components/resumeow/skills-form.tsx:13-37 | removing the category just added restores the list |
| SkillsForm.ItemsRoundTrip | components/resumeow/skills-form.tsx:30 | parsing the displayed `items.join(", ")` gives back the items when none has a comma or surrounding whitespace |
| SkillsForm.UpdateItemsWithShownText | components/resumeow/skills-form.tsx:79 | re-entering the displayed text through `updateItems` changes nothing |
| ProjectsForm.AddProject | components/resumeow/projects-form.tsx:13-20 | exactly one project is appended, with the fresh id, an empty name and the link `""`, which counts as absent; earlier projects are unchanged |
| ProjectsForm.FreshProjectHasNoHref | components/resumeow/projects-form.tsx:18 | the line of a freshly added project holds no `\href` |
| ProjectsForm.UpdateProject | components/resumeow/projects-form.tsx:22-26 | projects with the id get the field edit and all others are kept; length and order are preserved |
| ProjectsForm.UpdateIdempotent | components/resumeow/projects-form.tsx:22-26 | applying the same field edit twice equals applying it once |
| ProjectsForm.UpdateUnknownId | components/resumeow/projects-form.tsx:22-26 | an id no project carries changes nothing |
| ProjectsForm.RemoveProject | components/resumeow/projects-form.tsx:28-30 | the result is a subsequence holding exactly the projects without the id, as many as `data` has, duplicates included |
| ProjectsForm.RemoveProjectCount | components/resumeow/projects-form.tsx:28-30 | with unique ids exactly one project goes when the id is present, and none otherwise |
| ProjectsForm.AddThenRemove | components/resumeow/projects-form.tsx:13-30 | removing a just-added project by its fresh id restores the list |

## Left out

- The compilation route (app/api/compile-resume/route.ts): it is a network call to an external LaTeX service plus HTTP response handling. No archive packaging exists in the code.
- Persistence (lib/services/resume-service.ts, lib/supabase/client.ts): these are thin wrappers over a hosted database client.
- The education form (components/resumeow/education-form.tsx) targets an older record shape with start and end dates, and its list edits repeat those of the other forms.
- The personal-info form, the page component, navigation, scrolling and static pages: they are UI state, DOM access and constant text.
- `crypto.randomUUID`: fresh ids are parameters. Lemmas that need distinct ids take uniqueness as a precondition.
- `Strings.IsWhitespace`: `trim()` is approximated by the fixed ECMAScript WhiteSpace and LineTerminator code points. The model has no Unicode property lookup.
- `updateExperience`, `updateActivity` and `updateProject` take any field name and any value (`value: any`). The model uses one edit constructor per field with the field's own type, so ill-typed values are not modelled.
- `alert()` in `removeExperience` becomes the `Refused` result carrying the alert text.
- The generator's determinism holds because every member is a mathematical function. It needs no separate statement.
