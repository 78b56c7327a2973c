/** What the generated document promises: its fixed frame, which sections
    appear and in what order, and that entries keep the order of their lists. */
module TemplateProps {
  import opened Strings
  import opened Seqs
  import opened Resume
  import opened Escape
  import opened Template

  /* ---------------------------------------------------------------------
     Sections
     --------------------------------------------------------------------- */

  /** Titles of the five optional sections; block `k` holds section `k`. */
  function SectionTitle(k: int): string
    requires 1 <= k <= 5
  {
    ["Education", "Experience", "Co-Curricular Activities", "Skills", "Relevant Projects"][k - 1]
  }

  /** The record has entries for section `k`; an absent optional list counts as empty. */
  predicate SectionPresent(d: ResumeData, k: int)
    requires 1 <= k <= 5
  {
    if k == 1 then |d.education| > 0
    else if k == 2 then |d.experience| > 0
    else if k == 3 then d.coCurricularActivities.Some? && |d.coCurricularActivities.value| > 0
    else if k == 4 then |d.skills| > 0
    else d.projects.Some? && |d.projects.value| > 0
  }

  lemma MarkerInOpen(pre: string, title: string, post: string)
    ensures Contains(pre + SectionMarker(title) + post, SectionMarker(title))
  {
    ContainsSelf(SectionMarker(title));
    ContainsInfix(pre, SectionMarker(title), post, SectionMarker(title));
  }

  /** A list section is empty exactly when its list is, and otherwise
      contains whatever its opening text contains. */
  lemma ListSectionShape(open: string, entries: seq<string>, close: string, pat: string)
    requires Contains(open, pat) && open != ""
    ensures |entries| > 0 <==> ListSection(open, entries, close) != ""
    ensures |entries| > 0 ==> Contains(ListSection(open, entries, close), pat)
  {
    if |entries| > 0 {
      ContainsLeft(open, Join(entries, "\n"), pat);
      ContainsLeft(open + Join(entries, "\n"), close, pat);
    }
  }

  lemma ListSectionInOrder(open: string, entries: seq<string>, close: string, i: int, j: int)
    requires 0 <= i < j < |entries|
    ensures InOrder(ListSection(open, entries, close), entries[i], entries[j])
  {
    JoinInOrder(entries, "\n", i, j);
    InOrderInfix(open, Join(entries, "\n"), close, entries[i], entries[j]);
  }

  lemma EducationBlock(xs: seq<Education>)
    ensures |xs| > 0 <==> EducationSection(xs) != ""
    ensures |xs| > 0 ==> Contains(EducationSection(xs), SectionMarker("Education"))
  {
    MarkerInOpen("\n%-----------EDUCATION-----------\n", "Education", "\n  \\resumeSubHeadingListStart\n");
    ListSectionShape(EducationOpen, Map(xs, EducationEntry), EducationClose, SectionMarker("Education"));
  }

  lemma ExperienceBlock(xs: seq<Experience>)
    ensures |xs| > 0 <==> ExperienceSection(xs) != ""
    ensures |xs| > 0 ==> Contains(ExperienceSection(xs), SectionMarker("Experience"))
  {
    MarkerInOpen("\n%-----------EXPERIENCE-----------\n", "Experience", "\n    \\resumeSubHeadingListStart\n");
    ListSectionShape(ExperienceOpen, Map(xs, ExperienceEntry), SubheadingListClose, SectionMarker("Experience"));
  }

  lemma CoCurricularBlock(xs: Option<seq<CoCurricularActivity>>)
    ensures xs.Some? && |xs.value| > 0 <==> CoCurricularSection(xs) != ""
    ensures xs.Some? && |xs.value| > 0 ==>
              Contains(CoCurricularSection(xs), SectionMarker("Co-Curricular Activities"))
  {
    MarkerInOpen("\n%-----------Co-Curricular Activities-----------\n", "Co-Curricular Activities",
                 "\n    \\resumeSubHeadingListStart\n");
    ListSectionShape(CoCurricularOpen, Map(OrEmpty(xs), ActivityEntry), SubheadingListClose,
                     SectionMarker("Co-Curricular Activities"));
  }

  lemma SkillsBlock(xs: seq<Skill>)
    ensures |xs| > 0 <==> SkillsSection(xs) != ""
    ensures |xs| > 0 ==> Contains(SkillsSection(xs), SectionMarker("Skills"))
  {
    MarkerInOpen("\n%-----------SKILLS-----------\n", "Skills", "\n");
    ContainsLeft("\n%-----------SKILLS-----------\n" + SectionMarker("Skills") + "\n", ItemizeOpen,
                 SectionMarker("Skills"));
    ListSectionShape(SkillsOpen, Map(xs, SkillLine), ItemizeClose, SectionMarker("Skills"));
  }

  lemma ProjectsBlock(xs: Option<seq<Project>>)
    ensures xs.Some? && |xs.value| > 0 <==> ProjectsSection(xs) != ""
    ensures xs.Some? && |xs.value| > 0 ==> Contains(ProjectsSection(xs), SectionMarker("Relevant Projects"))
  {
    MarkerInOpen("\n%-----------Relevant Links and Past Works-----------\n", "Relevant Projects", "\n");
    ContainsLeft("\n%-----------Relevant Links and Past Works-----------\n" + SectionMarker("Relevant Projects")
                 + "\n", ItemizeOpen, SectionMarker("Relevant Projects"));
    ListSectionShape(ProjectsOpen, Map(OrEmpty(xs), ProjectLine), ItemizeClose, SectionMarker("Relevant Projects"));
  }

  /** Section `k` is emitted exactly when its list has entries, and then it
      carries its `\section{...}` heading. */
  lemma SectionBlock(d: ResumeData, k: int)
    requires 1 <= k <= 5
    ensures SectionPresent(d, k) <==> Blocks(d)[k] != ""
    ensures SectionPresent(d, k) ==> Contains(Blocks(d)[k], SectionMarker(SectionTitle(k)))
  {
    var b := Blocks(d);
    if k == 1 {
      assert b[1] == EducationSection(d.education);
      EducationBlock(d.education);
    } else if k == 2 {
      assert b[2] == ExperienceSection(d.experience);
      ExperienceBlock(d.experience);
    } else if k == 3 {
      assert b[3] == CoCurricularSection(d.coCurricularActivities);
      CoCurricularBlock(d.coCurricularActivities);
    } else if k == 4 {
      assert b[4] == SkillsSection(d.skills);
      SkillsBlock(d.skills);
    } else {
      assert b[5] == ProjectsSection(d.projects);
      ProjectsBlock(d.projects);
    }
  }

  /* ---------------------------------------------------------------------
     The document as a whole
     --------------------------------------------------------------------- */

  /** A string that identifies block `k`: the name line of the heading, a
      section's `\section{...}` command, or `\end{document}`. */
  function BlockMarker(d: ResumeData, k: int): string
    requires 0 <= k <= 6
  {
    if k == 0 then NameLine(d.personalInfo.fullName)
    else if k == 6 then EndDocument
    else SectionMarker(SectionTitle(k))
  }

  /** Block `k` is emitted: the heading and the closing line always are. */
  predicate BlockPresent(d: ResumeData, k: int)
    requires 0 <= k <= 6
  {
    k == 0 || k == 6 || SectionPresent(d, k)
  }

  /** In `a + b + c + x + e`, `b` is present and `x` follows it. */
  lemma SecondThenFourth(a: string, b: string, c: string, x: string, e: string)
    ensures Contains(a + b + c + x + e, b)
    ensures InOrder(a + b + c + x + e, b, x)
  {
    ContainsSelf(b);
    ContainsRight(a, b, b);
    ContainsSelf(x);
    ContainsInfix(c, x, e, x);
    InOrderConcat(a + b, c + x + e, b, x);
    assert a + b + (c + x + e) == a + b + c + x + e;
    ContainsLeft(a + b, c + x + e, b);
  }

  lemma HeadingHasName(p: PersonalInfo)
    ensures Contains(HeadingBlock(p), NameLine(p.fullName))
  {
    SecondThenFourth(HeadingOpen, NameLine(p.fullName), ContactLead, ContactLine(p), HeadingClose);
  }

  lemma BlockContainsMarker(d: ResumeData, k: int)
    requires 0 <= k <= 6 && BlockPresent(d, k)
    ensures Contains(Blocks(d)[k], BlockMarker(d, k))
  {
    if k == 0 {
      HeadingHasName(d.personalInfo);
    } else if k == 6 {
      ContainsSelf(EndDocument);
    } else {
      SectionBlock(d, k);
    }
  }

  /** Every block occurs in the body of the document. */
  lemma BlockInBody(d: ResumeData, k: int)
    requires 0 <= k <= 6
    ensures Contains(Body(d), Blocks(d)[k])
  {
    JoinContainsPart(Blocks(d), BlockSeparator, k);
  }

  /** The emitted blocks follow one another in the body in their fixed order. */
  lemma BodyOrder(d: ResumeData, a: int, b: int)
    requires 0 <= a < b <= 6
    requires BlockPresent(d, a) && BlockPresent(d, b)
    ensures Contains(Body(d), BlockMarker(d, a))
    ensures InOrder(Body(d), BlockMarker(d, a), BlockMarker(d, b))
  {
    BlockContainsMarker(d, a);
    BlockContainsMarker(d, b);
    BlockInBody(d, a);
    ContainsTransitive(Body(d), Blocks(d)[a], BlockMarker(d, a));
    JoinInOrder(Blocks(d), BlockSeparator, a, b);
    InOrderNarrow(Body(d), Blocks(d)[a], Blocks(d)[b], BlockMarker(d, a), BlockMarker(d, b));
  }

  /** Every emitted block shows up in the document, in the fixed order: the
      heading with the escaped name, then education, experience,
      co-curricular activities, skills and projects (each only when its list
      has entries), then `\end{document}`. */
  lemma DocumentOrder(d: ResumeData, a: int, b: int)
    requires 0 <= a < b <= 6
    requires BlockPresent(d, a) && BlockPresent(d, b)
    ensures Contains(GenerateLatexResume(d), BlockMarker(d, a))
    ensures InOrder(GenerateLatexResume(d), BlockMarker(d, a), BlockMarker(d, b))
  {
    BodyOrder(d, a, b);
    ContainsRight(Preamble, Body(d), BlockMarker(d, a));
    InOrderRight(Preamble, Body(d), BlockMarker(d, a), BlockMarker(d, b));
  }

  /** The document starts with the document class and the constant preamble. */
  lemma DocumentStart(d: ResumeData)
    ensures StartsWith(GenerateLatexResume(d), Preamble)
    ensures StartsWith(GenerateLatexResume(d), DocumentClass)
  {
    StartsWithWhole(Preamble);
    StartsWithAppend(Preamble, Body(d), Preamble);
    StartsWithWhole(DocumentClass);
    StartsWithAppend(DocumentClass, PreambleBody, DocumentClass);
    StartsWithAppend(Preamble, Body(d), DocumentClass);
  }

  /** The document ends with `\end{document}`, whatever the record holds. */
  lemma DocumentEnd(d: ResumeData)
    ensures EndsWith(GenerateLatexResume(d), EndDocument)
  {
    JoinEndsWithLast(Blocks(d), BlockSeparator);
    EndsWithAppend(Preamble, Body(d), EndDocument);
  }

  lemma JoinBlankStep(parts: seq<string>, i: int, sep: string)
    requires 0 <= i < |parts| - 1 && parts[i] == ""
    ensures Join(parts[i..], sep) == sep + Join(parts[i + 1..], sep)
  {
    assert parts[i..][1..] == parts[i + 1..];
  }

  /** Joining seven parts whose middle five are empty leaves only the six
      separators between the ends. */
  lemma JoinBlankMiddle(parts: seq<string>, sep: string)
    requires |parts| == 7 && forall k :: 1 <= k <= 5 ==> parts[k] == ""
    ensures Join(parts, sep) == parts[0] + (sep + sep + sep + sep + sep + sep) + parts[6]
  {
    assert Join(parts[6..], sep) == parts[6];
    JoinBlankStep(parts, 5, sep);
    JoinBlankStep(parts, 4, sep);
    JoinBlankStep(parts, 3, sep);
    JoinBlankStep(parts, 2, sep);
    JoinBlankStep(parts, 1, sep);
    var nested := sep + (sep + (sep + (sep + (sep + parts[6]))));
    assert Join(parts[1..], sep) == nested;
    assert parts[0] + sep + nested == parts[0] + (sep + sep + sep + sep + sep + sep) + parts[6];
  }


  /** With every list empty or absent, the body is the heading and
      `\end{document}` with the six block separators between them. */
  lemma EmptyRecordBody(d: ResumeData)
    requires |d.education| == 0 && |d.experience| == 0 && |d.skills| == 0
    requires d.coCurricularActivities.None? || |d.coCurricularActivities.value| == 0
    requires d.projects.None? || |d.projects.value| == 0
    ensures Body(d) == HeadingBlock(d.personalInfo) + (BlockSeparator + BlockSeparator + BlockSeparator
                       + BlockSeparator + BlockSeparator + BlockSeparator) + EndDocument
  {
    forall k | 1 <= k <= 5 ensures Blocks(d)[k] == "" {
      SectionBlock(d, k);
    }
    JoinBlankMiddle(Blocks(d), BlockSeparator);
  }

  /** A record with every list empty or absent produces only the preamble,
      the heading and `\end{document}`: no section block is emitted. (The
      phone goes into the heading unescaped, so it can still carry text of
      its own.) */
  lemma EmptyRecordDocument(d: ResumeData)
    requires |d.education| == 0 && |d.experience| == 0 && |d.skills| == 0
    requires d.coCurricularActivities.None? || |d.coCurricularActivities.value| == 0
    requires d.projects.None? || |d.projects.value| == 0
    ensures GenerateLatexResume(d)
         == Preamble + (HeadingBlock(d.personalInfo) + (BlockSeparator + BlockSeparator + BlockSeparator
                        + BlockSeparator + BlockSeparator + BlockSeparator) + EndDocument)
  {
    EmptyRecordBody(d);
  }

  /* ---------------------------------------------------------------------
     Entries keep list order
     --------------------------------------------------------------------- */

  /** Whatever is in order inside one block is in order in the body. */
  lemma LiftOrder(d: ResumeData, k: int, p: string, q: string)
    requires 0 <= k <= 6 && InOrder(Blocks(d)[k], p, q)
    ensures InOrder(Body(d), p, q)
  {
    BlockInBody(d, k);
    InOrderWithin(Body(d), Blocks(d)[k], p, q);
  }

  /** An entry list rendered as block `k` keeps its order in the body. */
  lemma EntriesInBody<T>(d: ResumeData, k: int, open: string, xs: seq<T>, f: T -> string,
                         close: string, i: int, j: int)
    requires 0 <= k <= 6 && 0 <= i < j < |xs|
    requires Blocks(d)[k] == ListSection(open, Map(xs, f), close)
    ensures InOrder(Body(d), f(xs[i]), f(xs[j]))
  {
    ListSectionInOrder(open, Map(xs, f), close, i, j);
    LiftOrder(d, k, f(xs[i]), f(xs[j]));
  }

  /** An entry list rendered as block `k` shows each of its entries in the body. */
  lemma EntryShownInBody<T>(d: ResumeData, k: int, open: string, xs: seq<T>, f: T -> string,
                            close: string, i: int)
    requires 0 <= k <= 6 && 0 <= i < |xs|
    requires Blocks(d)[k] == ListSection(open, Map(xs, f), close)
    ensures Contains(Body(d), f(xs[i]))
  {
    JoinContainsPart(Map(xs, f), "\n", i);
    ContainsInfix(open, Join(Map(xs, f), "\n"), close, f(xs[i]));
    BlockInBody(d, k);
    ContainsTransitive(Body(d), Blocks(d)[k], f(xs[i]));
  }

  lemma EducationInBody(d: ResumeData, i: int, j: int)
    requires 0 <= i < j < |d.education|
    ensures InOrder(Body(d), EducationEntry(d.education[i]), EducationEntry(d.education[j]))
  {
    EntriesInBody(d, 1, EducationOpen, d.education, EducationEntry, EducationClose, i, j);
  }

  /** Education entries appear in the document in the order of the list. */
  lemma EducationInListOrder(d: ResumeData, i: int, j: int)
    requires 0 <= i < j < |d.education|
    ensures InOrder(GenerateLatexResume(d), EducationEntry(d.education[i]), EducationEntry(d.education[j]))
  {
    EducationInBody(d, i, j);
    InOrderRight(Preamble, Body(d), EducationEntry(d.education[i]), EducationEntry(d.education[j]));
  }

  lemma ExperienceInBody(d: ResumeData, i: int, j: int)
    requires 0 <= i < j < |d.experience|
    ensures InOrder(Body(d), ExperienceEntry(d.experience[i]), ExperienceEntry(d.experience[j]))
  {
    EntriesInBody(d, 2, ExperienceOpen, d.experience, ExperienceEntry, SubheadingListClose, i, j);
  }

  /** Experience entries appear in the document in the order of the list. */
  lemma ExperienceInListOrder(d: ResumeData, i: int, j: int)
    requires 0 <= i < j < |d.experience|
    ensures InOrder(GenerateLatexResume(d), ExperienceEntry(d.experience[i]), ExperienceEntry(d.experience[j]))
  {
    ExperienceInBody(d, i, j);
    InOrderRight(Preamble, Body(d), ExperienceEntry(d.experience[i]), ExperienceEntry(d.experience[j]));
  }

  lemma ActivitiesInBody(d: ResumeData, i: int, j: int)
    requires d.coCurricularActivities.Some?
    requires 0 <= i < j < |d.coCurricularActivities.value|
    ensures InOrder(Body(d), ActivityEntry(d.coCurricularActivities.value[i]), ActivityEntry(d.coCurricularActivities.value[j]))
  {
    EntriesInBody(d, 3, CoCurricularOpen, d.coCurricularActivities.value, ActivityEntry,
                  SubheadingListClose, i, j);
  }

  /** Co-curricular entries appear in the document in the order of the list. */
  lemma ActivitiesInListOrder(d: ResumeData, i: int, j: int)
    requires d.coCurricularActivities.Some?
    requires 0 <= i < j < |d.coCurricularActivities.value|
    ensures InOrder(GenerateLatexResume(d), ActivityEntry(d.coCurricularActivities.value[i]), ActivityEntry(d.coCurricularActivities.value[j]))
  {
    ActivitiesInBody(d, i, j);
    InOrderRight(Preamble, Body(d), ActivityEntry(d.coCurricularActivities.value[i]), ActivityEntry(d.coCurricularActivities.value[j]));
  }

  lemma SkillsInBody(d: ResumeData, i: int, j: int)
    requires 0 <= i < j < |d.skills|
    ensures InOrder(Body(d), SkillLine(d.skills[i]), SkillLine(d.skills[j]))
  {
    EntriesInBody(d, 4, SkillsOpen, d.skills, SkillLine, ItemizeClose, i, j);
  }

  /** Skill lines appear in the document in the order of the list. */
  lemma SkillsInListOrder(d: ResumeData, i: int, j: int)
    requires 0 <= i < j < |d.skills|
    ensures InOrder(GenerateLatexResume(d), SkillLine(d.skills[i]), SkillLine(d.skills[j]))
  {
    SkillsInBody(d, i, j);
    InOrderRight(Preamble, Body(d), SkillLine(d.skills[i]), SkillLine(d.skills[j]));
  }

  lemma ProjectsInBody(d: ResumeData, i: int, j: int)
    requires d.projects.Some?
    requires 0 <= i < j < |d.projects.value|
    ensures InOrder(Body(d), ProjectLine(d.projects.value[i]), ProjectLine(d.projects.value[j]))
  {
    EntriesInBody(d, 5, ProjectsOpen, d.projects.value, ProjectLine, ItemizeClose, i, j);
  }

  /** Project lines appear in the document in the order of the list. */
  lemma ProjectsInListOrder(d: ResumeData, i: int, j: int)
    requires d.projects.Some?
    requires 0 <= i < j < |d.projects.value|
    ensures InOrder(GenerateLatexResume(d), ProjectLine(d.projects.value[i]), ProjectLine(d.projects.value[j]))
  {
    ProjectsInBody(d, i, j);
    InOrderRight(Preamble, Body(d), ProjectLine(d.projects.value[i]), ProjectLine(d.projects.value[j]));
  }

  /* ---------------------------------------------------------------------
     Every entry reaches the document
     --------------------------------------------------------------------- */

  lemma EducationShownInBody(d: ResumeData, i: int)
    requires 0 <= i < |d.education|
    ensures Contains(Body(d), EducationEntry(d.education[i]))
  {
    EntryShownInBody(d, 1, EducationOpen, d.education, EducationEntry, EducationClose, i);
  }

  /** Each education entry is emitted, a one-entry list included. */
  lemma EducationShown(d: ResumeData, i: int)
    requires 0 <= i < |d.education|
    ensures Contains(GenerateLatexResume(d), EducationEntry(d.education[i]))
  {
    EducationShownInBody(d, i);
    ContainsRight(Preamble, Body(d), EducationEntry(d.education[i]));
  }

  lemma ExperienceShownInBody(d: ResumeData, i: int)
    requires 0 <= i < |d.experience|
    ensures Contains(Body(d), ExperienceEntry(d.experience[i]))
  {
    EntryShownInBody(d, 2, ExperienceOpen, d.experience, ExperienceEntry, SubheadingListClose, i);
  }

  /** Each experience entry is emitted, a one-entry list included. */
  lemma ExperienceShown(d: ResumeData, i: int)
    requires 0 <= i < |d.experience|
    ensures Contains(GenerateLatexResume(d), ExperienceEntry(d.experience[i]))
  {
    ExperienceShownInBody(d, i);
    ContainsRight(Preamble, Body(d), ExperienceEntry(d.experience[i]));
  }

  lemma ActivityShownInBody(d: ResumeData, i: int)
    requires d.coCurricularActivities.Some? && 0 <= i < |d.coCurricularActivities.value|
    ensures Contains(Body(d), ActivityEntry(d.coCurricularActivities.value[i]))
  {
    EntryShownInBody(d, 3, CoCurricularOpen, d.coCurricularActivities.value, ActivityEntry,
                     SubheadingListClose, i);
  }

  /** Each co-curricular activity is emitted, a one-entry list included. */
  lemma ActivityShown(d: ResumeData, i: int)
    requires d.coCurricularActivities.Some? && 0 <= i < |d.coCurricularActivities.value|
    ensures Contains(GenerateLatexResume(d), ActivityEntry(d.coCurricularActivities.value[i]))
  {
    ActivityShownInBody(d, i);
    ContainsRight(Preamble, Body(d), ActivityEntry(d.coCurricularActivities.value[i]));
  }

  lemma SkillShownInBody(d: ResumeData, i: int)
    requires 0 <= i < |d.skills|
    ensures Contains(Body(d), SkillLine(d.skills[i]))
  {
    EntryShownInBody(d, 4, SkillsOpen, d.skills, SkillLine, ItemizeClose, i);
  }

  /** Each skill category line is emitted, a one-entry list included. */
  lemma SkillShown(d: ResumeData, i: int)
    requires 0 <= i < |d.skills|
    ensures Contains(GenerateLatexResume(d), SkillLine(d.skills[i]))
  {
    SkillShownInBody(d, i);
    ContainsRight(Preamble, Body(d), SkillLine(d.skills[i]));
  }

  lemma ProjectShownInBody(d: ResumeData, i: int)
    requires d.projects.Some? && 0 <= i < |d.projects.value|
    ensures Contains(Body(d), ProjectLine(d.projects.value[i]))
  {
    EntryShownInBody(d, 5, ProjectsOpen, d.projects.value, ProjectLine, ItemizeClose, i);
  }

  /** Each project line is emitted, a one-entry list included. */
  lemma ProjectShown(d: ResumeData, i: int)
    requires d.projects.Some? && 0 <= i < |d.projects.value|
    ensures Contains(GenerateLatexResume(d), ProjectLine(d.projects.value[i]))
  {
    ProjectShownInBody(d, i);
    ContainsRight(Preamble, Body(d), ProjectLine(d.projects.value[i]));
  }

  /* ---------------------------------------------------------------------
     The contact line reaches the document
     --------------------------------------------------------------------- */

  /** The heading carries the name line and, after it, the contact line. */
  lemma HeadingHasContact(p: PersonalInfo)
    ensures InOrder(HeadingBlock(p), NameLine(p.fullName), ContactLine(p))
  {
    SecondThenFourth(HeadingOpen, NameLine(p.fullName), ContactLead, ContactLine(p), HeadingClose);
  }

  lemma ContactInBody(d: ResumeData)
    ensures InOrder(Body(d), NameLine(d.personalInfo.fullName), ContactLine(d.personalInfo))
  {
    HeadingHasContact(d.personalInfo);
    assert Blocks(d)[0] == HeadingBlock(d.personalInfo);
    LiftOrder(d, 0, NameLine(d.personalInfo.fullName), ContactLine(d.personalInfo));
  }

  /** The contact line is emitted, right after the name in the heading. */
  lemma ContactInDocument(d: ResumeData)
    ensures InOrder(GenerateLatexResume(d), NameLine(d.personalInfo.fullName), ContactLine(d.personalInfo))
  {
    ContactInBody(d);
    InOrderRight(Preamble, Body(d), NameLine(d.personalInfo.fullName), ContactLine(d.personalInfo));
  }
}
