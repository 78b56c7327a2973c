/** `generateLatexResume` from lib/latex/template.ts: the whole document as
    one string. The output is the constant preamble followed by seven blocks
    joined by blank lines: the heading, the education, experience,
    co-curricular, skills and projects sections (each empty when its list is
    empty or absent) and `\end{document}`. Every user-supplied field except
    the phone number passes through `EscapeLatex`. */
module Template {
  import opened Strings
  import opened Seqs
  import opened Resume
  import opened Escape

  /* ---------------------------------------------------------------------
     Constant text
     --------------------------------------------------------------------- */

  const DocumentClass: string := "\\documentclass[letterpaper,11pt]{article}"

  /** Packages, page layout and the custom `\resume...` commands, up to and
      including `\begin{document}` and the blank line after it. It does not
      depend on the record. */
  const Preamble: string := DocumentClass + PreambleBody

  const PreambleBody: string := @"

\usepackage{latexsym}
\usepackage[empty]{fullpage}
\usepackage{titlesec}
\usepackage{marvosym}
\usepackage[usenames,dvipsnames]{color}
\usepackage{verbatim}
\usepackage{enumitem}
\usepackage[hidelinks]{hyperref}
\usepackage{fancyhdr}
\usepackage[english]{babel}
\usepackage{tabularx}
\input{glyphtounicode}

\pagestyle{fancy}
\fancyhf{}
\fancyfoot{}
\renewcommand{\headrulewidth}{0pt}
\renewcommand{\footrulewidth}{0pt}

% Adjust margins
\addtolength{\oddsidemargin}{-0.5in}
\addtolength{\evensidemargin}{-0.5in}
\addtolength{\textwidth}{1in}
\addtolength{\topmargin}{-.5in}
\addtolength{\textheight}{1.0in}

\urlstyle{same}

\raggedbottom
\raggedright
\setlength{\tabcolsep}{0in}

% Sections formatting
\titleformat{\section}{
  \vspace{-4pt}\scshape\raggedright\large
}{}{0em}{}[\color{black}\titlerule \vspace{-5pt}]

% Ensure that generate pdf is machine readable/ATS parsable
\pdfgentounicode=1

% Custom commands
\newcommand{\resumeItem}[1]{
  \item\small{
    {#1 \vspace{-2pt}}
  }
}

\newcommand{\resumeSubheading}[4]{
  \vspace{-2pt}\item
    \begin{tabular*}{0.97\textwidth}[t]{l@{\extracolsep{\fill}}r}
      \textbf{#1} & #2 \\
      \textit{\small#3} & \textit{\small #4} \\
    \end{tabular*}\vspace{-7pt}
}

\newcommand{\resumeProjectHeading}[2]{
    \item
    \begin{tabular*}{0.97\textwidth}{l@{\extracolsep{\fill}}r}
      \small#1 & #2 \\
    \end{tabular*}\vspace{-7pt}
}

\newcommand{\resumeSubItem}[1]{\resumeItem{#1}\vspace{-4pt}}

\renewcommand\labelitemii{$\vcenter{\hbox{\tiny$\bullet$}}$}

\newcommand{\resumeSubHeadingListStart}{\begin{itemize}[leftmargin=0.15in, label={}]}
\newcommand{\resumeSubHeadingListEnd}{\end{itemize}}
\newcommand{\resumeItemListStart}{\begin{itemize}}
\newcommand{\resumeItemListEnd}{\end{itemize}\vspace{-5pt}}

\begin{document}

"

  const EndDocument: string := "\\end{document}"

  /** Separator between the blocks of the document body. */
  const BlockSeparator: string := "\n\n"

  function SectionMarker(title: string): string {
    "\\section{" + title + "}"
  }

  /* ---------------------------------------------------------------------
     Heading and contact line
     --------------------------------------------------------------------- */

  function Href(target: string, text: string): string {
    "\\href{" + target + "}{\\underline{" + text + "}}"
  }

  /** The email channel: a `mailto:` link whose target and text are the escaped address. */
  function MailLink(email: string): string {
    Href("mailto:" + EscapeLatex(email), EscapeLatex(email))
  }

  /** A linkedin, website or github channel: an `https://` link to the escaped handle. */
  function WebLink(handle: string): string {
    Href("https://" + EscapeLatex(handle), EscapeLatex(handle))
  }

  /** The `contactParts` array literal before filtering, `null` as `None`.
      The phone number is taken as it is, without escaping. */
  function ContactCandidates(p: PersonalInfo): seq<Option<string>> {
    [ Some(p.phone),
      if p.email != "" then Some(MailLink(p.email)) else None,
      if Truthy(p.linkedin) then Some(WebLink(p.linkedin.value)) else None,
      if Truthy(p.website) then Some(WebLink(p.website.value)) else None,
      if Truthy(p.github) then Some(WebLink(p.github.value)) else None ]
  }

  /** The text of a non-null candidate. */
  function Text(o: Option<string>): string {
    match o
    case None => ""
    case Some(t) => t
  }

  /** `.filter(Boolean)` over strings and nulls: the non-empty strings, in order. */
  function Compact(xs: seq<Option<string>>): (r: seq<string>)
    ensures |r| == CountWhere(xs, Truthy) && |r| <= |xs|
    ensures forall k :: 0 <= k < |r| ==> r[k] != "" && Some(r[k]) in xs
    ensures forall k :: 0 <= k < |xs| && Truthy(xs[k]) ==> Text(xs[k]) in r
  {
    var kept := Filter(xs, Truthy);
    assert forall k :: 0 <= k < |xs| && Truthy(xs[k]) ==> Text(xs[k]) in Map(kept, Text) by {
      forall k | 0 <= k < |xs| && Truthy(xs[k]) ensures Text(xs[k]) in Map(kept, Text) {
        var b :| 0 <= b < |kept| && kept[b] == xs[k];
        assert Map(kept, Text)[b] == Text(xs[k]);
      }
    }
    Map(kept, Text)
  }

  function ContactParts(p: PersonalInfo): seq<string> {
    Compact(ContactCandidates(p))
  }

  const ContactSeparator: string := " $|$ "

  function ContactLine(p: PersonalInfo): string {
    Join(ContactParts(p), ContactSeparator)
  }

  /** The name prefix of the heading; the escaped full name and `}` follow it. */
  const NamePrefix: string := "\\textbf{\\Huge \\scshape "

  /** The bold, large name line of the heading. */
  function NameLine(fullName: string): string {
    NamePrefix + EscapeLatex(fullName) + "}"
  }

  const HeadingOpen: string := "%----------HEADING----------\n\\begin{center}\n    "
  const ContactLead: string := " \\\\ \\vspace{1pt}\n    \\small "
  const HeadingClose: string := "\n\\end{center}"

  function HeadingBlock(p: PersonalInfo): string {
    HeadingOpen + NameLine(p.fullName) + ContactLead + ContactLine(p) + HeadingClose
  }

  /* ---------------------------------------------------------------------
     Sections
     --------------------------------------------------------------------- */

  /** `list.length > 0 ? open + entries.join('\n') + close : ''`. */
  function ListSection(open: string, entries: seq<string>, close: string): string {
    if |entries| > 0 then open + Join(entries, "\n") + close else ""
  }

  /** An optional list; `undefined` behaves as the empty list. */
  function OrEmpty<T>(xs: Option<seq<T>>): seq<T> {
    match xs
    case None => []
    case Some(ys) => ys
  }

  // Education

  const EducationOpen: string :=
    "\n%-----------EDUCATION-----------\n" + SectionMarker("Education") + "\n  \\resumeSubHeadingListStart\n"
  const EducationClose: string := "\n  \\resumeSubHeadingListEnd\n"

  function GpaSuffix(gpa: Option<string>): string {
    if Truthy(gpa) then " (" + EscapeLatex(gpa.value) + ")" else ""
  }

  /** The third argument of an education `\resumeSubheading`: the degree and its GPA. */
  function DegreeCell(e: Education): string {
    EscapeLatex(e.degree) + GpaSuffix(e.gpa)
  }

  function EducationEntry(e: Education): string {
    "    \\resumeSubheading\n      {" + EscapeLatex(e.institution) + "}{" + EscapeLatex(e.location)
    + "}\n      {" + DegreeCell(e) + "}{" + EscapeLatex(e.dateRange) + "}"
  }

  function EducationSection(xs: seq<Education>): string {
    ListSection(EducationOpen, Map(xs, EducationEntry), EducationClose)
  }

  // Experience and co-curricular activities share one entry layout

  /** A bullet is emitted when `d.trim()` is truthy. */
  predicate NonBlank(d: string) {
    Trim(d) != ""
  }

  function ResumeItem(d: string): string {
    "        \\resumeItem{" + EscapeLatex(d) + "}"
  }

  const ItemListStart: string := "        \\resumeItemListStart\n"
  const ItemListEnd: string := "\n        \\resumeItemListEnd"

  /** The bullet list of an entry: one `\resumeItem` per non-blank bullet, or
      nothing at all when no bullet is left. */
  function BulletList(description: seq<string>): string {
    var kept := Filter(description, NonBlank);
    if |kept| > 0 then ItemListStart + Join(Map(kept, ResumeItem), "\n") + ItemListEnd else ""
  }

  const SubheadingCommand: string := "\\resumeSubheading"

  function SubheadingEntry(title: string, date: string, org: string, location: string,
                           description: seq<string>): string {
    SubheadingEntryOf(EscapeLatex(title), EscapeLatex(date), EscapeLatex(org), EscapeLatex(location),
                      BulletList(description))
  }

  /** The subheading layout around already rendered cells and bullet list. */
  function SubheadingEntryOf(title: string, date: string, org: string, location: string,
                             bullets: string): string {
    "\n    " + SubheadingCommand + "\n    {" + title + "}{" + date
    + "}\n    {" + org + "}{" + location + "}\n" + bullets
  }

  const SubheadingListClose: string := "\n\n    \\resumeSubHeadingListEnd\n"

  const ExperienceOpen: string :=
    "\n%-----------EXPERIENCE-----------\n" + SectionMarker("Experience") + "\n    \\resumeSubHeadingListStart\n"

  function ExperienceEntry(x: Experience): string {
    SubheadingEntry(x.position, x.dateRange, x.company, x.location, x.description)
  }

  function ExperienceSection(xs: seq<Experience>): string {
    ListSection(ExperienceOpen, Map(xs, ExperienceEntry), SubheadingListClose)
  }

  const CoCurricularOpen: string :=
    "\n%-----------Co-Curricular Activities-----------\n" + SectionMarker("Co-Curricular Activities")
    + "\n    \\resumeSubHeadingListStart\n"

  function ActivityEntry(a: CoCurricularActivity): string {
    SubheadingEntry(a.position, a.dateRange, a.organization, a.location, a.description)
  }

  function CoCurricularSection(xs: Option<seq<CoCurricularActivity>>): string {
    ListSection(CoCurricularOpen, Map(OrEmpty(xs), ActivityEntry), SubheadingListClose)
  }

  // Skills and projects share one itemize layout

  const ItemizeOpen: string := "\\begin{itemize}[leftmargin=0.15in, label={}]\n  \\item \\small{\n"
  const ItemizeClose: string := "\n  }\n\\end{itemize}\n"

  const SkillsOpen: string :=
    "\n%-----------SKILLS-----------\n" + SectionMarker("Skills") + "\n" + ItemizeOpen

  function SkillLine(s: Skill): string {
    "    \\textbf{" + EscapeLatex(s.category) + "}{: " + Join(Map(s.items, EscapeLatex), ", ") + "} \\\\"
  }

  function SkillsSection(xs: seq<Skill>): string {
    ListSection(SkillsOpen, Map(xs, SkillLine), ItemizeClose)
  }

  const ProjectsOpen: string :=
    "\n%-----------Relevant Links and Past Works-----------\n" + SectionMarker("Relevant Projects")
    + "\n" + ItemizeOpen

  /** The link of a project, escaped both as target and as text, or nothing. */
  function LinkPart(link: Option<string>): string {
    if Truthy(link) then "\\href{" + EscapeLatex(link.value) + "}{" + EscapeLatex(link.value) + "}" else ""
  }

  function ProjectLine(p: Project): string {
    "    \\textbf{" + EscapeLatex(p.name) + "}{: }" + LinkPart(p.link) + " \\\\"
  }

  function ProjectsSection(xs: Option<seq<Project>>): string {
    ListSection(ProjectsOpen, Map(OrEmpty(xs), ProjectLine), ItemizeClose)
  }

  /* ---------------------------------------------------------------------
     The document
     --------------------------------------------------------------------- */

  /** The blocks after the preamble, in their fixed order. */
  function Blocks(d: ResumeData): seq<string> {
    [ HeadingBlock(d.personalInfo),
      EducationSection(d.education),
      ExperienceSection(d.experience),
      CoCurricularSection(d.coCurricularActivities),
      SkillsSection(d.skills),
      ProjectsSection(d.projects),
      EndDocument ]
  }

  /** Everything after the preamble. */
  function Body(d: ResumeData): string {
    Join(Blocks(d), BlockSeparator)
  }

  /** `generateLatexResume(data)`. */
  function GenerateLatexResume(d: ResumeData): string {
    Preamble + Body(d)
  }
}
