/** What the generator promises about single entries: which bullets become
    `\resumeItem`s, which contact channels appear and in what order, when a
    GPA is shown, how skill items are listed and when a project link is
    emitted. */
module EntryProps {
  import opened Strings
  import opened Seqs
  import opened Resume
  import opened Escape
  import opened Template

  /* ---------------------------------------------------------------------
     Bullets of experience and co-curricular entries
     --------------------------------------------------------------------- */

  /** The item list disappears exactly when every bullet is blank after trimming. */
  lemma BulletListEmptyIff(description: seq<string>)
    ensures BulletList(description) == "" <==> forall i :: 0 <= i < |description| ==> !NonBlank(description[i])
  {
    var kept := Filter(description, NonBlank);
    if |kept| > 0 {
      assert kept[0] in description;
    }
  }

  /** Every non-blank bullet is emitted as one escaped `\resumeItem`. */
  lemma BulletShown(description: seq<string>, i: int)
    requires 0 <= i < |description| && NonBlank(description[i])
    ensures Contains(BulletList(description), ResumeItem(description[i]))
  {
    var kept := Filter(description, NonBlank);
    var items := Map(kept, ResumeItem);
    var b := FilterIndexOf(description, NonBlank, i);
    JoinContainsPart(items, "\n", b);
    ContainsInfix(ItemListStart, Join(items, "\n"), ItemListEnd, items[b]);
  }

  /** Non-blank bullets keep their order. */
  lemma BulletsInOrder(description: seq<string>, i: int, j: int)
    requires 0 <= i < j < |description| && NonBlank(description[i]) && NonBlank(description[j])
    ensures InOrder(BulletList(description), ResumeItem(description[i]), ResumeItem(description[j]))
  {
    var kept := Filter(description, NonBlank);
    var items := Map(kept, ResumeItem);
    var a, b := FilterKeepsOrder(description, NonBlank, i, j);
    JoinInOrder(items, "\n", a, b);
    InOrderInfix(ItemListStart, Join(items, "\n"), ItemListEnd, items[a], items[b]);
  }

  /** A blank bullet leaves no trace: deleting it does not change the output. */
  lemma BlankBulletIgnored(description: seq<string>, i: int)
    requires 0 <= i < |description| && !NonBlank(description[i])
    ensures BulletList(RemoveAt(description, i)) == BulletList(description)
  {
    FilterIgnoresRejected(description, NonBlank, i);
  }

  /** An empty bullet appended at the end is not rendered. */
  lemma BlankBulletAppended(description: seq<string>)
    ensures BulletList(description + [""]) == BulletList(description)
  {
    FilterAppend(description, [""], NonBlank);
    FilterNone([""], NonBlank);
    assert Filter(description, NonBlank) + [] == Filter(description, NonBlank);
  }

  /** Two argument cells `{a}{b}` of a LaTeX command, as the entry layouts write them. */
  function Cells(a: string, b: string): string {
    "{" + a + "}{" + b + "}"
  }

  /** In `lead + x + mid + y`, `x` comes before `y`. */
  lemma SlotsInOrder(lead: string, x: string, mid: string, y: string)
    ensures InOrder(lead + x + mid + y, x, y)
  {
    ContainsSelf(x);
    ContainsRight(lead, x, x);
    ContainsSelf(y);
    ContainsRight(mid, y, y);
    InOrderConcat(lead + x, mid + y, x, y);
    assert lead + x + (mid + y) == lead + x + mid + y;
  }

  /** The subheading layout, cut at its two pairs of cells. */
  lemma SubheadingLayout(t: string, d: string, o: string, l: string, z: string)
    ensures SubheadingEntryOf(t, d, o, l, z)
            == "\n    " + SubheadingCommand + "\n    " + Cells(t, d) + "\n    " + Cells(o, l) + "\n" + z
  {
  }

  /** The subheading layout places its cells, then the bullet list, in order. */
  lemma SubheadingSlots(t: string, d: string, o: string, l: string, z: string)
    ensures InOrder(SubheadingEntryOf(t, d, o, l, z), Cells(t, d), Cells(o, l))
    ensures InOrder(SubheadingEntryOf(t, d, o, l, z), Cells(o, l), z)
  {
    var lead := "\n    " + SubheadingCommand + "\n    ";
    var x, y := Cells(t, d), Cells(o, l);
    var head := lead + x + "\n    " + y;
    SubheadingLayout(t, d, o, l, z);
    SlotsInOrder(lead, x, "\n    ", y);
    InOrderInfix("", head, "\n" + z, x, y);
    assert "" + head + ("\n" + z) == head + "\n" + z;
    SlotsInOrder(lead + x + "\n    ", y, "\n", z);
  }

  /** An experience or activity entry fills its slots in order: the escaped
      title and date first, then the escaped organisation and location, then
      the bullet list. */
  lemma SubheadingFields(title: string, date: string, org: string, location: string,
                         description: seq<string>)
    ensures InOrder(SubheadingEntry(title, date, org, location, description),
                    Cells(EscapeLatex(title), EscapeLatex(date)),
                    Cells(EscapeLatex(org), EscapeLatex(location)))
    ensures InOrder(SubheadingEntry(title, date, org, location, description),
                    Cells(EscapeLatex(org), EscapeLatex(location)), BulletList(description))
  {
    SubheadingSlots(EscapeLatex(title), EscapeLatex(date), EscapeLatex(org), EscapeLatex(location),
                    BulletList(description));
  }

  /** The education layout, cut at its two pairs of cells. */
  lemma EducationLayout(i: string, l: string, g: string, t: string)
    ensures "    \\resumeSubheading\n      {" + i + "}{" + l + "}\n      {" + g + "}{" + t + "}"
            == "    \\resumeSubheading\n      " + Cells(i, l) + "\n      " + Cells(g, t)
  {
  }

  /** An education entry fills its slots in order: the escaped institution
      and location first, then the degree with its GPA suffix and the dates. */
  lemma EducationFields(e: Education)
    ensures InOrder(EducationEntry(e), Cells(EscapeLatex(e.institution), EscapeLatex(e.location)),
                    Cells(DegreeCell(e), EscapeLatex(e.dateRange)))
  {
    var x := Cells(EscapeLatex(e.institution), EscapeLatex(e.location));
    var y := Cells(DegreeCell(e), EscapeLatex(e.dateRange));
    EducationLayout(EscapeLatex(e.institution), EscapeLatex(e.location), DegreeCell(e), EscapeLatex(e.dateRange));
    SlotsInOrder("    \\resumeSubheading\n      ", x, "\n      ", y);
  }

  /** The `\resumeSubheading` of an entry is emitted even when it has no bullets left. */
  lemma SubheadingAlwaysEmitted(title: string, date: string, org: string, location: string,
                                description: seq<string>)
    ensures Contains(SubheadingEntry(title, date, org, location, description), SubheadingCommand)
    ensures (forall i :: 0 <= i < |description| ==> !NonBlank(description[i])) ==>
              SubheadingEntry(title, date, org, location, description)
              == SubheadingEntry(title, date, org, location, [])
  {
    var c := SubheadingCommand;
    ContainsSelf(c);
    ContainsRight("\n    ", c, c);
    var t := "\n    " + c;
    ContainsLeft(t, "\n    {", c);
    t := t + "\n    {";
    ContainsLeft(t, EscapeLatex(title), c);
    t := t + EscapeLatex(title);
    ContainsLeft(t, "}{", c);
    t := t + "}{";
    ContainsLeft(t, EscapeLatex(date), c);
    t := t + EscapeLatex(date);
    ContainsLeft(t, "}\n    {", c);
    t := t + "}\n    {";
    ContainsLeft(t, EscapeLatex(org), c);
    t := t + EscapeLatex(org);
    ContainsLeft(t, "}{", c);
    t := t + "}{";
    ContainsLeft(t, EscapeLatex(location), c);
    t := t + EscapeLatex(location);
    ContainsLeft(t, "}\n", c);
    t := t + "}\n";
    ContainsLeft(t, BulletList(description), c);
    BulletListEmptyIff(description);
    BulletListEmptyIff([]);
  }

  /** A description that keeps a single bullet renders a list of that one item. */
  lemma SingleKeptBullet(description: seq<string>, x: string)
    requires Filter(description, NonBlank) == [x]
    ensures BulletList(description) == ItemListStart + ResumeItem(x) + ItemListEnd
  {
    assert Map([x], ResumeItem) == [ResumeItem(x)];
  }

  /** Blank bullets around a single real one: the item list holds exactly
      that one `\resumeItem`. */
  lemma OneRealBullet(a: string, b: string, c: string)
    requires !NonBlank(a) && !NonBlank(b) && NonBlank(c)
    ensures BulletList([a, b, c]) == ItemListStart + ResumeItem(c) + ItemListEnd
  {
    FilterOnlyLast(a, b, c, NonBlank);
    SingleKeptBullet([a, b, c], c);
  }

  /** Whitespace-only bullets count as blank. */
  lemma SpacesAreBlank()
    ensures !NonBlank("") && !NonBlank("  ") && !NonBlank("\t\n")
    ensures NonBlank(" x ")
  {
    var t := " x ";
    assert !IsWhitespace(t[1]);
  }

  /* ---------------------------------------------------------------------
     Contact line
     --------------------------------------------------------------------- */

  /** The five contact channels in their fixed order: phone, email,
      linkedin, website, github. A channel is on when its field is a
      non-empty string. */
  predicate ChannelOn(p: PersonalInfo, k: int)
    requires 0 <= k < 5
  {
    if k == 0 then p.phone != ""
    else if k == 1 then p.email != ""
    else if k == 2 then Truthy(p.linkedin)
    else if k == 3 then Truthy(p.website)
    else Truthy(p.github)
  }

  /** What an active channel contributes: the phone as it is, a `mailto:`
      link, or an `https://` link. */
  function ChannelText(p: PersonalInfo, k: int): string
    requires 0 <= k < 5 && ChannelOn(p, k)
  {
    if k == 0 then p.phone
    else if k == 1 then MailLink(p.email)
    else if k == 2 then WebLink(p.linkedin.value)
    else if k == 3 then WebLink(p.website.value)
    else WebLink(p.github.value)
  }

  function ChannelCount(p: PersonalInfo): nat {
    (if ChannelOn(p, 0) then 1 else 0) + (if ChannelOn(p, 1) then 1 else 0)
    + (if ChannelOn(p, 2) then 1 else 0) + (if ChannelOn(p, 3) then 1 else 0)
    + (if ChannelOn(p, 4) then 1 else 0)
  }

  /** The texts of the active channels from channel `k` on, in channel order. */
  function OnTexts(p: PersonalInfo, k: int): seq<string>
    requires 0 <= k <= 5
    decreases 5 - k
  {
    if k == 5 then []
    else (if ChannelOn(p, k) then [ChannelText(p, k)] else []) + OnTexts(p, k + 1)
  }

  lemma HrefNotEmpty(target: string, text: string)
    ensures Href(target, text) != ""
  {
    assert Href(target, text)[0] == '\\';
  }

  lemma CandidateMatchesChannel(p: PersonalInfo, k: int)
    requires 0 <= k < 5
    ensures |ContactCandidates(p)| == 5
    ensures Truthy(ContactCandidates(p)[k]) <==> ChannelOn(p, k)
    ensures ChannelOn(p, k) ==> Text(ContactCandidates(p)[k]) == ChannelText(p, k)
  {
    if k == 1 {
      HrefNotEmpty("mailto:" + EscapeLatex(p.email), EscapeLatex(p.email));
    } else if k == 2 && p.linkedin.Some? {
      HrefNotEmpty("https://" + EscapeLatex(p.linkedin.value), EscapeLatex(p.linkedin.value));
    } else if k == 3 && p.website.Some? {
      HrefNotEmpty("https://" + EscapeLatex(p.website.value), EscapeLatex(p.website.value));
    } else if k == 4 && p.github.Some? {
      HrefNotEmpty("https://" + EscapeLatex(p.github.value), EscapeLatex(p.github.value));
    }
  }

  /** One part per active channel and no other. */
  lemma ContactCount(p: PersonalInfo)
    ensures |ContactParts(p)| == ChannelCount(p)
  {
    var cs := ContactCandidates(p);
    forall k | 0 <= k < 5 ensures Truthy(cs[k]) <==> ChannelOn(p, k) {
      CandidateMatchesChannel(p, k);
    }
    assert cs[1..][1..] == cs[2..];
    assert cs[2..][1..] == cs[3..];
    assert cs[3..][1..] == cs[4..];
    assert cs[4..][1..] == [];
    assert CountWhere(cs[4..], Truthy) == (if ChannelOn(p, 4) then 1 else 0);
    assert CountWhere(cs[3..], Truthy) == (if ChannelOn(p, 3) then 1 else 0) + CountWhere(cs[4..], Truthy);
    assert CountWhere(cs[2..], Truthy) == (if ChannelOn(p, 2) then 1 else 0) + CountWhere(cs[3..], Truthy);
    assert CountWhere(cs[1..], Truthy) == (if ChannelOn(p, 1) then 1 else 0) + CountWhere(cs[2..], Truthy);
  }

  /** The candidates from `k` on, compacted, are the active channels from `k` on. */
  lemma {:induction false} PartsFrom(p: PersonalInfo, k: int)
    requires 0 <= k <= 5
    ensures |ContactCandidates(p)| == 5
    ensures Map(Filter(ContactCandidates(p)[k..], Truthy), Text) == OnTexts(p, k)
    decreases 5 - k
  {
    var cs := ContactCandidates(p);
    if k == 5 {
      assert cs[k..] == [];
    } else {
      PartsFrom(p, k + 1);
      CandidateMatchesChannel(p, k);
      MapFilterHead(cs[k..], Truthy, Text);
      assert cs[k..][0] == cs[k] && cs[k..][1..] == cs[k + 1..];
    }
  }

  /** `contactParts` is exactly the list of active channel texts in channel
      order, so the contact line is those texts joined by ` $|$ `. */
  lemma ContactPartsAreChannels(p: PersonalInfo)
    ensures ContactParts(p) == OnTexts(p, 0)
    ensures ContactLine(p) == Join(OnTexts(p, 0), ContactSeparator)
  {
    PartsFrom(p, 0);
    assert ContactCandidates(p)[0..] == ContactCandidates(p);
  }

  /** Every active channel appears on the contact line. */
  lemma ContactShown(p: PersonalInfo, k: int)
    requires 0 <= k < 5 && ChannelOn(p, k)
    ensures Contains(ContactLine(p), ChannelText(p, k))
  {
    var cs := ContactCandidates(p);
    CandidateMatchesChannel(p, k);
    var b := FilterIndexOf(cs, Truthy, k);
    JoinContainsPart(ContactParts(p), ContactSeparator, b);
  }

  /** Active channels appear in the fixed order phone, email, linkedin, website, github. */
  lemma ContactOrder(p: PersonalInfo, a: int, b: int)
    requires 0 <= a < b < 5 && ChannelOn(p, a) && ChannelOn(p, b)
    ensures InOrder(ContactLine(p), ChannelText(p, a), ChannelText(p, b))
  {
    var cs := ContactCandidates(p);
    CandidateMatchesChannel(p, a);
    CandidateMatchesChannel(p, b);
    var kept := Filter(cs, Truthy);
    var x, y := FilterKeepsOrder(cs, Truthy, a, b);
    JoinInOrder(ContactParts(p), ContactSeparator, x, y);
  }

  /** The contact line is empty exactly when no channel is active; there is
      never a stray separator. */
  lemma ContactLineEmpty(p: PersonalInfo)
    ensures ContactLine(p) == "" <==> forall k :: 0 <= k < 5 ==> !ChannelOn(p, k)
  {
    ContactCount(p);
    JoinEmpty(ContactParts(p), ContactSeparator);
  }

  lemma KeptPhoneAndEmail(p: PersonalInfo)
    requires p.phone != "" && p.email != ""
    requires !Truthy(p.linkedin) && !Truthy(p.website) && !Truthy(p.github)
    ensures Filter(ContactCandidates(p), Truthy) == [Some(p.phone), Some(MailLink(p.email))]
  {
    var cs := ContactCandidates(p);
    var head, tail := cs[..2], cs[2..];
    assert head == [Some(p.phone), Some(MailLink(p.email))];
    assert tail == [None, None, None];
    assert cs == head + tail;
    FilterAppend(head, tail, Truthy);
    FilterKeepsAll(head, Truthy);
    FilterNone(tail, Truthy);
    assert head + [] == head;
  }

  /** With only a phone number and an email address, the line is the raw
      phone, one separator and the mail link. */
  lemma ContactPhoneAndEmail(p: PersonalInfo)
    requires p.phone != "" && p.email != ""
    requires !Truthy(p.linkedin) && !Truthy(p.website) && !Truthy(p.github)
    ensures ContactLine(p) == p.phone + ContactSeparator + MailLink(p.email)
  {
    KeptPhoneAndEmail(p);
    var kept := Filter(ContactCandidates(p), Truthy);
    var parts := ContactParts(p);
    assert parts == Map(kept, Text);
    assert |parts| == 2 && parts[0] == Text(kept[0]) && parts[1] == Text(kept[1]);
    assert parts[1..] == [MailLink(p.email)];
    assert Join(parts[1..], ContactSeparator) == MailLink(p.email);
    assert Join(parts, ContactSeparator) == parts[0] + ContactSeparator + Join(parts[1..], ContactSeparator);
  }

  /* ---------------------------------------------------------------------
     Education GPA
     --------------------------------------------------------------------- */

  lemma GpaInEntry(e: Education)
    ensures Contains(EducationEntry(e), EscapeLatex(e.degree) + GpaSuffix(e.gpa))
  {
    var pat := DegreeCell(e);
    var pre := "    \\resumeSubheading\n      {" + EscapeLatex(e.institution) + "}{" + EscapeLatex(e.location)
               + "}\n      {";
    ContainsSelf(pat);
    ContainsRight(pre, pat, pat);
    ContainsLeft(pre + pat, "}{", pat);
    ContainsLeft(pre + pat + "}{", EscapeLatex(e.dateRange), pat);
    ContainsLeft(pre + pat + "}{" + EscapeLatex(e.dateRange), "}", pat);
  }


  /** A non-empty GPA is shown in parentheses right after the escaped degree;
      an empty or missing one leaves the entry as if there were no GPA. */
  lemma GpaShown(e: Education)
    ensures Truthy(e.gpa) ==>
              Contains(EducationEntry(e), EscapeLatex(e.degree) + (" (" + EscapeLatex(e.gpa.value) + ")"))
    ensures !Truthy(e.gpa) ==> EducationEntry(e) == EducationEntry(e.(gpa := None))
  {
    GpaInEntry(e);
  }

  /* ---------------------------------------------------------------------
     Skills
     --------------------------------------------------------------------- */

  /** Each item of a category appears escaped, in the order of the list. */
  lemma SkillItemsInOrder(s: Skill, i: int, j: int)
    requires 0 <= i < j < |s.items|
    ensures InOrder(SkillLine(s), EscapeLatex(s.items[i]), EscapeLatex(s.items[j]))
  {
    var items := Map(s.items, EscapeLatex);
    var pre := "    \\textbf{" + EscapeLatex(s.category) + "}{: ";
    JoinInOrder(items, ", ", i, j);
    InOrderInfix(pre, Join(items, ", "), "} \\\\", items[i], items[j]);
  }

  /** Neighbouring items are separated by exactly `, `. */
  lemma SkillItemsAdjacent(s: Skill, i: int)
    requires 0 <= i < |s.items| - 1
    ensures Contains(SkillLine(s), EscapeLatex(s.items[i]) + ", " + EscapeLatex(s.items[i + 1]))
  {
    var items := Map(s.items, EscapeLatex);
    var pre := "    \\textbf{" + EscapeLatex(s.category) + "}{: ";
    JoinAdjacent(items, ", ", i);
    ContainsInfix(pre, Join(items, ", "), "} \\\\", items[i] + ", " + items[i + 1]);
  }

  /** In `a + x + y + body + z`, the piece `x + y` occurs and precedes
      whatever `body` starts with. */
  lemma PieceBeforeBody(a: string, x: string, y: string, body: string, z: string, first: string)
    requires StartsWith(body, first)
    ensures Contains(a + x + y + body + z, x + y)
    ensures InOrder(a + x + y + body + z, x + y, first)
  {
    var s := a + x + y + body + z;
    var n := |a| + |x| + |y|;
    assert s[|a|..n] == x + y;
    assert OccursAt(s, x + y, |a|);
    assert s[n..n + |first|] == body[..|first|];
    assert OccursAt(s, first, n);
  }

  /** The category comes first, bold and escaped, followed by `: ` and then the items. */
  lemma SkillCategoryLeads(s: Skill)
    ensures Contains(SkillLine(s), "\\textbf{" + EscapeLatex(s.category) + "}{: ")
    ensures |s.items| > 0 ==>
              InOrder(SkillLine(s), "\\textbf{" + EscapeLatex(s.category) + "}{: ", EscapeLatex(s.items[0]))
  {
    var items := Map(s.items, EscapeLatex);
    var body := Join(items, ", ");
    var first := if |items| > 0 then items[0] else "";
    if |items| > 0 {
      JoinStartsWithFirst(items, ", ");
    }
    var bold := "\\textbf{" + EscapeLatex(s.category);
    assert SkillLine(s) == "    " + bold + "}{: " + body + "} \\\\";
    PieceBeforeBody("    ", bold, "}{: ", body, "} \\\\", first);
  }

  /* ---------------------------------------------------------------------
     Project links
     --------------------------------------------------------------------- */

  /** No backslash in `t` is directly followed by the letter `c`. */
  predicate NoCommandLetter(t: string, c: char) {
    forall i :: 0 <= i < |t| - 1 && t[i] == '\\' ==> t[i + 1] != c
  }

  lemma NoCommandLetterAppend(a: string, b: string, c: char)
    requires NoCommandLetter(a, c) && NoCommandLetter(b, c)
    requires a == [] || a[|a| - 1] != '\\' || b == [] || b[0] != c
    ensures NoCommandLetter(a + b, c)
  {
    var t := a + b;
    forall i | 0 <= i < |t| - 1 && t[i] == '\\' ensures t[i + 1] != c {
      if i + 1 < |a| {
        assert a[i] == '\\';
      } else if i + 1 == |a| {
        assert a[|a| - 1] == '\\' && t[i + 1] == b[0];
      } else {
        assert b[i - |a|] == '\\' && t[i + 1] == b[i + 1 - |a|];
      }
    }
  }

  /** A command spelled with letter `cmd[1]` cannot occur where that letter never follows a backslash. */
  lemma NoCommandLetterMissing(t: string, cmd: string)
    requires |cmd| >= 2 && cmd[0] == '\\' && NoCommandLetter(t, cmd[1])
    ensures !Contains(t, cmd)
  {
    forall i | 0 <= i && i + |cmd| <= |t| ensures !OccursAt(t, cmd, i) {
      assert t[i..i + |cmd|][1] == t[i + 1];
    }
  }

  /** In escaped text a backslash is only ever followed by `t` or a special
      character, and never ends the text. */
  lemma EscapedNoCommandLetter(s: string, c: char)
    requires c != 't' && c !in Specials
    ensures NoCommandLetter(EscapeLatex(s), c)
    ensures EscapeLatex(s) == [] || EscapeLatex(s)[|EscapeLatex(s)| - 1] != '\\'
  {
    EscapeIsSafe(s);
  }

  lemma ProjectLiterals(lead: string, mid: string, tail: string)
    requires lead == "    \\textbf{" && mid == "}{: }" && tail == " \\\\"
    ensures NoCommandLetter(lead, 'h') && lead[|lead| - 1] != '\\'
    ensures NoCommandLetter(mid, 'h') && mid[|mid| - 1] != '\\'
    ensures NoCommandLetter(tail, 'h')
  {
    assert lead[4] == '\\' && lead[5] == 't';
    assert tail[1] == '\\' && tail[2] == '\\';
  }

  /** A project link is emitted, escaped as target and as text, exactly when
      it is a non-empty string; without one the line holds no `\href` at all. */
  lemma ProjectLinkIff(p: Project)
    ensures Truthy(p.link) ==>
              Contains(ProjectLine(p), "\\href{" + EscapeLatex(p.link.value) + "}{" + EscapeLatex(p.link.value) + "}")
    ensures !Truthy(p.link) ==> !Contains(ProjectLine(p), "\\href{")
  {
    var lead, mid, tail := "    \\textbf{", "}{: }", " \\\\";
    var name := EscapeLatex(p.name);
    if Truthy(p.link) {
      var l := LinkPart(p.link);
      ContainsSelf(l);
      ContainsInfix(lead + name + mid, l, tail, l);
    } else {
      ProjectLiterals(lead, mid, tail);
      EscapedNoCommandLetter(p.name, 'h');
      NoCommandLetterAppend(lead, name, 'h');
      NoCommandLetterAppend(lead + name, mid, 'h');
      NoCommandLetterAppend(lead + name + mid, tail, 'h');
      assert ProjectLine(p) == lead + name + mid + tail;
      NoCommandLetterMissing(ProjectLine(p), "\\href{");
    }
  }

  /** Worked example: the link is escaped in the target as well as in the text. */
  lemma ProjectLinkEscapedBothWays(link: string)
    requires link == "a_b.com"
    ensures LinkPart(Some(link)) == "\\href{" + "a\\_b.com" + "}{" + "a\\_b.com" + "}"
  {
    EscapeSplit3("a", '_', "b.com");
    assert link == "a" + ['_'] + "b.com";
    assert "a" + ['\\', '_'] + "b.com" == "a\\_b.com";
  }

  lemma EscapeSplit3(a: string, c: char, b: string)
    requires forall i :: 0 <= i < |a| ==> !Reserved(a[i])
    requires forall i :: 0 <= i < |b| ==> !Reserved(b[i])
    requires c in Specials
    ensures EscapeLatex(a + [c] + b) == a + ['\\', c] + b
  {
    EscapeAppend(a + [c], b);
    EscapeAppend(a, [c]);
    EscapeOneChar(c);
    EscapePlain(a);
    EscapePlain(b);
  }
}
