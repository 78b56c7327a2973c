/** The resume record the forms edit and the generator consumes
    (`ResumeData` and its parts). Optional TypeScript properties
    (`gpa?`, `link?`, `linkedin?`, ...) become `Option<string>`. */
module Resume {

  /** A value that may be `undefined`. */
  datatype Option<T> = None | Some(value: T)

  /** JavaScript truthiness of an optional string: `undefined` and `""` are
      both falsy, every other string is truthy. */
  predicate Truthy(o: Option<string>) {
    o.Some? && o.value != ""
  }

  datatype PersonalInfo = PersonalInfo(
    fullName: string,
    email: string,
    phone: string,
    linkedin: Option<string>,
    github: Option<string>,
    website: Option<string>)

  datatype Experience = Experience(
    id: string,
    position: string,
    dateRange: string,
    company: string,
    location: string,
    description: seq<string>)

  datatype Education = Education(
    id: string,
    institution: string,
    location: string,
    degree: string,
    gpa: Option<string>,
    dateRange: string)

  datatype Skill = Skill(category: string, items: seq<string>)

  datatype Project = Project(id: string, name: string, link: Option<string>)

  datatype CoCurricularActivity = CoCurricularActivity(
    id: string,
    position: string,
    dateRange: string,
    organization: string,
    location: string,
    description: seq<string>)

  datatype ResumeData = ResumeData(
    personalInfo: PersonalInfo,
    education: seq<Education>,
    experience: seq<Experience>,
    coCurricularActivities: Option<seq<CoCurricularActivity>>,
    skills: seq<Skill>,
    projects: Option<seq<Project>>)
}
