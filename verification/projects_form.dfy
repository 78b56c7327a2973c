/** The list edits of the projects form
    (components/resumeow/projects-form.tsx). The fresh id that
    `crypto.randomUUID()` would produce is a parameter. */
module ProjectsForm {
  import opened Strings
  import opened Seqs
  import opened Resume
  import opened Template
  import opened EntryProps

  predicate HasId(data: seq<Project>, id: string) {
    exists i :: 0 <= i < |data| && data[i].id == id
  }

  predicate UniqueIds(data: seq<Project>) {
    forall i, j :: 0 <= i < j < |data| ==> data[i].id != data[j].id
  }

  /** The blank project `addProject` creates; its link is the empty string. */
  function NewProject(id: string): Project {
    Project(id, "", Some(""))
  }

  /** `addProject`: one blank project appended at the end; its empty link is
      treated as absent, so its line carries no `\href`. */
  function AddProject(data: seq<Project>, freshId: string): (r: seq<Project>)
    ensures |r| == |data| + 1 && r[..|data|] == data
    ensures r[|data|].id == freshId && r[|data|].name == ""
    ensures r[|data|].link == Some("") && !Truthy(r[|data|].link)
  {
    data + [NewProject(freshId)]
  }

  /** A freshly added project renders without any link. */
  lemma FreshProjectHasNoHref(data: seq<Project>, freshId: string)
    ensures !Contains(ProjectLine(AddProject(data, freshId)[|data|]), "\\href{")
  {
    ProjectLinkIff(AddProject(data, freshId)[|data|]);
  }

  /** `{ ...proj, [field]: value }` for each field the form edits. */
  datatype ProjectEdit = SetId(id: string) | SetName(name: string) | SetLink(link: Option<string>)

  function Apply(p: Project, e: ProjectEdit): Project {
    match e
    case SetId(v) => p.(id := v)
    case SetName(v) => p.(name := v)
    case SetLink(v) => p.(link := v)
  }

  /** `updateProject`: every project with the id gets the edit, every other
      project is kept, and the list keeps its length and order. */
  function UpdateProject(data: seq<Project>, id: string, e: ProjectEdit): (r: seq<Project>)
    ensures |r| == |data|
    ensures forall i :: 0 <= i < |data| && data[i].id == id ==> r[i] == Apply(data[i], e)
    ensures forall i :: 0 <= i < |data| && data[i].id != id ==> r[i] == data[i]
  {
    MapWhere(data, (p: Project) => p.id == id, (p: Project) => Apply(p, e))
  }

  /** Applying the same name or link edit twice is the same as applying it once. */
  lemma UpdateIdempotent(data: seq<Project>, id: string, e: ProjectEdit)
    requires !e.SetId?
    ensures UpdateProject(UpdateProject(data, id, e), id, e) == UpdateProject(data, id, e)
  {
    var once := UpdateProject(data, id, e);
    forall i | 0 <= i < |data| ensures UpdateProject(once, id, e)[i] == once[i] {
      assert once[i].id == data[i].id by {
        if data[i].id == id {
          match e
          case SetName(_) =>
          case SetLink(_) =>
        }
      }
    }
  }

  /** An id that no project carries changes nothing. */
  lemma UpdateUnknownId(data: seq<Project>, id: string, e: ProjectEdit)
    requires !HasId(data, id)
    ensures UpdateProject(data, id, e) == data
  {
  }

  /** The test `filter` keeps: an entry whose id differs from `id`. */
  function OtherId(id: string): Project -> bool {
    (p: Project) => p.id != id
  }

  /** `removeProject`: exactly the projects with the id are removed, the
      rest keeping their order. */
  function RemoveProject(data: seq<Project>, id: string): (r: seq<Project>)
    ensures IsSubsequence(r, data)
    ensures |r| == CountWhere(data, OtherId(id))
    ensures forall k :: 0 <= k < |r| ==> r[k].id != id
    ensures forall i :: 0 <= i < |data| && data[i].id != id ==> data[i] in r
  {
    Filter(data, OtherId(id))
  }

  /** With unique ids exactly one project goes when its id is present, none otherwise. */
  lemma RemoveProjectCount(data: seq<Project>, id: string)
    requires UniqueIds(data)
    ensures HasId(data, id) ==> |RemoveProject(data, id)| == |data| - 1
    ensures !HasId(data, id) ==> RemoveProject(data, id) == data
  {
    var keep := OtherId(id);
    if HasId(data, id) {
      var k :| 0 <= k < |data| && data[k].id == id;
      FilterDropsAtMostOne(data, keep);
      FilterShrinks(data, keep, k);
    } else {
      FilterKeepsAll(data, keep);
    }
  }

  /** Removing a project just added, by its fresh id, gives back the list before. */
  lemma AddThenRemove(data: seq<Project>, freshId: string)
    requires !HasId(data, freshId)
    ensures RemoveProject(AddProject(data, freshId), freshId) == data
  {
    var keep := OtherId(freshId);
    assert AddProject(data, freshId) == data + [NewProject(freshId)];
    assert forall i :: 0 <= i < |data| ==> keep(data[i]);
    FilterDropsAppended(data, NewProject(freshId), keep);
  }

}
