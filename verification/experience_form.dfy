/** The list edits of the experience form
    (components/resumeow/experience-form.tsx). Each handler is a pure
    function from the current list to the list it passes to `onChange`.
    The fresh id that `crypto.randomUUID()` would produce is a parameter. */
module ExperienceForm {
  import opened Seqs
  import opened Resume
  import opened Template
  import Bullets

  /** The outcome of a handler that may refuse: `Refused` is the alert
      shown instead of calling `onChange`. */
  datatype Change<T> = Refused(message: string) | Changed(value: T)

  const MinimumAlert: string := "You must have at least one experience entry."

  function Ids(data: seq<Experience>): seq<string> {
    Map(data, (x: Experience) => x.id)
  }

  predicate UniqueIds(data: seq<Experience>) {
    forall i, j :: 0 <= i < j < |data| ==> data[i].id != data[j].id
  }

  predicate HasId(data: seq<Experience>, id: string) {
    exists i :: 0 <= i < |data| && data[i].id == id
  }

  /* ---------------------------------------------------------------------
     Entries
     --------------------------------------------------------------------- */

  /** The blank entry `addExperience` creates: one empty bullet. */
  function NewExperience(id: string): Experience {
    Experience(id, "", "", "", "", [""])
  }

  /** `addExperience`: one blank entry with a single empty bullet
      appended at the end; it renders no bullet list. */
  function AddExperience(data: seq<Experience>, freshId: string): (r: seq<Experience>)
    ensures |r| == |data| + 1 && r[..|data|] == data
    ensures r[|data|].id == freshId
    ensures r[|data|].position == "" && r[|data|].dateRange == "" && r[|data|].company == ""
            && r[|data|].location == ""
    ensures r[|data|].description == [""]
    ensures BulletList(r[|data|].description) == ""
  {
    assert !NonBlank("");
    assert Filter([""], NonBlank) == [] by {
      assert [""][1..] == [];
    }
    data + [NewExperience(freshId)]
  }

  /** `{ ...exp, [field]: value }` for each field the form edits. */
  datatype ExperienceEdit =
    | SetId(id: string)
    | SetPosition(position: string)
    | SetDateRange(dateRange: string)
    | SetCompany(company: string)
    | SetLocation(location: string)
    | SetDescription(description: seq<string>)

  function Apply(x: Experience, e: ExperienceEdit): Experience {
    match e
    case SetId(v) => x.(id := v)
    case SetPosition(v) => x.(position := v)
    case SetDateRange(v) => x.(dateRange := v)
    case SetCompany(v) => x.(company := v)
    case SetLocation(v) => x.(location := v)
    case SetDescription(v) => x.(description := v)
  }

  /** `updateExperience`: every entry with the id gets the edit, every other
      entry is kept, and the list keeps its length and order. */
  function UpdateExperience(data: seq<Experience>, id: string, e: ExperienceEdit): (r: seq<Experience>)
    ensures |r| == |data|
    ensures forall i :: 0 <= i < |data| && data[i].id == id ==> r[i] == Apply(data[i], e)
    ensures forall i :: 0 <= i < |data| && data[i].id != id ==> r[i] == data[i]
  {
    MapWhere(data, (x: Experience) => x.id == id, (x: Experience) => Apply(x, e))
  }

  /** An edit of any field but the id leaves every id where it was. */
  lemma UpdateKeepsIds(data: seq<Experience>, id: string, e: ExperienceEdit)
    requires !e.SetId?
    ensures Ids(UpdateExperience(data, id, e)) == Ids(data)
  {
    var r := UpdateExperience(data, id, e);
    forall i | 0 <= i < |data| ensures r[i].id == data[i].id {
      if data[i].id == id {
        match e
        case SetPosition(_) =>
        case SetDateRange(_) =>
        case SetCompany(_) =>
        case SetLocation(_) =>
        case SetDescription(_) =>
      }
    }
  }

  /** Applying the same field edit twice is the same as applying it once. */
  lemma UpdateIdempotent(data: seq<Experience>, id: string, e: ExperienceEdit)
    requires !e.SetId?
    ensures UpdateExperience(UpdateExperience(data, id, e), id, e) == UpdateExperience(data, id, e)
  {
    var once := UpdateExperience(data, id, e);
    UpdateKeepsIds(data, id, e);
    forall i | 0 <= i < |data|
      ensures UpdateExperience(once, id, e)[i] == once[i]
    {
      assert once[i].id == Ids(once)[i] == Ids(data)[i] == data[i].id;
    }
  }

  /** An id that no entry carries changes nothing. */
  lemma UpdateUnknownId(data: seq<Experience>, id: string, e: ExperienceEdit)
    requires !HasId(data, id)
    ensures UpdateExperience(data, id, e) == data
  {
  }

  /** The test `filter` keeps: an entry whose id differs from `id`. */
  function OtherId(id: string): Experience -> bool {
    (x: Experience) => x.id != id
  }

  /** `removeExperience`: refused with an alert while at most one entry is
      left; otherwise exactly the entries with the id are removed, the rest
      keeping their order. */
  function RemoveExperience(data: seq<Experience>, id: string): (r: Change<seq<Experience>>)
    ensures r.Refused? <==> |data| <= 1
    ensures r.Refused? ==> r.message == MinimumAlert
    ensures r.Changed? ==> IsSubsequence(r.value, data)
    ensures r.Changed? ==> |r.value| == CountWhere(data, OtherId(id))
    ensures r.Changed? ==> forall k :: 0 <= k < |r.value| ==> r.value[k].id != id
    ensures r.Changed? ==> forall i :: 0 <= i < |data| && data[i].id != id ==> data[i] in r.value
  {
    if |data| <= 1 then Refused(MinimumAlert)
    else Changed(Filter(data, OtherId(id)))
  }

  /** With unique ids the guard is effective: a removal never empties the list. */
  lemma RemoveLeavesOne(data: seq<Experience>, id: string)
    requires UniqueIds(data)
    ensures RemoveExperience(data, id).Changed? ==> |RemoveExperience(data, id).value| >= 1
  {
    if |data| > 1 {
      FilterDropsAtMostOne(data, OtherId(id));
    }
  }

  /** Removing an entry just added, by its fresh id, gives back the list before. */
  lemma AddThenRemove(data: seq<Experience>, freshId: string)
    requires |data| >= 1 && !HasId(data, freshId)
    ensures RemoveExperience(AddExperience(data, freshId), freshId) == Changed(data)
  {
    var keep := OtherId(freshId);
    assert AddExperience(data, freshId) == data + [NewExperience(freshId)];
    assert forall i :: 0 <= i < |data| ==> keep(data[i]);
    FilterDropsAppended(data, NewExperience(freshId), keep);
  }


  /* ---------------------------------------------------------------------
     Bullets
     --------------------------------------------------------------------- */

  function EditDescription(data: seq<Experience>, id: string, f: seq<string> -> seq<string>): (r: seq<Experience>)
    ensures |r| == |data|
    ensures forall i :: 0 <= i < |data| && data[i].id == id ==>
              r[i] == data[i].(description := f(data[i].description))
    ensures forall i :: 0 <= i < |data| && data[i].id != id ==> r[i] == data[i]
  {
    MapWhere(data, (x: Experience) => x.id == id, (x: Experience) => x.(description := f(x.description)))
  }

  /** `addBullet`: an empty bullet appended to the entries with the id. */
  function AddBullet(data: seq<Experience>, id: string): (r: seq<Experience>)
    ensures |r| == |data|
    ensures forall i :: 0 <= i < |data| && data[i].id == id ==>
              r[i] == data[i].(description := Bullets.Add(data[i].description))
    ensures forall i :: 0 <= i < |data| && data[i].id != id ==> r[i] == data[i]
  {
    EditDescription(data, id, Bullets.Add)
  }

  /** The new bullet is blank, so adding it does not change the generated entry. */
  lemma AddBulletRendersSame(data: seq<Experience>, id: string, i: int)
    requires 0 <= i < |data|
    ensures ExperienceEntry(AddBullet(data, id)[i]) == ExperienceEntry(data[i])
  {
    Bullets.AddRendersSame(data[i].description);
    var x := AddBullet(data, id)[i];
    assert ExperienceEntry(x) == SubheadingEntry(x.position, x.dateRange, x.company, x.location, x.description);
  }

  /** `updateBullet`: position `index` of the description replaced in the
      entries with the id; an out-of-range index changes nothing. */
  function UpdateBullet(data: seq<Experience>, id: string, index: int, value: string): (r: seq<Experience>)
    ensures |r| == |data|
    ensures forall i :: 0 <= i < |data| && data[i].id == id ==>
              r[i] == data[i].(description := ReplaceAt(data[i].description, index, value))
    ensures forall i :: 0 <= i < |data| && data[i].id != id ==> r[i] == data[i]
  {
    EditDescription(data, id, (d: seq<string>) => ReplaceAt(d, index, value))
  }

  /** Writing back the text a bullet already has is no change. */
  lemma UpdateBulletSameText(data: seq<Experience>, k: int, index: int)
    requires UniqueIds(data) && 0 <= k < |data| && 0 <= index < |data[k].description|
    ensures UpdateBullet(data, data[k].id, index, data[k].description[index]) == data
  {
    var r := UpdateBullet(data, data[k].id, index, data[k].description[index]);
    forall i | 0 <= i < |data| ensures r[i] == data[i] {
      if i == k {
        Bullets.UpdateSameText(data[k].description, index);
      }
    }
  }

  /** `removeBullet`: position `index` deleted from the descriptions of the
      entries with the id, the other bullets keeping their order. */
  function RemoveBullet(data: seq<Experience>, id: string, index: int): (r: seq<Experience>)
    ensures |r| == |data|
    ensures forall i :: 0 <= i < |data| && data[i].id == id ==>
              r[i] == data[i].(description := RemoveAt(data[i].description, index))
    ensures forall i :: 0 <= i < |data| && data[i].id != id ==> r[i] == data[i]
  {
    EditDescription(data, id, (d: seq<string>) => RemoveAt(d, index))
  }

  /** Removal is offered only while an entry has more than one bullet, so
      through the form a description never becomes empty. */
  lemma RemoveBulletKeepsOne(data: seq<Experience>, id: string, index: int, i: int)
    requires 0 <= i < |data| && |data[i].description| > 1
    ensures |RemoveBullet(data, id, index)[i].description| >= 1
  {
    Bullets.RemoveKeepsOne(data[i].description, index);
  }

  /** Removing the bullet just added restores the list. */
  lemma AddThenRemoveBullet(data: seq<Experience>, k: int)
    requires UniqueIds(data) && 0 <= k < |data|
    ensures RemoveBullet(AddBullet(data, data[k].id), data[k].id, |data[k].description|) == data
  {
    var id := data[k].id;
    var r := RemoveBullet(AddBullet(data, id), id, |data[k].description|);
    forall i | 0 <= i < |data| ensures r[i] == data[i] {
      if i == k {
        Bullets.RemoveAdded(data[k].description);
      }
    }
  }
}
