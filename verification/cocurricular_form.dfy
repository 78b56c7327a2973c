/** The list edits of the co-curricular activities form
    (components/resumeow/cocurricular-form.tsx). Each handler is a pure
    function from the current list to the list it passes to `onChange`.
    The fresh id that `crypto.randomUUID()` would produce is a parameter. */
module CoCurricularForm {
  import opened Seqs
  import opened Resume
  import opened Template
  import Bullets

  function Ids(data: seq<CoCurricularActivity>): seq<string> {
    Map(data, (x: CoCurricularActivity) => x.id)
  }

  predicate UniqueIds(data: seq<CoCurricularActivity>) {
    forall i, j :: 0 <= i < j < |data| ==> data[i].id != data[j].id
  }

  predicate HasId(data: seq<CoCurricularActivity>, id: string) {
    exists i :: 0 <= i < |data| && data[i].id == id
  }

  /* ---------------------------------------------------------------------
     Entries
     --------------------------------------------------------------------- */

  /** The blank entry `addActivity` creates: one empty bullet. */
  function NewActivity(id: string): CoCurricularActivity {
    CoCurricularActivity(id, "", "", "", "", [""])
  }

  /** `addActivity`: one blank entry with a single empty bullet
      appended at the end; it renders no bullet list. */
  function AddActivity(data: seq<CoCurricularActivity>, freshId: string): (r: seq<CoCurricularActivity>)
    ensures |r| == |data| + 1 && r[..|data|] == data
    ensures r[|data|].id == freshId
    ensures r[|data|].position == "" && r[|data|].dateRange == "" && r[|data|].organization == ""
            && r[|data|].location == ""
    ensures r[|data|].description == [""]
    ensures BulletList(r[|data|].description) == ""
  {
    assert !NonBlank("");
    assert Filter([""], NonBlank) == [] by {
      assert [""][1..] == [];
    }
    data + [NewActivity(freshId)]
  }

  /** `{ ...activity, [field]: value }` for each field the form edits. */
  datatype ActivityEdit =
    | SetId(id: string)
    | SetPosition(position: string)
    | SetDateRange(dateRange: string)
    | SetOrganization(organization: string)
    | SetLocation(location: string)
    | SetDescription(description: seq<string>)

  function Apply(x: CoCurricularActivity, e: ActivityEdit): CoCurricularActivity {
    match e
    case SetId(v) => x.(id := v)
    case SetPosition(v) => x.(position := v)
    case SetDateRange(v) => x.(dateRange := v)
    case SetOrganization(v) => x.(organization := v)
    case SetLocation(v) => x.(location := v)
    case SetDescription(v) => x.(description := v)
  }

  /** `updateActivity`: every entry with the id gets the edit, every other
      entry is kept, and the list keeps its length and order. */
  function UpdateActivity(data: seq<CoCurricularActivity>, id: string, e: ActivityEdit): (r: seq<CoCurricularActivity>)
    ensures |r| == |data|
    ensures forall i :: 0 <= i < |data| && data[i].id == id ==> r[i] == Apply(data[i], e)
    ensures forall i :: 0 <= i < |data| && data[i].id != id ==> r[i] == data[i]
  {
    MapWhere(data, (x: CoCurricularActivity) => x.id == id, (x: CoCurricularActivity) => Apply(x, e))
  }

  /** An edit of any field but the id leaves every id where it was. */
  lemma UpdateKeepsIds(data: seq<CoCurricularActivity>, id: string, e: ActivityEdit)
    requires !e.SetId?
    ensures Ids(UpdateActivity(data, id, e)) == Ids(data)
  {
    var r := UpdateActivity(data, id, e);
    forall i | 0 <= i < |data| ensures r[i].id == data[i].id {
      if data[i].id == id {
        match e
        case SetPosition(_) =>
        case SetDateRange(_) =>
        case SetOrganization(_) =>
        case SetLocation(_) =>
        case SetDescription(_) =>
      }
    }
  }

  /** Applying the same field edit twice is the same as applying it once. */
  lemma UpdateIdempotent(data: seq<CoCurricularActivity>, id: string, e: ActivityEdit)
    requires !e.SetId?
    ensures UpdateActivity(UpdateActivity(data, id, e), id, e) == UpdateActivity(data, id, e)
  {
    var once := UpdateActivity(data, id, e);
    UpdateKeepsIds(data, id, e);
    forall i | 0 <= i < |data|
      ensures UpdateActivity(once, id, e)[i] == once[i]
    {
      assert once[i].id == Ids(once)[i] == Ids(data)[i] == data[i].id;
    }
  }

  /** An id that no entry carries changes nothing. */
  lemma UpdateUnknownId(data: seq<CoCurricularActivity>, id: string, e: ActivityEdit)
    requires !HasId(data, id)
    ensures UpdateActivity(data, id, e) == data
  {
  }

  /** The test `filter` keeps: an entry whose id differs from `id`. */
  function OtherId(id: string): CoCurricularActivity -> bool {
    (x: CoCurricularActivity) => x.id != id
  }

  /** `removeActivity`: exactly the entries with the id are removed, the
      rest keeping their order. There is no minimum. */
  function RemoveActivity(data: seq<CoCurricularActivity>, id: string): (r: seq<CoCurricularActivity>)
    ensures IsSubsequence(r, data)
    ensures |r| == CountWhere(data, OtherId(id))
    ensures forall k :: 0 <= k < |r| ==> r[k].id != id
    ensures forall i :: 0 <= i < |data| && data[i].id != id ==> data[i] in r
  {
    Filter(data, OtherId(id))
  }

  /** Unlike the experience form, removing the last activity empties the list. */
  lemma RemoveLastActivity(a: CoCurricularActivity)
    ensures RemoveActivity([a], a.id) == []
  {
    FilterNone([a], OtherId(a.id));
  }

  /** With unique ids exactly one entry goes when its id is present, none otherwise. */
  lemma RemoveActivityCount(data: seq<CoCurricularActivity>, id: string)
    requires UniqueIds(data)
    ensures HasId(data, id) ==> |RemoveActivity(data, id)| == |data| - 1
    ensures !HasId(data, id) ==> RemoveActivity(data, id) == data
  {
    var keep := OtherId(id);
    if HasId(data, id) {
      var k :| 0 <= k < |data| && data[k].id == id;
      FilterDropsAtMostOne(data, keep);
      FilterShrinks(data, keep, k);
    } else {
      FilterKeepsAll(data, keep);
    }
  }

  /** Removing an entry just added, by its fresh id, gives back the list before. */
  lemma AddThenRemove(data: seq<CoCurricularActivity>, freshId: string)
    requires !HasId(data, freshId)
    ensures RemoveActivity(AddActivity(data, freshId), freshId) == data
  {
    var keep := OtherId(freshId);
    assert AddActivity(data, freshId) == data + [NewActivity(freshId)];
    assert forall i :: 0 <= i < |data| ==> keep(data[i]);
    FilterDropsAppended(data, NewActivity(freshId), keep);
  }


  /* ---------------------------------------------------------------------
     Bullets
     --------------------------------------------------------------------- */

  function EditDescription(data: seq<CoCurricularActivity>, id: string, f: seq<string> -> seq<string>): (r: seq<CoCurricularActivity>)
    ensures |r| == |data|
    ensures forall i :: 0 <= i < |data| && data[i].id == id ==>
              r[i] == data[i].(description := f(data[i].description))
    ensures forall i :: 0 <= i < |data| && data[i].id != id ==> r[i] == data[i]
  {
    MapWhere(data, (x: CoCurricularActivity) => x.id == id, (x: CoCurricularActivity) => x.(description := f(x.description)))
  }

  /** `addBullet`: an empty bullet appended to the entries with the id. */
  function AddBullet(data: seq<CoCurricularActivity>, id: string): (r: seq<CoCurricularActivity>)
    ensures |r| == |data|
    ensures forall i :: 0 <= i < |data| && data[i].id == id ==>
              r[i] == data[i].(description := Bullets.Add(data[i].description))
    ensures forall i :: 0 <= i < |data| && data[i].id != id ==> r[i] == data[i]
  {
    EditDescription(data, id, Bullets.Add)
  }

  /** The new bullet is blank, so adding it does not change the generated entry. */
  lemma AddBulletRendersSame(data: seq<CoCurricularActivity>, id: string, i: int)
    requires 0 <= i < |data|
    ensures ActivityEntry(AddBullet(data, id)[i]) == ActivityEntry(data[i])
  {
    Bullets.AddRendersSame(data[i].description);
    var x := AddBullet(data, id)[i];
    assert ActivityEntry(x) == SubheadingEntry(x.position, x.dateRange, x.organization, x.location, x.description);
  }

  /** `updateBullet`: position `index` of the description replaced in the
      entries with the id; an out-of-range index changes nothing. */
  function UpdateBullet(data: seq<CoCurricularActivity>, id: string, index: int, value: string): (r: seq<CoCurricularActivity>)
    ensures |r| == |data|
    ensures forall i :: 0 <= i < |data| && data[i].id == id ==>
              r[i] == data[i].(description := ReplaceAt(data[i].description, index, value))
    ensures forall i :: 0 <= i < |data| && data[i].id != id ==> r[i] == data[i]
  {
    EditDescription(data, id, (d: seq<string>) => ReplaceAt(d, index, value))
  }

  /** Writing back the text a bullet already has is no change. */
  lemma UpdateBulletSameText(data: seq<CoCurricularActivity>, k: int, index: int)
    requires UniqueIds(data) && 0 <= k < |data| && 0 <= index < |data[k].description|
    ensures UpdateBullet(data, data[k].id, index, data[k].description[index]) == data
  {
    var r := UpdateBullet(data, data[k].id, index, data[k].description[index]);
    forall i | 0 <= i < |data| ensures r[i] == data[i] {
      if i == k {
        Bullets.UpdateSameText(data[k].description, index);
      }
    }
  }

  /** `removeBullet`: position `index` deleted from the descriptions of the
      entries with the id, the other bullets keeping their order. */
  function RemoveBullet(data: seq<CoCurricularActivity>, id: string, index: int): (r: seq<CoCurricularActivity>)
    ensures |r| == |data|
    ensures forall i :: 0 <= i < |data| && data[i].id == id ==>
              r[i] == data[i].(description := RemoveAt(data[i].description, index))
    ensures forall i :: 0 <= i < |data| && data[i].id != id ==> r[i] == data[i]
  {
    EditDescription(data, id, (d: seq<string>) => RemoveAt(d, index))
  }

  /** Removal is offered only while an entry has more than one bullet, so
      through the form a description never becomes empty. */
  lemma RemoveBulletKeepsOne(data: seq<CoCurricularActivity>, id: string, index: int, i: int)
    requires 0 <= i < |data| && |data[i].description| > 1
    ensures |RemoveBullet(data, id, index)[i].description| >= 1
  {
    Bullets.RemoveKeepsOne(data[i].description, index);
  }

  /** Removing the bullet just added restores the list. */
  lemma AddThenRemoveBullet(data: seq<CoCurricularActivity>, k: int)
    requires UniqueIds(data) && 0 <= k < |data|
    ensures RemoveBullet(AddBullet(data, data[k].id), data[k].id, |data[k].description|) == data
  {
    var id := data[k].id;
    var r := RemoveBullet(AddBullet(data, id), id, |data[k].description|);
    forall i | 0 <= i < |data| ensures r[i] == data[i] {
      if i == k {
        Bullets.RemoveAdded(data[k].description);
      }
    }
  }
}
