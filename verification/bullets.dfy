/** The bullet edits the experience and co-curricular forms share, on one
    description: `addBullet` appends an empty bullet, `updateBullet` writes
    one position and `removeBullet` deletes one. The two forms apply them to
    the entries with a given id. */
module Bullets {
  import opened Seqs
  import opened Template
  import opened EntryProps

  /** `[...description, ""]`: one empty bullet after the existing ones. */
  function Add(description: seq<string>): (r: seq<string>)
    ensures |r| == |description| + 1 && r[..|description|] == description
    ensures r[|description|] == ""
  {
    description + [""]
  }

  /** The empty bullet is blank, so adding it does not change the item list. */
  lemma AddRendersSame(description: seq<string>)
    ensures BulletList(Add(description)) == BulletList(description)
  {
    BlankBulletAppended(description);
  }

  /** Removing the bullet just added gives the description back. */
  lemma RemoveAdded(description: seq<string>)
    ensures RemoveAt(Add(description), |description|) == description
  {
    var d := Add(description);
    assert d[..|description|] == description;
    assert d[|description| + 1..] == [];
  }

  /** Writing back the text a bullet already has is no change. */
  lemma UpdateSameText(description: seq<string>, index: int)
    requires 0 <= index < |description|
    ensures ReplaceAt(description, index, description[index]) == description
  {
    assert description[index := description[index]] == description;
  }

  /** The forms offer removal only while there is more than one bullet, so
      through them a description never becomes empty. */
  lemma RemoveKeepsOne(description: seq<string>, index: int)
    requires |description| > 1
    ensures |RemoveAt(description, index)| >= 1
  {
  }
}
