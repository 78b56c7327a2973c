/** The list edits of the skills form (components/resumeow/skills-form.tsx).
    Categories are addressed by position, and the items of a category are
    typed as one comma-separated string. */
module SkillsForm {
  import opened Strings
  import opened Seqs
  import opened Resume

  /** The blank category `addSkillCategory` creates. */
  const NewSkill: Skill := Skill("", [""])

  /** `addSkillCategory`: one blank category appended at the end. */
  function AddSkillCategory(data: seq<Skill>): (r: seq<Skill>)
    ensures |r| == |data| + 1 && r[..|data|] == data
    ensures r[|data|].category == "" && r[|data|].items == [""]
  {
    data + [NewSkill]
  }

  /** `updateCategory`: the category at `index` renamed, its items and every
      other category unchanged; an out-of-range index changes nothing. */
  function UpdateCategory(data: seq<Skill>, index: int, category: string): (r: seq<Skill>)
    ensures |r| == |data|
    ensures 0 <= index < |data| ==> r[index].category == category && r[index].items == data[index].items
    ensures forall i :: 0 <= i < |data| && i != index ==> r[i] == data[i]
  {
    seq(|data|, i requires 0 <= i < |data| => if i == index then data[i].(category := category) else data[i])
  }

  /** `items.split(",").map(s => s.trim())`: one item per comma-separated
      piece, so one more than there are commas, each item being its piece
      with the surrounding whitespace cut off. */
  function ParseItems(text: string): (r: seq<string>)
    ensures |r| == Count(text, ',') + 1 && |r| == |Split(text, ',')|
    ensures forall k :: 0 <= k < |r| ==> IsTrimOf(Split(text, ',')[k], r[k])
    ensures forall k :: 0 <= k < |r| ==> ',' !in r[k]
  {
    var pieces := Split(text, ',');
    var r := Map(pieces, Trim);
    forall k | 0 <= k < |r| ensures ',' !in r[k] {
      TrimKeepsOut(pieces[k], ',');
    }
    r
  }

  /** An empty input gives one empty item. */
  lemma ParseEmpty()
    ensures ParseItems("") == [""]
  {
    assert Split("", ',') == [""];
    assert Trim("") == "";
  }

  /** `updateItems`: the items at `index` replaced by the parsed text, every
      other category unchanged; an out-of-range index changes nothing. */
  function UpdateItems(data: seq<Skill>, index: int, text: string): (r: seq<Skill>)
    ensures |r| == |data|
    ensures 0 <= index < |data| ==> r[index].category == data[index].category && r[index].items == ParseItems(text)
    ensures forall i :: 0 <= i < |data| && i != index ==> r[i] == data[i]
  {
    seq(|data|, i requires 0 <= i < |data| => if i == index then data[i].(items := ParseItems(text)) else data[i])
  }

  /** `removeCategory`: position `index` deleted, the rest in order; an
      out-of-range index changes nothing. */
  function RemoveCategory(data: seq<Skill>, index: int): (r: seq<Skill>)
    ensures !(0 <= index < |data|) ==> r == data
    ensures 0 <= index < |data| ==> |r| == |data| - 1
    ensures forall i :: 0 <= i < index && i < |data| ==> r[i] == data[i]
    ensures forall i :: 0 <= index <= i < |data| - 1 ==> r[i] == data[i + 1]
  {
    RemoveAt(data, index)
  }

  /** Removing the category just added restores the list. */
  lemma AddThenRemoveCategory(data: seq<Skill>)
    ensures RemoveCategory(AddSkillCategory(data), |data|) == data
  {
    var added := AddSkillCategory(data);
    assert added[..|data|] == data;
    assert added[|data| + 1..] == [];
  }

  /** The category field shows `skill.category`, so typing back the shown
      name changes nothing. */
  lemma UpdateCategorySameText(data: seq<Skill>, index: int)
    requires 0 <= index < |data|
    ensures UpdateCategory(data, index, data[index].category) == data
  {
    var r := UpdateCategory(data, index, data[index].category);
    assert r[index] == data[index];
  }

  /** Renaming a category twice to the same name is renaming it once. */
  lemma UpdateCategoryIdempotent(data: seq<Skill>, index: int, category: string)
    ensures UpdateCategory(UpdateCategory(data, index, category), index, category)
         == UpdateCategory(data, index, category)
  {
    var once := UpdateCategory(data, index, category);
    var twice := UpdateCategory(once, index, category);
    if 0 <= index < |data| {
      assert twice[index] == once[index];
    }
  }

  /** Typing the same text twice into the items field is typing it once. */
  lemma UpdateItemsIdempotent(data: seq<Skill>, index: int, text: string)
    ensures UpdateItems(UpdateItems(data, index, text), index, text) == UpdateItems(data, index, text)
  {
    var once := UpdateItems(data, index, text);
    var twice := UpdateItems(once, index, text);
    if 0 <= index < |data| {
      assert twice[index] == once[index];
    }
  }

  /* ---------------------------------------------------------------------
     The items field shows `items.join(", ")` and parses it back
     --------------------------------------------------------------------- */

  /** An item as the input field shows it, with the text before it. */
  predicate WellFormedItem(s: string) {
    ',' !in s && Trimmed(s)
  }

  /** The items with a space put in front of every one but the first. */
  function Spaced(items: seq<string>): (r: seq<string>)
    requires |items| > 0
    ensures |r| == |items| && r[0] == items[0]
    ensures forall k :: 0 < k < |items| ==> r[k] == " " + items[k]
  {
    [items[0]] + seq(|items| - 1, k requires 0 <= k < |items| - 1 => " " + items[k + 1])
  }

  /** Spacing a list of at least two items spaces its tail, with one more
      space in front of the second item. */
  lemma SpacedTail(items: seq<string>)
    requires |items| > 1
    ensures Spaced(items)[1..] == [" " + Spaced(items[1..])[0]] + Spaced(items[1..])[1..]
  {
    var sp, rest := Spaced(items), Spaced(items[1..]);
    assert |sp[1..]| == |rest|;
    forall k | 0 <= k < |rest|
      ensures sp[1..][k] == ([" " + rest[0]] + rest[1..])[k]
    {
      assert sp[1..][k] == sp[k + 1] == " " + items[k + 1];
    }
  }

  /** Putting text in front of the first part puts it in front of the join. */
  lemma JoinPrefixFirst(parts: seq<string>, x: string, sep: string)
    requires |parts| > 0
    ensures Join([x + parts[0]] + parts[1..], sep) == x + Join(parts, sep)
  {
    var q := [x + parts[0]] + parts[1..];
    assert q[0] == x + parts[0] && q[1..] == parts[1..];
  }

  lemma {:induction false} JoinSpaced(items: seq<string>)
    requires |items| > 0
    ensures Join(items, ", ") == Join(Spaced(items), ",")
  {
    if |items| > 1 {
      var sp, rest := Spaced(items), Spaced(items[1..]);
      JoinSpaced(items[1..]);
      SpacedTail(items);
      JoinPrefixFirst(rest, " ", ",");
      assert Join(sp[1..], ",") == " " + Join(rest, ",");
      assert Join(sp, ",") == items[0] + "," + Join(sp[1..], ",");
      assert Join(items, ", ") == items[0] + ", " + Join(items[1..], ", ");
    }
  }

  /** Feeding the displayed text back through `updateItems` gives the same
      items, as long as no item holds a comma or surrounding whitespace. */
  lemma ItemsRoundTrip(items: seq<string>)
    requires |items| > 0
    requires forall k :: 0 <= k < |items| ==> WellFormedItem(items[k])
    ensures ParseItems(Join(items, ", ")) == items
  {
    var text := Join(items, ", ");
    var sp := Spaced(items);
    JoinSpaced(items);
    assert forall k :: 0 <= k < |sp| ==> ',' !in sp[k];
    SplitJoin(sp, ',');
    assert Split(text, ',') == sp by {
      assert Join(sp, ",") == Join(sp, [',']);
    }
    var r := ParseItems(text);
    forall k | 0 <= k < |items| ensures r[k] == items[k] {
      SpacedItemTrims(items, k);
      TrimUnique(sp[k], r[k], items[k]);
    }
  }

  /** Trimming a spaced item gives the item back. */
  lemma SpacedItemTrims(items: seq<string>, k: int)
    requires 0 <= k < |items| && WellFormedItem(items[k])
    ensures Trim(Spaced(items)[k]) == items[k]
  {
    TrimTrimmed(items[k]);
    if k > 0 {
      TrimSkipsLeading(' ', items[k]);
    }
  }

  /** The same for a whole category list: re-entering the shown text changes nothing. */
  lemma UpdateItemsWithShownText(data: seq<Skill>, index: int)
    requires 0 <= index < |data| && |data[index].items| > 0
    requires forall k :: 0 <= k < |data[index].items| ==> WellFormedItem(data[index].items[k])
    ensures UpdateItems(data, index, Join(data[index].items, ", ")) == data
  {
    ItemsRoundTrip(data[index].items);
    var r := UpdateItems(data, index, Join(data[index].items, ", "));
    assert r[index] == data[index];
  }
}
