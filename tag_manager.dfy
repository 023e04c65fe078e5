/** The tag editor of the article editor (components/editor/TagManager.tsx): adding a
    bilingual tag from the two inputs, removing one by position, and Enter as a shortcut
    for adding. */
module TagManager {

  import opened Wrappers
  import opened Types
  import Seqs
  import Text

  /** `a || b` on strings: the empty string is falsy. */
  function OrElse(a: string, b: string): string
  {
    if a != "" then a else b
  }

  /** The tag `handleAddTag` builds: each side is its own trimmed input when that is not
      blank and falls back on the other side's otherwise, so a tag built from a non-blank
      input has no empty side. */
  function NewTag(en: string, dv: string): (t: BilingualText)
    ensures !Text.Blank(en) || !Text.Blank(dv) ==> t.en != "" && t.dv != ""
    ensures !Text.Blank(en) ==> t.en == Text.Trim(en)
    ensures !Text.Blank(dv) ==> t.dv == Text.Trim(dv)
    ensures Text.Blank(en) ==> t.en == Text.Trim(dv)
    ensures Text.Blank(dv) ==> t.dv == Text.Trim(en)
  {
    BilingualText(OrElse(Text.Trim(en), Text.Trim(dv)), OrElse(Text.Trim(dv), Text.Trim(en)))
  }

  /** `tags.filter((_, i) => i !== index)`, with `from` the position of `s[0]`. */
  function DropIndex<T>(s: seq<T>, index: int, from: int): (r: seq<T>)
    ensures |r| <= |s|
  {
    if s == [] then []
    else (if from == index then [] else [s[0]]) + DropIndex(s[1..], index, from + 1)
  }

  /** `handleRemoveTag(index)` removes exactly position `index` and keeps the order of the
      rest; an index out of range keeps every tag. */
  lemma {:induction false} DropIndexRemovesOne<T>(s: seq<T>, index: int, from: int)
    ensures DropIndex(s, index, from) == Seqs.RemoveAt(s, index - from)
  {
    if s != [] {
      DropIndexRemovesOne(s[1..], index, from + 1);
      if from == index {
        assert s[..0] + s[1..] == s[1..];
        assert DropIndex(s[1..], index, from + 1) == s[1..];
      } else if from < index && index - from < |s| {
        assert s[..index - from] == [s[0]] + s[1..][..index - from - 1];
        assert s[index - from + 1..] == s[1..][index - from..];
      }
    }
  }

  function RemoveTag(tags: seq<BilingualText>, index: int): (r: seq<BilingualText>)
    ensures r == Seqs.RemoveAt(tags, index)
    ensures 0 <= index < |tags| ==> |r| == |tags| - 1
    ensures !(0 <= index < |tags|) ==> r == tags
  {
    DropIndexRemovesOne(tags, index, 0);
    DropIndex(tags, index, 0)
  }

  /** The two inputs of the tag editor. */
  class TagInputs {
    var tagInputEn: string
    var tagInputDv: string

    constructor()
      ensures tagInputEn == "" && tagInputDv == ""
    {
      tagInputEn := "";
      tagInputDv := "";
    }

    /** `handleAddTag()`: with both inputs blank nothing happens (`None`: `onTagsChange` is
        not called); otherwise `onTagsChange` receives the tags with one new tag at the end
        and both inputs are cleared. */
    method HandleAddTag(tags: seq<BilingualText>) returns (changed: Option<seq<BilingualText>>)
      modifies this
      ensures Text.Blank(old(tagInputEn)) && Text.Blank(old(tagInputDv)) ==>
        changed.None? && tagInputEn == old(tagInputEn) && tagInputDv == old(tagInputDv)
      ensures !(Text.Blank(old(tagInputEn)) && Text.Blank(old(tagInputDv))) ==>
        changed == Some(tags + [NewTag(old(tagInputEn), old(tagInputDv))])
        && tagInputEn == "" && tagInputDv == ""
    {
      if Text.Trim(tagInputEn) != "" || Text.Trim(tagInputDv) != "" {
        changed := Some(tags + [NewTag(tagInputEn, tagInputDv)]);
        tagInputEn := "";
        tagInputDv := "";
      } else {
        changed := None;
      }
    }

    /** `handleKeyDown(e)`: Enter adds the tag as the button does; other keys do nothing. */
    method HandleKeyDown(key: string, tags: seq<BilingualText>) returns (changed: Option<seq<BilingualText>>)
      modifies this
      ensures key != "Enter" ==> changed.None? && tagInputEn == old(tagInputEn) && tagInputDv == old(tagInputDv)
      ensures key == "Enter" && (Text.Blank(old(tagInputEn)) && Text.Blank(old(tagInputDv))) ==>
        changed.None? && tagInputEn == old(tagInputEn) && tagInputDv == old(tagInputDv)
      ensures key == "Enter" && !(Text.Blank(old(tagInputEn)) && Text.Blank(old(tagInputDv))) ==>
        changed == Some(tags + [NewTag(old(tagInputEn), old(tagInputDv))])
        && tagInputEn == "" && tagInputDv == ""
    {
      if key == "Enter" {
        changed := HandleAddTag(tags);
      } else {
        changed := None;
      }
    }
  }
}
