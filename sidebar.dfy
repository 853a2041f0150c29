/** The tag filter in the sidebar: any number of tags can be selected. */
module Sidebar {
  import opened ClientData

  /** `toggleTag`: a selected tag is removed, an unselected one appended, with no cap. */
  function ToggleTag(selectedTags: seq<string>, tag: string): (r: seq<string>)
    ensures tag in selectedTags ==> r == Without(selectedTags, tag)
    ensures tag !in selectedTags ==> r == selectedTags + [tag]
  {
    if tag in selectedTags then Without(selectedTags, tag) else selectedTags + [tag]
  }

  /** "Clear filters": no tag selected. */
  function Clear(): (r: seq<string>)
    ensures |r| == 0
  {
    []
  }

  /**
   * After a toggle, `tag` is selected exactly when it was not; every other
   * tag keeps its state.
   */
  lemma ToggleMembership(selectedTags: seq<string>, tag: string, other: string)
    requires other != tag
    ensures tag in ToggleTag(selectedTags, tag) <==> tag !in selectedTags
    ensures other in ToggleTag(selectedTags, tag) <==> other in selectedTags
  {
  }

  /** Toggling never selects a tag twice. */
  lemma ToggleKeepsNoDuplicates(selectedTags: seq<string>, tag: string)
    requires NoDuplicates(selectedTags)
    ensures NoDuplicates(ToggleTag(selectedTags, tag))
  {
    if tag in selectedTags {
      WithoutNoDuplicates(selectedTags, tag);
    } else {
      var r := selectedTags + [tag];
      forall i, j | 0 <= i < j < |r| ensures r[i] != r[j] {
        if j == |selectedTags| {
          assert r[i] in selectedTags;
        }
      }
    }
  }

  /** Selecting an unselected tag and then unselecting it restores the selection. */
  lemma ToggleAbsentTwiceRestores(selectedTags: seq<string>, tag: string)
    requires tag !in selectedTags
    ensures ToggleTag(ToggleTag(selectedTags, tag), tag) == selectedTags
  {
    WithoutAppend(selectedTags, [tag], tag);
    WithoutAbsent(selectedTags, tag);
  }

  /**
   * Unselecting a selected tag and selecting it again keeps the same tags
   * but moves that one to the end.
   */
  lemma TogglePresentTwiceMovesToEnd(selectedTags: seq<string>, tag: string)
    requires tag in selectedTags
    ensures ToggleTag(ToggleTag(selectedTags, tag), tag) == Without(selectedTags, tag) + [tag]
    ensures forall t :: t in ToggleTag(ToggleTag(selectedTags, tag), tag) <==> t in selectedTags
  {
  }
}
