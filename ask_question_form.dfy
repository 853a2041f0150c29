/**
 * The ask-question form: choosing at most five tags, the guard on posting,
 * and the question object it posts. Question ids (`Date.now()` in the
 * client) are parameters.
 */
module AskQuestionForm {
  import opened Common
  import opened Text
  import opened ClientData

  const MaxTags: nat := 5

  /**
   * `toggleTag`: a chosen tag is removed; an unchosen one is appended only
   * while fewer than five are chosen.
   */
  function ToggleTag(tags: seq<string>, tag: string): (r: seq<string>)
    ensures tag in tags ==> r == Without(tags, tag)
    ensures tag !in tags && |tags| < MaxTags ==> r == tags + [tag]
    ensures tag !in tags && |tags| >= MaxTags ==> r == tags
  {
    if tag in tags then Without(tags, tag)
    else if |tags| < MaxTags then tags + [tag]
    else tags
  }

  /** What the form keeps true of its chosen tags. */
  predicate ValidSelection(tags: seq<string>)
  {
    |tags| <= MaxTags && NoDuplicates(tags)
  }

  /** Toggling keeps at most five tags and no tag twice. */
  lemma ToggleKeepsValid(tags: seq<string>, tag: string)
    requires ValidSelection(tags)
    ensures ValidSelection(ToggleTag(tags, tag))
  {
    if tag in tags {
      WithoutNoDuplicates(tags, tag);
    } else if |tags| < MaxTags {
      var r := tags + [tag];
      forall i, j | 0 <= i < j < |r| ensures r[i] != r[j] {
        if j == |tags| {
          assert r[i] in tags;
        }
      }
    }
  }

  /**
   * After a toggle, `tag` is chosen exactly when it was not chosen and there
   * was room; every other tag keeps its state.
   */
  lemma ToggleMembership(tags: seq<string>, tag: string, other: string)
    requires other != tag
    ensures tag in ToggleTag(tags, tag) <==> tag !in tags && |tags| < MaxTags
    ensures other in ToggleTag(tags, tag) <==> other in tags
  {
  }

  /** Choosing a tag while there is room and then unchoosing it restores the choice. */
  lemma ToggleTwiceRestores(tags: seq<string>, tag: string)
    requires tag !in tags && |tags| < MaxTags
    ensures ToggleTag(ToggleTag(tags, tag), tag) == tags
  {
    WithoutAppend(tags, [tag], tag);
    WithoutAbsent(tags, tag);
  }

  /** `title.trim() && content.trim() && tags.length > 0`. */
  predicate CanSubmit(title: string, content: string, tags: seq<string>)
  {
    !IsBlank(title) && !IsBlank(content) && |tags| > 0
  }

  /** The post button's `disabled` condition. */
  predicate SubmitDisabled(title: string, content: string, tags: seq<string>)
  {
    IsBlank(title) || IsBlank(content) || |tags| == 0
  }

  /**
   * `handleSubmit`: a question exactly when the button is enabled, posted
   * anonymously with no votes, views or comments, with the title and
   * content as typed (untrimmed) and the tags in the order chosen.
   */
  function HandleSubmit(title: string, content: string, tags: seq<string>, campus: string,
                        department: string, id: int): (r: Option<Question>)
    ensures r.Some? <==> CanSubmit(title, content, tags)
    ensures r.Some? <==> !SubmitDisabled(title, content, tags)
    ensures r.Some? ==>
      && r.value.id == id && r.value.title == title && r.value.content == content
      && r.value.author == Anonymous && r.value.tags == tags
      && r.value.campus == campus && r.value.department == department
      && r.value.votes == 0 && r.value.views == 0 && r.value.comments == []
      && r.value.timestamp == "just now"
  {
    if !IsBlank(title) && !IsBlank(content) && |tags| > 0 then
      Some(Question(id, title, content, Anonymous, tags, campus, department, 0, [], 0, "just now"))
    else None
  }
}
