/** The "add a thought" form: a duplicate-free tag editor fed by a text box
    and by suggested-tag badges, a three-way emotion selector and a
    record toggle. */
module AddThought {
  import opened Options
  import opened Text
  import opened Lists

  datatype Emotion = Happy | Neutral | Sad

  /** The form's state: the `title`, `content`, `tags`, `newTag`, `emotion`
      and `isRecording` hooks. */
  datatype ThoughtForm = ThoughtForm(
    title: string,
    content: string,
    tags: seq<string>,
    newTag: string,
    emotion: Option<Emotion>,
    isRecording: bool)

  const InitialForm := ThoughtForm("", "", [], "", None, false)

  const SuggestedTags: seq<string> := ["wisdom", "family", "growth", "fear", "love", "work"]

  /** `handleAddTag` (also run by Enter in the tag box): the trimmed text is
      appended when it is non-blank and not yet a tag, and the box is then
      cleared; otherwise nothing changes. */
  function AddTag(f: ThoughtForm): (r: ThoughtForm)
    ensures r.tags == f.tags || r.tags == f.tags + [Trim(f.newTag)]
    ensures r.tags != f.tags <==> Trim(f.newTag) != "" && Trim(f.newTag) !in f.tags
    ensures r.newTag == if r.tags != f.tags then "" else f.newTag
    ensures r.title == f.title && r.content == f.content
    ensures r.emotion == f.emotion && r.isRecording == f.isRecording
    ensures NoDups(f.tags) ==> NoDups(r.tags)
  {
    var t := Trim(f.newTag);
    if t != "" && t !in f.tags then
      assert NoDups(f.tags) ==> NoDups(f.tags + [t]) by {
        if NoDups(f.tags) { NoDupsAppend(f.tags, t); }
      }
      assert |f.tags + [t]| != |f.tags|;
      f.(tags := f.tags + [t], newTag := "")
    else f
  }

  /** `handleRemoveTag`: every copy of the tag goes, the other tags stay in
      order; nothing else changes. */
  function RemoveTag(f: ThoughtForm, tag: string): (r: ThoughtForm)
    ensures tag !in r.tags
    ensures forall u :: u != tag ==> multiset(r.tags)[u] == multiset(f.tags)[u]
    ensures IsSubseq(r.tags, f.tags)
    ensures r == f.(tags := r.tags)
    ensures NoDups(f.tags) ==> NoDups(r.tags)
  {
    f.(tags := RemoveAll(f.tags, tag))
  }

  /** Clicking a suggested-tag badge: the tag, untrimmed, is appended if it is
      not already there; the tag box is left alone. */
  function SuggestTag(f: ThoughtForm, tag: string): (r: ThoughtForm)
    ensures tag in r.tags
    ensures r.tags == if tag in f.tags then f.tags else f.tags + [tag]
    ensures r == f.(tags := r.tags)
    ensures NoDups(f.tags) ==> NoDups(r.tags)
  {
    if tag in f.tags then f
    else
      assert NoDups(f.tags) ==> NoDups(f.tags + [tag]);
      f.(tags := f.tags + [tag])
  }

  /** The emotion buttons: pressing the selected emotion clears the choice,
      pressing any other selects it. */
  function PressEmotion(current: Option<Emotion>, e: Emotion): (r: Option<Emotion>)
    ensures r == None || r == Some(e)
    ensures r == None <==> current == Some(e)
  {
    if current == Some(e) then None else Some(e)
  }

  /** Pressing the same button twice restores the earlier choice when that
      choice was nothing or this very emotion. */
  lemma PressTwiceRestores(current: Option<Emotion>, e: Emotion)
    requires current == None || current == Some(e)
    ensures PressEmotion(PressEmotion(current, e), e) == current
  {
  }

  /** ... but not when another emotion was chosen: Happy, then Sad twice,
      leaves no emotion chosen. */
  lemma PressTwiceFromOtherClears(current: Option<Emotion>, e: Emotion)
    requires current.Some? && current.value != e
    ensures PressEmotion(PressEmotion(current, e), e) == None
  {
  }

  /** Clicking an emotion button on the form: only the chosen emotion
      changes. */
  function SelectEmotion(f: ThoughtForm, e: Emotion): (r: ThoughtForm)
    ensures r == f.(emotion := r.emotion)
    ensures r.emotion == None <==> f.emotion == Some(e)
    ensures r.emotion != None ==> r.emotion == Some(e)
  {
    f.(emotion := PressEmotion(f.emotion, e))
  }

  /** The record button flips `isRecording` and nothing else; two presses
      restore the form. */
  function ToggleRecording(f: ThoughtForm): (r: ThoughtForm)
    ensures r.isRecording != f.isRecording
    ensures r.(isRecording := f.isRecording) == f
  {
    f.(isRecording := !f.isRecording)
  }

  /** The form's events: typing in the tag box, pressing add (or Enter),
      clicking a suggested badge, clicking a tag's remove cross, clicking an
      emotion button, pressing the record button. */
  datatype FormEvent =
    | TypeTag(text: string) | AddTyped | Suggest(tag: string) | Remove(tag: string)
    | PickEmotion(emotion: Emotion) | PressRecord

  /** Suggested badges only offer the fixed suggestion list. */
  predicate ValidEvent(e: FormEvent)
  {
    e.Suggest? ==> e.tag in SuggestedTags
  }

  /** Each form event touches only its own part of the form: the title and
      content never change, the tags only on add, suggest and remove, the
      emotion only on an emotion click, and the recording flag exactly on a
      record press. */
  function Step(f: ThoughtForm, e: FormEvent): (r: ThoughtForm)
    ensures r.title == f.title && r.content == f.content
    ensures e.TypeTag? ==> r.newTag == e.text
    ensures e.TypeTag? || e.PickEmotion? || e.PressRecord? ==> r.tags == f.tags
    ensures !e.PickEmotion? ==> r.emotion == f.emotion
    ensures r.isRecording != f.isRecording <==> e.PressRecord?
    ensures NoDups(f.tags) ==> NoDups(r.tags)
  {
    match e
    case TypeTag(text) => f.(newTag := text)
    case AddTyped => AddTag(f)
    case Suggest(tag) => SuggestTag(f, tag)
    case Remove(tag) => RemoveTag(f, tag)
    case PickEmotion(e) => SelectEmotion(f, e)
    case PressRecord => ToggleRecording(f)
  }

  function Run(f: ThoughtForm, es: seq<FormEvent>): ThoughtForm
    decreases |es|
  {
    if es == [] then f else Run(Step(f, es[0]), es[1..])
  }

  /** A tag list the editor can show: no duplicates, and every tag non-empty
      with no surrounding whitespace. */
  predicate WellFormedTags(tags: seq<string>)
  {
    NoDups(tags) && forall t :: t in tags ==> t != "" && IsTrimmed(t)
  }

  /** The suggested tags are non-empty and already trimmed, so adding one
      untrimmed is the same as adding it trimmed (`TrimFixedIffTrimmed`). */
  lemma SuggestedTagsTrimmed()
    ensures forall t :: t in SuggestedTags ==> t != "" && IsTrimmed(t)
  {
  }

  lemma StepKeepsTagsWellFormed(f: ThoughtForm, e: FormEvent)
    requires WellFormedTags(f.tags) && ValidEvent(e)
    ensures WellFormedTags(Step(f, e).tags)
  {
    match e
    case TypeTag(_) =>
    case AddTyped => AddKeepsTagsWellFormed(f);
    case Suggest(tag) => SuggestKeepsTagsWellFormed(f, tag);
    case Remove(tag) => RemoveKeepsTagsWellFormed(f, tag);
    case PickEmotion(_) =>
    case PressRecord =>
  }

  lemma AddKeepsTagsWellFormed(f: ThoughtForm)
    requires WellFormedTags(f.tags)
    ensures WellFormedTags(AddTag(f).tags)
  {
    var r := AddTag(f).tags;
    if r != f.tags {
      var t := Trim(f.newTag);
      AppendWellFormed(f.tags, t);
    }
  }

  lemma AppendWellFormed(tags: seq<string>, t: string)
    requires WellFormedTags(tags) && t !in tags && t != "" && IsTrimmed(t)
    ensures WellFormedTags(tags + [t])
  {
    NoDupsAppend(tags, t);
  }

  lemma SuggestKeepsTagsWellFormed(f: ThoughtForm, tag: string)
    requires WellFormedTags(f.tags) && tag in SuggestedTags
    ensures WellFormedTags(SuggestTag(f, tag).tags)
  {
    if tag !in f.tags {
      SuggestedTagsTrimmed();
      AppendWellFormed(f.tags, tag);
    }
  }

  lemma RemoveKeepsTagsWellFormed(f: ThoughtForm, tag: string)
    requires WellFormedTags(f.tags)
    ensures WellFormedTags(RemoveTag(f, tag).tags)
  {
    var r := RemoveTag(f, tag).tags;
    forall u | u in r ensures u != "" && IsTrimmed(u) {
      assert multiset(r)[u] > 0;
      assert u in f.tags;
    }
  }

  /** Whatever the user does with the tag editor, starting from an empty
      list, the list never holds a duplicate, an empty tag or a tag with
      surrounding whitespace. */
  lemma {:induction false} TagsStayWellFormed(f: ThoughtForm, es: seq<FormEvent>)
    requires WellFormedTags(f.tags)
    requires forall i :: 0 <= i < |es| ==> ValidEvent(es[i])
    ensures WellFormedTags(Run(f, es).tags)
    decreases |es|
  {
    if es != [] {
      StepKeepsTagsWellFormed(f, es[0]);
      TagsStayWellFormed(Step(f, es[0]), es[1..]);
    }
  }

  lemma FromInitialTagsWellFormed(es: seq<FormEvent>)
    requires forall i :: 0 <= i < |es| ==> ValidEvent(es[i])
    ensures NoDups(Run(InitialForm, es).tags)
  {
    TagsStayWellFormed(InitialForm, es);
  }
}
