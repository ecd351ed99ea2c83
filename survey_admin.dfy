/** The survey-question administration page (pages/SurveyManagementPage.tsx):
    the question editor's initial fields, what a save sends to the store,
    the key a new question gets, and the active toggle. */
module SurveyAdmin {
  import opened Seqs
  import opened Types
  import Text
  import Dates
  import Store

  /** The editor's initial fields: the edited question's, or an empty `range` question. */
  function InitialFields(question: Option<SurveyQuestion>): (r: (string, QuestionType))
    ensures question.None? ==> r == ("", RangeQuestion)
    ensures question.Some? ==> r == (question.value.labelText, question.value.questionType)
  {
    match question
    case None => ("", RangeQuestion)
    case Some(q) => (q.labelText, q.questionType)
  }

  /** `/[^a-z0-9]/g` replaced by `_`, one character at a time. */
  function KeyChar(c: char): (r: char)
    ensures IsKeyChar(r)
    ensures IsKeyChar(c) && c != '_' ==> r == c
  {
    if 'a' <= c <= 'z' || '0' <= c <= '9' then c else '_'
  }

  predicate IsKeyChar(c: char)
  {
    'a' <= c <= 'z' || '0' <= c <= '9' || c == '_'
  }

  function Slug(s: string): (r: string)
    ensures |r| == |s|
    ensures forall i :: 0 <= i < |r| ==> r[i] == KeyChar(s[i])
  {
    if s == [] then [] else [KeyChar(s[0])] + Slug(s[1..])
  }

  /** The key of a new question: its lower-cased caption with every character
      outside `a-z0-9` replaced by `_`, then `_` and the creation time. */
  function QuestionKey(caption: string, now: nat): (key: string)
    ensures key != ""
    ensures forall i :: 0 <= i < |key| ==> IsKeyChar(key[i])
    ensures key == Slug(Text.ToLower(caption)) + "_" + Text.NatToString(now)
  {
    var key := Slug(Text.ToLower(caption)) + "_" + Text.NatToString(now);
    assert forall i :: 0 <= i < |Text.NatToString(now)| ==> Dates.IsDigit(Text.NatToString(now)[i]);
    key
  }

  /** The number of digits a string ends with. */
  function TrailingDigits(s: string): (n: nat)
    ensures n <= |s|
  {
    if s == [] || !Dates.IsDigit(s[|s| - 1]) then 0 else 1 + TrailingDigits(s[..|s| - 1])
  }

  /** A key ends with exactly the digits of its time, since `_` precedes them. */
  lemma {:induction false} TrailingDigitsOfKey(slug: string, digits: string)
    requires forall i :: 0 <= i < |digits| ==> Dates.IsDigit(digits[i])
    ensures TrailingDigits(slug + "_" + digits) == |digits|
    decreases |digits|
  {
    var key := slug + "_" + digits;
    if digits != [] {
      assert key[..|key| - 1] == slug + "_" + digits[..|digits| - 1];
      TrailingDigitsOfKey(slug, digits[..|digits| - 1]);
    }
  }

  /** A key records the time it was made: keys made at different times differ, whatever the captions. */
  lemma KeyDeterminesTime(l1: string, n1: nat, l2: string, n2: nat)
    requires QuestionKey(l1, n1) == QuestionKey(l2, n2)
    ensures n1 == n2
  {
    var key := QuestionKey(l1, n1);
    var k1, k2 := Text.NatToString(n1), Text.NatToString(n2);
    TrailingDigitsOfKey(Slug(Text.ToLower(l1)), k1);
    TrailingDigitsOfKey(Slug(Text.ToLower(l2)), k2);
    assert k1 == key[|key| - |k1|..] == k2;
    Text.NatToStringValue(n1);
    Text.NatToStringValue(n2);
  }

  /** The two store calls a save can make. */
  datatype Save =
    | UpdateQuestion(id: string, patch: Store.QuestionPatch)
    | AddQuestion(input: SurveyQuestion)

  /** `handleSubmit`: an edit sends only the caption and the type; a new
      question is sent active, with its key made at `now`. */
  function Submission(question: Option<SurveyQuestion>, caption: string, questionType: QuestionType, now: nat): (r: Save)
    ensures question.Some? <==> r.UpdateQuestion?
    ensures r.UpdateQuestion? ==> r.id == question.value.id
    ensures r.AddQuestion? ==> r.input.isActive && r.input.labelText == caption &&
                               r.input.questionType == questionType && r.input.key == QuestionKey(caption, now)
  {
    match question
    case Some(q) => UpdateQuestion(q.id, Store.QuestionPatch(Some(caption), None, None, Some(questionType)))
    case None => AddQuestion(SurveyQuestion("", caption, QuestionKey(caption, now), true, questionType))
  }

  /** Saving an edit keeps the question's id, key and active flag and takes the caption and type. */
  lemma EditKeepsKey(q: SurveyQuestion, caption: string, questionType: QuestionType, now: nat)
    ensures var r := Store.PatchingQuestion(Submission(Some(q), caption, questionType, now).patch)(q);
            r == q.(labelText := caption, questionType := questionType)
  {
  }

  /** The store keeps the key the page made for a new question, and the question is active. */
  lemma AddedQuestionKey(caption: string, questionType: QuestionType, now: nat, storeNow: nat)
    ensures var q := Store.NewQuestion(Submission(None, caption, questionType, now).input, storeNow);
            q.key == QuestionKey(caption, now) && q.isActive && q.labelText == caption && q.questionType == questionType
  {
  }

  /** `handleToggle`: `{ isActive: !question.isActive }`. */
  function TogglePatch(q: SurveyQuestion): Store.QuestionPatch
  {
    Store.QuestionPatch(None, None, Some(!q.isActive), None)
  }

  /** The toggle flips the active flag and nothing else; toggling twice restores the question. */
  lemma ToggleFlipsActive(q: SurveyQuestion)
    ensures Store.PatchingQuestion(TogglePatch(q))(q) == q.(isActive := !q.isActive)
    ensures var t := Store.PatchingQuestion(TogglePatch(q))(q);
            Store.PatchingQuestion(TogglePatch(t))(t) == q
  {
  }
}
