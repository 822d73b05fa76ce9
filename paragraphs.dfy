/**
 * The paragraph list of a note, `src/store/paragraphs.ts`: a pure reducer
 * over `{ focusItemIndex, items }` and `resolveNewParagraphValue`, which
 * runs the bracket insertion on an edit and then looks for the mention under
 * the caret. The caret comes in as a number: reading it from the DOM
 * selection (and throwing when more than one character is selected) is not
 * part of this model.
 */
module ParagraphsStore {

  import opened Common
  import opened ParseMarkdown
  import opened MarkdownRange
  import opened MarkdownUtil

  datatype ParagraphsState = ParagraphsState(focusItemIndex: int, items: seq<string>)

  datatype ParagraphsAction =
    | NewParagraphBelowFocus
    | EditParagraph(newParagraph: string)
    | Focus(index: int)

  /** `getDefaultParagraphItem`: a paragraph item is its text, `""` by default. */
  function DefaultParagraphItem(content: string := ""): string
  {
    content
  }

  /**
   * `getDefaultParagraphsState`: focus on the first item; the note's
   * paragraphs, or one empty paragraph when it has none.
   */
  function DefaultParagraphsState(paragraphs: seq<string> := []): ParagraphsState
  {
    ParagraphsState(0,
      if |paragraphs| > 0 then seq(|paragraphs|, k requires 0 <= k < |paragraphs| => DefaultParagraphItem(paragraphs[k]))
      else [DefaultParagraphItem()])
  }

  /**
   * What the store keeps true: the focus is an item or `-1` (nothing
   * focused, which `focus` produces on an empty list).
   */
  predicate Valid(state: ParagraphsState)
  {
    -1 <= state.focusItemIndex < |state.items|
  }

  /** `paragraphsReducer`. */
  function Reduce(state: ParagraphsState, action: ParagraphsAction): ParagraphsState
  {
    match action
    case NewParagraphBelowFocus =>
      state.(items := InsertAt(state.items, state.focusItemIndex + 1, DefaultParagraphItem()),
             focusItemIndex := state.focusItemIndex + 1)
    case EditParagraph(newParagraph) =>
      state.(items := seq(|state.items|, k requires 0 <= k < |state.items| =>
               if k != state.focusItemIndex then state.items[k] else newParagraph))
    case Focus(index) =>
      state.(focusItemIndex := Clamp(index, -1, |state.items| - 1))
  }

  /**
   * The default state focuses the first item, has at least one item, keeps
   * the given paragraphs or else holds one empty paragraph, and is valid.
   */
  lemma DefaultStateShape(paragraphs: seq<string>)
    ensures var s := DefaultParagraphsState(paragraphs);
      && s.focusItemIndex == 0 && |s.items| >= 1 && Valid(s)
      && (|paragraphs| > 0 ==> s.items == paragraphs)
      && (|paragraphs| == 0 ==> s.items == [""])
  {
  }

  /**
   * A new paragraph goes in right below the focused one and takes the
   * focus; the items before and after it keep their order.
   */
  lemma NewParagraphInsertsBelow(state: ParagraphsState)
    requires Valid(state)
    ensures var s := Reduce(state, NewParagraphBelowFocus);
      var f := state.focusItemIndex;
      && s.focusItemIndex == f + 1
      && |s.items| == |state.items| + 1
      && s.items == state.items[..f + 1] + [""] + state.items[f + 1..]
      && s.items[s.focusItemIndex] == ""
      && Valid(s)
  {
  }

  /**
   * Editing replaces the focused item and nothing else; with no item
   * focused (`-1`) the state does not change.
   */
  lemma EditReplacesFocusedOnly(state: ParagraphsState, newParagraph: string)
    ensures var s := Reduce(state, EditParagraph(newParagraph));
      && s.focusItemIndex == state.focusItemIndex
      && |s.items| == |state.items|
      && (forall k :: 0 <= k < |s.items| && k != state.focusItemIndex ==> s.items[k] == state.items[k])
      && (0 <= state.focusItemIndex < |s.items| ==> s.items[state.focusItemIndex] == newParagraph)
      && (state.focusItemIndex == -1 ==> s == state)
  {
    var s := Reduce(state, EditParagraph(newParagraph));
    if state.focusItemIndex == -1 {
      assert s.items == state.items;
    }
  }

  /**
   * Focusing clamps the index to `[-1, |items| - 1]`, so the result is
   * valid from any state, and keeps the items.
   */
  lemma FocusClamps(state: ParagraphsState, index: int)
    ensures var s := Reduce(state, Focus(index));
      && s.items == state.items
      && Valid(s)
      && (-1 <= index < |state.items| ==> s.focusItemIndex == index)
      && (index >= |state.items| ==> s.focusItemIndex == |state.items| - 1)
      && (index < -1 ==> s.focusItemIndex == -1)
  {
  }

  /** Every action keeps the state valid. */
  lemma ReducePreservesValid(state: ParagraphsState, action: ParagraphsAction)
    requires Valid(state)
    ensures Valid(Reduce(state, action))
  {
    match action
    case NewParagraphBelowFocus => NewParagraphInsertsBelow(state);
    case EditParagraph(p) => EditReplacesFocusedOnly(state, p);
    case Focus(index) => FocusClamps(state, index);
  }

  datatype NewParagraphValue = NewParagraphValue(newParagraph: string, newCursor: int, mention: Option<Range>)

  /**
   * `resolveNewParagraphValue`, given the input's value and caret: insert
   * missing brackets after a typed `@`, then find the mention at the
   * resulting caret. The mention reported is the one under the new caret,
   * if any; a mention found holds the caret and opens on `@[`.
   */
  function ResolveNewParagraphValue(value: string, cursor: int, currentParagraph: string)
    : (r: NewParagraphValue)
    ensures (r.newParagraph, r.newCursor) == BracketsInserted(currentParagraph, value, cursor)
    ensures r.mention == MentionAtCursor(r.newParagraph, r.newCursor)
    ensures r.mention.Some? ==>
      && 0 <= r.mention.value.beginOutside
      && r.mention.value.beginInside == r.mention.value.beginOutside + 2
      && r.mention.value.beginInside <= r.newCursor <= r.mention.value.endInside
      && r.mention.value.endInside < r.mention.value.endOutside <= |r.newParagraph|
      && r.newParagraph[r.mention.value.beginOutside..r.mention.value.beginInside] == "@["
  {
    var (newParagraph, newCursor) := BracketsInserted(currentParagraph, value, cursor);
    var mention := MentionAtCursor(newParagraph, newCursor);
    if mention.Some? then
      MentionAtCursorFacts(newParagraph, newCursor);
      NewParagraphValue(newParagraph, newCursor, mention)
    else
      NewParagraphValue(newParagraph, newCursor, mention)
  }

  /**
   * Typing `@` at the end of plain text gives `@[]` with the caret between
   * the brackets, inside an empty mention.
   */
  lemma TypingAtOpensEmptyMention(a: string)
    requires |a| > 0 && NoMarkup(a)
    ensures var n := |a|;
      ResolveNewParagraphValue(a + "@", n + 1, a)
      == NewParagraphValue(a + "@[]", n + 2, Some(Range(2, 3, Mention, n, n + 2, n + 2, n + 3)))
  {
    var n := |a|;
    var typed := a + "@";
    assert WantsToTag(a, typed, n + 1);
    assert !HasBracketsAlready(typed, n + 1);
    assert typed[..n + 1] + "[]" + typed[n + 1..] == a + "@[]";
    LexEmptyMention(a);
    EmptyMentionRanges(n);
  }
}
