/**
 * The older paragraph list of `src/ui/Note.tsx`. Items carry their text and
 * a React ref; focus is clamped to `[0, |items| - 1]`, and the keyboard
 * handler turns Enter, ArrowUp and ArrowDown into reducer actions.
 *
 * A ref is an object whose identity matters, not its contents; it is a
 * number here, and the ref of each new item is supplied by the caller.
 */
module NoteView {

  import opened Common

  type Ref = nat

  datatype ParagraphItem = ParagraphItem(content: string, ref: Ref)

  datatype ParagraphsState = ParagraphsState(focusItemIndex: int, items: seq<ParagraphItem>)

  datatype ParagraphsAction =
    | NewParagraphBelowFocus
    | EditParagraph(newValue: string)
    | Focus(index: int)

  /** `getDefaultParagraphItem`: empty text and a fresh ref. */
  function DefaultParagraphItem(freshRef: Ref): ParagraphItem
  {
    ParagraphItem("", freshRef)
  }

  /** `getDefaultParagraphsState`: one empty item, focused. */
  function DefaultParagraphsState(freshRef: Ref): ParagraphsState
  {
    ParagraphsState(0, [DefaultParagraphItem(freshRef)])
  }

  /** The focus is on an item (so there is at least one). */
  predicate Valid(state: ParagraphsState)
  {
    0 <= state.focusItemIndex < |state.items|
  }

  /** `paragraphsReducer`; `freshRef` is the ref a new item gets. */
  function Reduce(state: ParagraphsState, action: ParagraphsAction, freshRef: Ref): ParagraphsState
  {
    match action
    case NewParagraphBelowFocus =>
      state.(items := InsertAt(state.items, state.focusItemIndex + 1, DefaultParagraphItem(freshRef)),
             focusItemIndex := state.focusItemIndex + 1)
    case EditParagraph(newValue) =>
      state.(items := seq(|state.items|, k requires 0 <= k < |state.items| =>
               if k != state.focusItemIndex then state.items[k]
               else state.items[k].(content := newValue)))
    case Focus(index) =>
      state.(focusItemIndex := Clamp(index, 0, |state.items| - 1))
  }

  datatype Key = Enter | ArrowUp | ArrowDown | OtherKey

  /** `handleKeyPress`: the action a key dispatches, if any. */
  function KeyAction(key: Key, state: ParagraphsState): Option<ParagraphsAction>
  {
    match key
    case Enter => Some(NewParagraphBelowFocus)
    case ArrowUp => Some(Focus(state.focusItemIndex - 1))
    case ArrowDown => Some(Focus(state.focusItemIndex + 1))
    case OtherKey => None
  }

  /** The default state is one empty item with the focus on it. */
  lemma DefaultStateValid(freshRef: Ref)
    ensures var s := DefaultParagraphsState(freshRef);
      Valid(s) && |s.items| == 1 && s.items[0].content == ""
  {
  }

  /**
   * A new item goes in right below the focused one, empty and with the
   * fresh ref, and takes the focus; the others keep their order.
   */
  lemma NewParagraphInsertsBelow(state: ParagraphsState, freshRef: Ref)
    requires Valid(state)
    ensures var s := Reduce(state, NewParagraphBelowFocus, freshRef);
      var f := state.focusItemIndex;
      && s.focusItemIndex == f + 1
      && s.items == state.items[..f + 1] + [ParagraphItem("", freshRef)] + state.items[f + 1..]
  {
  }

  /**
   * Editing changes only the focused item's text: its ref, the other
   * items and the focus stay.
   */
  lemma EditChangesFocusedContent(state: ParagraphsState, newValue: string, freshRef: Ref)
    requires Valid(state)
    ensures var s := Reduce(state, EditParagraph(newValue), freshRef);
      var f := state.focusItemIndex;
      && s.focusItemIndex == f
      && |s.items| == |state.items|
      && s.items[f] == state.items[f].(content := newValue)
      && s.items[f].ref == state.items[f].ref
      && (forall k :: 0 <= k < |s.items| && k != f ==> s.items[k] == state.items[k])
  {
  }

  /**
   * Focusing on a non-empty list clamps the index onto an item and keeps
   * the items.
   */
  lemma FocusClamps(state: ParagraphsState, index: int, freshRef: Ref)
    requires |state.items| > 0
    ensures var s := Reduce(state, Focus(index), freshRef);
      && s.items == state.items
      && Valid(s)
      && (0 <= index < |state.items| ==> s.focusItemIndex == index)
      && (index < 0 ==> s.focusItemIndex == 0)
      && (index >= |state.items| ==> s.focusItemIndex == |state.items| - 1)
  {
  }

  /** Every action keeps the focus on an item. */
  lemma ReducePreservesValid(state: ParagraphsState, action: ParagraphsAction, freshRef: Ref)
    requires Valid(state)
    ensures Valid(Reduce(state, action, freshRef))
  {
    match action
    case NewParagraphBelowFocus => NewParagraphInsertsBelow(state, freshRef);
    case EditParagraph(v) => EditChangesFocusedContent(state, v, freshRef);
    case Focus(index) => FocusClamps(state, index, freshRef);
  }

  /**
   * ArrowUp on the first item and ArrowDown on the last leave the focus
   * where it is; any key keeps the state valid.
   */
  lemma KeysKeepFocusInRange(state: ParagraphsState, key: Key, freshRef: Ref)
    requires Valid(state)
    ensures KeyAction(key, state).Some? ==> Valid(Reduce(state, KeyAction(key, state).value, freshRef))
    ensures key == ArrowUp && state.focusItemIndex == 0 ==>
      Reduce(state, KeyAction(key, state).value, freshRef) == state
    ensures key == ArrowDown && state.focusItemIndex == |state.items| - 1 ==>
      Reduce(state, KeyAction(key, state).value, freshRef) == state
  {
    if KeyAction(key, state).Some? {
      ReducePreservesValid(state, KeyAction(key, state).value, freshRef);
    }
  }
}
