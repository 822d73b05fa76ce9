/**
 * The mention text-surgery helpers of `src/lib/markdown/util.ts`.
 *
 * Typing `@` gets the brackets `[]` added after it and the caret moved
 * between them; picking a user splices the name between the brackets of the
 * mention under the caret and moves the caret just past that mention.
 */
module MarkdownUtil {

  import opened Common
  import opened ParseMarkdown
  import opened MarkdownRange

  /** The text did not shrink and the character before the caret is `@`. */
  predicate WantsToTag(currentParagraph: string, newParagraph: string, newCursor: int)
  {
    |newParagraph| >= |currentParagraph| && At(newParagraph, newCursor - 1) == Some('@')
  }

  /** The character at the caret is already `[`. */
  predicate HasBracketsAlready(newParagraph: string, newCursor: int)
  {
    At(newParagraph, newCursor) == Some('[')
  }

  /**
   * What `insertMissingBracketsToMention` returns: the paragraph and the
   * caret. After an `@` the caret moves one place right, into `@[`, and `[]`
   * is inserted at the caret unless a `[` is there already; otherwise both
   * come back unchanged. Removing the two inserted characters gives the
   * paragraph back.
   */
  function BracketsInserted(currentParagraph: string, newParagraph: string, newCursor: int)
    : (r: (string, int))
    ensures !WantsToTag(currentParagraph, newParagraph, newCursor) ==> r == (newParagraph, newCursor)
    ensures WantsToTag(currentParagraph, newParagraph, newCursor) ==>
      && r.1 == newCursor + 1
      && 2 <= r.1 <= |r.0| && r.0[r.1 - 2..r.1] == "@["
    ensures (WantsToTag(currentParagraph, newParagraph, newCursor)
             && HasBracketsAlready(newParagraph, newCursor)) ==> r.0 == newParagraph
    ensures (WantsToTag(currentParagraph, newParagraph, newCursor)
             && !HasBracketsAlready(newParagraph, newCursor)) ==>
      && 0 < newCursor <= |newParagraph|
      && r.0 == newParagraph[..newCursor] + "[]" + newParagraph[newCursor..]
      && |r.0| == |newParagraph| + 2
      && r.1 < |r.0| && r.0[r.1] == ']'
      && r.0[..r.1 - 1] + r.0[r.1 + 1..] == newParagraph
  {
    if WantsToTag(currentParagraph, newParagraph, newCursor) then
      var n := newCursor;
      if HasBracketsAlready(newParagraph, n) then
        assert newParagraph[n - 1..n + 1] == "@[";
        (newParagraph, n + 1)
      else
        var p := Slice(newParagraph, 0, n) + "[]" + SliceFrom(newParagraph, n);
        assert p[..n] == newParagraph[..n] && p[n + 2..] == newParagraph[n..];
        assert p[n - 1..n + 1] == "@[";
        (p, n + 1)
    else
      (newParagraph, newCursor)
  }

  /**
   * `insertMissingBracketsToMention`: the source reassigns its parameters
   * step by step; here they are the out-parameters.
   */
  method InsertMissingBracketsToMention(currentParagraph: string, newParagraph: string, newCursor: int)
    returns (paragraph: string, cursor: int)
    ensures (paragraph, cursor) == BracketsInserted(currentParagraph, newParagraph, newCursor)
  {
    paragraph, cursor := newParagraph, newCursor;
    var newLengthGreaterOrEqual := |paragraph| >= |currentParagraph|;
    var wantsToTag := newLengthGreaterOrEqual && At(paragraph, cursor - 1) == Some('@');
    if wantsToTag {
      var hasBracketsAlready := At(paragraph, cursor) == Some('[');
      if !hasBracketsAlready {
        paragraph := Slice(paragraph, 0, cursor) + "[]" + SliceFrom(paragraph, cursor);
      }
      cursor := cursor + 1;
    }
  }

  /** The utility test's example: typing `@` after `foo ` gives `foo @[]` with the caret at 6. */
  lemma BracketsInsertedExample()
    ensures BracketsInserted("foo ", "foo @", 5) == ("foo @[]", 6)
  {
    assert WantsToTag("foo ", "foo @", 5);
    assert !HasBracketsAlready("foo @", 5);
    assert "foo @"[..5] + "[]" + "foo @"[5..] == "foo @[]";
  }

  /** `getMentionAtCursor`: the first mention range of the paragraph that holds the caret. */
  function MentionAtCursor(paragraph: string, cursor: int): Option<Range>
  {
    FindItem(cursor, RangesOf(Mention, Lex(paragraph)))
  }

  /** `getMentionAtCursor` as the source writes it: lex, then search. */
  method GetMentionAtCursor(paragraph: string, cursor: int) returns (mention: Option<Range>)
    ensures mention == MentionAtCursor(paragraph, cursor)
  {
    var parsed := ParseMarkdown.ParseMarkdown(paragraph);
    mention := FindItemOfKind(Mention, cursor, parsed);
  }

  /**
   * A mention found at the caret opens on `@[`, holds the caret between its
   * inside offsets, and closes with a one-character token within the
   * paragraph.
   */
  lemma MentionAtCursorFacts(paragraph: string, cursor: int)
    requires MentionAtCursor(paragraph, cursor).Some?
    ensures var m := MentionAtCursor(paragraph, cursor).value;
      && m in RangesOf(Mention, Lex(paragraph))
      && m.kind == Mention
      && 0 <= m.beginOutside && m.beginInside == m.beginOutside + 2
      && m.beginInside <= cursor <= m.endInside
      && m.endOutside == m.endInside + 1 <= |paragraph|
      && paragraph[m.beginOutside..m.beginInside] == "@["
  {
    var rs := RangesOf(Mention, Lex(paragraph));
    var m := MentionAtCursor(paragraph, cursor).value;
    var a :| 0 <= a < |rs| && rs[a] == m && Holds(m, cursor);
    LexMentionRange(paragraph, a);
  }

  /**
   * The caret placed at the `endOutside` of the mention found at `cursor`
   * lies after `cursor`, within the paragraph, and in no mention at all.
   */
  lemma CursorLeavesMention(paragraph: string, cursor: int)
    requires MentionAtCursor(paragraph, cursor).Some?
    ensures var e := MentionAtCursor(paragraph, cursor).value.endOutside;
      cursor < e <= |paragraph| && MentionAtCursor(paragraph, e) == None
  {
    var rs := RangesOf(Mention, Lex(paragraph));
    var m := MentionAtCursor(paragraph, cursor).value;
    var a0 :| 0 <= a0 < |rs| && rs[a0] == m && Holds(m, cursor);
    LexMentionRange(paragraph, a0);
    var e := m.endOutside;
    forall b | 0 <= b < |rs|
      ensures !Holds(rs[b], e)
    {
      LexMentionRange(paragraph, b);
      if b < a0 {
        LexRangesSeparated(paragraph, Mention, b, a0);
      } else if b > a0 {
        LexRangesSeparated(paragraph, Mention, a0, b);
      }
    }
  }

  /** The paragraph with the inside of `mention` replaced by `mentionContent`. */
  function UpdatedParagraph(paragraph: string, mention: Range, mentionContent: string): string
  {
    Slice(paragraph, 0, mention.beginInside) + mentionContent + SliceFrom(paragraph, mention.endInside)
  }

  /**
   * `insertContentIntoMention`: the updated paragraph and caret. The source
   * asserts (`!`) that a mention holds the caret before the edit and again
   * after it; both are preconditions here. The text before and after the
   * old inside is kept, the new content sits between, and the caret moves
   * to the outside end of the mention that holds `cursor` in the updated
   * paragraph: forward, and where no mention holds it.
   */
  function InsertContentIntoMention(cursor: int, paragraph: string, mentionContent: string)
    : (r: (string, int))
    requires MentionAtCursor(paragraph, cursor).Some?
    requires MentionAtCursor(
      UpdatedParagraph(paragraph, MentionAtCursor(paragraph, cursor).value, mentionContent), cursor).Some?
    ensures var m := MentionAtCursor(paragraph, cursor).value;
      && 0 <= m.beginInside <= m.endInside <= |paragraph|
      && r.0 == paragraph[..m.beginInside] + mentionContent + paragraph[m.endInside..]
    ensures MentionAtCursor(r.0, cursor).Some? && r.1 == MentionAtCursor(r.0, cursor).value.endOutside
    ensures cursor < r.1 <= |r.0|
    ensures MentionAtCursor(r.0, r.1) == None
  {
    var mention := MentionAtCursor(paragraph, cursor).value;
    var updatedParagraph := UpdatedParagraph(paragraph, mention, mentionContent);
    var updatedMention := MentionAtCursor(updatedParagraph, cursor).value;
    MentionAtCursorFacts(paragraph, cursor);
    CursorLeavesMention(updatedParagraph, cursor);
    (updatedParagraph, updatedMention.endOutside)
  }

  /** `foo @[bar] baz`: its one mention holds the caret at 9, on the `]`. */
  lemma MentionBeforeExample(p: string)
    requires p == "foo @[bar] baz"
    ensures MentionAtCursor(p, 9) == Some(Range(2, 5, Mention, 4, 6, 9, 10))
  {
    assert p == "foo " + "@[" + "bar" + "]" + " baz";
    LexOneMention("foo ", "bar", " baz");
    OneMentionRanges(4, 3, 4);
  }

  /** `foo @[bar the great] baz`: its one mention also holds the caret at 9. */
  lemma MentionAfterExample(q: string)
    requires q == "foo @[bar the great] baz"
    ensures MentionAtCursor(q, 9) == Some(Range(2, 5, Mention, 4, 6, 19, 20))
  {
    assert q == "foo " + "@[" + "bar the great" + "]" + " baz";
    LexOneMention("foo ", "bar the great", " baz");
    OneMentionRanges(4, 13, 4);
  }

  /**
   * The utility test's example: with the caret on the `]` of `foo @[bar] baz`,
   * inserting `bar the great` gives `foo @[bar the great] baz` and puts the
   * caret just after the new `]`.
   */
  lemma InsertContentExample(p: string, content: string, q: string)
    requires p == "foo @[bar] baz" && content == "bar the great"
    requires q == "foo @[bar the great] baz"
    ensures MentionAtCursor(p, 9) == Some(Range(2, 5, Mention, 4, 6, 9, 10))
    ensures UpdatedParagraph(p, Range(2, 5, Mention, 4, 6, 9, 10), content) == q
    ensures MentionAtCursor(q, 9) == Some(Range(2, 5, Mention, 4, 6, 19, 20))
    ensures InsertContentIntoMention(9, p, content) == (q, 20)
  {
    MentionBeforeExample(p);
    UpdatedExample(p, content, q);
    MentionAfterExample(q);
  }

  /** The splice of the utility test's example. */
  lemma UpdatedExample(p: string, content: string, q: string)
    requires p == "foo @[bar] baz" && content == "bar the great"
    requires q == "foo @[bar the great] baz"
    ensures UpdatedParagraph(p, Range(2, 5, Mention, 4, 6, 9, 10), content) == q
  {
    assert p[..6] == "foo @[" && p[9..] == "] baz";
  }
}
