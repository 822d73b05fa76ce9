# surfe-note-app: the markdown and mention engine, in Dafny

This project models the inline markdown and mention engine of a small
note-taking application, together with the pure state machines and filters
of the stores built on it. It proves what these pieces guarantee.

- **Lexer.** `parseMarkdown` scans a paragraph once, left to right. It emits
  `(begin|end, kind, index)` markers for raw text, bold (`*`), italic (`_`)
  and mentions (`@[` … `]`).
- **Range indexer and locator.** `getRangesOfKind` pairs each begin marker
  with the nearest later end marker of the same kind. `findItemOfKind`
  returns the first range whose inside holds the caret.
  `getContentInsideRange` slices the content between a range's inside
  offsets.
- **Text surgery.** `insertMissingBracketsToMention` adds `[]` after a typed
  `@`. `insertContentIntoMention` splices a user's name into the mention
  under the caret and moves the caret past it. `getMentionAtCursor` looks up
  the mention under the caret.
- **Renderer.** `renderMarkdownStackHTML` turns the markers into one HTML
  string: raw runs are copied as they are, and styled spans become `<span>`
  tags.
- **Paragraph reducers.** There are two: the store's (`src/store/paragraphs.ts`,
  with items as strings and focus clamped to `[-1, n-1]`) and the older
  component's (`src/ui/Note.tsx`, with items as records carrying a ref and
  focus clamped to `[0, n-1]`). Each also has a default state, and the
  component has a key handler.
- **Mention picker.** The user filter, the display limit, and the picker's
  state transitions. The state is a class whose fields the transitions
  update.
- **Note search.** The store's `searchNotes` and the note list's copy of it.

Where the source mutates state step by step, the model is imperative:
- `ParseMarkdown` is the lexer's loop.
- `GetRangesOfKind` is the indexer's nested loops.
- `FindItemOfKind` is the locator's search.
- `InsertMissingBracketsToMention` reassigns its variables as the source
  reassigns its parameters.
- `RenderMarkdownStackHTML` is the renderer's loop.
- `MentionStore` is the picker's state, held in fields.

Each imperative method is proved equal to a specification function:
`LexFrom`/`Lex`, `RangesFrom`/`RangesOf`, `FindItem`, `BracketsInserted`
and `Render`. The lemmas state their properties on those functions. The
reducers, filters and the mention lookup are pure in the source, so they
are pure functions here.

Modules, one per source file:
- `ParseMarkdown` models `src/lib/markdown/parseMarkdown.ts`.
- `MarkdownRange` models `src/lib/markdown/range.ts`.
- `MarkdownUtil` models `src/lib/markdown/util.ts`.
- `RenderMarkdown` models `src/lib/markdown/RenderMarkdown.tsx`.
- `ParagraphsStore` models `src/store/paragraphs.ts`.
- `MentionStore` models `src/store/mention.ts`, with `userFullName` and `Setter`.
- `NotesStore` models `src/store/notes.ts`.
- `NoteView` models `src/ui/Note.tsx`.
- `NoteList` models `src/ui/NoteList.tsx`.
- `Common` holds shared helpers: `Option` for `T | null`, `clamp`,
  `String.prototype.includes`, `Array.prototype.filter`, and JavaScript's
  `slice`, `splice` and out-of-range indexing.

Notes on the source:

- **Token table.** The lexer module does not define or export `TokensBegin` and
  `TokensEnd`, although the range module imports them. They are defined here
  as:
  - mention: `@[` and `]`, as the offsets of the range test require;
  - bold: `*` and `*`; italic: `_` and `_`;
  - raw: the empty string.
- **`clamp`.** `src/util/clamp.ts` is not part of this model. `clamp(x, lo, hi)`
  is taken as `min(max(x, lo), hi)`.
- **`@[` inside an open mention closes it.** The lexer's `@` case checks only
  that the next character is `[`, then calls `toggleMark("mention", i)`. That
  call flips the mention flag whichever way it stands. So `@[` met while a
  mention is open emits an END mention marker on the `@` and skips the `[`.
  The model follows the code. The tiling invariant `Tiles` therefore admits
  `@[` as a second spelling of the mention's end token.
- **The lexer's fixture.** `test_parseMarkdown` compares the result with `===`,
  which compares array references and so never holds. The model checks the
  fixture by value (`LexHelloWorld`).
- **`Range.i` and `Range.j`.** These are the positions of the begin and end
  markers in the marker sequence, as the code computes them. The doc comments
  call them indices into the array of ranges.
- **`endInside` is inclusive of the caret.** `findItemOfKind` accepts a caret
  equal to `endInside`, which is where the closing `]` sits.
- **JavaScript semantics.** Some operations are written out explicitly:
  - `slice` resolves negative and overlong bounds (`RelativeIndex`);
  - `s[k]` out of range gives `undefined` (`At` returns `None`);
  - `splice` on a copy inserts at the resolved index (`InsertAt`);
  - a template literal with a missing map entry prints `undefined`.

## Model

| member | source | states |
|---|---|---|
| ParseMarkdown.ParseMarkdown | src/lib/markdown/parseMarkdown.ts:8-81 | the lexer's loop, with `endRaw`/`toggleMark`/`handleDefault` inlined and the `i++` skip of `[`, returns exactly `Lex(content)` |
| ParseMarkdown.LexEmptyIff | src/lib/markdown/parseMarkdown.ts:18-65 | the marker sequence is empty if and only if the content is empty |
| ParseMarkdown.LexTiles | src/lib/markdown/parseMarkdown.ts:18-78 | the markers tile the content with no gap or overlap: each raw run's begin is on its first character, its end is on its last, and its characters are plain; every other marker is on its own token |
| ParseMarkdown.LexWellFormed | src/lib/markdown/parseMarkdown.ts:22-78 | every index lies in `[0, len(c)-1]`; indices never decrease along the sequence, and each token ends at or before the next marker's index; every raw begin is immediately followed by its raw end at an index no smaller; no raw run holds `*`, `_` or `@[` |
| ParseMarkdown.TilesOrdered | src/lib/markdown/parseMarkdown.ts:18-78 | for any tiling, every marker is in range and each marker's token ends at or before the next marker's index |
| ParseMarkdown.TilesRawRuns | src/lib/markdown/parseMarkdown.ts:58-78 | for any tiling, raw begins and raw ends come in adjacent pairs and each raw run is plain |
| ParseMarkdown.MentionBeginOnOpener | src/lib/markdown/parseMarkdown.ts:32-41 | a mention begin at `i` has `c[i] == '@'` and `c[i+1] == '['`, and no marker sits on that `[` |
| ParseMarkdown.LexAlternates | src/lib/markdown/parseMarkdown.ts:67-71 | for every kind, that kind's markers alternate begin, end, begin, …, starting with begin |
| ParseMarkdown.LexFromAlternates | src/lib/markdown/parseMarkdown.ts:18-78 | from any position and set of open marks, each kind's markers alternate, starting with an end when that kind is open |
| ParseMarkdown.ScanToSplits | src/lib/markdown/parseMarkdown.ts:18-57 | the markers of a whole scan are those emitted before position `p` followed by the scan resumed at `p` with the marks open there |
| ParseMarkdown.LexClosingBracket | src/lib/markdown/parseMarkdown.ts:42-50 | the scan reaches every `]`; the `]` at `p` gets an end-mention marker at `p` exactly when a mention is open when the scan reaches `p`, and otherwise lies inside a raw run (between a raw begin and its raw end) |
| ParseMarkdown.LexUnstyled | src/lib/markdown/parseMarkdown.ts:42-78 | content with no `*`, no `_` and no `@[` is one raw run from 0 to `len(c)-1`; in particular a `]` with no open mention is absorbed as raw text |
| ParseMarkdown.LexHelloWorld | src/lib/markdown/parseMarkdown.ts:83-95 | `"hello *world*!"` yields exactly the eight markers of the fixture, compared by value |
| ParseMarkdown.LexOneMention | src/lib/markdown/parseMarkdown.ts:32-56 | `a@[b]d`, with `a`, `b` and `d` plain and non-empty, yields a raw run, the mention begin, the inner raw run, the mention end and a trailing raw run |
| ParseMarkdown.LexEmptyMention | src/lib/markdown/parseMarkdown.ts:32-50 | plain `a` followed by `@[]` yields a raw run and an empty mention whose end sits on the `]` |
| ParseMarkdown.LexMentionExample | src/lib/markdown/range.spec.ts:7-24 | `"hello @[Mr. Robot]!"` yields exactly the eight markers the range test expects |
| MarkdownRange.GetRangesOfKind | src/lib/markdown/range.ts:41-84 | the nested loops, including `i = j; break`, return exactly `RangesOf(kind, parsed)` |
| MarkdownRange.NextEnd | src/lib/markdown/range.ts:48-51 | the inner loop's result, when found, is an end of the kind at or after `j` |
| MarkdownRange.NextEndFirst | src/lib/markdown/range.ts:48-78 | the end found is the first one after the begin, and none is found exactly when no end of the kind follows |
| MarkdownRange.RangesValid | src/lib/markdown/range.ts:44-78 | every range has the requested kind, `i < j`, a begin of the kind at `i`, an end of the kind at `j` and no end of the kind strictly between them; `beginOutside`, `beginInside`, `endInside` and `endOutside` are the marker indices widened by the token lengths; each range's `j` is below the next range's `i` |
| MarkdownRange.RangesCover | src/lib/markdown/range.ts:44-83 | every begin of the kind that has a later end of the kind lies within some range |
| MarkdownRange.LexRangeOffsets | src/lib/markdown/range.ts:3-38 | on the lexer's output, `0 <= beginOutside <= beginInside <= endInside <= endOutside <= len(c)` |
| MarkdownRange.LexRangesSeparated | src/lib/markdown/range.ts:44-78 | on the lexer's output, a range's `endOutside` is at most the next range's `beginOutside` |
| MarkdownRange.LexMentionRange | src/lib/markdown/range.ts:52-65 | a mention range of the lexer's output opens on `@[` at `beginOutside`, with `beginInside = beginOutside + 2` and `endOutside = endInside + 1 <= len(c)` |
| MarkdownRange.FindItem | src/lib/markdown/range.ts:92-100 | the result is the first range with `beginInside <= cursor <= endInside`, and it is null exactly when no range qualifies |
| MarkdownRange.FindItemOfKind | src/lib/markdown/range.ts:86-101 | the loop with its early return gives `FindItem(cursor, ranges)`; the ranges default to `getRangesOfKind` |
| MarkdownRange.LexContentInside | src/lib/markdown/range.ts:103-105 | on the lexer's output, `getContentInsideRange` is exactly `c[beginInside..endInside]`, and its length is the difference of the offsets |
| MarkdownRange.OneMentionRanges | src/lib/markdown/range.ts:44-83 | the markers of one mention between plain runs give exactly one range, made of markers 2 and 5 |
| MarkdownRange.MentionRangeExample | src/lib/markdown/range.spec.ts:26-78 | for `"hello @[Mr. Robot]!"`, the range is `{i:2, j:5, 6, 8, 17, 18}`, it is found at caret 17, and its content is `"Mr. Robot"` |
| MarkdownUtil.BracketsInserted | src/lib/markdown/util.ts:6-41 | text that shrank, or a character before the caret other than `@`, returns both unchanged; otherwise the caret advances by 1 into `@[`, and `[]` is inserted at the caret unless a `[` is already there, making the text two longer; removing the two inserted characters gives back the text |
| MarkdownUtil.InsertMissingBracketsToMention | src/lib/markdown/util.ts:6-41 | the step-by-step reassignment of text and caret returns `BracketsInserted` |
| MarkdownUtil.BracketsInsertedExample | src/lib/markdown/util.spec.ts:5-17 | `("foo ", "foo @", 5)` gives `("foo @[]", 6)` |
| MarkdownUtil.GetMentionAtCursor | src/lib/markdown/util.ts:62-68 | the lookup equals `findItemOfKind("mention", cursor, parseMarkdown(paragraph))` |
| MarkdownUtil.MentionAtCursorFacts | src/lib/markdown/util.ts:62-68 | a mention found at the caret is a mention range of the paragraph that opens on `@[` and holds the caret between its inside offsets |
| MarkdownUtil.CursorLeavesMention | src/lib/markdown/util.ts:56-57 | the `endOutside` of the mention at the caret is past the caret, within the paragraph, and held by no mention |
| MarkdownUtil.InsertContentIntoMention | src/lib/markdown/util.ts:43-60 | given a mention at the caret both before and after the splice (the two `!` assertions), the result keeps the text before `beginInside` and from `endInside` on, with the content between; the new caret is the `endOutside` of the mention that holds the old caret in the updated text, so it is past the old caret, within the text, and outside every mention |
| MarkdownUtil.InsertContentExample | src/lib/markdown/util.spec.ts:19-33 | `"foo @[bar] baz"` at caret 9 with `"bar the great"` gives `"foo @[bar the great] baz"` and caret 20, just after the new `]` |
| RenderMarkdown.RenderMarkdownStackHTML | src/lib/markdown/RenderMarkdown.tsx:30-70 | the loop, with its `i++` skip and final `join("")`, returns `Render(content, stack, styles)`, which is `None` exactly where the loop would throw |
| RenderMarkdown.ClassName | src/lib/markdown/RenderMarkdown.tsx:52-79 | a mention's opening tag carries the class `undefined`, because the style map has no mention entry |
| RenderMarkdown.PairedRenders | src/lib/markdown/RenderMarkdown.tsx:36-47 | a stack whose every raw begin is immediately followed by a raw end, and whose raw ends never stand alone, renders without throwing |
| RenderMarkdown.LexRenders | src/lib/markdown/RenderMarkdown.tsx:30-40 | the lexer's output always renders |
| RenderMarkdown.UnstyledRendersVerbatim | src/lib/markdown/RenderMarkdown.tsx:30-69 | content with no `*`, no `_` and no `@[` renders as itself, and empty content as `""` |
| RenderMarkdown.RenderFiveItems | src/lib/markdown/RenderMarkdown.tsx:36-69 | a raw run, a styled span holding a raw run, and a raw run render as the three slices with the span's open and close tags between them, joined with no separator |
| RenderMarkdown.RenderHelloWorld | src/lib/markdown/RenderMarkdown.tsx:36-69 | `"hello *world*!"` renders as `hello `, the opening tag with the bold class, `world`, `</span>` and `!` |
| RenderMarkdown.RenderMentionExample | src/lib/markdown/RenderMarkdown.tsx:52-79 | `"hello @[Mr. Robot]!"` renders with `<span class="undefined">` around `Mr. Robot` |
| ParagraphsStore.DefaultStateShape | src/store/paragraphs.ts:127-139 | the default state focuses item 0 and holds the given paragraphs, or `[""]` when none are given |
| ParagraphsStore.NewParagraphInsertsBelow | src/store/paragraphs.ts:156-167 | `""` is inserted at `focus + 1`, focus moves to it, the length grows by 1 and the other items keep their order |
| ParagraphsStore.EditReplacesFocusedOnly | src/store/paragraphs.ts:168-179 | only `items[focus]` is replaced; the length and focus are kept; with focus `-1` nothing changes |
| ParagraphsStore.FocusClamps | src/store/paragraphs.ts:180-185 | focus becomes `clamp(index, -1, n-1)` and the items are kept |
| ParagraphsStore.ReducePreservesValid | src/store/paragraphs.ts:154-190 | every action keeps `-1 <= focus < n` |
| ParagraphsStore.ResolveNewParagraphValue | src/store/paragraphs.ts:198-211 | the text and caret are `insertMissingBracketsToMention`'s result, the mention reported is exactly `getMentionAtCursor` of the new text at the new caret, and a mention found there opens on `@[` and holds the new caret |
| ParagraphsStore.TypingAtOpensEmptyMention | src/store/paragraphs.ts:198-211 | typing `@` after plain text gives `@[]`, with the caret between the brackets, inside an empty mention |
| MentionStore.MatchingUsers | src/store/mention.ts:29-35 | an empty search lists every user; otherwise exactly the users whose full name or username contains the search are listed, in their order, each as many times as in the user list |
| MentionStore.TaggableUserLimit | src/store/mention.ts:65-69 | the limit is the list's length for an empty search and 5 otherwise |
| MentionStore.LimitTaggableUsers | src/store/mention.ts:71-74 | the result is the first `min(length, limit)` listed users |
| MentionStore.SelectedUser | src/store/mention.ts:47-49 | the selected user is `usersMatchingSearch[selectedUserIndex]` when that index is in range, and null otherwise |
| MentionStore.MentionStore.constructor | src/store/mention.ts:18-23 | the initial state is not tagging, empty search, no users, index 0 |
| MentionStore.MentionStore.Stop | src/store/mention.ts:25-27 | the state becomes not tagging, empty search, every user, index 0 |
| MentionStore.MentionStore.StartOrContinue | src/store/mention.ts:29-35 | the state becomes tagging, with the search, its matching users and index 0 |
| MentionStore.MentionStore.SetSelectedUserIndex | src/store/mention.ts:37-45 | a target index below 0 or past the list leaves the state unchanged; otherwise only the index changes |
| MentionStore.SelectedWhenListed | src/store/mention.ts:47-49 | in a state the transitions produce, a user is selected exactly when the list is not empty |
| MentionStore.LimitedUsersListed | src/store/mention.ts:65-74 | the limited list is never longer than the listed users, is at most 5 for a non-empty search, and holds only listed users |
| NotesStore.SearchNotesKeepsMatches | src/store/notes.ts:35-43 | an empty search returns the list unchanged; otherwise exactly the notes whose title or some paragraph contains the search are kept, each as many times as in the list |
| NotesStore.SearchNotesSubsequence | src/store/notes.ts:38-42 | the result is an order-preserving subsequence of the input, so it is never longer |
| NotesStore.SearchNotesIdempotent | src/store/notes.ts:35-43 | searching the result again with the same search returns it unchanged |
| NoteList.SearchNotesAgree | src/ui/NoteList.tsx:51-59 | the note list's search equals the store's on every input, so it inherits the store's properties |
| NoteView.DefaultStateValid | src/ui/Note.tsx:93-105 | the default state is a single empty item with focus 0 |
| NoteView.NewParagraphInsertsBelow | src/ui/Note.tsx:122-133 | an empty item with a fresh ref is inserted at `focus + 1` and takes the focus |
| NoteView.EditChangesFocusedContent | src/ui/Note.tsx:134-152 | only the focused item's `content` changes; its ref, the other items and the focus are kept |
| NoteView.FocusClamps | src/ui/Note.tsx:153-158 | on a non-empty list the items are kept and the focus lands on an item: `index` itself when it is in range, `0` below the range, `n-1` above it |
| NoteView.ReducePreservesValid | src/ui/Note.tsx:120-163 | every action keeps `0 <= focus < n` |
| NoteView.KeysKeepFocusInRange | src/ui/Note.tsx:16-37 | Enter, ArrowUp and ArrowDown keep the focus on an item; ArrowUp on the first item and ArrowDown on the last leave the state unchanged |
| Common.Clamp | src/store/paragraphs.ts:183 | the clamped value is at most `hi`; a value already in range is kept; below the range it becomes `lo` and above it `hi`; when `hi < lo` the result is `hi` |
| Common.IncludesIff | src/store/mention.ts:63 | `includes` holds exactly when the search occurs at some offset |
| Common.FilterIsSubsequence | src/store/notes.ts:38-42 | `filter` keeps an order-preserving subsequence |
| Common.FilterCounts | src/store/notes.ts:38-42 | `filter` keeps every copy of an element that passes the test and no copy of one that fails it (multiset counts) |
| Common.FilterIdempotent | src/store/notes.ts:38-42 | filtering twice by the same predicate is filtering once |

## Left out

- The DOM is not modelled. Reading the caret from the selection (`getCursor`,
  which throws when more than one character is selected), focusing inputs and
  placing the caret with `setTimeout` are all left out. The caret is a
  number parameter.
- React plumbing is not modelled: `useReducer`, `useState`, `useEffect`, the
  hooks' dispatch, the users context, JSX, and the emotion `css` class
  strings. The class strings are a `StyleClasses` parameter of the renderer.
- Networking, JSON and persistence are left out (`src/service/`), as are
  debouncing, the account store's `localStorage`, `Date` and `Math.random`,
  and the note store (`src/store/note.ts`). The note store calls reducer
  actions that the paragraphs store does not define. Only its `NoteData`
  record is modelled.
- Users are not sorted: `localeCompare` is locale-dependent. Of a user's
  fields, only the first name, last name and username are kept.
- `NoteView.Reduce`: a new item's ref is a fresh object in the source. Here it
  is a number passed in (`freshRef`), so ref identity is not modelled.
- `NoteView.FocusClamps`: on an empty list the source's
  `clamp(index, 0, -1)` gives `-1`. The lemma covers non-empty lists only,
  which is what the component's states are.
- `RenderMarkdown.RenderMarkdownStackHTML`: the `TypeError` thrown when a raw
  marker comes last is modelled as `None`. The `console.assert` calls only
  log, so they are not preconditions. The slice is taken as written.
- `MarkdownUtil.InsertContentIntoMention`: the two non-null assertions
  (`!`) are preconditions. The source's behaviour when either fails
  (reading a field of `null`) is not modelled.
- The setter: the source's `instanceof Function` test becomes a
  datatype with a value case and an update-function case.
- JavaScript numbers are modelled as unbounded integers. Non-integer carets and
  indices are not modelled.
- Strings are sequences of UTF-16 code units, modelled as `seq<char>`.
  Surrogate pairs are not treated specially, and neither is the source.
- The repository's test runner (`src/test/test.ts`) is not modelled. Its
  fixtures are lemmas here.
