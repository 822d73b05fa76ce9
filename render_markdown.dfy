/**
 * `renderMarkdownStackHTML` of `src/lib/markdown/RenderMarkdown.tsx`: the
 * marker sequence becomes one flat string. A raw begin and the marker after
 * it stand for `content.slice(begin, next + 1)`, copied verbatim; a styled
 * begin becomes `<span class="...">` with the kind's class, a styled end
 * `</span>`; the pieces are joined with no separator.
 *
 * The class names come from the emotion `css` calls of the style map; they
 * are a parameter here. The map has no entry for mentions, so the template
 * literal prints `undefined` for them.
 */
module RenderMarkdown {

  import opened Common
  import opened ParseMarkdown

  /** `markdownKind2StylesMap`: the class of bold and of italic spans. */
  datatype StyleClasses = StyleClasses(bold: string, italic: string)

  /** `markdownKind2StylesMap[kind]` inside a template literal. */
  function ClassName(styles: StyleClasses, k: Kind): (r: string)
    ensures k == Mention ==> r == "undefined"
  {
    match k
    case Bold => styles.bold
    case Italic => styles.italic
    case _ => "undefined"
  }

  function OpenTag(cls: string): string
  {
    "<span class=\"" + cls + "\">"
  }

  const CloseTag: string := "</span>"

  /** What a styled marker pushes. */
  function TagOf(styles: StyleClasses, x: Marker): string
  {
    if x.edge == Begin then OpenTag(ClassName(styles, x.kind)) else CloseTag
  }

  /** `items` followed by the pieces of the rest, unless the rest throws. */
  function Prepend(items: seq<string>, rest: Option<seq<string>>): Option<seq<string>>
  {
    match rest
    case None => None
    case Some(r) => Some(items + r)
  }

  /**
   * The pieces the loop pushes for `ms`, or `None` when it throws: a raw
   * marker in last place has no `next`, and reading `next[0]` is a
   * `TypeError`. The `console.assert`s on the edges only log, so a raw
   * marker is sliced up to whatever marker follows it.
   */
  function ItemsFrom(content: string, ms: seq<Marker>, styles: StyleClasses): Option<seq<string>>
    decreases |ms|
  {
    if ms == [] then Some([])
    else if ms[0].kind == Raw then
      if |ms| == 1 then None
      else Prepend([Slice(content, ms[0].index, ms[1].index + 1)], ItemsFrom(content, ms[2..], styles))
    else Prepend([TagOf(styles, ms[0])], ItemsFrom(content, ms[1..], styles))
  }

  /** The rendered HTML: the pieces joined with `""`. */
  function Render(content: string, ms: seq<Marker>, styles: StyleClasses): Option<string>
  {
    match ItemsFrom(content, ms, styles)
    case None => None
    case Some(items) => Some(Concat(items))
  }

  lemma PrependNothing(rest: Option<seq<string>>)
    ensures Prepend([], rest) == rest
  {
    if rest.Some? {
      assert [] + rest.value == rest.value;
    }
  }

  lemma PrependStep(items: seq<string>, x: string, rest: Option<seq<string>>)
    ensures Prepend(items, Prepend([x], rest)) == Prepend(items + [x], rest)
  {
    if rest.Some? {
      assert items + ([x] + rest.value) == (items + [x]) + rest.value;
    }
  }

  /**
   * `renderMarkdownStackHTML`; the stack defaults to the lexer's output.
   * `None` stands for the `TypeError` the loop throws.
   */
  method RenderMarkdownStackHTML(content: string, styles: StyleClasses,
                                 markdownStack: seq<Marker> := Lex(content))
    returns (html: Option<string>)
    ensures html == Render(content, markdownStack, styles)
  {
    var items: seq<string> := [];
    var i := 0;
    assert markdownStack[i..] == markdownStack;
    PrependNothing(ItemsFrom(content, markdownStack, styles));
    while i < |markdownStack|
      invariant i <= |markdownStack|
      invariant ItemsFrom(content, markdownStack, styles)
        == Prepend(items, ItemsFrom(content, markdownStack[i..], styles))
      decreases |markdownStack| - i
    {
      var item := markdownStack[i];
      var rest := markdownStack[i..];
      if item.kind == Raw {
        if i + 1 == |markdownStack| {
          assert ItemsFrom(content, rest, styles) == None;
          return None;
        }
        var next := markdownStack[i + 1];
        var raw := Slice(content, item.index, next.index + 1);
        assert rest[2..] == markdownStack[i + 2..];
        PrependStep(items, raw, ItemsFrom(content, rest[2..], styles));
        items := items + [raw];
        i := i + 2;
      } else {
        var tag := if item.edge == Begin then OpenTag(ClassName(styles, item.kind)) else CloseTag;
        assert rest[1..] == markdownStack[i + 1..];
        PrependStep(items, tag, ItemsFrom(content, rest[1..], styles));
        items := items + [tag];
        i := i + 1;
      }
    }
    assert markdownStack[i..] == [];
    assert items + [] == items;
    return Some(Concat(items));
  }

  /** Every raw begin is followed at once by its raw end, and no raw end stands alone. */
  ghost predicate RawPaired(ms: seq<Marker>)
  {
    forall k :: 0 <= k < |ms| ==> RawPairedAt(ms, k)
  }

  /** A stack whose raw markers come in begin/end pairs never makes the loop throw. */
  lemma {:induction false} PairedRenders(content: string, ms: seq<Marker>, styles: StyleClasses)
    requires RawPaired(ms)
    ensures ItemsFrom(content, ms, styles).Some?
    decreases |ms|
  {
    if ms != [] {
      var d := if ms[0].kind == Raw then 2 else 1;
      assert RawPairedAt(ms, 0);
      forall k | 0 <= k < |ms| - d
        ensures RawPairedAt(ms[d..], k)
      {
        assert RawPairedAt(ms, k + d);
      }
      PairedRenders(content, ms[d..], styles);
    }
  }

  /** The lexer's output always renders: the renderer never throws on it. */
  lemma LexRenders(c: string, styles: StyleClasses)
    ensures Render(c, Lex(c), styles).Some?
  {
    LexWellFormed(c);
    PairedRenders(c, Lex(c), styles);
  }

  /** A raw pair in front contributes its slice of the content. */
  lemma ItemsRawStep(content: string, ms: seq<Marker>, styles: StyleClasses, x: string, rest: seq<string>)
    requires |ms| >= 2 && ms[0].kind == Raw && Slice(content, ms[0].index, ms[1].index + 1) == x
    requires ItemsFrom(content, ms[2..], styles) == Some(rest)
    ensures ItemsFrom(content, ms, styles) == Some([x] + rest)
  {
  }

  /** A styled marker in front contributes its tag. */
  lemma ItemsTagStep(content: string, ms: seq<Marker>, styles: StyleClasses, rest: seq<string>)
    requires |ms| >= 1 && ms[0].kind != Raw
    requires ItemsFrom(content, ms[1..], styles) == Some(rest)
    ensures ItemsFrom(content, ms, styles) == Some([TagOf(styles, ms[0])] + rest)
  {
  }

  /** Content with no `*`, no `_` and no `@[` renders as itself; empty content as `""`. */
  lemma UnstyledRendersVerbatim(c: string, styles: StyleClasses)
    requires Unstyled(c)
    ensures Render(c, Lex(c), styles) == Some(c)
  {
    if c == [] {
      LexEmptyIff(c);
    } else {
      var ms := Lex(c);
      LexUnstyled(c);
      assert ms[2..] == [];
      assert c[0..|c|] == c;
      ItemsRawStep(c, ms, styles, c, []);
      ConcatCons(c, []);
      assert [c] + [] == [c] && c + "" == c;
    }
  }

  /** The lexer's example renders its bold word inside a span with the bold class. */
  lemma RenderHelloWorld(c: string, styles: StyleClasses)
    requires c == "hello *world*!"
    ensures Render(c, Lex(c), styles)
      == Some("hello " + OpenTag(styles.bold) + "world" + CloseTag + "!")
  {
    var ms := Lex(c);
    LexHelloWorld(c);
    assert c[0..6] == "hello " && c[7..12] == "world" && c[13..14] == "!";
    RenderFiveItems(c, ms, styles, "hello ", "world", "!");
  }

  /**
   * A raw run, a styled span holding a raw run, and a raw run render as
   * the three slices with the span's tags between them.
   */
  lemma RenderFiveItems(c: string, ms: seq<Marker>, styles: StyleClasses, x: string, y: string, z: string)
    requires |ms| == 8
    requires ms[0].kind == Raw && ms[3].kind == Raw && ms[6].kind == Raw
    requires ms[2].kind != Raw && ms[2].edge == Begin && ms[5].kind != Raw && ms[5].edge == End
    requires Slice(c, ms[0].index, ms[1].index + 1) == x
    requires Slice(c, ms[3].index, ms[4].index + 1) == y
    requires Slice(c, ms[6].index, ms[7].index + 1) == z
    ensures Render(c, ms, styles) == Some(x + OpenTag(ClassName(styles, ms[2].kind)) + y + CloseTag + z)
  {
    var open := OpenTag(ClassName(styles, ms[2].kind));
    assert ms[8..] == [];
    assert ms[6..][2..] == ms[8..] && ms[5..][1..] == ms[6..] && ms[3..][2..] == ms[5..];
    assert ms[2..][1..] == ms[3..];
    ItemsRawStep(c, ms[6..], styles, z, []);
    assert [z] + [] == [z];
    ItemsTagStep(c, ms[5..], styles, [z]);
    assert [TagOf(styles, ms[5])] + [z] == [CloseTag, z];
    ItemsRawStep(c, ms[3..], styles, y, [CloseTag, z]);
    assert [y] + [CloseTag, z] == [y, CloseTag, z];
    ItemsTagStep(c, ms[2..], styles, [y, CloseTag, z]);
    assert [TagOf(styles, ms[2])] + [y, CloseTag, z] == [open, y, CloseTag, z];
    ItemsRawStep(c, ms, styles, x, [open, y, CloseTag, z]);
    ConcatCons(z, []);
    ConcatCons(CloseTag, [z]);
    ConcatCons(y, [CloseTag, z]);
    ConcatCons(open, [y, CloseTag, z]);
    ConcatCons(x, [open, y, CloseTag, z]);
    assert z + "" == z;
    assert x + (open + (y + (CloseTag + z))) == x + open + y + CloseTag + z;
  }

  /** A mention renders with the class `undefined`: the style map has no entry for it. */
  lemma RenderMentionExample(c: string, styles: StyleClasses)
    requires c == "hello @[Mr. Robot]!"
    ensures Render(c, Lex(c), styles)
      == Some("hello " + "<span class=\"undefined\">" + "Mr. Robot" + "</span>" + "!")
  {
    var ms := Lex(c);
    LexMentionExample(c);
    assert c[0..6] == "hello " && c[8..17] == "Mr. Robot" && c[18..19] == "!";
    RenderFiveItems(c, ms, styles, "hello ", "Mr. Robot", "!");
    assert OpenTag(ClassName(styles, Mention)) == "<span class=\"undefined\">";
  }
}
