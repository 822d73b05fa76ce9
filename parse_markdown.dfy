/**
 * The inline markdown lexer of `src/lib/markdown/parseMarkdown.ts`.
 *
 * One left-to-right scan over a paragraph emits `(edge, kind, index)` markers.
 * `*` toggles bold, `_` toggles italic, `@[` and `]` toggle a mention, and
 * every other character belongs to a raw run whose begin marker sits on its
 * first character and whose end marker sits on its LAST character.
 *
 * `LexFrom` is the scan as a function of (position, open marks); the method
 * `ParseMarkdown` is the source's loop and is proved equal to it. The lemmas
 * below state what the scan guarantees: the markers tile the content
 * (`Tiles`), raw runs come in begin/end pairs, each kind's markers alternate
 * begin/end, and indices are ordered and in range.
 */
module ParseMarkdown {

  import opened Common

  datatype Edge = Begin | End

  datatype Kind = Raw | Bold | Italic | Mention

  /** `MarkdownStackItem`: `[beginEnd, kind, index]`. */
  datatype Marker = Marker(edge: Edge, kind: Kind, index: int)

  /** `TokensBegin[kind]`: the characters that open a span of `kind`. */
  function TokenBegin(k: Kind): string
  {
    match k
    case Raw => ""
    case Bold => "*"
    case Italic => "_"
    case Mention => "@["
  }

  /** `TokensEnd[kind]`: the characters that close a span of `kind`. */
  function TokenEnd(k: Kind): string
  {
    match k
    case Raw => ""
    case Bold => "*"
    case Italic => "_"
    case Mention => "]"
  }

  /** The token a marker of a styled kind stands for. */
  function Token(x: Marker): string
  {
    if x.edge == Begin then TokenBegin(x.kind) else TokenEnd(x.kind)
  }

  /** The `marks` record: which kinds are currently open. */
  datatype Marks = Marks(raw: bool, bold: bool, italic: bool, mention: bool)

  const AllClosed := Marks(false, false, false, false)

  function IsOpen(m: Marks, k: Kind): bool
  {
    match k
    case Raw => m.raw
    case Bold => m.bold
    case Italic => m.italic
    case Mention => m.mention
  }

  /** `marks[mark] = !marks[mark]` for a styled kind. */
  function Flip(m: Marks, k: Kind): Marks
  {
    match k
    case Raw => m.(raw := !m.raw)
    case Bold => m.(bold := !m.bold)
    case Italic => m.(italic := !m.italic)
    case Mention => m.(mention := !m.mention)
  }

  /** What `endRaw(i)` pushes: the end of the open raw run, at `i - 1`. */
  function EndRaw(m: Marks, i: int): seq<Marker>
  {
    if m.raw then [Marker(End, Raw, i - 1)] else []
  }

  /** What `toggleMark(k, i)` pushes. */
  function Toggle(m: Marks, k: Kind, i: int): Marker
  {
    Marker(if IsOpen(m, k) then End else Begin, k, i)
  }

  /** What `handleDefault(i)` pushes: a raw begin, unless a raw run is open. */
  function HandleDefault(m: Marks, i: int): seq<Marker>
  {
    if m.raw then [] else [Marker(Begin, Raw, i)]
  }

  /**
   * The `switch` on the character at `i`: the kind it toggles and how many
   * characters it consumes, or `None` when it goes to `handleDefault`.
   * `@` toggles a mention only when the next character is `[` (the loop then
   * skips that `[`); `]` toggles only while a mention is open.
   */
  function Trigger(c: string, i: nat, m: Marks): Option<(Kind, nat)>
    requires i < |c|
  {
    if c[i] == '*' then Some((Bold, 1))
    else if c[i] == '_' then Some((Italic, 1))
    else if c[i] == '@' && i + 1 < |c| && c[i + 1] == '[' then Some((Mention, 2))
    else if c[i] == ']' && m.mention then Some((Mention, 1))
    else None
  }

  /** The markers the scan emits from position `i` on, with marks `m` open. */
  function LexFrom(c: string, i: nat, m: Marks): seq<Marker>
    requires i <= |c|
    decreases |c| - i
  {
    if i == |c| then EndRaw(m, |c|)
    else match Trigger(c, i, m)
      case Some((k, w)) =>
        EndRaw(m, i) + [Toggle(m, k, i)] + LexFrom(c, i + w, Flip(m.(raw := false), k))
      case None =>
        HandleDefault(m, i) + LexFrom(c, i + 1, m.(raw := true))
  }

  /** `parseMarkdown(content)` as a function. */
  function Lex(c: string): seq<Marker>
  {
    LexFrom(c, 0, AllClosed)
  }

  /** One markup step of the scan: close the raw run, then toggle `k`. */
  lemma StepToggle(c: string, i: nat, s: seq<Marker>, m: Marks, k: Kind, w: nat)
    requires i < |c| && Trigger(c, i, m) == Some((k, w))
    ensures s + EndRaw(m, i) + [Toggle(m.(raw := false), k, i)]
              + LexFrom(c, i + w, Flip(m.(raw := false), k))
         == s + LexFrom(c, i, m)
  {
    LexFromToggle(c, i, m, k, w);
    var e, t, r := EndRaw(m, i), [Toggle(m, k, i)], LexFrom(c, i + w, Flip(m.(raw := false), k));
    assert Toggle(m.(raw := false), k, i) == Toggle(m, k, i);
    assert s + e + t + r == s + (e + t + r);
  }

  /** `LexFrom` at a character that toggles `k`. */
  lemma LexFromToggle(c: string, i: nat, m: Marks, k: Kind, w: nat)
    requires i < |c| && Trigger(c, i, m) == Some((k, w))
    ensures LexFrom(c, i, m)
         == EndRaw(m, i) + [Toggle(m, k, i)] + LexFrom(c, i + w, Flip(m.(raw := false), k))
  {
  }

  /** `LexFrom` at a character that goes to `handleDefault`. */
  lemma LexFromDefault(c: string, i: nat, m: Marks)
    requires i < |c| && Trigger(c, i, m) == None
    ensures LexFrom(c, i, m) == HandleDefault(m, i) + LexFrom(c, i + 1, m.(raw := true))
  {
  }

  /** One plain step of the scan: open a raw run unless one is open. */
  lemma StepDefault(c: string, i: nat, s: seq<Marker>, m: Marks)
    requires i < |c| && Trigger(c, i, m) == None
    ensures s + HandleDefault(m, i) + LexFrom(c, i + 1, m.(raw := true)) == s + LexFrom(c, i, m)
  {
  }

  /** `parseMarkdown`: the source's loop, with the three closures inlined. */
  method ParseMarkdown(content: string) returns (stack: seq<Marker>)
    ensures stack == Lex(content)
  {
    stack := [];
    var marks := AllClosed;
    var i := 0;
    while i < |content|
      invariant i <= |content|
      invariant stack + LexFrom(content, i, marks) == Lex(content)
      decreases |content| - i
    {
      var c := content[i];
      if c == '*' {
        StepToggle(content, i, stack, marks, Bold, 1);
        stack := stack + EndRaw(marks, i);
        marks := marks.(raw := false);
        stack := stack + [Toggle(marks, Bold, i)];
        marks := Flip(marks, Bold);
      } else if c == '_' {
        StepToggle(content, i, stack, marks, Italic, 1);
        stack := stack + EndRaw(marks, i);
        marks := marks.(raw := false);
        stack := stack + [Toggle(marks, Italic, i)];
        marks := Flip(marks, Italic);
      } else if c == '@' {
        if i + 1 < |content| && content[i + 1] == '[' {
          StepToggle(content, i, stack, marks, Mention, 2);
          stack := stack + EndRaw(marks, i);
          marks := marks.(raw := false);
          stack := stack + [Toggle(marks, Mention, i)];
          marks := Flip(marks, Mention);
          i := i + 1;
        } else {
          StepDefault(content, i, stack, marks);
          stack := stack + HandleDefault(marks, i);
          marks := marks.(raw := true);
        }
      } else if c == ']' {
        if marks.mention {
          StepToggle(content, i, stack, marks, Mention, 1);
          stack := stack + EndRaw(marks, i);
          marks := marks.(raw := false);
          stack := stack + [Toggle(marks, Mention, i)];
          marks := Flip(marks, Mention);
        } else {
          StepDefault(content, i, stack, marks);
          stack := stack + HandleDefault(marks, i);
          marks := marks.(raw := true);
        }
      } else {
        StepDefault(content, i, stack, marks);
        stack := stack + HandleDefault(marks, i);
        marks := marks.(raw := true);
      }
      i := i + 1;
    }
    stack := stack + EndRaw(marks, |content|);
  }

  // ---------------------------------------------------------------------
  // What the scan guarantees
  // ---------------------------------------------------------------------

  /** Empty content, and only empty content, yields no markers. */
  lemma LexEmptyIff(c: string)
    ensures Lex(c) == [] <==> c == []
  {
    if c != [] {
      match Trigger(c, 0, AllClosed)
      case Some((k, w)) =>
        assert Toggle(AllClosed, k, 0) in Lex(c);
      case None =>
        assert Marker(Begin, Raw, 0) in Lex(c);
    }
  }

  /** Position `p` may sit inside a raw run: no `*`, no `_`, no `@[` opener. */
  predicate PlainAt(c: string, p: nat)
    requires p < |c|
  {
    c[p] != '*' && c[p] != '_' && !(c[p] == '@' && p + 1 < |c| && c[p + 1] == '[')
  }

  /** `c[b..e]` is a stretch of plain characters. */
  ghost predicate PlainRun(c: string, b: int, e: int)
  {
    0 <= b <= e <= |c| && forall p :: b <= p < e ==> PlainAt(c, p)
  }

  /** The token `t` is spelled out in `c` at `pos`. */
  ghost predicate LexemeAt(c: string, pos: int, t: string)
  {
    0 <= pos && pos + |t| <= |c| && c[pos..pos + |t|] == t
  }

  /**
   * The markers `ms` tile `c[pos..]` without gap or overlap: a raw begin at
   * the current position is followed at once by its raw end, the run between
   * them (both ends included) is plain; any other marker sits on its token.
   * The end of a mention has two spellings: `]`, and `@[` met while a mention
   * is open (the scan toggles the mention there, so the opener closes it).
   */
  ghost predicate Tiles(ms: seq<Marker>, c: string, pos: int)
    decreases |ms|
  {
    if ms == [] then pos == |c|
    else if ms[0].kind == Raw then
      && ms[0] == Marker(Begin, Raw, pos)
      && |ms| >= 2 && ms[1].edge == End && ms[1].kind == Raw
      && pos <= ms[1].index
      && PlainRun(c, pos, ms[1].index + 1)
      && Tiles(ms[2..], c, ms[1].index + 1)
    else
      && ms[0].index == pos
      && ((LexemeAt(c, pos, Token(ms[0])) && Tiles(ms[1..], c, pos + |Token(ms[0])|))
          || (ms[0].edge == End && ms[0].kind == Mention && LexemeAt(c, pos, "@[")
              && Tiles(ms[1..], c, pos + 2)))
  }

  /** The raw begin that is still waiting for its end, if a run is open. */
  function OpenRaw(m: Marks, b: int): seq<Marker>
  {
    if m.raw then [Marker(Begin, Raw, b)] else []
  }

  lemma {:induction false} LexFromTiles(c: string, i: nat, m: Marks, b: int)
    requires i <= |c|
    requires m.raw ==> 0 <= b < i && PlainRun(c, b, i)
    requires !m.raw ==> b == i
    ensures Tiles(OpenRaw(m, b) + LexFrom(c, i, m), c, b)
    decreases |c| - i, 1
  {
    if i == |c| {
      EndCaseTiles(c, m, b);
    } else if Trigger(c, i, m).Some? {
      ToggleCaseTiles(c, i, m, b);
    } else {
      DefaultCaseTiles(c, i, m, b);
    }
  }

  lemma {:induction false} ToggleCaseTiles(c: string, i: nat, m: Marks, b: int)
    requires i < |c| && Trigger(c, i, m).Some?
    requires m.raw ==> 0 <= b < i && PlainRun(c, b, i)
    requires !m.raw ==> b == i
    ensures Tiles(OpenRaw(m, b) + LexFrom(c, i, m), c, b)
    decreases |c| - i, 0
  {
    var (k, w) := Trigger(c, i, m).value;
    var m' := Flip(m.(raw := false), k);
    LexFromTiles(c, i + w, m', i + w);
    var rest := LexFrom(c, i + w, m');
    assert OpenRaw(m', i + w) + rest == rest;
    LexFromToggle(c, i, m, k, w);
    ToggleStepTiles(c, i, m, k, w, b, rest);
  }

  lemma {:induction false} DefaultCaseTiles(c: string, i: nat, m: Marks, b: int)
    requires i < |c| && Trigger(c, i, m) == None
    requires m.raw ==> 0 <= b < i && PlainRun(c, b, i)
    requires !m.raw ==> b == i
    ensures Tiles(OpenRaw(m, b) + LexFrom(c, i, m), c, b)
    decreases |c| - i, 0
  {
    var b' := if m.raw then b else i;
    PlainRunGrows(c, b', i, m);
    LexFromTiles(c, i + 1, m.(raw := true), b');
    LexFromDefault(c, i, m);
    assert OpenRaw(m, b) + LexFrom(c, i, m)
        == OpenRaw(m.(raw := true), b') + LexFrom(c, i + 1, m.(raw := true));
  }

  lemma EndCaseTiles(c: string, m: Marks, b: int)
    requires m.raw ==> 0 <= b < |c| && PlainRun(c, b, |c|)
    requires !m.raw ==> b == |c|
    ensures Tiles(OpenRaw(m, b) + LexFrom(c, |c|, m), c, b)
  {
    if m.raw {
      RawRunTiles(c, b, |c| - 1, []);
      assert OpenRaw(m, b) + LexFrom(c, |c|, m)
          == [Marker(Begin, Raw, b), Marker(End, Raw, |c| - 1)] + [];
    }
  }

  /** A character the scan passes over extends the plain run before it. */
  lemma PlainRunGrows(c: string, b: int, i: nat, m: Marks)
    requires i < |c| && Trigger(c, i, m) == None
    requires m.raw ==> 0 <= b < i && PlainRun(c, b, i)
    requires !m.raw ==> b == i
    ensures PlainRun(c, b, i + 1)
  {
    assert PlainAt(c, i);
  }

  /** A toggle step extends a tiling of the rest of the content. */
  lemma ToggleStepTiles(c: string, i: nat, m: Marks, k: Kind, w: nat, b: int, rest: seq<Marker>)
    requires i < |c| && Trigger(c, i, m) == Some((k, w))
    requires m.raw ==> 0 <= b < i && PlainRun(c, b, i)
    requires !m.raw ==> b == i
    requires Tiles(rest, c, i + w)
    ensures Tiles(OpenRaw(m, b) + (EndRaw(m, i) + [Toggle(m, k, i)] + rest), c, b)
  {
    var t := Toggle(m, k, i);
    TokenTiles(c, i, m, k, w, rest);
    if m.raw {
      RawThenTokenTiles(c, b, i, m, [t] + rest);
    } else {
      assert OpenRaw(m, b) + (EndRaw(m, i) + [t] + rest) == [t] + rest;
    }
  }

  /** An open raw run closed at `i - 1`, then markers tiling from `i`. */
  lemma RawThenTokenTiles(c: string, b: int, i: nat, m: Marks, tail: seq<Marker>)
    requires m.raw && 0 <= b < i && PlainRun(c, b, i) && |tail| > 0
    requires Tiles(tail, c, i)
    ensures Tiles(OpenRaw(m, b) + (EndRaw(m, i) + [tail[0]] + tail[1..]), c, b)
  {
    assert [tail[0]] + tail[1..] == tail;
    assert OpenRaw(m, b) + (EndRaw(m, i) + [tail[0]] + tail[1..])
        == [Marker(Begin, Raw, b), Marker(End, Raw, i - 1)] + tail;
    RawRunTiles(c, b, i - 1, tail);
  }

  /** The marker a toggle step emits sits on its token. */
  lemma TokenTiles(c: string, i: nat, m: Marks, k: Kind, w: nat, rest: seq<Marker>)
    requires i < |c| && Trigger(c, i, m) == Some((k, w))
    requires Tiles(rest, c, i + w)
    ensures Tiles([Toggle(m, k, i)] + rest, c, i)
  {
    if w == 1 {
      SingleTokenTiles(c, i, m, k, rest);
    } else {
      OpenerTokenTiles(c, i, m, rest);
    }
  }

  /** A one-character trigger: the marker sits on its own token. */
  lemma SingleTokenTiles(c: string, i: nat, m: Marks, k: Kind, rest: seq<Marker>)
    requires i < |c| && Trigger(c, i, m) == Some((k, 1))
    requires Tiles(rest, c, i + 1)
    ensures Tiles([Toggle(m, k, i)] + rest, c, i)
  {
    var t := Toggle(m, k, i);
    assert ([t] + rest)[1..] == rest;
    assert c[i..i + 1] == [c[i]];
    assert k == Mention ==> c[i] == ']' && t.edge == End;
    assert LexemeAt(c, i, Token(t));
  }

  /** The `@[` trigger: a mention begin on its token, or the toggle that ends one. */
  lemma OpenerTokenTiles(c: string, i: nat, m: Marks, rest: seq<Marker>)
    requires i < |c| && Trigger(c, i, m) == Some((Mention, 2))
    requires Tiles(rest, c, i + 2)
    ensures Tiles([Toggle(m, Mention, i)] + rest, c, i)
  {
    var t := Toggle(m, Mention, i);
    assert ([t] + rest)[1..] == rest;
    assert c[i..i + 2] == [c[i], c[i + 1]];
    assert LexemeAt(c, i, "@[");
  }

  /** A plain run `[b, e]` in front of a tiling from `e + 1` tiles from `b`. */
  lemma RawRunTiles(c: string, b: int, e: int, tail: seq<Marker>)
    requires b <= e && PlainRun(c, b, e + 1) && Tiles(tail, c, e + 1)
    ensures Tiles([Marker(Begin, Raw, b), Marker(End, Raw, e)] + tail, c, b)
  {
    var ms := [Marker(Begin, Raw, b), Marker(End, Raw, e)] + tail;
    assert ms[2..] == tail;
  }

  /** The lexer's output tiles the whole content. */
  lemma LexTiles(c: string)
    ensures Tiles(Lex(c), c, 0)
  {
    LexFromTiles(c, 0, AllClosed, 0);
    assert OpenRaw(AllClosed, 0) + Lex(c) == Lex(c);
  }

  /**
   * How far a marker's token reaches: nothing for a raw begin (the run starts
   * on it), its last character for a raw end, its token otherwise.
   */
  function Width(x: Marker): nat
  {
    if x.kind == Raw then (if x.edge == Begin then 0 else 1) else |Token(x)|
  }

  /** A raw begin at `k` is followed at once by its raw end. */
  ghost predicate RawPairedAt(ms: seq<Marker>, k: int)
    requires 0 <= k < |ms|
  {
    && (ms[k].kind == Raw && ms[k].edge == Begin ==>
          k + 1 < |ms| && ms[k + 1].kind == Raw && ms[k + 1].edge == End
          && ms[k].index <= ms[k + 1].index)
    && (ms[k].kind == Raw && ms[k].edge == End ==>
          0 < k && ms[k - 1].kind == Raw && ms[k - 1].edge == Begin)
  }

  /** A tiling keeps every marker in range and orders the markers. */
  lemma {:induction false} TilesOrdered(ms: seq<Marker>, c: string, pos: int)
    requires Tiles(ms, c, pos)
    ensures 0 <= pos <= |c|
    ensures forall k :: 0 <= k < |ms| ==>
      pos <= ms[k].index < |c| && ms[k].index + Width(ms[k]) <= |c|
    ensures forall k, l :: 0 <= k < l < |ms| ==> ms[k].index + Width(ms[k]) <= ms[l].index
    decreases |ms|
  {
    if ms != [] {
      var d := if ms[0].kind == Raw then 2 else 1;
      var next := TilesNext(ms, c, pos);
      TilesOrdered(ms[d..], c, next);
      assert forall k :: 0 <= k < d ==>
        pos <= ms[k].index < next && ms[k].index + Width(ms[k]) <= next;
      OrderedAfterHead(ms, d, pos, next, |c|);
    }
  }

  /**
   * A head of `d` markers from `pos` ending by `next`, before an ordered
   * tail in `[next, n)`: the whole sequence is ordered and in `[pos, n)`.
   */
  lemma OrderedAfterHead(ms: seq<Marker>, d: nat, pos: int, next: int, n: int)
    requires 1 <= d <= 2 && d <= |ms| && next <= n
    requires d == 2 ==> ms[0].index + Width(ms[0]) <= ms[1].index
    requires forall k :: 0 <= k < d ==> pos <= ms[k].index < next && ms[k].index + Width(ms[k]) <= next
    requires forall k :: 0 <= k < |ms[d..]| ==>
      next <= ms[d..][k].index < n && ms[d..][k].index + Width(ms[d..][k]) <= n
    requires forall k, l :: 0 <= k < l < |ms[d..]| ==>
      ms[d..][k].index + Width(ms[d..][k]) <= ms[d..][l].index
    ensures forall k :: 0 <= k < |ms| ==> pos <= ms[k].index < n && ms[k].index + Width(ms[k]) <= n
    ensures forall k, l :: 0 <= k < l < |ms| ==> ms[k].index + Width(ms[k]) <= ms[l].index
  {
    assert pos <= ms[0].index < next;
    assert forall k :: d <= k < |ms| ==> ms[k] == ms[d..][k - d];
  }

  /** Where the tiling continues after its first token or raw run. */
  ghost function TilesNext(ms: seq<Marker>, c: string, pos: int): (next: int)
    requires ms != [] && Tiles(ms, c, pos)
    ensures ms[0].kind == Raw ==> next == ms[1].index + 1 && Tiles(ms[2..], c, next)
    ensures ms[0].kind != Raw ==> next >= pos + |Token(ms[0])| && Tiles(ms[1..], c, next)
    ensures pos <= ms[0].index < next && ms[0].index + Width(ms[0]) <= next
  {
    if ms[0].kind == Raw then ms[1].index + 1
    else if LexemeAt(c, pos, Token(ms[0])) && Tiles(ms[1..], c, pos + |Token(ms[0])|) then
      pos + |Token(ms[0])|
    else pos + 2
  }

  /** A tiling pairs raw markers and keeps raw runs plain. */
  lemma {:induction false} TilesRawRuns(ms: seq<Marker>, c: string, pos: int)
    requires Tiles(ms, c, pos)
    ensures forall k :: 0 <= k < |ms| ==> RawPairedAt(ms, k)
    ensures forall k :: 0 <= k < |ms| && ms[k].kind == Raw && ms[k].edge == Begin ==>
      k + 1 < |ms| && PlainRun(c, ms[k].index, ms[k + 1].index + 1)
    decreases |ms|
  {
    if ms != [] {
      var d := if ms[0].kind == Raw then 2 else 1;
      var next := TilesNext(ms, c, pos);
      TilesRawRuns(ms[d..], c, next);
      forall k | 0 <= k < |ms|
        ensures RawPairedAt(ms, k)
        ensures ms[k].kind == Raw && ms[k].edge == Begin ==>
          k + 1 < |ms| && PlainRun(c, ms[k].index, ms[k + 1].index + 1)
      {
        if k >= d {
          assert ms[k] == ms[d..][k - d];
          assert RawPairedAt(ms[d..], k - d);
          if k + 1 < |ms| {
            assert ms[k + 1] == ms[d..][k + 1 - d];
          }
          if k > d {
            assert ms[k - 1] == ms[d..][k - 1 - d];
          }
        }
      }
    }
  }

  /** A tiling puts every styled marker on its own token. */
  lemma {:induction false} TilesTokens(ms: seq<Marker>, c: string, pos: int)
    requires Tiles(ms, c, pos)
    ensures forall k :: 0 <= k < |ms| && ms[k].kind != Raw ==>
      LexemeAt(c, ms[k].index, Token(ms[k]))
      || (ms[k].edge == End && ms[k].kind == Mention && LexemeAt(c, ms[k].index, "@["))
    decreases |ms|
  {
    if ms != [] {
      var d := if ms[0].kind == Raw then 2 else 1;
      var next := TilesNext(ms, c, pos);
      TilesTokens(ms[d..], c, next);
      forall k | d <= k < |ms|
        ensures ms[k] == ms[d..][k - d]
      {
      }
    }
  }

  /**
   * The lexer's markers: indices in `[0, |c| - 1]` and non-decreasing (each
   * token ends before the next marker), every raw begin immediately followed
   * by its raw end at an index no smaller, raw runs free of `*`, `_` and
   * `@[`, and every styled marker on its own token.
   */
  lemma LexWellFormed(c: string)
    ensures forall k :: 0 <= k < |Lex(c)| ==>
      0 <= Lex(c)[k].index < |c| && Lex(c)[k].index + Width(Lex(c)[k]) <= |c|
    ensures forall k, l :: 0 <= k < l < |Lex(c)| ==>
      Lex(c)[k].index + Width(Lex(c)[k]) <= Lex(c)[l].index
    ensures forall k :: 0 <= k < |Lex(c)| ==> RawPairedAt(Lex(c), k)
    ensures forall k :: 0 <= k < |Lex(c)| && Lex(c)[k].kind == Raw && Lex(c)[k].edge == Begin ==>
      k + 1 < |Lex(c)| && PlainRun(c, Lex(c)[k].index, Lex(c)[k + 1].index + 1)
  {
    LexTiles(c);
    TilesOrdered(Lex(c), c, 0);
    TilesRawRuns(Lex(c), c, 0);
  }

  /**
   * A mention begin sits on `@` followed by `[`, and no marker sits on that
   * `[`: the scan skips it.
   */
  lemma MentionBeginOnOpener(c: string, k: nat)
    requires k < |Lex(c)| && Lex(c)[k].edge == Begin && Lex(c)[k].kind == Mention
    ensures var i := Lex(c)[k].index;
      0 <= i && i + 1 < |c| && c[i] == '@' && c[i + 1] == '['
      && forall l :: 0 <= l < |Lex(c)| ==> Lex(c)[l].index != i + 1
  {
    var ms := Lex(c);
    LexTiles(c);
    TilesOrdered(ms, c, 0);
    TilesTokens(ms, c, 0);
    var i := ms[k].index;
    assert LexemeAt(c, i, "@[");
    assert c[i..i + 2][0] == c[i] && c[i..i + 2][1] == c[i + 1];
    forall l | 0 <= l < |ms|
      ensures ms[l].index != i + 1
    {
      if l < k {
        assert ms[l].index + Width(ms[l]) <= i;
      } else if l > k {
        assert i + 2 <= ms[l].index;
      }
    }
  }

  // ---------------------------------------------------------------------
  // The scan state at a position, and what happens at a `]`
  // ---------------------------------------------------------------------

  /** `ms` emitted before a scan that got as far as `r`. */
  function Prepend(ms: seq<Marker>, r: Option<(seq<Marker>, Marks)>): Option<(seq<Marker>, Marks)>
  {
    if r.None? then None else Some((ms + r.value.0, r.value.1))
  }

  /**
   * The scan from `i` with marks `m`, stopped when it reaches position `p`:
   * the markers emitted so far and the marks open at `p`. It is `None` when
   * the scan steps over `p`, which happens only to the `[` of an `@[`.
   */
  ghost function ScanTo(c: string, i: nat, m: Marks, p: nat): (r: Option<(seq<Marker>, Marks)>)
    requires i <= p <= |c|
    ensures r.None? ==> p < |c| && c[p] == '['
    ensures r.Some? ==> forall x :: x in r.value.0 ==> x.index < p
    decreases p - i
  {
    if i == p then Some(([], m))
    else match Trigger(c, i, m)
      case Some((k, w)) =>
        if i + w > p then None
        else Prepend(EndRaw(m, i) + [Toggle(m, k, i)], ScanTo(c, i + w, Flip(m.(raw := false), k), p))
      case None =>
        Prepend(HandleDefault(m, i), ScanTo(c, i + 1, m.(raw := true), p))
  }

  /** The markers of a whole scan are those up to `p`, then the scan from `p`. */
  lemma {:induction false} ScanToSplits(c: string, i: nat, m: Marks, p: nat)
    requires i <= p <= |c| && ScanTo(c, i, m, p).Some?
    ensures LexFrom(c, i, m) == ScanTo(c, i, m, p).value.0 + LexFrom(c, p, ScanTo(c, i, m, p).value.1)
    decreases p - i, 1
  {
    if i < p {
      if Trigger(c, i, m).Some? {
        ScanToggleSplits(c, i, m, p);
      } else {
        ScanDefaultSplits(c, i, m, p);
      }
    }
  }

  lemma {:induction false} ScanToggleSplits(c: string, i: nat, m: Marks, p: nat)
    requires i < p <= |c| && ScanTo(c, i, m, p).Some? && Trigger(c, i, m).Some?
    ensures LexFrom(c, i, m) == ScanTo(c, i, m, p).value.0 + LexFrom(c, p, ScanTo(c, i, m, p).value.1)
    decreases p - i, 0
  {
    var (k, w) := Trigger(c, i, m).value;
    var m' := Flip(m.(raw := false), k);
    var head := EndRaw(m, i) + [Toggle(m, k, i)];
    var r := ScanTo(c, i + w, m', p);
    assert ScanTo(c, i, m, p) == Prepend(head, r);
    ScanToSplits(c, i + w, m', p);
    LexFromToggle(c, i, m, k, w);
    var rest := LexFrom(c, p, r.value.1);
    assert head + (r.value.0 + rest) == head + r.value.0 + rest;
  }

  lemma {:induction false} ScanDefaultSplits(c: string, i: nat, m: Marks, p: nat)
    requires i < p <= |c| && ScanTo(c, i, m, p).Some? && Trigger(c, i, m).None?
    ensures LexFrom(c, i, m) == ScanTo(c, i, m, p).value.0 + LexFrom(c, p, ScanTo(c, i, m, p).value.1)
    decreases p - i, 0
  {
    assert Trigger(c, i, m) == None;
    var head := HandleDefault(m, i);
    var r := ScanTo(c, i + 1, m.(raw := true), p);
    assert ScanTo(c, i, m, p) == Prepend(head, r);
    ScanToSplits(c, i + 1, m.(raw := true), p);
    LexFromDefault(c, i, m);
    var rest := LexFrom(c, p, r.value.1);
    assert head + (r.value.0 + rest) == head + r.value.0 + rest;
  }

  /** With a raw run open, the next marker from `q` on is its end, at `q - 1` or later. */
  lemma {:induction false} RawRunEnds(c: string, q: nat, m: Marks)
    requires m.raw && 0 < q <= |c|
    ensures var ms := LexFrom(c, q, m);
      ms != [] && ms[0].edge == End && ms[0].kind == Raw && ms[0].index >= q - 1
    decreases |c| - q
  {
    if q < |c| {
      match Trigger(c, q, m)
      case Some((k, w)) =>
        LexFromToggle(c, q, m, k, w);
      case None =>
        LexFromDefault(c, q, m);
        assert m.(raw := true) == m;
        RawRunEnds(c, q + 1, m);
    }
  }

  /** Position `p` lies inside a raw run of `ms`, both ends included. */
  ghost predicate InRawRun(ms: seq<Marker>, p: int)
  {
    exists k :: 0 <= k && k + 1 < |ms| && ms[k].kind == Raw && ms[k].edge == Begin
      && ms[k + 1].kind == Raw && ms[k + 1].edge == End
      && ms[k].index <= p <= ms[k + 1].index
  }

  /**
   * A `]` is reached by the scan. It gets a mention end marker exactly when
   * a mention is open there; otherwise it is plain text inside a raw run.
   */
  lemma LexClosingBracket(c: string, p: nat)
    requires p < |c| && c[p] == ']'
    ensures ScanTo(c, 0, AllClosed, p).Some?
    ensures var mp := ScanTo(c, 0, AllClosed, p).value.1;
      && (Marker(End, Mention, p) in Lex(c) <==> mp.mention)
      && (!mp.mention ==> InRawRun(Lex(c), p))
  {
    var (pre, mp) := ScanTo(c, 0, AllClosed, p).value;
    ScanToSplits(c, 0, AllClosed, p);
    var ms := Lex(c);
    var tail := LexFrom(c, p, mp);
    assert ms == pre + tail;
    LexWellFormed(c);
    if mp.mention {
      LexFromToggle(c, p, mp, Mention, 1);
      assert Toggle(mp, Mention, p) == Marker(End, Mention, p);
      assert Marker(End, Mention, p) in tail;
    } else {
      LexFromDefault(c, p, mp);
      var k: int;
      if mp.raw {
        RawRunEnds(c, p + 1, mp.(raw := true));
        k := |pre| - 1;
        assert ms[k + 1] == tail[0];
        assert 0 <= k by {
          assert RawPairedAt(ms, k + 1);
        }
        assert RawPairedAt(ms, k + 1);
        assert ms[k] == pre[k] && ms[k] in pre;
      } else {
        k := |pre|;
        assert ms[k] == Marker(Begin, Raw, p);
        assert RawPairedAt(ms, k);
      }
      assert ms[k].index <= p <= ms[k + 1].index;
      assert InRawRun(ms, p);
    }
  }

  // ---------------------------------------------------------------------
  // Begin/end alternation per kind
  // ---------------------------------------------------------------------

  /** The markers of kind `k`, in order. */
  function OfKind(ms: seq<Marker>, k: Kind): seq<Marker>
  {
    if ms == [] then []
    else (if ms[0].kind == k then [ms[0]] else []) + OfKind(ms[1..], k)
  }

  lemma {:induction false} OfKindAppend(a: seq<Marker>, b: seq<Marker>, k: Kind)
    ensures OfKind(a + b, k) == OfKind(a, k) + OfKind(b, k)
  {
    if a == [] {
      assert a + b == b;
    } else {
      var h := if a[0].kind == k then [a[0]] else [];
      assert (a + b)[0] == a[0];
      assert (a + b)[1..] == a[1..] + b;
      OfKindAppend(a[1..], b, k);
      calc {
        OfKind(a + b, k);
        h + OfKind(a[1..] + b, k);
        h + (OfKind(a[1..], k) + OfKind(b, k));
        (h + OfKind(a[1..], k)) + OfKind(b, k);
      }
    }
  }

  /** `ms` alternates begin, end, begin, ...; it starts with an end if `open`. */
  ghost predicate Alternates(ms: seq<Marker>, open: bool)
    decreases |ms|
  {
    ms == [] || (ms[0].edge == (if open then End else Begin) && Alternates(ms[1..], !open))
  }

  lemma AlternatesCons(x: Marker, rest: seq<Marker>, open: bool)
    requires x.edge == (if open then End else Begin) && Alternates(rest, !open)
    ensures Alternates([x] + rest, open)
  {
    assert ([x] + rest)[1..] == rest;
  }

  lemma {:induction false} LexFromAlternates(c: string, i: nat, m: Marks, k: Kind)
    requires i <= |c|
    ensures Alternates(OfKind(LexFrom(c, i, m), k), IsOpen(m, k))
    decreases |c| - i
  {
    if i == |c| {
      if m.raw && k == Raw {
        AlternatesCons(Marker(End, Raw, i - 1), [], true);
      }
    } else {
      match Trigger(c, i, m)
      case Some((kt, w)) =>
        var m' := Flip(m.(raw := false), kt);
        LexFromAlternates(c, i + w, m', k);
        LexFromToggle(c, i, m, kt, w);
        ToggleStepAlternates(m, kt, i, LexFrom(c, i + w, m'), k);
      case None =>
        var m' := m.(raw := true);
        LexFromAlternates(c, i + 1, m', k);
        LexFromDefault(c, i, m);
        DefaultStepAlternates(m, i, LexFrom(c, i + 1, m'), k);
    }
  }

  lemma DefaultStepAlternates(m: Marks, i: int, rest: seq<Marker>, k: Kind)
    requires Alternates(OfKind(rest, k), IsOpen(m.(raw := true), k))
    ensures Alternates(OfKind(HandleDefault(m, i) + rest, k), IsOpen(m, k))
  {
    OfKindAppend(HandleDefault(m, i), rest, k);
    if k == Raw && !m.raw {
      var x := Marker(Begin, Raw, i);
      assert OfKind([x], k) == [x] + OfKind([], k);
      AlternatesCons(x, OfKind(rest, k), false);
    } else {
      assert OfKind(HandleDefault(m, i), k) == [];
      assert OfKind(HandleDefault(m, i) + rest, k) == OfKind(rest, k);
    }
  }

  lemma ToggleStepAlternates(m: Marks, kt: Kind, i: int, rest: seq<Marker>, k: Kind)
    requires kt != Raw
    requires Alternates(OfKind(rest, k), IsOpen(Flip(m.(raw := false), kt), k))
    ensures Alternates(OfKind(EndRaw(m, i) + [Toggle(m, kt, i)] + rest, k), IsOpen(m, k))
  {
    var t := Toggle(m, kt, i);
    var tail := OfKind(rest, k);
    var head := OfKind(EndRaw(m, i) + [t], k);
    OfKindAppend(EndRaw(m, i) + [t], rest, k);
    ToggleHeadOfKind(m, kt, i, k);
    if k == Raw && m.raw {
      var e := Marker(End, Raw, i - 1);
      assert head + tail == [e] + tail;
      AlternatesCons(e, tail, true);
    } else if k == kt {
      assert head + tail == [t] + tail;
      AlternatesCons(t, tail, IsOpen(m, k));
    } else {
      assert head + tail == tail;
    }
  }

  /** The markers of kind `k` among those a toggle of `kt` pushes. */
  lemma ToggleHeadOfKind(m: Marks, kt: Kind, i: int, k: Kind)
    requires kt != Raw
    ensures OfKind(EndRaw(m, i) + [Toggle(m, kt, i)], k)
         == (if k == Raw && m.raw then [Marker(End, Raw, i - 1)] else [])
          + (if k == kt then [Toggle(m, kt, i)] else [])
  {
    var t := Toggle(m, kt, i);
    OfKindAppend(EndRaw(m, i), [t], k);
    assert OfKind([t], k) == (if t.kind == k then [t] else []) + OfKind([], k);
    if m.raw {
      var e := Marker(End, Raw, i - 1);
      assert OfKind([e], k) == (if k == Raw then [e] else []) + OfKind([], k);
    }
  }

  /**
   * For every kind, the lexer's markers of that kind alternate begin, end,
   * begin, ..., starting with a begin: one boolean per kind is toggled.
   */
  lemma LexAlternates(c: string, k: Kind)
    ensures Alternates(OfKind(Lex(c), k), false)
  {
    LexFromAlternates(c, 0, AllClosed, k);
  }

  // ---------------------------------------------------------------------
  // The repository's fixture
  // ---------------------------------------------------------------------

  /** With a raw run open, characters that trigger nothing emit nothing. */
  lemma {:induction false} SkipPlain(c: string, i: nat, j: nat, m: Marks)
    requires m.raw && i <= j <= |c|
    requires forall p :: i <= p < j ==> Trigger(c, p, m) == None
    ensures LexFrom(c, i, m) == LexFrom(c, j, m)
    decreases j - i
  {
    if i < j {
      assert m.(raw := true) == m;
      SkipPlain(c, i + 1, j, m);
    }
  }

  /** No `*`, no `_` and no `@[` anywhere in `c`. */
  predicate Unstyled(c: string)
  {
    forall p :: 0 <= p < |c| ==>
      c[p] != '*' && c[p] != '_' && !(c[p] == '@' && p + 1 < |c| && c[p + 1] == '[')
  }

  /** Unstyled, non-empty content is one raw run from its first to its last character. */
  lemma LexUnstyled(c: string)
    requires c != [] && Unstyled(c)
    ensures Lex(c) == [Marker(Begin, Raw, 0), Marker(End, Raw, |c| - 1)]
  {
    var raw := AllClosed.(raw := true);
    assert Trigger(c, 0, AllClosed) == None;
    LexFromDefault(c, 0, AllClosed);
    forall p | 1 <= p < |c|
      ensures Trigger(c, p, raw) == None
    {
    }
    SkipPlain(c, 1, |c|, raw);
  }

  /** The lexer's own example: a bold word inside plain text. */
  lemma LexHelloWorld(c: string)
    requires c == "hello *world*!"
    ensures Lex(c) == [
      Marker(Begin, Raw, 0), Marker(End, Raw, 5),
      Marker(Begin, Bold, 6),
      Marker(Begin, Raw, 7), Marker(End, Raw, 11),
      Marker(End, Bold, 12),
      Marker(Begin, Raw, 13), Marker(End, Raw, 13)]
  {
    var raw := AllClosed.(raw := true);
    var bold := AllClosed.(bold := true);
    HelloWorldTail(c);
    LexFromDefault(c, 0, AllClosed);
    SkipPlain(c, 1, 6, raw);
    LexFromToggle(c, 6, raw, Bold, 1);
  }

  /** From the bold word on, in `hello *world*!`. */
  lemma HelloWorldTail(c: string)
    requires c == "hello *world*!"
    ensures LexFrom(c, 7, AllClosed.(bold := true)) == [
      Marker(Begin, Raw, 7), Marker(End, Raw, 11),
      Marker(End, Bold, 12),
      Marker(Begin, Raw, 13), Marker(End, Raw, 13)]
  {
    var raw := AllClosed.(raw := true);
    var bold := AllClosed.(bold := true);
    var boldRaw := bold.(raw := true);
    LexFromDefault(c, 7, bold);
    SkipPlain(c, 8, 12, boldRaw);
    LexFromToggle(c, 12, boldRaw, Bold, 1);
    LexFromDefault(c, 13, AllClosed);
  }

  /** `s` holds none of the characters the scan reacts to. */
  predicate NoMarkup(s: string)
  {
    forall k :: 0 <= k < |s| ==>
      s[k] != '*' && s[k] != '_' && s[k] != '@' && s[k] != '[' && s[k] != ']'
  }

  /** The markers of a paragraph holding one mention between plain text. */
  function OneMentionMarkers(a: nat, b: nat, d: nat): seq<Marker>
  {
    [ Marker(Begin, Raw, 0), Marker(End, Raw, a - 1),
      Marker(Begin, Mention, a),
      Marker(Begin, Raw, a + 2), Marker(End, Raw, a + 1 + b),
      Marker(End, Mention, a + 2 + b),
      Marker(Begin, Raw, a + 3 + b), Marker(End, Raw, a + 2 + b + d) ]
  }

  /** A plain stretch `s` at `i` in `c` triggers nothing, whatever is open. */
  lemma PlainStretch(c: string, i: nat, s: string, m: Marks)
    requires i + |s| <= |c| && c[i..i + |s|] == s && NoMarkup(s)
    ensures forall p :: i <= p < i + |s| ==> Trigger(c, p, m) == None
  {
    forall p | i <= p < i + |s|
      ensures Trigger(c, p, m) == None
    {
      assert c[p] == c[i..i + |s|][p - i];
    }
  }

  /**
   * `a@[b]d` with plain, non-empty `a`, `b` and `d` lexes to a raw run, the
   * mention with its raw run inside, and a raw run.
   */
  lemma LexOneMention(a: string, b: string, d: string)
    requires |a| > 0 && |b| > 0 && |d| > 0
    requires NoMarkup(a) && NoMarkup(b) && NoMarkup(d)
    ensures Lex(a + "@[" + b + "]" + d) == OneMentionMarkers(|a|, |b|, |d|)
  {
    var c := a + "@[" + b + "]" + d;
    var n := |a|;
    assert c[..n] == a;
    assert c[n] == '@' && c[n + 1] == '[';
    OpenerHeadLexes(c, a);
    OneMentionTail(a, b, d);
  }

  /** A plain, non-empty `a` followed by `@[`: a raw run, then the mention opens. */
  lemma OpenerHeadLexes(c: string, a: string)
    requires 0 < |a| && |a| + 1 < |c| && c[..|a|] == a && NoMarkup(a)
    requires c[|a|] == '@' && c[|a| + 1] == '['
    ensures LexFrom(c, 0, AllClosed)
      == [Marker(Begin, Raw, 0), Marker(End, Raw, |a| - 1), Marker(Begin, Mention, |a|)]
         + LexFrom(c, |a| + 2, AllClosed.(mention := true))
  {
    var n := |a|;
    var raw := AllClosed.(raw := true);
    PlainStretch(c, 0, a, AllClosed);
    PlainStretch(c, 0, a, raw);
    LexFromDefault(c, 0, AllClosed);
    SkipPlain(c, 1, n, raw);
    LexFromToggle(c, n, raw, Mention, 2);
    assert Flip(AllClosed, Mention) == AllClosed.(mention := true);
  }

  /** `a@[]` with plain, non-empty `a`: a raw run, then an empty mention. */
  lemma LexEmptyMention(a: string)
    requires |a| > 0 && NoMarkup(a)
    ensures Lex(a + "@[]") == [Marker(Begin, Raw, 0), Marker(End, Raw, |a| - 1),
                               Marker(Begin, Mention, |a|), Marker(End, Mention, |a| + 2)]
  {
    var c := a + "@[]";
    var n := |a|;
    var open := AllClosed.(mention := true);
    assert c[..n] == a;
    assert c[n] == '@' && c[n + 1] == '[' && c[n + 2] == ']';
    OpenerHeadLexes(c, a);
    ClosingBracket(c, n + 2, open);
    LexFromToggle(c, n + 2, open, Mention, 1);
    assert Flip(open.(raw := false), Mention) == AllClosed;
  }

  /** `LexOneMention` from inside the mention on. */
  lemma OneMentionTail(a: string, b: string, d: string)
    requires |a| > 0 && |b| > 0 && |d| > 0
    requires NoMarkup(b) && NoMarkup(d)
    ensures var c := a + "@[" + b + "]" + d;
      var n := |a|;
      LexFrom(c, n + 2, AllClosed.(mention := true))
      == [Marker(Begin, Raw, n + 2), Marker(End, Raw, n + 1 + |b|),
          Marker(End, Mention, n + 2 + |b|),
          Marker(Begin, Raw, n + 3 + |b|), Marker(End, Raw, n + 2 + |b| + |d|)]
  {
    var x := a + "@[";
    var y := x + b;
    var z := y + "]";
    var c := z + d;
    assert c == a + "@[" + b + "]" + d;
    PrefixOfAppend(z, d);
    PrefixOfAppend(y, "]");
    assert c[..|y|] == y;
    assert c[|x|..|y|] == c[..|y|][|x|..] == y[|x|..] == b;
    assert c[|y|] == z[|y|] == ']';
    assert c[|z|..] == d;
    MentionTextLexes(c, |x|, b, |y|);
    AfterMentionLexes(c, |z|, d);
    assert |z| == |y| + 1;
  }

  lemma PrefixOfAppend(x: string, y: string)
    ensures (x + y)[..|x|] == x && (x + y)[|x|..] == y
  {
  }

  /** Inside an open mention: plain `b` at `n`, then `]` at `e`. */
  lemma MentionTextLexes(c: string, n: nat, b: string, e: nat)
    requires e == n + |b| && e < |c| && |b| > 0
    requires c[n..e] == b && NoMarkup(b) && c[e] == ']'
    ensures LexFrom(c, n, AllClosed.(mention := true))
         == [Marker(Begin, Raw, n), Marker(End, Raw, e - 1), Marker(End, Mention, e)]
            + LexFrom(c, e + 1, AllClosed)
  {
    var mention := AllClosed.(mention := true);
    var mr := mention.(raw := true);
    ClosingBracket(c, e, mr);
    PlainStretch(c, n, b, mention);
    PlainStretch(c, n, b, mr);
    LexFromDefault(c, n, mention);
    SkipPlain(c, n + 1, e, mr);
    LexFromToggle(c, e, mr, Mention, 1);
    assert Flip(mr.(raw := false), Mention) == AllClosed;
    assert Toggle(mr, Mention, e) == Marker(End, Mention, e);
    var rest := LexFrom(c, e + 1, AllClosed);
    assert [Marker(Begin, Raw, n)] + ([Marker(End, Raw, e - 1), Marker(End, Mention, e)] + rest)
        == [Marker(Begin, Raw, n), Marker(End, Raw, e - 1), Marker(End, Mention, e)] + rest;
  }

  /** `]` closes an open mention. */
  lemma ClosingBracket(c: string, e: nat, m: Marks)
    requires e < |c| && c[e] == ']' && m.mention
    ensures Trigger(c, e, m) == Some((Mention, 1))
  {
  }

  /** Plain non-empty `d` from `f` to the end: one raw run. */
  lemma AfterMentionLexes(c: string, f: nat, d: string)
    requires f + |d| == |c| && |d| > 0 && c[f..] == d && NoMarkup(d)
    ensures LexFrom(c, f, AllClosed) == [Marker(Begin, Raw, f), Marker(End, Raw, |c| - 1)]
  {
    var raw := AllClosed.(raw := true);
    assert c[f..f + |d|] == d;
    PlainStretch(c, f, d, AllClosed);
    PlainStretch(c, f, d, raw);
    LexFromDefault(c, f, AllClosed);
    SkipPlain(c, f + 1, |c|, raw);
  }

  /** The mention example of the range tests: `hello @[Mr. Robot]!`. */
  lemma LexMentionExample(c: string)
    requires c == "hello @[Mr. Robot]!"
    ensures Lex(c) == [
      Marker(Begin, Raw, 0), Marker(End, Raw, 5),
      Marker(Begin, Mention, 6),
      Marker(Begin, Raw, 8), Marker(End, Raw, 16),
      Marker(End, Mention, 17),
      Marker(Begin, Raw, 18), Marker(End, Raw, 18)]
  {
    assert c == "hello " + "@[" + "Mr. Robot" + "]" + "!";
    LexOneMention("hello ", "Mr. Robot", "!");
  }
}
