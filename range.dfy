/**
 * The range indexer and locator of `src/lib/markdown/range.ts`.
 *
 * `getRangesOfKind` pairs every begin marker of a kind with the nearest later
 * end marker of that kind and resumes scanning after that end. `RangesFrom`
 * is that scan as a function; the method `GetRangesOfKind` is the source's
 * nested loop and is proved equal to it. `findItemOfKind` returns the first
 * range whose inside interval holds the caret (both bounds inclusive).
 */
module MarkdownRange {

  import opened Common
  import opened ParseMarkdown

  /**
   * `Range`: `i` and `j` are the positions of the begin and end markers in
   * the marker sequence; the four offsets are positions in the content:
   * `beginOutside` on the opening token, `beginInside` just after it,
   * `endInside` on the closing token, `endOutside` just after it.
   */
  datatype Range = Range(
    i: nat, j: nat, kind: Kind,
    beginOutside: int, beginInside: int, endInside: int, endOutside: int)

  predicate IsBeginOf(x: Marker, k: Kind)
  {
    x.edge == Begin && x.kind == k
  }

  predicate IsEndOf(x: Marker, k: Kind)
  {
    x.edge == End && x.kind == k
  }

  /** The range the source builds from the begin at `i` and the end at `j`. */
  function PairRange(kind: Kind, parsed: seq<Marker>, i: nat, j: nat): Range
    requires i < j < |parsed|
  {
    Range(i, j, kind,
      parsed[i].index, parsed[i].index + |TokenBegin(kind)|,
      parsed[j].index, parsed[j].index + |TokenEnd(kind)|)
  }

  /**
   * What every range of `kind` over `parsed` is: a begin of `kind` paired
   * with the first end of `kind` after it, offsets widened by the tokens.
   */
  ghost predicate ValidRange(kind: Kind, parsed: seq<Marker>, r: Range)
  {
    && r.kind == kind
    && r.i < r.j < |parsed|
    && IsBeginOf(parsed[r.i], kind)
    && IsEndOf(parsed[r.j], kind)
    && (forall l :: r.i < l < r.j ==> !IsEndOf(parsed[l], kind))
    && r.beginOutside == parsed[r.i].index
    && r.beginInside == r.beginOutside + |TokenBegin(kind)|
    && r.endInside == parsed[r.j].index
    && r.endOutside == r.endInside + |TokenEnd(kind)|
  }

  /** The inner loop: the first end of `kind` at or after `j`, if any. */
  function NextEnd(kind: Kind, parsed: seq<Marker>, j: nat): (r: Option<nat>)
    ensures r.Some? ==> j <= r.value < |parsed| && IsEndOf(parsed[r.value], kind)
    decreases |parsed| - j
  {
    if j >= |parsed| then None
    else if IsEndOf(parsed[j], kind) then Some(j)
    else NextEnd(kind, parsed, j + 1)
  }

  /**
   * `NextEnd` finds the FIRST end of `kind` from `j` on, and finds none
   * exactly when there is none.
   */
  lemma {:induction false} NextEndFirst(kind: Kind, parsed: seq<Marker>, j: nat)
    ensures NextEnd(kind, parsed, j).Some? ==>
      forall l :: j <= l < NextEnd(kind, parsed, j).value ==> !IsEndOf(parsed[l], kind)
    ensures NextEnd(kind, parsed, j).None? <==>
      forall l :: j <= l < |parsed| ==> !IsEndOf(parsed[l], kind)
    decreases |parsed| - j
  {
    if j < |parsed| && !IsEndOf(parsed[j], kind) {
      NextEndFirst(kind, parsed, j + 1);
    }
  }

  /** The outer loop from marker `i` on. */
  function RangesFrom(kind: Kind, parsed: seq<Marker>, i: nat): seq<Range>
    decreases |parsed| - i
  {
    if i >= |parsed| then []
    else if IsBeginOf(parsed[i], kind) && NextEnd(kind, parsed, i + 1).Some? then
      var j := NextEnd(kind, parsed, i + 1).value;
      [PairRange(kind, parsed, i, j)] + RangesFrom(kind, parsed, j + 1)
    else RangesFrom(kind, parsed, i + 1)
  }

  /** `getRangesOfKind(kind, parsed)` as a function. */
  function RangesOf(kind: Kind, parsed: seq<Marker>): seq<Range>
  {
    RangesFrom(kind, parsed, 0)
  }

  /** Every range in `rs` is a valid range of `kind` over `parsed`. */
  ghost predicate AllValid(kind: Kind, parsed: seq<Marker>, rs: seq<Range>)
  {
    forall a :: 0 <= a < |rs| ==> ValidRange(kind, parsed, rs[a])
  }

  /** Every range in `rs` starts at or after marker `i`. */
  ghost predicate StartsFrom(rs: seq<Range>, i: nat)
  {
    forall a :: 0 <= a < |rs| ==> i <= rs[a].i
  }

  /** Each range in `rs` ends before the next one begins. */
  ghost predicate Disjoint(rs: seq<Range>)
  {
    forall a, b :: 0 <= a < b < |rs| ==> rs[a].j < rs[b].i
  }

  /** Every range the scan from `i` yields is valid. */
  lemma {:induction false} RangesFromValid(kind: Kind, parsed: seq<Marker>, i: nat)
    ensures AllValid(kind, parsed, RangesFrom(kind, parsed, i))
    decreases |parsed| - i
  {
    if i < |parsed| {
      if IsBeginOf(parsed[i], kind) && NextEnd(kind, parsed, i + 1).Some? {
        var j := NextEnd(kind, parsed, i + 1).value;
        RangesFromValid(kind, parsed, j + 1);
        RangesFromPaired(kind, parsed, i, j);
        PairValid(kind, parsed, i, j);
        ValidCons(kind, parsed, PairRange(kind, parsed, i, j), RangesFrom(kind, parsed, j + 1));
      } else {
        RangesFromValid(kind, parsed, i + 1);
        RangesFromSkip(kind, parsed, i);
      }
    }
  }

  /** The pair the scan forms at a begin is a valid range. */
  lemma PairValid(kind: Kind, parsed: seq<Marker>, i: nat, j: nat)
    requires i < |parsed| && IsBeginOf(parsed[i], kind)
    requires NextEnd(kind, parsed, i + 1) == Some(j)
    ensures ValidRange(kind, parsed, PairRange(kind, parsed, i, j))
  {
    NextEndFirst(kind, parsed, i + 1);
  }

  lemma ValidCons(kind: Kind, parsed: seq<Marker>, x: Range, rest: seq<Range>)
    requires ValidRange(kind, parsed, x) && AllValid(kind, parsed, rest)
    ensures AllValid(kind, parsed, [x] + rest)
  {
    var rs := [x] + rest;
    forall a | 0 <= a < |rs|
      ensures ValidRange(kind, parsed, rs[a])
    {
      if a > 0 {
        assert rs[a] == rest[a - 1];
      }
    }
  }

  /**
   * The ranges the scan from `i` yields start at or after `i`, and each
   * ends before the next one begins.
   */
  lemma {:induction false} RangesFromDisjoint(kind: Kind, parsed: seq<Marker>, i: nat)
    ensures StartsFrom(RangesFrom(kind, parsed, i), i)
    ensures Disjoint(RangesFrom(kind, parsed, i))
    decreases |parsed| - i, 1
  {
    if i < |parsed| {
      if IsBeginOf(parsed[i], kind) && NextEnd(kind, parsed, i + 1).Some? {
        PairedDisjoint(kind, parsed, i);
      } else {
        RangesFromDisjoint(kind, parsed, i + 1);
        RangesFromSkip(kind, parsed, i);
      }
    }
  }

  /** `RangesFromDisjoint` where the scan pairs the begin at `i`. */
  lemma {:induction false} PairedDisjoint(kind: Kind, parsed: seq<Marker>, i: nat)
    requires i < |parsed| && IsBeginOf(parsed[i], kind) && NextEnd(kind, parsed, i + 1).Some?
    ensures StartsFrom(RangesFrom(kind, parsed, i), i)
    ensures Disjoint(RangesFrom(kind, parsed, i))
    decreases |parsed| - i, 0
  {
    var j := NextEnd(kind, parsed, i + 1).value;
    var x, rest := PairRange(kind, parsed, i, j), RangesFrom(kind, parsed, j + 1);
    RangesFromDisjoint(kind, parsed, j + 1);
    RangesFromPaired(kind, parsed, i, j);
    assert x.i == i < j == x.j;
    assert StartsFrom(rest, x.j + 1);
    DisjointCons(x, rest, i);
  }

  lemma DisjointCons(x: Range, rest: seq<Range>, i: nat)
    requires i <= x.i <= x.j
    requires StartsFrom(rest, x.j + 1)
    requires Disjoint(rest)
    ensures StartsFrom([x] + rest, i) && Disjoint([x] + rest)
  {
    var rs := [x] + rest;
    assert forall a :: 1 <= a < |rs| ==> rs[a] == rest[a - 1];
  }

  /** Validity and order of the ranges of the whole marker sequence. */
  lemma RangesValid(kind: Kind, parsed: seq<Marker>)
    ensures forall a :: 0 <= a < |RangesOf(kind, parsed)| ==>
      ValidRange(kind, parsed, RangesOf(kind, parsed)[a])
    ensures forall a, b :: 0 <= a < b < |RangesOf(kind, parsed)| ==>
      RangesOf(kind, parsed)[a].j < RangesOf(kind, parsed)[b].i
  {
    RangesFromValid(kind, parsed, 0);
    RangesFromDisjoint(kind, parsed, 0);
  }

  /** The outer loop at a begin whose end is found at `j`: the range is pushed. */
  lemma PairedStep(kind: Kind, parsed: seq<Marker>, found: seq<Range>, i: nat, j: nat)
    requires i < |parsed| && IsBeginOf(parsed[i], kind)
    requires NextEnd(kind, parsed, i + 1) == Some(j)
    requires found + RangesFrom(kind, parsed, i) == RangesOf(kind, parsed)
    ensures found + [PairRange(kind, parsed, i, j)] + RangesFrom(kind, parsed, j + 1)
         == RangesOf(kind, parsed)
  {
    assert RangesFrom(kind, parsed, i)
        == [PairRange(kind, parsed, i, j)] + RangesFrom(kind, parsed, j + 1);
  }

  /** The outer loop at a marker that yields no range. */
  lemma SkipStep(kind: Kind, parsed: seq<Marker>, found: seq<Range>, i: nat)
    requires i < |parsed|
    requires !IsBeginOf(parsed[i], kind) || NextEnd(kind, parsed, i + 1).None?
    requires found + RangesFrom(kind, parsed, i) == RangesOf(kind, parsed)
    ensures found + RangesFrom(kind, parsed, i + 1) == RangesOf(kind, parsed)
  {
    RangesFromSkip(kind, parsed, i);
  }

  /** `RangesFrom` at a marker that yields no range. */
  lemma RangesFromSkip(kind: Kind, parsed: seq<Marker>, i: nat)
    requires i < |parsed|
    requires !IsBeginOf(parsed[i], kind) || NextEnd(kind, parsed, i + 1).None?
    ensures RangesFrom(kind, parsed, i) == RangesFrom(kind, parsed, i + 1)
  {
  }

  /** `RangesFrom` at a begin whose end is found at `j`. */
  lemma RangesFromPaired(kind: Kind, parsed: seq<Marker>, i: nat, j: nat)
    requires i < |parsed| && IsBeginOf(parsed[i], kind)
    requires NextEnd(kind, parsed, i + 1) == Some(j)
    ensures RangesFrom(kind, parsed, i)
         == [PairRange(kind, parsed, i, j)] + RangesFrom(kind, parsed, j + 1)
  {
  }

  /** `getRangesOfKind`: the source's nested loops, `i = j; break` included. */
  method GetRangesOfKind(kind: Kind, parsed: seq<Marker>) returns (ranges: seq<Range>)
    ensures ranges == RangesOf(kind, parsed)
  {
    ranges := [];
    var i := 0;
    while i < |parsed|
      invariant i <= |parsed| + 1
      invariant ranges + RangesFrom(kind, parsed, i) == RangesOf(kind, parsed)
      decreases |parsed| + 1 - i
    {
      var begin := parsed[i];
      if begin.edge == Begin && begin.kind == kind {
        ghost var i0, ranges0 := i, ranges;
        var j := i + 1;
        while j < |parsed|
          invariant i == i0 && ranges == ranges0
          invariant i + 1 <= j <= |parsed|
          invariant NextEnd(kind, parsed, j) == NextEnd(kind, parsed, i + 1)
          decreases |parsed| - j
        {
          var end := parsed[j];
          if end.edge == End && end.kind == kind {
            var tokenLenBegin := |TokenBegin(kind)|;
            var tokenLenEnd := |TokenEnd(kind)|;
            var beginOutside := begin.index;
            var endInside := end.index;
            var beginInside := begin.index + tokenLenBegin;
            var endOutside := end.index + tokenLenEnd;
            PairedStep(kind, parsed, ranges, i, j);
            assert Range(i, j, kind, beginOutside, beginInside, endInside, endOutside)
                == PairRange(kind, parsed, i, j);
            ranges := ranges + [Range(i, j, kind, beginOutside, beginInside, endInside, endOutside)];
            i := j;
            assert ranges + RangesFrom(kind, parsed, i + 1) == RangesOf(kind, parsed);
            break;
          }
          j := j + 1;
        }
        if j == |parsed| {
          SkipStep(kind, parsed, ranges, i);
        }
      } else {
        SkipStep(kind, parsed, ranges, i);
      }
      assert ranges + RangesFrom(kind, parsed, i + 1) == RangesOf(kind, parsed);
      i := i + 1;
    }
  }

  /** Marker `p` lies between the begin and the end of one of the ranges `rs`. */
  ghost predicate Covered(rs: seq<Range>, p: nat)
  {
    exists a :: 0 <= a < |rs| && rs[a].i <= p <= rs[a].j
  }

  lemma CoveredCons(x: Range, rest: seq<Range>, p: nat)
    requires Covered(rest, p)
    ensures Covered([x] + rest, p)
  {
    var a :| 0 <= a < |rest| && rest[a].i <= p <= rest[a].j;
    assert ([x] + rest)[a + 1] == rest[a];
  }

  /**
   * Every begin of `kind` that has an end of `kind` somewhere after it lies
   * within a range: either it opens one, or it sits between the begin and
   * the end of one (a second begin before the first end is not paired).
   */
  lemma {:induction false} RangesFromCover(kind: Kind, parsed: seq<Marker>, i: nat, p: nat)
    requires i <= p < |parsed| && IsBeginOf(parsed[p], kind)
    requires NextEnd(kind, parsed, p + 1).Some?
    ensures Covered(RangesFrom(kind, parsed, i), p)
    decreases |parsed| - i
  {
    var rs := RangesFrom(kind, parsed, i);
    if IsBeginOf(parsed[i], kind) && NextEnd(kind, parsed, i + 1).Some? {
      var j := NextEnd(kind, parsed, i + 1).value;
      RangesFromPaired(kind, parsed, i, j);
      if p <= j {
        assert rs[0].i <= p <= rs[0].j;
      } else {
        RangesFromCover(kind, parsed, j + 1, p);
        CoveredCons(PairRange(kind, parsed, i, j), RangesFrom(kind, parsed, j + 1), p);
      }
    } else if i < p {
      RangesFromSkip(kind, parsed, i);
      RangesFromCover(kind, parsed, i + 1, p);
    }
  }

  /** `RangesFromCover` for the whole marker sequence. */
  lemma RangesCover(kind: Kind, parsed: seq<Marker>, p: nat)
    requires p < |parsed| && IsBeginOf(parsed[p], kind)
    requires NextEnd(kind, parsed, p + 1).Some?
    ensures Covered(RangesOf(kind, parsed), p)
  {
    RangesFromCover(kind, parsed, 0, p);
  }

  /**
   * On the lexer's output the offsets of every range are in the order the
   * source's diagram draws them, and all lie within the content.
   */
  lemma LexRangeOffsets(c: string, kind: Kind, a: nat)
    requires a < |RangesOf(kind, Lex(c))|
    ensures var r := RangesOf(kind, Lex(c))[a];
      0 <= r.beginOutside <= r.beginInside <= r.endInside <= r.endOutside <= |c|
  {
    var ms := Lex(c);
    var r := RangesOf(kind, ms)[a];
    LexWellFormed(c);
    RangesValid(kind, ms);
    assert ms[r.i].index + Width(ms[r.i]) <= ms[r.j].index;
    assert Width(ms[r.i]) == |TokenBegin(kind)|;
    assert ms[r.j].index + Width(ms[r.j]) <= |c|;
  }

  /**
   * On the lexer's output a range ends, closing token included, before the
   * next range of the same kind begins.
   */
  lemma LexRangesSeparated(c: string, kind: Kind, a: nat, b: nat)
    requires a < b < |RangesOf(kind, Lex(c))|
    ensures RangesOf(kind, Lex(c))[a].endOutside <= RangesOf(kind, Lex(c))[b].beginOutside
  {
    var ms := Lex(c);
    var ra := RangesOf(kind, ms)[a];
    var rb := RangesOf(kind, ms)[b];
    LexWellFormed(c);
    RangesValid(kind, ms);
    assert ms[ra.j].index + Width(ms[ra.j]) <= ms[rb.i].index;
    assert |TokenEnd(kind)| <= Width(ms[ra.j]);
  }

  /** A mention range found in the lexer's output opens on `@[` in the content. */
  lemma LexMentionOpensOnToken(c: string, a: nat)
    requires a < |RangesOf(Mention, Lex(c))|
    ensures var r := RangesOf(Mention, Lex(c))[a];
      0 <= r.beginOutside <= r.beginInside <= |c| && c[r.beginOutside..r.beginInside] == "@["
  {
    var r := RangesOf(Mention, Lex(c))[a];
    RangesValid(Mention, Lex(c));
    MentionBeginOnOpener(c, r.i);
    assert c[r.beginOutside..r.beginInside] == [c[r.beginOutside], c[r.beginOutside + 1]];
  }

  /**
   * A mention range of the lexer's output: `@[` at `beginOutside`, a
   * one-character closing token at `endInside`, all within the content.
   */
  lemma LexMentionRange(c: string, a: nat)
    requires a < |RangesOf(Mention, Lex(c))|
    ensures var r := RangesOf(Mention, Lex(c))[a];
      && r.kind == Mention
      && 0 <= r.beginOutside && r.beginInside == r.beginOutside + 2
      && r.beginInside <= r.endInside && r.endOutside == r.endInside + 1 <= |c|
      && c[r.beginOutside..r.beginInside] == "@["
  {
    LexRangeOffsets(c, Mention, a);
    LexMentionOpensOnToken(c, a);
    RangesValid(Mention, Lex(c));
    assert ValidRange(Mention, Lex(c), RangesOf(Mention, Lex(c))[a]);
  }

  /** The caret is inside the range: both bounds inclusive. */
  predicate Holds(r: Range, cursor: int)
  {
    r.beginInside <= cursor <= r.endInside
  }

  /**
   * The first range that holds the caret; `None` exactly when no range
   * does.
   */
  function FindItem(cursor: int, ranges: seq<Range>): (r: Option<Range>)
    ensures r.None? <==> forall a :: 0 <= a < |ranges| ==> !Holds(ranges[a], cursor)
    ensures r.Some? ==> exists a :: (0 <= a < |ranges| && ranges[a] == r.value
      && Holds(r.value, cursor) && forall b :: 0 <= b < a ==> !Holds(ranges[b], cursor))
  {
    if ranges == [] then None
    else if Holds(ranges[0], cursor) then Some(ranges[0])
    else
      var r := FindItem(cursor, ranges[1..]);
      assert forall a :: 1 <= a < |ranges| ==> ranges[a] == ranges[1..][a - 1];
      r
  }

  /**
   * `findItemOfKind`: a linear search with an early return. The ranges
   * default to `getRangesOfKind(kind, parsed)`.
   */
  method FindItemOfKind(kind: Kind, cursor: int, parsed: seq<Marker>,
                        ranges: seq<Range> := RangesOf(kind, parsed))
    returns (found: Option<Range>)
    ensures found == FindItem(cursor, ranges)
  {
    var i := 0;
    while i < |ranges|
      invariant i <= |ranges|
      invariant FindItem(cursor, ranges[i..]) == FindItem(cursor, ranges)
    {
      var range := ranges[i];
      if cursor >= range.beginInside && cursor <= range.endInside {
        return Some(range);
      }
      assert ranges[i..][1..] == ranges[i + 1..];
      i := i + 1;
    }
    return None;
  }

  /** `getContentInsideRange`: the slice between the inside offsets. */
  function ContentInsideRange(content: string, r: Range): string
  {
    Slice(content, r.beginInside, r.endInside)
  }

  /** On the lexer's output the content inside a range is exactly `c[beginInside..endInside]`. */
  lemma LexContentInside(c: string, kind: Kind, a: nat)
    requires a < |RangesOf(kind, Lex(c))|
    ensures var r := RangesOf(kind, Lex(c))[a];
      0 <= r.beginInside <= r.endInside <= |c|
      && ContentInsideRange(c, r) == c[r.beginInside..r.endInside]
      && |ContentInsideRange(c, r)| == r.endInside - r.beginInside
  {
    LexRangeOffsets(c, kind, a);
  }

  /**
   * A paragraph holding one mention between plain text has exactly one
   * mention range, made of the third and sixth markers.
   */
  lemma OneMentionRanges(a: nat, b: nat, d: nat)
    ensures RangesOf(Mention, OneMentionMarkers(a, b, d))
      == [Range(2, 5, Mention, a, a + 2, a + 2 + b, a + 3 + b)]
  {
    var ms := OneMentionMarkers(a, b, d);
    RangesFromSkip(Mention, ms, 0);
    RangesFromSkip(Mention, ms, 1);
    assert NextEnd(Mention, ms, 5) == Some(5);
    assert NextEnd(Mention, ms, 4) == Some(5);
    assert NextEnd(Mention, ms, 3) == Some(5);
    RangesFromPaired(Mention, ms, 2, 5);
    RangesFromSkip(Mention, ms, 6);
    RangesFromSkip(Mention, ms, 7);
  }

  /** The markers of `a@[]` with plain `a` have one, empty, mention range. */
  lemma EmptyMentionRanges(a: nat)
    ensures RangesOf(Mention, [Marker(Begin, Raw, 0), Marker(End, Raw, a - 1),
                               Marker(Begin, Mention, a), Marker(End, Mention, a + 2)])
      == [Range(2, 3, Mention, a, a + 2, a + 2, a + 3)]
  {
    var ms := [Marker(Begin, Raw, 0), Marker(End, Raw, a - 1),
               Marker(Begin, Mention, a), Marker(End, Mention, a + 2)];
    RangesFromSkip(Mention, ms, 0);
    RangesFromSkip(Mention, ms, 1);
    assert NextEnd(Mention, ms, 3) == Some(3);
    RangesFromPaired(Mention, ms, 2, 3);
  }

  /** The range tests' example: one mention, found at cursor 17, holding `Mr. Robot`. */
  lemma MentionRangeExample(c: string)
    requires c == "hello @[Mr. Robot]!"
    ensures RangesOf(Mention, Lex(c)) == [Range(2, 5, Mention, 6, 8, 17, 18)]
    ensures FindItem(17, RangesOf(Mention, Lex(c))) == Some(Range(2, 5, Mention, 6, 8, 17, 18))
    ensures ContentInsideRange(c, Range(2, 5, Mention, 6, 8, 17, 18)) == "Mr. Robot"
  {
    LexMentionExample(c);
    assert Lex(c) == OneMentionMarkers(6, 9, 1);
    OneMentionRanges(6, 9, 1);
    assert c[8..17] == "Mr. Robot";
  }
}
