// chunk.ts: what chunks hold.
module ChunkText {
  import opened Whitespace
  import opened Chunk

  // ---- a long paragraph -------------------------------------------------------------------------

  predicate Breaks(c: char) { c == '\n' || c == ' ' }

  /** The last line break or space of the window's second half, or else the end of the window. */
  predicate CutPlace(rest: string, size: nat, at: nat)
    requires size < |rest|
  {
    && 1 <= at <= size
    && (at < size ==> 2 * at > size && Breaks(rest[at]))
    && forall j :: 0 <= j < size && 2 * j > size && Breaks(rest[j]) ==> j <= at < size
  }

  /** The text without the white space at its end. */
  predicate EndTrimmed(s: string, t: string) {
    t <= s && Blank(s[|t|..]) && (t != "" ==> !IsSpace(t[|t| - 1]))
  }

  /** The text without the white space in front. */
  predicate FrontTrimmed(s: string, t: string) {
    |t| <= |s| && s[|s| - |t|..] == t && Blank(s[..|s| - |t|]) && (t != "" ==> !IsSpace(t[0]))
  }

  /** Cut at its places, one after the other, with no white space left around a cut. */
  ghost predicate CutsInto(rest: string, size: nat, pieces: seq<string>)
    decreases pieces
  {
    if |rest| <= size then pieces == if rest == "" then [] else [rest]
    else pieces != [] && exists at: nat, back ::
      && CutPlace(rest, size, at) && EndTrimmed(rest[..at], pieces[0]) && FrontTrimmed(rest[at..], back)
      && CutsInto(back, size, pieces[1..])
  }

  lemma CutIsPlace(rest: string, size: nat)
    requires 1 <= size < |rest|
    ensures forall at: nat :: CutPlace(rest, size, at) <==> at == CutAt(rest, size)
  {
    CutIsLastBreak(rest, size);
    var cut := CutAt(rest, size);
    forall at: nat | CutPlace(rest, size, at) ensures at == cut {
      if at < size { assert Breaks(rest[at]); }
      if cut < size { assert Breaks(rest[cut]); }
    }
  }

  lemma StillSpace(s: string, t: string, u: string)
    requires t <= s && EndTrimmed(s, u) && |t| < |u|
    ensures !Blank(s[|t|..])
  {
    assert s[|t|..][|u| - 1 - |t|] == u[|u| - 1];
  }

  lemma EndIsTrimmed(s: string)
    ensures forall t :: EndTrimmed(s, t) <==> t == TrimEnd(s)
  {
    EndTrims(s);
    var u := TrimEnd(s);
    forall t | EndTrimmed(s, t) ensures t == u {
      if |t| < |u| { StillSpace(s, t, u); }
      if |u| < |t| { StillSpace(s, u, t); }
    }
  }

  lemma {:induction false} EndTrims(s: string)
    ensures EndTrimmed(s, TrimEnd(s))
  {
    if s != "" && IsSpace(s[|s| - 1]) { EndTrims(s[..|s| - 1]); }
  }

  lemma {:induction false} FrontTrims(s: string)
    ensures FrontTrimmed(s, TrimStart(s))
  {
    if s != "" && IsSpace(s[0]) { FrontTrims(s[1..]); }
  }

  lemma StillSpaceInFront(s: string, t: string, u: string)
    requires |t| <= |s| && FrontTrimmed(s, u) && |t| < |u|
    ensures !Blank(s[..|s| - |t|])
  {
    assert s[..|s| - |t|][|s| - |u|] == u[0];
  }

  lemma FrontIsTrimmed(s: string)
    ensures forall t :: FrontTrimmed(s, t) <==> t == TrimStart(s)
  {
    FrontTrims(s);
    var u := TrimStart(s);
    forall t | FrontTrimmed(s, t) ensures t == u {
      if |t| < |u| { StillSpaceInFront(s, t, u); }
      if |u| < |t| { StillSpaceInFront(s, u, t); }
    }
  }

  /** These and no other pieces are what a long paragraph is cut into. */
  lemma {:induction false} CutsExactly(rest: string, size: nat, pieces: seq<string>)
    requires size >= 1
    ensures CutsInto(rest, size, pieces) <==> pieces == HardPieces(rest, size)
    decreases |rest|
  {
    hide CutPlace, EndTrimmed, FrontTrimmed, CutAt, TrimEnd, TrimStart;
    if |rest| > size {
      var at := CutAt(rest, size);
      var front, back := TrimEnd(rest[..at]), TrimStart(rest[at..]);
      CutIsPlace(rest, size);
      EndIsTrimmed(rest[..at]);
      FrontIsTrimmed(rest[at..]);
      if pieces != [] {
        CutsExactly(back, size, pieces[1..]);
        assert pieces == [pieces[0]] + pieces[1..];
      }
    }
  }

  // ---- paragraphs -------------------------------------------------------------------------------

  predicate NoEmptyLine(s: string) {
    forall k :: 0 <= k < |s| - 1 ==> !(s[k] == '\n' && s[k + 1] == '\n')
  }

  /** From `i` to `j` there are line feeds, two at least, and none beside. */
  predicate EmptyLines(s: string, i: nat, j: nat) {
    && i + 2 <= j <= |s| && (forall k :: i <= k < j ==> s[k] == '\n')
    && (i > 0 ==> s[i - 1] != '\n') && (j < |s| ==> s[j] != '\n')
  }

  /** The text between empty lines. */
  ghost predicate SplitsInto(s: string, ps: seq<string>)
    decreases ps
  {
    ps != [] &&
    if |ps| == 1 then ps[0] == s && NoEmptyLine(s)
    else exists i: nat, j: nat ::
      EmptyLines(s, i, j) && ps[0] == s[..i] && NoEmptyLine(s[..i]) && SplitsInto(s[j..], ps[1..])
  }

  lemma {:induction false} NoneBefore(s: string)
    ensures forall k :: 0 <= k < FirstGap(s) && k + 1 < |s| ==> !(s[k] == '\n' && s[k + 1] == '\n')
  {
    if FirstGap(s) > 0 {
      NoneBefore(s[1..]);
      assert forall k :: 0 < k < |s| ==> s[k] == s[1..][k - 1];
    }
  }

  lemma TwoFeeds(s: string)
    requires |s| >= 2 && s[0] == '\n' && s[1] == '\n'
    ensures Feeds(s) >= 2
  {
    assert Feeds(s) == 1 + Feeds(s[1..]);
  }

  lemma FirstEmptyLine(s: string)
    ensures var i := FirstGap(s);
      && NoEmptyLine(s[..i]) && (i < |s| ==> EmptyLines(s, i, i + Feeds(s[i..])))
      && (i == |s| ==> NoEmptyLine(s))
  {
    hide Feeds, FirstGap, EmptyLines, NoEmptyLine;
    var i := FirstGap(s);
    NoneBefore(s);
    UpTo(s, i);
    if i < |s| {
      GapStarts(s);
      FeedsAreEmptyLines(s, i);
    } else {
      assert s[..i] == s;
    }
  }

  lemma UpTo(s: string, i: nat)
    requires i <= |s| && forall k :: 0 <= k < i && k + 1 < |s| ==> !(s[k] == '\n' && s[k + 1] == '\n')
    ensures NoEmptyLine(s[..i])
  {}

  lemma GapStarts(s: string)
    requires FirstGap(s) < |s|
    ensures FirstGap(s) > 0 ==> s[FirstGap(s) - 1] != '\n'
    ensures Feeds(s[FirstGap(s)..]) >= 2
  {
    hide Feeds, FirstGap;
    NoneBefore(s);
    var i := FirstGap(s);
    var t := s[i..];
    assert t[0] == s[i] && t[1] == s[i + 1];
    TwoFeeds(t);
  }

  lemma FeedsAreEmptyLines(s: string, i: nat)
    requires i < |s| && Feeds(s[i..]) >= 2 && (i > 0 ==> s[i - 1] != '\n')
    ensures EmptyLines(s, i, i + Feeds(s[i..]))
  {
    hide Feeds;
    var n := Feeds(s[i..]);
    assert forall k :: i <= k < i + n ==> s[k] == s[i..][k - i];
    if i + n < |s| { assert s[i + n] == s[i..][n]; }
  }

  lemma GapInside(s: string, i: nat, j: nat, k: nat)
    requires EmptyLines(s, i, j) && i + 2 <= k <= |s|
    ensures !NoEmptyLine(s[..k])
  {
    assert s[..k][i] == '\n' && s[..k][i + 1] == '\n';
  }

  lemma OnlyOneFirst(s: string, i: nat, j: nat, k: nat, l: nat)
    requires EmptyLines(s, i, j) && NoEmptyLine(s[..i]) && EmptyLines(s, k, l) && NoEmptyLine(s[..k])
    ensures i == k && j == l
  {
    hide NoEmptyLine;
    if i + 2 <= k { GapInside(s, i, j, k); }
    if k + 2 <= i { GapInside(s, k, l, i); }
  }

  lemma SplitsWhole(s: string, ps: seq<string>)
    requires NoEmptyLine(s)
    ensures SplitsInto(s, ps) <==> ps == [s]
  {
    hide EmptyLines, NoEmptyLine;
    NoneWithin(s);
  }

  lemma SplitsHere(s: string, ps: seq<string>, i: nat, j: nat)
    requires EmptyLines(s, i, j) && NoEmptyLine(s[..i])
    ensures SplitsInto(s, ps) <==> |ps| > 1 && ps[0] == s[..i] && SplitsInto(s[j..], ps[1..])
  {
    WithoutGap(s, i, j);
    hide EmptyLines, NoEmptyLine;
    forall a: nat, b: nat | a <= |s| && EmptyLines(s, a, b) && NoEmptyLine(s[..a]) ensures a == i && b == j {
      OnlyOneFirst(s, a, b, i, j);
    }
  }

  lemma Onwards(s: string, i: nat, n: nat)
    requires i <= |s| && n <= |s| - i
    ensures s[i..][n..] == s[i + n..]
  {}

  lemma OneParagraph(s: string)
    requires FirstGap(s) == |s|
    ensures Paragraphs(s) == [s]
  {}

  lemma ParagraphsGoOn(s: string, rest: string)
    requires FirstGap(s) < |s| && rest == s[FirstGap(s)..][Feeds(s[FirstGap(s)..])..]
    ensures Paragraphs(s) == [s[..FirstGap(s)]] + Paragraphs(rest)
  {
    hide FirstGap, Feeds;
  }

  /** The paragraphs are just these. */
  lemma {:induction false} ParagraphsExactly(s: string, ps: seq<string>)
    ensures SplitsInto(s, ps) <==> ps == Paragraphs(s)
    decreases |s|
  {
    hide FirstGap, Feeds, EmptyLines, NoEmptyLine, SplitsInto, Paragraphs;
    FirstEmptyLine(s);
    var i := FirstGap(s);
    if i == |s| {
      SplitsWhole(s, ps);
      OneParagraph(s);
    } else {
      var j := i + Feeds(s[i..]);
      Onwards(s, i, Feeds(s[i..]));
      ParagraphsGoOn(s, s[j..]);
      SplitsHere(s, ps, i, j) by { assert EmptyLines(s, i, j); }
      if ps != [] {
        ParagraphsExactly(s[j..], ps[1..]);
        assert ps == [ps[0]] + ps[1..];
      }
    }
  }

  lemma NoneWithin(s: string)
    ensures NoEmptyLine(s) ==> forall i: nat, j: nat :: !EmptyLines(s, i, j)
  {
    if i: nat, j: nat :| EmptyLines(s, i, j) { WithoutGap(s, i, j); }
  }

  lemma WithoutGap(s: string, i: nat, j: nat)
    requires EmptyLines(s, i, j)
    ensures !NoEmptyLine(s)
  {
    assert s[i] == '\n' && s[i + 1] == '\n';
  }

  // ---- chunks -----------------------------------------------------------------------------------

  /** The parts one after the other, an empty line after each. */
  function Ended(parts: seq<string>): string {
    if parts == [] then "" else Ended(parts[..|parts| - 1]) + parts[|parts| - 1] + "\n\n"
  }

  function Leading(group: seq<string>): (k: nat)
    ensures k <= |group| && (forall i :: 0 <= i < k ==> group[i] == "") && (k < |group| ==> group[k] != "")
  {
    if group != [] && group[0] == "" then 1 + Leading(group[1..]) else 0
  }

  lemma EndedGrows(parts: seq<string>, last: string)
    ensures Ended(parts + [last]) == Ended(parts) + last + "\n\n"
  {
    assert (parts + [last])[..|parts|] == parts;
  }

  lemma NothingEnded(last: string)
    ensures Ended([last]) == last + "\n\n"
  {
    EndedGrows([], last);
    assert [] + [last] == [last] && "" + last == last;
  }

  lemma TailOf(init: seq<string>, last: string, k: nat)
    requires k <= |init|
    ensures (init + [last])[k..] == init[k..] + [last]
    ensures k == |init| ==> (init + [last])[k..] == [last]
  {}

  lemma JoinedEnds(before: string, last: string)
    ensures before != "" ==> Joined(before, last) + "\n\n" == before + "\n\n" + last + "\n\n"
    ensures before == "" ==> Joined(before, last) == last
    ensures Joined(before, last) == "" <==> before == "" && last == ""
  {
    if before != "" { assert before + ("\n\n" + last) == before + "\n\n" + last; }
  }

  /** A chunk is its blocks with an empty line between any two, but for empty ones in front. */
  lemma {:induction false} GlueMeans(group: seq<string>)
    ensures Glue(group) == "" <==> Leading(group) == |group|
    ensures Leading(group) < |group| ==> Glue(group) + "\n\n" == Ended(group[Leading(group)..])
  {
    if group != [] {
      hide Leading, Ended, Joined, Glue;
      var init, last, k := group[..|group| - 1], group[|group| - 1], Leading(group);
      GlueMeans(init);
      LeadingOf(init, last);
      assert init + [last] == group;
      GlueGrows(init, last);
      JoinedEnds(Glue(init), last);
      if k <= |init| {
        TailOf(init, last, k);
        EndedGrows(init[k..], last);
      }
      if k == |init| { NothingEnded(last); }
    } else {
      NothingPacked(0);
    }
  }

  lemma {:induction false} LeadingOf(init: seq<string>, last: string)
    ensures Leading(init + [last]) == if Leading(init) < |init| then Leading(init) else |init| + if last == "" then 1 else 0
  {
    if init == [] {
      assert [] + [last] == [last] && [last][1..] == [];
    } else {
      LeadingOf(init[1..], last);
      assert (init + [last])[0] == init[0] && (init + [last])[1..] == init[1..] + [last];
    }
  }

  predicate HasAt(text: string, part: string, i: nat) {
    i + |part| <= |text| && text[i..i + |part|] == part
  }

  ghost predicate Has(text: string, part: string) {
    exists i: nat :: HasAt(text, part, i)
  }

  lemma HasAmid(front: string, part: string, back: string)
    ensures Has(front + part + back, part)
  {
    assert HasAt(front + part + back, part, |front|);
  }

  lemma HasStays(text: string, part: string, more: string)
    requires Has(text, part)
    ensures Has(text + more, part)
  {
    var i: nat :| HasAt(text, part, i);
    assert (text + more)[i..i + |part|] == text[i..i + |part|];
    assert HasAt(text + more, part, i);
  }

  lemma {:induction false} GlueHas(group: seq<string>, i: nat)
    requires i < |group|
    ensures Has(Glue(group), group[i])
    decreases |group|
  {
    hide Has;
    var init, last := group[..|group| - 1], group[|group| - 1];
    var before := Glue(init);
    if i == |group| - 1 {
      HasAmid(if before == "" then "" else before + "\n\n", last, "");
      assert Glue(group) == (if before == "" then "" else before + "\n\n") + last + "";
    } else {
      GlueHas(init, i);
      if before == "" {
        HasNothing(init[i], before);
        HasAmid("", "", last);
        assert "" + "" + last == last;
      } else {
        HasStays(before, group[i], "\n\n" + last);
      }
    }
  }

  lemma HasNothing(part: string, text: string)
    requires Has(text, part) && text == ""
    ensures part == ""
  {}

  lemma {:induction false} FlatHas(groups: seq<seq<string>>, block: string) returns (i: nat, j: nat)
    requires block in Flat(groups)
    ensures i < |groups| && j < |groups[i]| && groups[i][j] == block
    decreases |groups|
  {
    var init, last := groups[..|groups| - 1], groups[|groups| - 1];
    if block in last {
      i := |groups| - 1;
      j :| 0 <= j < |last| && last[j] == block;
    } else {
      i, j := FlatHas(init, block);
    }
  }

  lemma {:induction false} FittingIsBlock(ps: seq<string>, size: nat, p: string)
    requires size >= 1 && p in ps && |p| <= size
    ensures p in Blocks(ps, size)
  {
    if ps[0] != p { FittingIsBlock(ps[1..], size, p); }
  }

  lemma {:induction false} PieceIsBlock(ps: seq<string>, size: nat, p: string, piece: string)
    requires size >= 1 && p in ps && |p| > size && piece in HardPieces(p, size)
    ensures piece in Blocks(ps, size)
  {
    if ps[0] != p { PieceIsBlock(ps[1..], size, p, piece); }
  }

  /** Every paragraph that fits a chunk stands whole in one, and so does every piece of one that does
      not. */
  lemma ParagraphStaysWhole(markdown: string, size: nat, chunks: seq<string>, groups: seq<seq<string>>, p: string)
    requires size >= 1 && p in Paragraphs(markdown) && chunks != []
    requires Packed(chunks, groups, size) && Covers(groups, Blocks(Paragraphs(markdown), size))
    ensures |p| <= size ==> exists c <- chunks :: Has(c, p)
    ensures |p| > size ==> forall piece <- HardPieces(p, size) :: exists c <- chunks :: Has(c, piece)
  {
    hide Packed, Covers, Paragraphs, Blocks, HardPieces, Has;
    var ps := Paragraphs(markdown);
    if |p| <= size {
      FittingIsBlock(ps, size, p);
      BlockIsThere(Blocks(ps, size), size, chunks, groups, p);
    } else {
      forall piece | piece in HardPieces(p, size) ensures exists c <- chunks :: Has(c, piece) {
        PieceIsBlock(ps, size, p, piece);
        BlockIsThere(Blocks(ps, size), size, chunks, groups, piece);
      }
    }
  }

  lemma BlockIsThere(blocks: seq<string>, size: nat, chunks: seq<string>, groups: seq<seq<string>>, block: string)
    requires chunks != [] && Packed(chunks, groups, size) && Covers(groups, blocks) && block in blocks
    ensures exists c <- chunks :: Has(c, block)
  {
    hide Glue, Flat, Has;
    if block == "" {
      HasAmid("", "", chunks[0]);
      assert "" + "" + chunks[0] == chunks[0] && chunks[0] in chunks;
    } else {
      var taken := Flat(groups);
      assert blocks == taken + blocks[|taken|..];
      var i, j := FlatHas(groups, block);
      GlueHas(groups[i], j);
      assert chunks[i] in chunks;
    }
  }
}
