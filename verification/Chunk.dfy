// packages/core/src/chrome-bridge/chunk.ts: markdown split into chunks at paragraph boundaries.
module Chunk {
  import opened Whitespace

  // ---- text ------------------------------------------------------------------------------------

  /** The characters that are not white space, in order. */
  function Ink(s: string): string {
    if s == "" then "" else (if IsSpace(s[0]) then "" else [s[0]]) + Ink(s[1..])
  }

  function Concat(parts: seq<string>): string {
    if parts == [] then "" else parts[0] + Concat(parts[1..])
  }

  lemma {:induction false} InkAppends(a: string, b: string)
    ensures Ink(a + b) == Ink(a) + Ink(b)
  {
    if a == "" {
      assert a + b == b;
    } else {
      assert (a + b)[0] == a[0] && (a + b)[1..] == a[1..] + b;
      InkAppends(a[1..], b);
    }
  }

  lemma {:induction false} BlankHasNoInk(s: string)
    requires Blank(s)
    ensures Ink(s) == ""
  {
    if s != "" {
      assert s[0] in s;
      BlankHasNoInk(s[1..]);
    }
  }

  lemma {:induction false} ConcatAppends(a: seq<string>, b: seq<string>)
    ensures Concat(a + b) == Concat(a) + Concat(b)
  {
    if a == [] {
      assert a + b == b && "" + Concat(b) == Concat(b);
    } else {
      assert (a + b)[0] == a[0] && (a + b)[1..] == a[1..] + b;
      ConcatAppends(a[1..], b);
      assert a[0] + Concat(a[1..]) + Concat(b) == a[0] + (Concat(a[1..]) + Concat(b));
    }
  }

  lemma ConcatOne(s: string)
    ensures Concat([s]) == s
  {
    assert s + "" == s;
  }

  function TrimStart(s: string): (t: string)
    ensures |t| <= |s| && s[|s| - |t|..] == t && Blank(s[..|s| - |t|])
  {
    if s != "" && IsSpace(s[0]) then
      var t := TrimStart(s[1..]);
      assert s[..|s| - |t|] == [s[0]] + s[1..][..|s| - 1 - |t|];
      t
    else s
  }

  function TrimEnd(s: string): (t: string)
    ensures |t| <= |s| && s[..|t|] == t && Blank(s[|t|..])
  {
    if s != "" && IsSpace(s[|s| - 1]) then
      var t := TrimEnd(s[..|s| - 1]);
      assert s[|t|..] == s[..|s| - 1][|t|..] + [s[|s| - 1]];
      t
    else s
  }

  lemma InkParts(front: string, back: string, s: string)
    requires front + back == s
    ensures Blank(front) ==> Ink(s) == Ink(back)
    ensures Blank(back) ==> Ink(s) == Ink(front)
  {
    hide Ink, Blank;
    InkAppends(front, back);
    if Blank(front) { BlankHasNoInk(front); }
    if Blank(back) { BlankHasNoInk(back); }
    assert "" + Ink(back) == Ink(back) && Ink(front) + "" == Ink(front);
  }

  lemma {:induction false} TrimsKeepInk(s: string)
    ensures Ink(TrimStart(s)) == Ink(s) && Ink(TrimEnd(s)) == Ink(s)
  {
    hide TrimStart, TrimEnd, Ink, Blank;
    var a, b := TrimStart(s), TrimEnd(s);
    assert s[..|s| - |a|] + a == s && b + s[|b|..] == s;
    InkParts(s[..|s| - |a|], a, s);
    InkParts(b, s[|b|..], s);
  }

  // ---- one paragraph cut to size -----------------------------------------------------------------

  predicate IsBreak(c: char) { c == '\n' || c == ' ' }

  /** `Math.max(window.lastIndexOf("\n"), window.lastIndexOf(" "))` */
  function LastBreak(window: string): (cut: int)
    ensures -1 <= cut < |window| && (cut >= 0 ==> IsBreak(window[cut]))
    ensures forall j :: cut < j < |window| ==> !IsBreak(window[j])
  {
    if window == "" then -1
    else if IsBreak(window[|window| - 1]) then |window| - 1
    else LastBreak(window[..|window| - 1])
  }

  function CutAt(rest: string, size: nat): (at: nat)
    requires 1 <= size < |rest|
    ensures 1 <= at <= size
  {
    var cut := LastBreak(rest[..size]);
    if 2 * cut > size then cut else size
  }

  /** A cut is made at the last line break or space of the window's second half, and within a
      word only when that half has neither. */
  lemma CutIsLastBreak(rest: string, size: nat)
    requires 1 <= size < |rest|
    ensures var at := CutAt(rest, size);
      && (at < size ==> IsBreak(rest[at]) && 2 * at > size)
      && (forall j :: at < j < size ==> !IsBreak(rest[j]))
      && (at == size ==> forall j :: size < 2 * j < 2 * size ==> !IsBreak(rest[j]))
  {
    var window := rest[..size];
    forall j | 0 <= j < size ensures rest[j] == window[j] {}
  }

  /** `window.lastIndexOf(c)` */
  function LastOf(window: string, c: char): (i: int)
    ensures -1 <= i < |window| && (i >= 0 ==> window[i] == c)
    ensures forall j :: i < j < |window| ==> window[j] != c
  {
    if window == "" then -1
    else if window[|window| - 1] == c then |window| - 1
    else LastOf(window[..|window| - 1], c)
  }

  lemma LastBreakIsLater(window: string)
    ensures LastBreak(window) == var n, s := LastOf(window, '\n'), LastOf(window, ' '); if n < s then s else n
  {}

  /** What the comment on the cut promises: a line break of the window's second half, then a space
      there, then the limit. */
  function PreferredCut(rest: string, size: nat): nat
    requires 1 <= size < |rest|
  {
    var n, s := LastOf(rest[..size], '\n'), LastOf(rest[..size], ' ');
    if 2 * n > size then n else if 2 * s > size then s else size
  }

  /** The cut is that one exactly if the half has no line break, or no space after its last one. */
  lemma CutIsPreferredExactly(rest: string, size: nat)
    requires 1 <= size < |rest|
    ensures CutAt(rest, size) == PreferredCut(rest, size) <==>
      || (forall j :: size < 2 * j < 2 * size ==> rest[j] != '\n')
      || (exists n :: size < 2 * n < 2 * size && rest[n] == '\n' && forall j :: n < j < size ==> !IsBreak(rest[j]))
  {
    var window := rest[..size];
    LastBreakIsLater(window);
    forall j | 0 <= j < size ensures rest[j] == window[j] {}
    var n := LastOf(window, '\n');
    if 2 * n > size { assert rest[n] == '\n'; }
  }

  /** It is not always: here the last space comes after the last line break. */
  lemma CutsAtTheSpace()
    ensures CutAt("title\nto be", 9) == 8 && PreferredCut("title\nto be", 9) == 5
  {
    var rest := "title\nto be";
    var window := rest[..9];
    LastBreakIsLater(window);
    assert window[8] == ' ' && window[5] == '\n';
    assert forall j :: 5 < j < 9 ==> window[j] != '\n';
  }

  /** `hardSplit` */
  function HardPieces(rest: string, size: nat): (pieces: seq<string>)
    requires size >= 1
    ensures forall p <- pieces :: |p| <= size
    decreases |rest|
  {
    if |rest| > size then
      [TrimEnd(rest[..CutAt(rest, size)])] + HardPieces(TrimStart(rest[CutAt(rest, size)..]), size)
    else if rest != "" then [rest]
    else []
  }

  lemma ConcatCons(s: string, rest: seq<string>)
    ensures Ink(Concat([s] + rest)) == Ink(s) + Ink(Concat(rest))
  {
    ConcatAppends([s], rest);
    ConcatOne(s);
    InkAppends(s, Concat(rest));
  }

  lemma {:induction false} InkSplits(s: string, i: nat)
    requires i <= |s|
    ensures Ink(s) == Ink(s[..i]) + Ink(s[i..])
  {
    hide Ink;
    assert s[..i] + s[i..] == s;
    InkAppends(s[..i], s[i..]);
  }

  lemma {:induction false} PiecesKeepInk(rest: string, size: nat)
    requires size >= 1
    ensures Ink(Concat(HardPieces(rest, size))) == Ink(rest)
    decreases |rest|
  {
    hide Ink, CutAt, TrimStart, TrimEnd, Concat;
    if |rest| > size {
      var at := CutAt(rest, size);
      var front, back := TrimEnd(rest[..at]), TrimStart(rest[at..]);
      TrimsKeepInk(rest[..at]);
      TrimsKeepInk(rest[at..]);
      InkSplits(rest, at);
      PiecesKeepInk(back, size);
      ConcatCons(front, HardPieces(back, size));
    } else if rest != "" {
      ConcatOne(rest);
    } else {
      NoInk();
    }
  }

  lemma NoInk()
    ensures Concat([]) == "" && Ink("") == ""
  {}

  method HardSplit(block: string, size: nat) returns (out: seq<string>)
    requires size >= 1
    ensures out == HardPieces(block, size)
  {
    hide CutAt, TrimEnd, TrimStart;
    out := [];
    var rest := block;
    while |rest| > size
      invariant out + HardPieces(rest, size) == HardPieces(block, size)
      decreases |rest|
    {
      var at := CutAt(rest, size);
      out := out + [TrimEnd(rest[..at])];
      rest := TrimStart(rest[at..]);
    }
    if |rest| > 0 {
      out := out + [rest];
    }
  }

  // ---- paragraphs ----------------------------------------------------------------------------------

  /** Where the first two line feeds in a row stand, or the end. */
  function FirstGap(s: string): (i: nat)
    ensures i <= |s| && (i < |s| ==> i + 1 < |s| && s[i] == '\n' && s[i + 1] == '\n')
  {
    if s == "" then 0
    else if |s| >= 2 && s[0] == '\n' && s[1] == '\n' then 0
    else 1 + FirstGap(s[1..])
  }

  /** How many line feeds are in front. */
  function Feeds(s: string): (n: nat)
    ensures n <= |s| && forall i :: 0 <= i < n ==> s[i] == '\n'
    ensures n < |s| ==> s[n] != '\n'
  {
    if s != "" && s[0] == '\n' then 1 + Feeds(s[1..]) else 0
  }

  /** `markdown.split(/\n{2,}/u)` */
  function Paragraphs(s: string): (ps: seq<string>)
    ensures ps != []
    decreases |s|
  {
    var i := FirstGap(s);
    if i == |s| then [s] else [s[..i]] + Paragraphs(s[i..][Feeds(s[i..])..])
  }

  lemma {:induction false} ParagraphsKeepInk(s: string)
    ensures Ink(Concat(Paragraphs(s))) == Ink(s)
    decreases |s|
  {
    hide Ink, FirstGap, Feeds, Concat;
    var i := FirstGap(s);
    if i == |s| {
      ConcatOne(s);
    } else {
      var rest := s[i..][Feeds(s[i..])..];
      InkSplits(s, i);
      FeedsHaveNoInk(s[i..]);
      ParagraphsKeepInk(rest);
      ConcatCons(s[..i], Paragraphs(rest));
    }
  }

  lemma {:induction false} FeedsHaveNoInk(s: string)
    ensures Ink(s[Feeds(s)..]) == Ink(s)
  {
    if s != "" && s[0] == '\n' {
      FeedsHaveNoInk(s[1..]);
      assert s[Feeds(s)..] == s[1..][Feeds(s[1..])..];
      FeedIsBlank(s);
    } else {
      assert s[0..] == s;
    }
  }

  lemma FeedIsBlank(s: string)
    requires s != "" && s[0] == '\n'
    ensures Ink(s) == Ink(s[1..])
  {
    assert IsSpace('\n');
    assert "" + Ink(s[1..]) == Ink(s[1..]);
  }

  /** No paragraph has an empty line inside. */
  lemma {:induction false} ParagraphsHaveNoGap(s: string)
    ensures forall p <- Paragraphs(s) :: FirstGap(p) == |p|
    decreases |s|
  {
    var i := FirstGap(s);
    if i < |s| {
      GapFree(s, i);
      ParagraphsHaveNoGap(s[i..][Feeds(s[i..])..]);
    }
  }

  lemma {:induction false} GapFree(s: string, i: nat)
    requires i <= FirstGap(s)
    ensures FirstGap(s[..i]) == i
  {
    if i > 0 {
      assert s[..i][1..] == s[1..][..i - 1];
      GapFree(s[1..], i - 1);
    }
  }

  /** `flatMap`: paragraphs that fit, and the pieces of those that do not. */
  function Blocks(paragraphs: seq<string>, size: nat): (blocks: seq<string>)
    requires size >= 1
    ensures forall b <- blocks :: |b| <= size
  {
    if paragraphs == [] then []
    else (if |paragraphs[0]| > size then HardPieces(paragraphs[0], size) else [paragraphs[0]]) + Blocks(paragraphs[1..], size)
  }

  lemma {:induction false} BlocksKeepInk(paragraphs: seq<string>, size: nat)
    requires size >= 1
    ensures Ink(Concat(Blocks(paragraphs, size))) == Ink(Concat(paragraphs))
  {
    hide Ink, HardPieces;
    if paragraphs != [] {
      var first := paragraphs[0];
      var head := if |first| > size then HardPieces(first, size) else [first];
      PiecesKeepInk(first, size);
      ConcatOne(first);
      BlocksKeepInk(paragraphs[1..], size);
      ConcatAppends(head, Blocks(paragraphs[1..], size));
      InkAppends(Concat(head), Concat(Blocks(paragraphs[1..], size)));
      InkAppends(first, Concat(paragraphs[1..]));
    }
  }

  // ---- packing -----------------------------------------------------------------------------------------

  function Joined(current: string, block: string): string {
    if |current| == 0 then block else current + ("\n\n" + block)
  }

  /** Blocks set one after the other with an empty line between. */
  function Glue(group: seq<string>): string {
    if group == [] then "" else Joined(Glue(group[..|group| - 1]), group[|group| - 1])
  }

  lemma JoinedInk(current: string, block: string)
    ensures Ink(Joined(current, block)) == Ink(current) + Ink(block)
  {
    if |current| == 0 {
      assert Ink("") + Ink(block) == Ink(block);
    } else {
      InkAppends(current, "\n\n" + block);
      InkAppends("\n\n", block);
      BlankHasNoInk("\n\n");
      assert "" + Ink(block) == Ink(block);
    }
  }

  lemma {:induction false} GlueInk(group: seq<string>)
    ensures Ink(Glue(group)) == Ink(Concat(group))
  {
    if group != [] {
      hide Ink;
      var init, last := group[..|group| - 1], group[|group| - 1];
      GlueInk(init);
      JoinedInk(Glue(init), last);
      ConcatAppends(init, [last]);
      ConcatOne(last);
      InkAppends(Concat(init), last);
      assert init + [last] == group;
    }
  }

  function Flat(groups: seq<seq<string>>): seq<string> {
    if groups == [] then [] else Flat(groups[..|groups| - 1]) + groups[|groups| - 1]
  }

  lemma FlatGrows(groups: seq<seq<string>>, g: seq<string>)
    ensures Flat(groups + [g]) == Flat(groups) + g
  {
    assert (groups + [g])[..|groups|] == groups;
  }

  /** The group's first block does not fit into the chunk any more. */
  predicate Overflows(chunk: string, group: seq<string>, size: nat) {
    group != [] && |Joined(chunk, group[0])| > size
  }

  /** Every chunk is a run of blocks glued together, and the first block of the next run would
      not have fitted. */
  ghost predicate Packed(chunks: seq<string>, groups: seq<seq<string>>, size: nat) {
    && |chunks| == |groups|
    && (forall i :: 0 <= i < |groups| ==> chunks[i] == Glue(groups[i]))
    && (forall i :: 0 <= i < |groups| - 1 ==> Overflows(chunks[i], groups[i + 1], size))
  }

  lemma {:induction false} PackedInk(chunks: seq<string>, groups: seq<seq<string>>, size: nat)
    requires Packed(chunks, groups, size)
    ensures Ink(Concat(chunks)) == Ink(Concat(Flat(groups)))
    decreases |groups|
  {
    hide Ink, Glue, Joined;
    if groups != [] {
      var n := |groups| - 1;
      PackedInk(chunks[..n], groups[..n], size);
      GlueInk(groups[n]);
      assert chunks[..n] + [chunks[n]] == chunks;
      ConcatAppends(chunks[..n], [chunks[n]]);
      ConcatOne(chunks[n]);
      InkAppends(Concat(chunks[..n]), chunks[n]);
      ConcatAppends(Flat(groups[..n]), groups[n]);
      InkAppends(Concat(Flat(groups[..n])), Concat(groups[n]));
    }
  }

  lemma GlueGrows(group: seq<string>, block: string)
    ensures Glue(group + [block]) == Joined(Glue(group), block)
  {
    assert (group + [block])[..|group|] == group;
  }

  lemma {:induction false} PackedGrows(chunks: seq<string>, groups: seq<seq<string>>, group: seq<string>, size: nat)
    requires Packed(chunks, groups, size)
    requires chunks != [] ==> Overflows(chunks[|chunks| - 1], group, size)
    ensures Packed(chunks + [Glue(group)], groups + [group], size)
  {
    hide Glue, Overflows;
    var cs, gs := chunks + [Glue(group)], groups + [group];
    forall i | 0 <= i < |gs| ensures cs[i] == Glue(gs[i]) {
      if i < |groups| { assert cs[i] == chunks[i] && gs[i] == groups[i]; }
    }
    forall i | 0 <= i < |gs| - 1 ensures Overflows(cs[i], gs[i + 1], size) {
      assert cs[i] == chunks[i];
      if i < |groups| - 1 { assert gs[i + 1] == groups[i + 1]; }
    }
  }

  lemma BlocksNext(paragraphs: seq<string>, i: nat, size: nat)
    requires i < |paragraphs| && size >= 1
    ensures Blocks(paragraphs[i..], size)
         == (if |paragraphs[i]| > size then HardPieces(paragraphs[i], size) else [paragraphs[i]])
            + Blocks(paragraphs[i + 1..], size)
  {
    hide HardPieces;
    assert paragraphs[i..][0] == paragraphs[i] && paragraphs[i..][1..] == paragraphs[i + 1..];
  }

  lemma Regroup(a: seq<string>, b: seq<string>, c: seq<string>)
    ensures a + b + c == a + (b + c)
  {}

  method CutParagraphs(paragraphs: seq<string>, size: nat) returns (blocks: seq<string>)
    requires size >= 1
    ensures blocks == Blocks(paragraphs, size)
  {
    hide HardPieces, Blocks;
    assert Blocks([], size) == [] by { NoBlocks(size); }
    blocks := [];
    var i := 0;
    assert paragraphs[0..] == paragraphs && [] + Blocks(paragraphs, size) == Blocks(paragraphs, size);
    while i < |paragraphs|
      invariant i <= |paragraphs| && blocks + Blocks(paragraphs[i..], size) == Blocks(paragraphs, size)
    {
      BlocksNext(paragraphs, i, size);
      if |paragraphs[i]| > size {
        var pieces := HardSplit(paragraphs[i], size);
        Regroup(blocks, pieces, Blocks(paragraphs[i + 1..], size));
        blocks := blocks + pieces;
      } else {
        Regroup(blocks, [paragraphs[i]], Blocks(paragraphs[i + 1..], size));
        blocks := blocks + [paragraphs[i]];
      }
      i := i + 1;
    }
    assert paragraphs[i..] == [] && blocks + [] == blocks;
  }

  lemma NoBlocks(size: nat)
    requires size >= 1
    ensures Blocks([], size) == []
  {}

  /** The groups take the blocks in order; what they leave, if anything, is empty. */
  ghost predicate Covers(groups: seq<seq<string>>, blocks: seq<string>) {
    Flat(groups) <= blocks && forall b <- blocks[|Flat(groups)|..] :: b == ""
  }

  lemma {:induction false} GluedToNothing(group: seq<string>)
    requires Glue(group) == ""
    ensures forall b <- group :: b == ""
  {
    if group != [] {
      var init, last := group[..|group| - 1], group[|group| - 1];
      GluedToNothing(init);
      assert init + [last] == group;
    }
  }

  /** The packing loop, with the runs of blocks it has set into chunks. */
  method Pack(blocks: seq<string>, size: nat) returns (chunks: seq<string>, ghost groups: seq<seq<string>>)
    requires forall b <- blocks :: |b| <= size
    ensures chunks != [] && (forall c <- chunks :: |c| <= size)
    ensures |chunks| > 1 ==> forall c <- chunks :: c != ""
    ensures Packed(chunks, groups, size) && Covers(groups, blocks)
  {
    hide Packed, Glue, Flat, Joined;
    chunks, groups := [], [];
    var current := "";
    ghost var group: seq<string> := [];
    NothingPacked(size);
    var k := 0;
    while k < |blocks|
      invariant k <= |blocks| && |current| <= size && current == Glue(group)
      invariant forall c <- chunks :: c != "" && |c| <= size
      invariant Packed(chunks, groups, size)
      invariant chunks != [] ==> Overflows(chunks[|chunks| - 1], group, size)
      invariant Flat(groups) + group == blocks[..k]
    {
      var joined := Joined(current, blocks[k]);
      assert current == "" ==> joined == blocks[k] by { JoinedFirst(blocks[k]); }
      if |joined| <= size {
        GlueGrows(group, blocks[k]);
        current := joined;
        group := group + [blocks[k]];
      } else {
        PackedGrows(chunks, groups, group, size);
        FlatGrows(groups, group);
        GlueOne(blocks[k]);
        chunks := chunks + [current];
        groups := groups + [group];
        current := blocks[k];
        group := [blocks[k]];
      }
      k := k + 1;
    }
    assert Flat(groups) + group == blocks;
    if |current| > 0 || |chunks| == 0 {
      PackedGrows(chunks, groups, group, size);
      FlatGrows(groups, group);
      chunks := chunks + [current];
      groups := groups + [group];
    } else {
      GluedToNothing(group);
    }
  }

  lemma JoinedFirst(block: string)
    ensures Joined("", block) == block
  {}

  lemma GlueOne(block: string)
    ensures Glue([block]) == block
  {
    GlueGrows([], block);
    assert [] + [block] == [block];
  }

  lemma NothingPacked(size: nat)
    ensures Packed([], [], size) && Flat([]) == [] && Glue([]) == ""
  {}

  lemma CoveredInk(groups: seq<seq<string>>, blocks: seq<string>)
    requires Covers(groups, blocks)
    ensures Ink(Concat(Flat(groups))) == Ink(Concat(blocks))
  {
    var taken, left := Flat(groups), blocks[|Flat(groups)|..];
    assert taken + left == blocks;
    ConcatAppends(taken, left);
    ConcatNothing(left);
    assert Concat(taken) + "" == Concat(taken);
  }

  lemma {:induction false} ConcatNothing(blocks: seq<string>)
    requires forall b <- blocks :: b == ""
    ensures Concat(blocks) == ""
  {
    if blocks != [] {
      assert blocks[0] in blocks && forall b <- blocks[1..] :: b in blocks;
      ConcatNothing(blocks[1..]);
    }
  }

  /** For every text and size of at least one: no chunk is longer than the size, none is empty
      unless it is the only one, nothing but white space is lost or gained, and the chunks are the
      paragraphs (cut only when too long for a chunk) packed in order, as many to a chunk as fit. */
  method ChunkMarkdown(markdown: string, size: nat) returns (chunks: seq<string>, ghost groups: seq<seq<string>>)
    requires size >= 1
    ensures chunks != [] && (forall c <- chunks :: |c| <= size)
    ensures |chunks| > 1 ==> forall c <- chunks :: c != ""
    ensures Ink(Concat(chunks)) == Ink(markdown)
    ensures Packed(chunks, groups, size)
    ensures Covers(groups, Blocks(Paragraphs(markdown), size))
  {
    hide Ink, HardPieces, Paragraphs, Concat, Blocks, Packed, Covers;
    var paragraphs := Paragraphs(markdown);
    var blocks := CutParagraphs(paragraphs, size);
    chunks, groups := Pack(blocks, size);
    PackedInk(chunks, groups, size);
    CoveredInk(groups, blocks);
    BlocksKeepInk(paragraphs, size);
    ParagraphsKeepInk(markdown);
  }
}
