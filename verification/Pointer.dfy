// evals/corpus/json-patch/pointer.ts
module Pointer {
  // JSON Pointer (RFC 6901) as the code reads it, and the raw-string "inside" guard of
  // evals/corpus/json-patch/patch.ts.

  /** `s.replaceAll(<a b>, <c>)` for a two-character pattern: left to right, no overlaps. */
  function ReplacePair(s: string, a: char, b: char, c: char): string {
    if s == [] then []
    else if |s| >= 2 && s[0] == a && s[1] == b then [c] + ReplacePair(s[2..], a, b, c)
    else [s[0]] + ReplacePair(s[1..], a, b, c)
  }

  /** Two passes, in the order the source insists on. */
  function DecodeSegment(s: string): string {
    ReplacePair(ReplacePair(s, '~', '1', '/'), '~', '0', '~')
  }

  /** `pointer.split("/")`: never empty. */
  function Split(s: string): (parts: seq<string>)
    ensures |parts| >= 1
  {
    if s == [] then [""]
    else
      var rest := Split(s[1..]);
      if s[0] == '/' then [""] + rest else [[s[0]] + rest[0]] + rest[1..]
  }

  /** The raw tokens of a pointer. */
  function Tokens(p: string): seq<string> {
    Split(p)[1..]
  }

  function DecodeAll(parts: seq<string>): (segments: seq<string>)
    ensures |segments| == |parts|
    ensures forall i :: 0 <= i < |parts| ==> segments[i] == DecodeSegment(parts[i])
  {
    seq(|parts|, i requires 0 <= i < |parts| => DecodeSegment(parts[i]))
  }

  function ParsePointer(pointer: string): seq<string> {
    if pointer == "" then [] else DecodeAll(Tokens(pointer))
  }

  /** The guard of `move`: a test on the raw text, not on the segments. */
  predicate IsInside(from: string, path: string) {
    path == from || from + "/" <= path
  }

  // ---- the standard's own notions -------------------------------------------------

  /** One left-to-right pass over the two escapes of section 4 of RFC 6901. */
  function DecodeOnce(s: string): string {
    if s == [] then []
    else if |s| >= 2 && s[0] == '~' && s[1] == '1' then ['/'] + DecodeOnce(s[2..])
    else if |s| >= 2 && s[0] == '~' && s[1] == '0' then ['~'] + DecodeOnce(s[2..])
    else [s[0]] + DecodeOnce(s[1..])
  }

  function EncodeSegment(s: string): string {
    if s == [] then []
    else (if s[0] == '~' then "~0" else if s[0] == '/' then "~1" else [s[0]]) + EncodeSegment(s[1..])
  }

  /** `reference-token` of section 3: no slash, and every tilde starts `~0` or `~1`. */
  predicate ValidSegment(s: string) {
    s == [] ||
    if s[0] == '~' then |s| >= 2 && (s[1] == '0' || s[1] == '1') && ValidSegment(s[2..])
    else s[0] != '/' && ValidSegment(s[1..])
  }

  /** `json-pointer` of section 3: empty, or "/"-led with valid tokens only. */
  predicate ValidPointer(p: string) {
    p == "" || (p[0] == '/' && forall part <- Split(p) :: ValidSegment(part))
  }

  /** Prints segments back as a pointer. */
  function Print(segments: seq<string>): string {
    if segments == [] then "" else "/" + (EncodeSegment(segments[0]) + Print(segments[1..]))
  }

  // ---- decoding ---------------------------------------------------------------------

  /** A first pass that turned an escape into "/" never manufactures a new "~0". */
  lemma {:induction false} TwoPassesAreOne(s: string)
    ensures DecodeSegment(s) == DecodeOnce(s)
  {
    if s == [] {
    } else if |s| >= 2 && s[0] == '~' && s[1] == '1' {
      TwoPassesAreOne(s[2..]);
      var t := ReplacePair(s[2..], '~', '1', '/');
      assert (['/'] + t)[1..] == t;
    } else if |s| >= 2 && s[0] == '~' && s[1] == '0' {
      TwoPassesAreOne(s[2..]);
      var t := ReplacePair(s[2..], '~', '1', '/');
      calc {
        ReplacePair(s, '~', '1', '/');
        ['~'] + ReplacePair(s[1..], '~', '1', '/');
        { assert s[1..][1..] == s[2..]; }
        ['~'] + (['0'] + t);
        ['~', '0'] + t;
      }
      assert (['~', '0'] + t)[2..] == t;
    } else {
      TwoPassesAreOne(s[1..]);
      var t := ReplacePair(s[1..], '~', '1', '/');
      assert ReplacePair(s, '~', '1', '/') == [s[0]] + t;
      assert ([s[0]] + t)[1..] == t;
      if s[0] == '~' && t != [] {
        assert s[1] != '0';
        assert t[0] != '0';
      }
    }
  }

  lemma {:induction false} DecodeUndoesEncode(s: string)
    ensures DecodeSegment(EncodeSegment(s)) == s
    ensures ValidSegment(EncodeSegment(s))
  {
    TwoPassesAreOne(EncodeSegment(s));
    DecodeOnceUndoesEncode(s);
  }

  lemma Decodes(escape: string, e: string)
    requires escape == "~0" || escape == "~1"
    ensures DecodeOnce(escape + e) == [if escape == "~1" then '/' else '~'] + DecodeOnce(e)
    ensures ValidSegment(escape + e) == ValidSegment(e)
  {
    assert (escape + e)[2..] == e;
  }

  lemma {:induction false} DecodeOnceUndoesEncode(s: string)
    ensures DecodeOnce(EncodeSegment(s)) == s
    ensures ValidSegment(EncodeSegment(s))
  {
    if s != [] {
      DecodeOnceUndoesEncode(s[1..]);
      var e := EncodeSegment(s[1..]);
      if s[0] == '~' {
        Decodes("~0", e);
      } else if s[0] == '/' {
        Decodes("~1", e);
      } else {
        assert ([s[0]] + e)[1..] == e;
      }
    }
  }

  lemma {:induction false} EncodeUndoesDecode(s: string)
    requires ValidSegment(s)
    ensures EncodeSegment(DecodeSegment(s)) == s
  {
    TwoPassesAreOne(s);
    EncodeUndoesDecodeOnce(s);
  }

  lemma {:induction false} EncodeUndoesDecodeOnce(s: string)
    requires ValidSegment(s)
    ensures EncodeSegment(DecodeOnce(s)) == s
  {
    if s == [] {
    } else if s[0] == '~' {
      EncodeUndoesDecodeOnce(s[2..]);
      var d := DecodeOnce(s[2..]);
      var c := if s[1] == '1' then '/' else '~';
      assert ([c] + d)[1..] == d;
      assert s == s[..2] + s[2..];
    } else {
      EncodeUndoesDecodeOnce(s[1..]);
      assert ([s[0]] + DecodeOnce(s[1..]))[1..] == DecodeOnce(s[1..]);
    }
  }

  /** Hence distinct valid segments name distinct keys. */
  lemma DecodeIsInjective(s: string, t: string)
    requires ValidSegment(s) && ValidSegment(t)
    requires DecodeSegment(s) == DecodeSegment(t)
    ensures s == t
  {
    EncodeUndoesDecode(s);
    EncodeUndoesDecode(t);
  }

  // ---- splitting --------------------------------------------------------------------

  lemma ConsSplit(c: char, x: seq<string>, y: seq<string>)
    requires |x| >= 1
    ensures [""] + (x + y) == [""] + x + y
    ensures [[c] + (x + y)[0]] + (x + y)[1..] == [[c] + x[0]] + x[1..] + y
  {}

  lemma SplitStep(s: string)
    requires s != ""
    ensures var rest := Split(s[1..]);
      Split(s) == if s[0] == '/' then [""] + rest else [[s[0]] + rest[0]] + rest[1..]
  {}

  lemma {:induction false} SplitAtSlash(a: string, b: string)
    ensures Split(a + "/" + b) == Split(a) + Split(b)
  {
    var s := a + "/" + b;
    if a == [] {
      assert s[1..] == b && s[0] == '/';
      assert Split(a) == [""];
    } else {
      SplitAtSlash(a[1..], b);
      assert s[1..] == a[1..] + "/" + b && s[0] == a[0];
      ConsSplit(a[0], Split(a[1..]), Split(b));
    }
  }

  lemma {:induction false} SplitWithoutSlash(a: string)
    requires '/' !in a
    ensures Split(a) == [a]
  {
    if a != [] {
      SplitWithoutSlash(a[1..]);
      assert a[0] in a;
      assert [a[0]] + a[1..] == a;
    }
  }

  lemma {:induction false} ValidSegmentHasNoSlash(s: string)
    requires ValidSegment(s)
    ensures '/' !in s
  {
    if s == [] {
    } else if s[0] == '~' {
      ValidSegmentHasNoSlash(s[2..]);
      assert s == s[..2] + s[2..];
    } else {
      ValidSegmentHasNoSlash(s[1..]);
    }
  }

  /** What parsing and validity come to for a pointer with at least one token. */
  lemma PointerFrom(tail: string)
    ensures ParsePointer("/" + tail) == DecodeAll(Split(tail))
    ensures ValidPointer("/" + tail) <==> forall part <- Split(tail) :: ValidSegment(part)
  {
    var p := "/" + tail;
    assert p[1..] == tail;
    SplitStep(p);
    assert forall part :: part in Split(p) <==> part == "" || part in Split(tail);
  }

  lemma TokensOfTail(p: string)
    requires p != "" && p[0] == '/'
    ensures Tokens(p) == Split(p[1..])
  {
    SplitStep(p);
  }

  lemma SplitToken(e: string, rest: string)
    requires '/' !in e && (rest == "" || rest[0] == '/')
    ensures Split(e + rest) == [e] + Tokens(rest)
  {
    SplitWithoutSlash(e);
    if rest == "" {
      assert e + rest == e;
      assert Tokens(rest) == [];
    } else {
      TokensOfTail(rest);
      SplitAtSlash(e, rest[1..]);
      assert e + rest == e + "/" + rest[1..];
    }
  }

  lemma NoTokens()
    ensures Tokens("") == []
  {}

  lemma PrependToken(e: string, rest: string)
    requires ValidSegment(e) && ValidPointer(rest)
    ensures ParsePointer("/" + (e + rest)) == [DecodeSegment(e)] + ParsePointer(rest)
    ensures ValidPointer("/" + (e + rest))
  {
    hide ValidSegment, Split, DecodeSegment;
    NoTokens();
    ValidSegmentHasNoSlash(e);
    PointerFrom(e + rest);
    SplitToken(e, rest);
    assert DecodeAll([e] + Tokens(rest)) == DecodeAll([e]) + DecodeAll(Tokens(rest));
    assert forall part <- Tokens(rest) :: part in Split(rest);
    assert DecodeAll([e]) == [DecodeSegment(e)];
  }

  /** Parsing undoes printing, for any list of keys whatever characters they hold. */
  lemma {:induction false} ParseUndoesPrint(segments: seq<string>)
    ensures ParsePointer(Print(segments)) == segments
    ensures ValidPointer(Print(segments))
  {
    if segments != [] {
      var e := EncodeSegment(segments[0]);
      var rest := Print(segments[1..]);
      ParseUndoesPrint(segments[1..]);
      DecodeUndoesEncode(segments[0]);
      PrependToken(e, rest);
      assert [segments[0]] + segments[1..] == segments;
    }
  }

  /** Printing undoes parsing exactly on the pointers the standard calls valid. */
  lemma {:induction false} PrintUndoesParse(p: string)
    ensures Print(ParsePointer(p)) == p <==> ValidPointer(p)
  {
    ParseUndoesPrint(ParsePointer(p));
    if p != "" && ValidPointer(p) {
      assert p == "/" + p[1..];
      PointerFrom(p[1..]);
      PrintDecoded(Split(p[1..]));
      JoinUndoesSplit(p[1..]);
    }
  }

  function Join(parts: seq<string>): string {
    if parts == [] then "" else "/" + (parts[0] + Join(parts[1..]))
  }

  lemma JoinCons(first: string, rest: seq<string>)
    ensures Join([first] + rest) == "/" + (first + Join(rest))
  {
    assert ([first] + rest)[1..] == rest;
  }

  /** `"/" + a == "/" + b` gives `a == b`, and a character moves across. */
  lemma Unslash(c: char, first: string, more: string, tail: string)
    requires "/" + (first + more) == "/" + tail
    ensures ([c] + first) + more == [c] + tail
  {
    assert ("/" + (first + more))[1..] == first + more && ("/" + tail)[1..] == tail;
  }

  lemma {:induction false} JoinUndoesSplit(s: string)
    ensures Join(Split(s)) == "/" + s
  {
    if s != [] {
      hide Join;
      JoinUndoesSplit(s[1..]);
      var rest := Split(s[1..]);
      assert [s[0]] + s[1..] == s;
      if s[0] == '/' {
        JoinCons("", rest);
        assert "" + Join(rest) == Join(rest);
      } else {
        assert [rest[0]] + rest[1..] == rest;
        JoinCons(rest[0], rest[1..]);
        JoinCons([s[0]] + rest[0], rest[1..]);
        Unslash(s[0], rest[0], Join(rest[1..]), s[1..]);
      }
    }
  }

  lemma {:induction false} PrintDecoded(parts: seq<string>)
    requires forall part <- parts :: ValidSegment(part)
    ensures Print(DecodeAll(parts)) == Join(parts)
  {
    if parts != [] {
      EncodeUndoesDecode(parts[0]);
      PrintDecoded(parts[1..]);
      assert DecodeAll(parts)[1..] == DecodeAll(parts[1..]);
    }
  }

  // ---- the move guard ---------------------------------------------------------------

  lemma SlashAfter(from: string, path: string)
    requires |path| > |from| && path[..|from|] == from && path[|from|] == '/'
    ensures from + "/" <= path
  {}

  lemma Regroup(a: string, b: string, c: string, d: string)
    ensures a + (b + (c + d)) == a + (b + c) + d
  {}

  lemma {:induction false} JoinAppends(a: seq<string>, b: seq<string>)
    ensures Join(a + b) == Join(a) + Join(b)
  {
    if a == [] {
      assert a + b == b;
    } else {
      JoinAppends(a[1..], b);
      assert (a + b)[1..] == a[1..] + b && (a + b)[0] == a[0];
      Regroup("/", a[0], Join(a[1..]), Join(b));
    }
  }

  lemma InsideByParts(from: string, rest: seq<string>, path: string)
    requires "/" + path == "/" + from + Join(rest)
    ensures IsInside(from, path)
  {
    assert path == ("/" + path)[1..] == from + Join(rest);
    if rest == [] {
      assert path == from;
    } else {
      SlashAfter(from, path);
    }
  }

  /** For every two strings, what the raw test decides: whether the undecoded tokens of the one
      lead those of the other. */
  lemma InsideIsRawPrefix(from: string, path: string)
    ensures IsInside(from, path) <==> Split(from) <= Split(path)
  {
    hide Split, Join;
    if path != from && IsInside(from, path) {
      var rest := path[|from| + 1..];
      assert path == from + "/" + rest;
      SplitAtSlash(from, rest);
    }
    if Split(from) <= Split(path) {
      var rest := Split(path)[|Split(from)|..];
      assert Split(path) == Split(from) + rest;
      JoinAppends(Split(from), rest);
      JoinUndoesSplit(from);
      JoinUndoesSplit(path);
      InsideByParts(from, rest, path);
    }
  }

  /** The raw test never cries wolf: it implies the segment prefix for every string pair. */
  lemma InsideImpliesPrefix(from: string, path: string)
    requires IsInside(from, path)
    ensures ParsePointer(from) <= ParsePointer(path)
  {
    hide Split, DecodeSegment;
    InsideIsRawPrefix(from, path);
    if from != "" {
      forall i | 0 <= i < |Tokens(from)| ensures Tokens(from)[i] == Tokens(path)[i] {
        assert Split(from)[i + 1] == Split(path)[i + 1];
      }
    }
  }

  /** On valid pointers the raw-string guard is exactly the tree test. */
  lemma MoveGuardIsExact(from: string, path: string)
    requires ValidPointer(from) && ValidPointer(path)
    ensures IsInside(from, path) <==> ParsePointer(from) <= ParsePointer(path)
  {
    if IsInside(from, path) { InsideImpliesPrefix(from, path); }
    if ParsePointer(from) <= ParsePointer(path) { PrefixImpliesInside(from, path); }
  }

  /** A pointer that starts with a slash splits into the empty string and its tokens. */
  lemma LedBySlash(p: string)
    requires p != "" && p[0] == '/'
    ensures Split(p) == [""] + Tokens(p)
  {
    SplitStep(p);
  }

  lemma PrefixImpliesInside(from: string, path: string)
    requires ValidPointer(from) && ValidPointer(path) && ParsePointer(from) <= ParsePointer(path)
    ensures IsInside(from, path)
  {
    hide Split, DecodeSegment, ValidSegment;
    if from != "" {
      var f, p := Tokens(from), Tokens(path);
      LedBySlash(from);
      TokensOfTail(from);
      if path != "" { LedBySlash(path); }
      forall i | 0 <= i < |f| ensures i < |p| && f[i] == p[i] {
        assert ParsePointer(from)[i] == ParsePointer(path)[i];
        assert f[i] in Split(from) && p[i] in Split(path);
        DecodeIsInjective(f[i], p[i]);
      }
      assert [""] + f <= [""] + p;
      InsideIsRawPrefix(from, path);
    } else if path != "" {
      SlashAfter(from, path);
    }
  }

  lemma SameSplit(p: string, q: string)
    requires Split(p) <= Split(q) && |Split(p)| == |Split(q)|
    ensures p == q
  {
    hide Split, Join;
    assert Split(p) == Split(q);
    JoinUndoesSplit(p);
    JoinUndoesSplit(q);
    assert p == ("/" + p)[1..] && q == ("/" + q)[1..];
  }

  /** Of the spellings of one key list the guard knows each only as itself. */
  lemma InsideItsSpelling(p: string)
    ensures var q := Print(ParsePointer(p));
      && ValidPointer(q) && ParsePointer(q) == ParsePointer(p)
      && (IsInside(p, q) || IsInside(q, p) ==> p == q)
  {
    hide Split, ValidPointer, DecodeSegment;
    var q := Print(ParsePointer(p));
    ParseUndoesPrint(ParsePointer(p));
    if p != "" && q != "" {
      assert |Split(p)| == |Split(q)|;
      if IsInside(p, q) {
        InsideIsRawPrefix(p, q);
        SameSplit(p, q);
      }
      if IsInside(q, p) {
        InsideIsRawPrefix(q, p);
        SameSplit(q, p);
      }
    } else if p != "" && IsInside(q, p) {
      assert ParsePointer(p) == [];
      LedBySlash(p);
      TokensOfTail(p);
    }
  }

  /** Against every valid pointer the guard is the tree test exactly if the other pointer is valid,
      on either side. */
  lemma MoveGuardNeedsValid(p: string)
    ensures (forall path | ValidPointer(path) :: IsInside(p, path) <==> ParsePointer(p) <= ParsePointer(path)) <==> ValidPointer(p)
    ensures (forall from | ValidPointer(from) :: IsInside(from, p) <==> ParsePointer(from) <= ParsePointer(p)) <==> ValidPointer(p)
  {
    hide ValidPointer, ParsePointer, IsInside;
    InsideItsSpelling(p);
    var q := Print(ParsePointer(p));
    if ValidPointer(p) {
      forall path | ValidPointer(path)
        ensures IsInside(p, path) <==> ParsePointer(p) <= ParsePointer(path)
        ensures IsInside(path, p) <==> ParsePointer(path) <= ParsePointer(p)
      {
        MoveGuardIsExact(p, path);
        MoveGuardIsExact(path, p);
      }
    } else {
      assert !IsInside(p, q) && !IsInside(q, p) && ParsePointer(p) == ParsePointer(q);
    }
  }

  /** For one, a lone tilde reads as itself, so two spellings name one key and the text test
      misses a move into itself. */
  lemma MoveGuardMissesBadEscapes()
    ensures var from, path := "/~", "/~0/x";
      !IsInside(from, path) && ParsePointer(from) <= ParsePointer(path) && !ValidPointer(from)
  {
    hide Print, ValidPointer;
    PointerFrom("~");
    SplitWithoutSlash("~");
    assert "/~" == "/" + "~" && "~" in Split("~");
    assert DecodeSegment("~") == "~" && !ValidSegment("~");
    PrintTildeX();
    ParseUndoesPrint(["~", "x"]);
  }

  lemma PrintTildeX()
    ensures Print(["~", "x"]) == "/~0/x"
  {
    assert EncodeSegment("x") == "x";
    assert EncodeSegment("~") == "~0";
    assert ["~", "x"][1..] == ["x"];
    assert Print(["x"]) == "/x";
  }
}
