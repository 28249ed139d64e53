// agent-runner.ts: the bounded transcript.
module Transcript {
  import opened Results
  import opened Digits

  /** A JavaScript string: its code units. */
  type Units = seq<nat>

  datatype Message = Message(role: Units, content: Option<Units>)

  const TRANSCRIPT_MARKER_RESERVE: nat := 64

  function U(s: string): (units: Units)
    ensures |units| == |s|
  {
    seq(|s|, i requires 0 <= i < |s| => s[i] as nat)
  }

  /** `[role] content` */
  function LineOf(m: Message): Units {
    U("[") + m.role + U("] ") + m.content.GetOr([])
  }

  function Max(a: int, b: int): int { if a > b then a else b }

  function Budget(maxChars: int): (budget: nat)
    ensures budget >= 1 && (budget == 1 || budget + 64 == maxChars) && (maxChars > 64 ==> budget + 64 == maxChars)
  {
    Max(1, maxChars - TRANSCRIPT_MARKER_RESERVE)
  }

  /** A message that is too long for the budget, cut and marked. */
  function Capped(m: Message, budget: nat): Units
    requires budget >= 1
  {
    var text := LineOf(m);
    if |text| <= budget then text else text[..Max(1, budget - 15)] + U(" \U{2026}[truncated]")
  }

  /** `parts.join("\n\n")` */
  function Join(parts: seq<Units>): Units {
    if parts == [] then []
    else if |parts| == 1 then parts[0]
    else parts[0] + U("\n\n") + Join(parts[1..])
  }

  /** The capped messages from index `from` on. */
  function Suffix(conversation: seq<Message>, from: nat, budget: nat): (parts: seq<Units>)
    requires from <= |conversation| && budget >= 1
    ensures |parts| == |conversation| - from
  {
    seq(|conversation| - from, i requires 0 <= i < |conversation| - from => Capped(conversation[from + i], budget))
  }

  function Marker(count: nat): Units {
    U("\U{2026} (") + U(Decimal(count)) + U(" earlier message(s) elided) \U{2026}")
  }

  function Markers(from: nat): seq<Units> {
    if from > 0 then [Marker(from)] else []
  }

  predicate HighSurrogate(u: nat) { 0xD800 <= u <= 0xDBFF }

  /** `slice(0, maxChars)`, not ending in half a surrogate pair. */
  function HardCut(text: Units, maxChars: nat): Units
    requires 0 < maxChars <= |text|
  {
    if HighSurrogate(text[maxChars - 1]) then text[..maxChars - 1] else text[..maxChars]
  }

  // ---- lengths ----------------------------------------------------------------------------

  function Power10(d: nat): nat { if d == 0 then 1 else 10 * Power10(d - 1) }

  lemma {:induction false} DecimalLength(n: nat, d: nat)
    requires 1 <= d && n < Power10(d)
    ensures |Decimal(n)| <= d
  {
    assert Power10(1) == 10 * Power10(0);
    if n >= 10 {
      DecimalLength(n / 10, d - 1);
    }
  }

  lemma MarkerLength(count: nat)
    requires count < Power10(30)
    ensures |Marker(count)| <= 62
  {
    DecimalLength(count, 30);
    assert |" earlier message(s) elided) \U{2026}"| == 29;
  }

  /** Length of a joined list, separators included. */
  function Cost(parts: seq<Units>): nat {
    if parts == [] then 0 else |parts[0]| + 2 + Cost(parts[1..])
  }

  lemma {:induction false} JoinLength(parts: seq<Units>)
    ensures |Join(parts)| == if parts == [] then 0 else Cost(parts) - 2
  {
    if |parts| > 1 { JoinLength(parts[1..]); }
  }

  lemma CappedFits(m: Message, budget: nat)
    requires budget >= 16
    ensures |Capped(m, budget)| <= budget
  {
    assert |" \U{2026}[truncated]"| == 13;
  }

  // ---- the function -------------------------------------------------------------------------

  /** The suffix that was picked, by where it starts: it has the newest message, it fits the
      budget unless it is that message alone, and one more message would not fit. */
  ghost predicate Picked(conversation: seq<Message>, from: nat, budget: nat)
    requires budget >= 1
  {
    && from < |conversation|
    && (Cost(Suffix(conversation, from, budget)) <= budget || from == |conversation| - 1)
    && (from > 0 ==> Cost(Suffix(conversation, from - 1, budget)) > budget)
  }

  /** Marker and suffix if they fit, else the suffix alone, else what a cut leaves of it. */
  ghost predicate Assembles(conversation: seq<Message>, maxChars: nat, from: nat, r: Units)
    requires 0 < maxChars && from <= |conversation|
  {
    var picked := Suffix(conversation, from, Budget(maxChars));
    var assembled, bare := Join(Markers(from) + picked), Join(picked);
    r == if |assembled| <= maxChars then assembled else if |bare| <= maxChars then bare else HardCut(bare, maxChars)
  }

  /** The loop: walk back through older turns while they fit. */
  method PickNewest(conversation: seq<Message>, budget: nat) returns (picked: seq<Units>, firstIdx: nat)
    requires conversation != [] && budget >= 1
    ensures Picked(conversation, firstIdx, budget) && picked == Suffix(conversation, firstIdx, budget)
  {
    hide Capped;
    picked := [];
    var used := 0;
    firstIdx := |conversation|;
    var i := |conversation| - 1;
    while i >= 0
      invariant -1 <= i < |conversation| && i == firstIdx - 1
      invariant picked == Suffix(conversation, firstIdx, budget) && used == Cost(picked)
      invariant firstIdx < |conversation| - 1 ==> used <= budget
      decreases i
    {
      var text := Capped(conversation[i], budget);
      assert Suffix(conversation, i, budget) == [text] + Suffix(conversation, i + 1, budget);
      assert ([text] + picked)[1..] == picked;
      if |picked| > 0 && used + |text| + 2 > budget {
        break;
      }
      picked := [text] + picked;
      used := used + |text| + 2;
      firstIdx := i;
      i := i - 1;
    }
  }

  function Lines(conversation: seq<Message>): seq<Units> {
    seq(|conversation|, i requires 0 <= i < |conversation| => LineOf(conversation[i]))
  }

  method BuildBoundedTranscript(conversation: seq<Message>, maxChars: int) returns (r: Units, ghost from: nat)
    ensures maxChars <= 0 || conversation == [] ==> r == Join(Lines(conversation))
    ensures maxChars > 0 && conversation != [] ==>
      && |r| <= maxChars
      && Picked(conversation, from, Budget(maxChars))
      && Assembles(conversation, maxChars, from, r)
      // and it is well-formed text exactly if no message that is kept was cut within a pair
      && ((forall m <- conversation :: WellFormed(LineOf(m))) ==>
            (WellFormed(r) <==> forall m <- conversation[from..] :: !SplitsPair(m, Budget(maxChars))))
    // in the production range the marker and the suffix always fit, so nothing is cut
    ensures maxChars >= 80 && conversation != [] && |conversation| <= Power10(30) ==>
      r == Join(Markers(from) + Suffix(conversation, from, Budget(maxChars)))
  {
    hide WellFormed, LineOf, SplitsPair, Capped, Cost;
    from := 0;
    if maxChars <= 0 || conversation == [] {
      return Join(Lines(conversation)), 0;
    }
    var picked, firstIdx := PickNewest(conversation, Budget(maxChars));
    from := firstIdx;
    var assembled := Join(Markers(firstIdx) + picked);
    if maxChars >= 80 && |conversation| <= Power10(30) {
      NothingIsCut(conversation, firstIdx, maxChars);
    }
    if |assembled| <= maxChars {
      r := assembled;
    } else {
      var bare := Join(picked);
      if |bare| <= maxChars {
        r := bare;
      } else {
        r := HardCut(bare, maxChars);
      }
    }
    if forall m <- conversation :: WellFormed(LineOf(m)) {
      TranscriptExactly(conversation, maxChars, from, r);
    }
  }

  lemma NothingIsCut(conversation: seq<Message>, from: nat, maxChars: nat)
    requires maxChars >= 80 && Picked(conversation, from, Budget(maxChars)) && |conversation| <= Power10(30)
    ensures |Join(Markers(from) + Suffix(conversation, from, Budget(maxChars)))| <= maxChars
  {
    var budget := Budget(maxChars);
    var picked := Suffix(conversation, from, budget);
    CappedFits(conversation[from], budget);
    assert picked[0] == Capped(conversation[from], budget);
    if from == |conversation| - 1 { assert picked[1..] == []; }
    JoinLength(picked);
    assert |Join(picked)| <= budget;
    if from > 0 {
      MarkerLength(from);
      assert ([Marker(from)] + picked)[1..] == picked;
    } else {
      assert [] + picked == picked;
    }
  }

  // ---- what it says ------------------------------------------------------------------------------

  /** Exactly one suffix is picked: the longest that fits with a separator to spare, or else the newest
      message alone. */
  lemma PickedIsLongest(conversation: seq<Message>, from: nat, budget: nat)
    requires budget >= 1 && from < |conversation|
    ensures Picked(conversation, from, budget) <==>
      && (from == |conversation| - 1 || Fits(conversation, from, budget))
      && forall s: nat :: s < from ==> !Fits(conversation, s, budget)
  {
    hide Suffix, Join, Cost;
    forall s: nat | s < |conversation| ensures Fits(conversation, s, budget) <==> Cost(Suffix(conversation, s, budget)) <= budget {
      JoinLength(Suffix(conversation, s, budget));
    }
    forall s: nat | s < from ensures Cost(Suffix(conversation, from - 1, budget)) <= Cost(Suffix(conversation, s, budget)) {
      LongerCostsMore(conversation, s, from - 1, budget);
    }
  }

  ghost predicate Fits(conversation: seq<Message>, from: nat, budget: nat)
    requires budget >= 1 && from < |conversation|
  {
    |Join(Suffix(conversation, from, budget))| + 2 <= budget
  }

  lemma {:induction false} LongerCostsMore(conversation: seq<Message>, s: nat, from: nat, budget: nat)
    requires budget >= 1 && s <= from < |conversation|
    ensures Cost(Suffix(conversation, from, budget)) <= Cost(Suffix(conversation, s, budget))
    decreases from
  {
    hide Capped;
    if s < from {
      LongerCostsMore(conversation, s, from - 1, budget);
      assert Suffix(conversation, from - 1, budget)[1..] == Suffix(conversation, from, budget);
    }
  }

  /** A message in brackets and its content, if it has any: whole, or if it is too long its first units,
      with what says so. */
  predicate Shows(part: Units, m: Message, budget: nat) {
    var content, size := m.content.GetOr([]), |m.role| + 3 + |m.content.GetOr([])|;
    var kept := if size <= budget then size else if budget > 16 then budget - 15 else 1;
    && |part| >= kept && part[kept..] == (if size <= budget then [] else U(" \U{2026}[truncated]"))
    && forall i :: 0 <= i < kept ==>
         part[i] == if i == 0 then '[' as nat
                    else if i <= |m.role| then m.role[i - 1]
                    else if i == |m.role| + 1 then ']' as nat
                    else if i == |m.role| + 2 then ' ' as nat
                    else content[i - |m.role| - 3]
  }

  /** The number of messages left out, in decimal. */
  ghost predicate Tells(part: Units, count: nat) {
    exists digits :: DigitsSay(digits, count) && part == U("\U{2026} (") + U(digits) + U(" earlier message(s) elided) \U{2026}")
  }

  ghost predicate DigitsSay(digits: string, count: nat) {
    digits != "" && (forall c <- digits :: IsDigit(c)) && DigitsValue(digits) == count
  }

  /** The parts one after the other, each followed by an empty line. */
  function Ended(parts: seq<Units>): Units {
    if parts == [] then [] else Ended(parts[..|parts| - 1]) + parts[|parts| - 1] + ['\n' as nat, '\n' as nat]
  }

  lemma {:induction false} JoinIsEnded(parts: seq<Units>)
    requires parts != []
    ensures Join(parts) + U("\n\n") == Ended(parts)
  {
    assert U("\n\n") == ['\n' as nat, '\n' as nat];
    assert parts == [parts[0]] + parts[1..];
    EndedCons(parts[0], parts[1..]);
    if |parts| == 1 {
      assert parts[1..] == [];
    } else {
      JoinIsEnded(parts[1..]);
      Together(parts[0], U("\n\n"), Join(parts[1..]));
    }
  }

  lemma Together(a: Units, b: Units, c: Units)
    ensures (a + b + c) + b == a + b + (c + b)
  {}

  lemma {:induction false} EndedCons(part: Units, rest: seq<Units>)
    ensures Ended([part] + rest) == part + ['\n' as nat, '\n' as nat] + Ended(rest)
  {
    var parts := [part] + rest;
    if rest == [] {
      assert parts == [part] && parts[..0] == [];
    } else {
      assert parts[..|parts| - 1] == [part] + rest[..|rest| - 1];
      EndedCons(part, rest[..|rest| - 1]);
    }
  }

  lemma CappedShows(m: Message, budget: nat)
    requires budget >= 1
    ensures Shows(Capped(m, budget), m, budget)
  {
    var text := LineOf(m);
    assert |text| == |m.role| + 3 + |m.content.GetOr([])|;
    assert text[0] == '[' as nat && text[|m.role| + 1] == ']' as nat && text[|m.role| + 2] == ' ' as nat;
  }

  lemma MarkerTells(count: nat)
    ensures Tells(Marker(count), count)
  {
    assert DigitsSay(Decimal(count), count);
  }

  /** Nothing if no message is left out, and else the number of those that are. */
  ghost predicate Heads(parts: seq<Units>, from: nat) {
    if from == 0 then parts == [] else |parts| == 1 && Tells(parts[0], from)
  }

  /** The messages from there on, in order. */
  predicate ShowsAll(parts: seq<Units>, conversation: seq<Message>, from: nat, budget: nat)
    requires from <= |conversation|
  {
    |parts| == |conversation| - from && forall i :: 0 <= i < |parts| ==> Shows(parts[i], conversation[from + i], budget)
  }

  lemma SuffixShows(conversation: seq<Message>, from: nat, budget: nat)
    requires from <= |conversation| && budget >= 1
    ensures ShowsAll(Suffix(conversation, from, budget), conversation, from, budget)
    ensures Heads(Markers(from), from)
  {
    hide Shows, Tells, Capped, Marker;
    MarkerTells(from);
    var parts := Suffix(conversation, from, budget);
    forall i | 0 <= i < |parts| ensures Shows(parts[i], conversation[from + i], budget) {
      CappedShows(conversation[from + i], budget);
    }
  }

  /** From 80 units on, whatever fits of the newest messages is there in order, each as it is or cut at
      its own cap, behind the number of those that are not. */
  lemma TranscriptSays(conversation: seq<Message>, maxChars: nat, from: nat, r: Units)
    requires maxChars >= 80 && |conversation| <= Power10(30)
    requires Picked(conversation, from, Budget(maxChars)) && Assembles(conversation, maxChars, from, r)
    ensures exists head, tail ::
      r + U("\n\n") == Ended(head + tail) && Heads(head, from) && ShowsAll(tail, conversation, from, maxChars - 64)
  {
    hide Heads, ShowsAll, Join, Ended, HardCut, Power10, Cost, U, Markers, Suffix;
    NothingIsCut(conversation, from, maxChars);
    var head, tail := Markers(from), Suffix(conversation, from, Budget(maxChars));
    assert head + tail != [];
    JoinIsEnded(head + tail);
    SuffixShows(conversation, from, Budget(maxChars));
  }

  // ---- surrogate pairs ------------------------------------------------------------------------

  predicate LowSurrogate(u: nat) { 0xDC00 <= u <= 0xDFFF }

  /** A high surrogate at `i` is followed by a low one, and a low one follows a high one. */
  predicate Paired(s: Units, i: nat)
    requires i < |s|
  {
    && (HighSurrogate(s[i]) ==> i + 1 < |s| && LowSurrogate(s[i + 1]))
    && (LowSurrogate(s[i]) ==> i > 0 && HighSurrogate(s[i - 1]))
  }

  /** Well-formed UTF-16. */
  ghost predicate WellFormed(s: Units) {
    forall i :: 0 <= i < |s| ==> Paired(s, i)
  }

  predicate NoSurrogates(s: Units) {
    forall u <- s :: !HighSurrogate(u) && !LowSurrogate(u)
  }

  lemma PlainIsWellFormed(s: Units)
    requires NoSurrogates(s)
    ensures WellFormed(s)
  {
    assert forall i :: 0 <= i < |s| ==> s[i] in s;
  }

  /** A cut of well-formed text is well formed exactly if it does not end in a high surrogate. */
  lemma CutExactly(text: Units, k: nat)
    requires WellFormed(text) && 0 < k <= |text|
    ensures WellFormed(text[..k]) <==> !HighSurrogate(text[k - 1])
  {
    var cut := text[..k];
    if HighSurrogate(text[k - 1]) {
      assert !Paired(cut, k - 1);
    } else {
      forall i | 0 <= i < |cut| ensures Paired(cut, i) {
        assert Paired(text, i) && cut[i] == text[i];
      }
    }
  }

  /** Set beside text without surrogates, text is as well formed as it was. */
  lemma BesidePlain(a: Units, plain: Units, b: Units)
    requires NoSurrogates(plain) && plain != []
    ensures WellFormed(a + plain + b) <==> WellFormed(a) && WellFormed(b)
  {
    var s, k := a + plain + b, |a| + |plain|;
    forall i | 0 <= i < |a| ensures Paired(a, i) <==> Paired(s, i) {
      FrontPaired(a, plain, b, i);
    }
    forall i | 0 <= i < |b| ensures Paired(b, i) <==> Paired(s, k + i) {
      BackPaired(a, plain, b, i);
    }
    if WellFormed(s) {
      assert forall i {:trigger Paired(a, i)} :: 0 <= i < |a| ==> Paired(s, i);
      assert forall i {:trigger Paired(b, i)} :: 0 <= i < |b| ==> Paired(s, k + i);
    }
    if WellFormed(a) && WellFormed(b) {
      forall i | 0 <= i < |s| ensures Paired(s, i) {
        if i < |a| {
          assert Paired(a, i);
        } else if i >= k {
          assert Paired(b, i - k) && k + (i - k) == i;
        } else {
          assert s[i] == plain[i - |a|] && plain[i - |a|] in plain;
        }
      }
    }
  }

  lemma FrontPaired(a: Units, plain: Units, b: Units, i: nat)
    requires NoSurrogates(plain) && plain != [] && i < |a|
    ensures Paired(a, i) <==> Paired(a + plain + b, i)
  {
    var s := a + plain + b;
    assert s[i] == a[i] && s[|a|] == plain[0] && plain[0] in plain;
    if i > 0 { assert s[i - 1] == a[i - 1]; }
    if i + 1 < |a| { assert s[i + 1] == a[i + 1]; }
  }

  lemma BackPaired(a: Units, plain: Units, b: Units, i: nat)
    requires NoSurrogates(plain) && plain != [] && i < |b|
    ensures Paired(b, i) <==> Paired(a + plain + b, |a| + |plain| + i)
  {
    var s, k := a + plain + b, |a| + |plain|;
    assert s[k + i] == b[i] && s[k - 1] == plain[|plain| - 1] && plain[|plain| - 1] in plain;
    if i > 0 { assert s[k + i - 1] == b[i - 1]; }
    if i + 1 < |b| { assert s[k + i + 1] == b[i + 1]; }
  }

  /** The last cut keeps pairs whole. */
  lemma HardCutIsWellFormed(text: Units, maxChars: nat)
    requires WellFormed(text) && 0 < maxChars <= |text|
    ensures WellFormed(HardCut(text, maxChars))
  {
    if !HighSurrogate(text[maxChars - 1]) {
      CutExactly(text, maxChars);
    } else if maxChars > 1 {
      assert Paired(text, maxChars - 2);
      CutExactly(text, maxChars - 1);
    }
  }

  /** The message is too long, and the cap falls between the two halves of a pair. */
  predicate SplitsPair(m: Message, budget: nat)
    requires budget >= 1
  {
    |LineOf(m)| > budget && HighSurrogate(LineOf(m)[Max(1, budget - 15) - 1])
  }

  /** The two halves of the surrogate range. */
  lemma Surrogates(u: nat)
    ensures HighSurrogate(u) <==> u / 0x400 == 0x36
    ensures LowSurrogate(u) <==> u / 0x400 == 0x37
  {}

  lemma TruncationMark()
    ensures NoSurrogates(U(" \U{2026}[truncated]")) && NoSurrogates(U("\n\n"))
  {}

  /** The cap on a message keeps its text well formed exactly if it does not split a pair. */
  lemma CapExactly(m: Message, budget: nat)
    requires budget >= 1 && WellFormed(LineOf(m))
    ensures WellFormed(Capped(m, budget)) <==> !SplitsPair(m, budget)
  {
    hide WellFormed, NoSurrogates, LineOf;
    var text, k := LineOf(m), Max(1, budget - 15);
    if |text| > budget {
      TruncationMark();
      CutExactly(text, k);
      BesidePlain(text[..k], U(" \U{2026}[truncated]"), []);
      assert WellFormed([]) by { NothingIsWellFormed(); }
      assert text[..k] + U(" \U{2026}[truncated]") + [] == Capped(m, budget);
    }
  }

  lemma NothingIsWellFormed()
    ensures WellFormed([])
  {}

  lemma {:induction false} JoinExactly(parts: seq<Units>)
    ensures WellFormed(Join(parts)) <==> forall p <- parts :: WellFormed(p)
  {
    hide WellFormed, NoSurrogates;
    if parts == [] {
      NothingIsWellFormed();
    } else if |parts| == 1 {
    } else {
      JoinExactly(parts[1..]);
      TruncationMark();
      BesidePlain(parts[0], U("\n\n"), Join(parts[1..]));
      assert parts == [parts[0]] + parts[1..];
    }
  }

  lemma MarkerIsPlain(count: nat)
    ensures WellFormed(Marker(count))
  {
    hide WellFormed;
    forall i | 0 <= i < |U(Decimal(count))| ensures 48 <= U(Decimal(count))[i] <= 57 {
      assert Decimal(count)[i] in Decimal(count);
    }
    PlainIsWellFormed(Marker(count));
  }

  /** Below a budget of sixteen the cap falls right after the opening bracket. */
  lemma SmallCapsSplitNothing(m: Message, budget: nat)
    requires 1 <= budget < 17
    ensures !SplitsPair(m, budget)
  {
    assert U("[")[0] == 0x5B;
  }

  /** For every conversation of well-formed messages and every positive length: the transcript is
      well formed exactly if no message that is kept has a pair split by its own cap. */
  lemma TranscriptExactly(conversation: seq<Message>, maxChars: nat, from: nat, r: Units)
    requires maxChars > 0 && forall m <- conversation :: WellFormed(LineOf(m))
    requires Picked(conversation, from, Budget(maxChars)) && Assembles(conversation, maxChars, from, r)
    ensures WellFormed(r) <==> forall m <- conversation[from..] :: !SplitsPair(m, Budget(maxChars))
  {
    hide WellFormed, Join, Marker, SplitsPair, LineOf;
    var budget := Budget(maxChars);
    var picked := Suffix(conversation, from, budget);
    PartsExactly(conversation, from, budget);
    JoinExactly(picked);
    JoinExactly(Markers(from) + picked);
    MarkerIsPlain(from);
    assert forall p <- Markers(from) + picked :: p in picked || p == Marker(from);
    assert forall p <- picked :: p in Markers(from) + picked;
    if r != Join(Markers(from) + picked) && r != Join(picked) {
      if budget >= 16 { BareFits(conversation, from, maxChars); }
      forall m | m in conversation[from..] ensures !SplitsPair(m, budget) { SmallCapsSplitNothing(m, budget); }
      HardCutIsWellFormed(Join(picked), maxChars);
    }
  }

  lemma PartsExactly(conversation: seq<Message>, from: nat, budget: nat)
    requires from <= |conversation| && budget >= 1 && forall m <- conversation :: WellFormed(LineOf(m))
    ensures (forall p <- Suffix(conversation, from, budget) :: WellFormed(p))
       <==> forall m <- conversation[from..] :: !SplitsPair(m, budget)
  {
    hide WellFormed, LineOf, SplitsPair, Capped;
    var parts, kept := Suffix(conversation, from, budget), conversation[from..];
    forall i | 0 <= i < |kept| ensures parts[i] == Capped(kept[i], budget) && (WellFormed(parts[i]) <==> !SplitsPair(kept[i], budget)) {
      assert kept[i] == conversation[from + i] && kept[i] in conversation;
      CapExactly(kept[i], budget);
    }
    if forall p <- parts :: WellFormed(p) {
      forall m | m in kept ensures !SplitsPair(m, budget) {
        var i :| 0 <= i < |kept| && kept[i] == m;
        assert parts[i] in parts;
      }
    }
    if forall m <- kept :: !SplitsPair(m, budget) {
      forall p | p in parts ensures WellFormed(p) {
        var i :| 0 <= i < |parts| && parts[i] == p;
        assert kept[i] in kept;
      }
    }
  }

  /** From a budget of sixteen on, the suffix fits without its marker and is not cut. */
  lemma BareFits(conversation: seq<Message>, from: nat, maxChars: nat)
    requires Budget(maxChars) >= 16 && Picked(conversation, from, Budget(maxChars))
    ensures |Join(Suffix(conversation, from, Budget(maxChars)))| <= maxChars
  {
    hide Join, Capped;
    var budget := Budget(maxChars);
    var picked := Suffix(conversation, from, budget);
    JoinLength(picked);
    CappedFits(conversation[from], budget);
    if from == |conversation| - 1 { assert picked == [Capped(conversation[from], budget)]; }
  }

  /** It happens: for every budget from 23 on, a tool result that is too long and has an emoji
      where the cap falls is left with half of it. */
  lemma CapSplitsPairs(budget: nat)
    requires budget >= 23
    ensures var m := Message(U("tool"), Some(seq(budget - 23, _ => 0x61) + [0xD83D, 0xDE00] + seq(budget, _ => 0x61)));
      WellFormed(LineOf(m)) && SplitsPair(m, budget) && !WellFormed(Capped(m, budget))
  {
    var filler, after: Units := seq(budget - 23, _ => 0x61), seq(budget, _ => 0x61);
    var m := Message(U("tool"), Some(filler + [0xD83D, 0xDE00] + after));
    var text := LineOf(m);
    assert text == U("[tool] ") + filler + [0xD83D, 0xDE00] + after;
    assert text[budget - 16] == 0xD83D;
    assert WellFormed(text) by {
      forall i | 0 <= i < |text| ensures Paired(text, i) {
        assert HighSurrogate(text[i]) <==> i == budget - 16;
        assert LowSurrogate(text[i]) <==> i == budget - 15;
      }
    }
    CapExactly(m, budget);
  }
}
