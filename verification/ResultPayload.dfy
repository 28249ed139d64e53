// agent-runner.ts: `resultPayload`.
module ResultPayload {
  import opened Results
  import opened StableSort

  /** A finding whose detail is a nonempty string, and anything else. */
  datatype Finding = Finding(detail: string, source: Option<string>, confidence: Option<string>) | NoFinding

  /** What `JSON.stringify` gives, never an empty string. */
  type Stringified = s: string | s != "" witness "{}"

  /** The arguments of an `agent_result` call: a string, a record of which the string properties
      and the findings are looked at, or another value. `json` is what `JSON.stringify` makes of it. */
  datatype Args =
    | TextArgs(text: string)
    | RecordArgs(summary: Option<string>, findings: seq<Finding>, result: Option<string>, json: Stringified)
    | OtherArgs(json: Stringified)

  function FormatFinding(f: Finding): Option<string> {
    if f.NoFinding? || f.detail == "" then None
    else
      var source := if f.source.GetOr("") != "" then " (" + f.source.value + ")" else "";
      var confidence := if f.confidence.Some? then " [" + f.confidence.value + "]" else "";
      Some("- " + f.detail + source + confidence)
  }

  function Lines(findings: seq<Finding>): seq<string> {
    if findings == [] then []
    else
      var line := FormatFinding(findings[0]);
      (if line.Some? then [line.value] else []) + Lines(findings[1..])
  }

  /** `[summary, ...lines].filter(nonempty).join("\n")` */
  function JoinLines(lines: seq<string>): string {
    if lines == [] then "" else if |lines| == 1 then lines[0] else lines[0] + "\n" + JoinLines(lines[1..])
  }

  function Payload(a: Args): string {
    match a
    case TextArgs(text) => text
    case OtherArgs(json) => json
    case RecordArgs(summary, findings, result, json) =>
      var lines := Lines(findings);
      if summary.GetOr("") == "" && lines == [] then result.GetOr(json)
      else JoinLines((if summary.GetOr("") == "" then [] else [summary.value]) + lines)
  }

  /** Nothing to render, and an empty `result` to fall back on. */
  predicate SaysNothing(a: Args) {
    if a.RecordArgs? then a.summary.GetOr("") == "" && (forall f <- a.findings :: FormatFinding(f) == None) && a.result == Some("")
    else a == TextArgs("")
  }

  lemma {:induction false} LinesAreThere(findings: seq<Finding>)
    ensures Lines(findings) == [] <==> forall f <- findings :: FormatFinding(f) == None
    ensures forall line <- Lines(findings) :: line != ""
  {
    hide FormatFinding;
    if findings != [] {
      LinesAreThere(findings[1..]);
      assert findings == [findings[0]] + findings[1..];
      assert FormatFinding(findings[0]).Some? ==> FormatFinding(findings[0]).value != "" by { LineIsNotEmpty(findings[0]); }
    }
  }

  lemma LineIsNotEmpty(f: Finding)
    ensures FormatFinding(f).Some? ==> FormatFinding(f).value != ""
  {}

  /** The payload is empty exactly when the arguments say nothing. */
  lemma EmptyPayload(a: Args)
    ensures Payload(a) == "" <==> SaysNothing(a)
  {
    hide FormatFinding;
    if a.RecordArgs? {
      LinesAreThere(a.findings);
      var parts := (if a.summary.GetOr("") == "" then [] else [a.summary.value]) + Lines(a.findings);
      assert parts != [] ==> parts[0] in parts && parts[0] != "";
    }
  }

  /** And it can be: `{ result: "" }`. */
  lemma EmptyResultIsEmpty(json: Stringified)
    ensures Payload(RecordArgs(None, [], Some(""), json)) == ""
  {}

  // ---- what a payload says ------------------------------------------------------------------

  predicate Renders(f: Finding) {
    f.Finding? && f.detail != ""
  }

  /** A finding's line: a dash and its detail, its source in parentheses if it has one, its confidence
      in brackets if it has one. */
  predicate IsLineOf(line: string, f: Finding) {
    && Renders(f)
    && line == "- " + f.detail
             + (match f.source case Some(source) => if source == "" then "" else " (" + source + ")" case None => "")
             + (match f.confidence case Some(confidence) => " [" + confidence + "]" case None => "")
  }

  /** The summary unless it is empty, then the line of every finding with a detail, in order. */
  ghost predicate AreParts(parts: seq<string>, summary: string, shown: seq<Finding>)  {
    var first := if summary == "" then 0 else 1;
    && |parts| == first + |shown|
    && (summary != "" ==> parts[0] == summary)
    && forall i :: 0 <= i < |shown| ==> IsLineOf(parts[first + i], shown[i])
  }

  /** Every part on a line of its own, the last one ended too. */
  function Ended(parts: seq<string>): string {
    if parts == [] then "" else Ended(parts[..|parts| - 1]) + parts[|parts| - 1] + "\n"
  }

  /** What a result says: a text as it is, a record's summary and findings, or else its `result`, or
      else what it is as JSON. */
  ghost predicate Says(a: Args, text: string) {
    match a
    case TextArgs(t) => text == t
    case OtherArgs(json) => text == json
    case RecordArgs(summary, findings, result, json) =>
      var shown, headline := Filter(Renders, findings), summary.GetOr("");
      if headline == "" && shown == [] then text == result.GetOr(json)
      else
        exists parts :: AreParts(parts, headline, shown) && text + "\n" == Ended(parts)
  }

  lemma {:induction false} EndedCons(part: string, rest: seq<string>)
    ensures Ended([part] + rest) == part + "\n" + Ended(rest)
  {
    var parts := [part] + rest;
    if rest == [] {
      assert parts == [part] && parts[..0] == [];
    } else {
      assert parts[..|parts| - 1] == [part] + rest[..|rest| - 1];
      EndedCons(part, rest[..|rest| - 1]);
    }
  }

  lemma {:induction false} JoinIsEnded(parts: seq<string>)
    requires parts != []
    ensures JoinLines(parts) + "\n" == Ended(parts)
  {
    assert parts == [parts[0]] + parts[1..];
    EndedCons(parts[0], parts[1..]);
    if |parts| == 1 {
      assert parts[1..] == [];
    } else {
      JoinIsEnded(parts[1..]);
    }
  }

  lemma LineIsLine(f: Finding)
    ensures FormatFinding(f).Some? <==> Renders(f)
    ensures Renders(f) ==> IsLineOf(FormatFinding(f).value, f)
    ensures forall line :: IsLineOf(line, f) ==> line == FormatFinding(f).value
  {}

  lemma {:induction false} LinesAreLines(findings: seq<Finding>)
    ensures var shown := Filter(Renders, findings);
      && |Lines(findings)| == |shown|
      && forall i :: 0 <= i < |shown| ==> IsLineOf(Lines(findings)[i], shown[i])
  {
    hide IsLineOf, FormatFinding, Renders;
    if findings != [] {
      LinesAreLines(findings[1..]);
      LineIsLine(findings[0]);
    }
  }

  lemma PartsAreUnique(a: seq<string>, b: seq<string>, summary: string, shown: seq<Finding>)
    requires AreParts(a, summary, shown) && AreParts(b, summary, shown)
    ensures a == b
  {
    hide IsLineOf, FormatFinding, Renders;
    var first := if summary == "" then 0 else 1;
    forall k: nat | k < |a| ensures a[k] == b[k] {
      if k >= first {
        LineIsLine(shown[k - first]);
        assert IsLineOf(a[first + (k - first)], shown[k - first]) && IsLineOf(b[first + (k - first)], shown[k - first]);
      }
    }
  }

  function Parts(summary: string, findings: seq<Finding>): seq<string> {
    (if summary == "" then [] else [summary]) + Lines(findings)
  }

  lemma PartsSay(summary: string, findings: seq<Finding>, text: string)
    requires Parts(summary, findings) != []
    ensures (exists parts :: AreParts(parts, summary, Filter(Renders, findings)) && text + "\n" == Ended(parts))
       <==> text == JoinLines(Parts(summary, findings))
  {
    hide IsLineOf, FormatFinding, Renders, JoinLines, Ended, Lines, Filter;
    var parts, shown := Parts(summary, findings), Filter(Renders, findings);
    LinesAreLines(findings);
    assert AreParts(parts, summary, shown);
    JoinIsEnded(parts);
    if other :| AreParts(other, summary, shown) && text + "\n" == Ended(other) {
      PartsAreUnique(parts, other, summary, shown);
      var payload := JoinLines(parts);
      assert (text + "\n")[..|text|] == text && (payload + "\n")[..|payload|] == payload;
    }
  }

  /** The payload is what the result says, and nothing else is. */
  lemma PayloadSays(a: Args, text: string)
    ensures Says(a, text) <==> text == Payload(a)
  {
    hide FormatFinding, Renders, JoinLines, Lines, Filter, AreParts;
    if a.RecordArgs? {
      LinesAreLines(a.findings);
      if a.summary.GetOr("") != "" || Lines(a.findings) != [] {
        PartsSay(a.summary.GetOr(""), a.findings, text);
      }
    }
  }
}
