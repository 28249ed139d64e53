// session-store.ts: redaction, and its cache.
module RedactCache {
  import opened Results

  /** What a number, an object or a list is written as, and the strings that it has inside. */
  datatype Nested = Nested(json: string, strings: set<string>)

  /** An argument's value: a string, or anything else. In a message that is the object itself, by
      its identity (`N` is `nat`), and on disk what it was written as (`N` is `Nested`). */
  datatype Value<N> = Text(s: string) | Other(nested: N)

  /** A call's arguments in property order. */
  datatype Call<N> = Call(id: Option<string>, name: string, arguments: seq<(string, Value<N>)>)

  /** The array of calls: the array object itself, and what it holds at the moment. */
  datatype Calls = Calls(identity: nat, items: seq<Call<nat>>)

  /** The fields a save copies without a look at them. */
  datatype Rest = Rest(role: string, toolCallId: Option<string>, reasoningContent: Option<string>)

  /** What a message object holds at the moment. */
  datatype Message = Message(content: string, toolCalls: Option<Calls>, rest: Rest)

  /** A message's fields; the copy that is saved has an array of calls of its own, but the nested
      objects are the message's. */
  datatype Fields<N> = Fields(content: string, toolCalls: Option<seq<Call<N>>>, rest: Rest)

  /** The two scrubbers, for prose and for code. */
  datatype Scrub = Scrub(text: string -> string, code: string -> string)

  const CODE_ARG_KEYS := {"content", "oldString", "newString"}

  // ---- from scratch ---------------------------------------------------------------------------

  function RedactArg<N>(s: Scrub, arg: (string, Value<N>)): (string, Value<N>) {
    if arg.1.Other? then arg
    else (arg.0, Text(if arg.0 in CODE_ARG_KEYS then s.code(arg.1.s) else s.text(arg.1.s)))
  }

  function RedactCall<N>(s: Scrub, call: Call<N>): Call<N> {
    call.(arguments := seq(|call.arguments|, i requires 0 <= i < |call.arguments| => RedactArg(s, call.arguments[i])))
  }

  function RedactCalls<N>(s: Scrub, calls: seq<Call<N>>): seq<Call<N>> {
    seq(|calls|, i requires 0 <= i < |calls| => RedactCall(s, calls[i]))
  }

  function RedactFields<N>(s: Scrub, f: Fields<N>): Fields<N> {
    Fields(s.text(f.content), if f.toolCalls.None? then None else Some(RedactCalls(s, f.toolCalls.value)), f.rest)
  }

  function FieldsOf(m: Message): Fields<nat> {
    Fields(m.content, if m.toolCalls.None? then None else Some(m.toolCalls.value.items), m.rest)
  }

  function Redact(s: Scrub, m: Message): Fields<nat> {
    RedactFields(s, FieldsOf(m))
  }

  // ---- what is written ------------------------------------------------------------------------

  /** What every nested object holds at the moment. */
  type Inside = nat -> Nested

  function ArgOnDisk(inside: Inside, arg: (string, Value<nat>)): (string, Value<Nested>) {
    (arg.0, if arg.1.Text? then Text(arg.1.s) else Other(inside(arg.1.nested)))
  }

  function CallOnDisk(inside: Inside, call: Call<nat>): Call<Nested> {
    Call(call.id, call.name,
         seq(|call.arguments|, i requires 0 <= i < |call.arguments| => ArgOnDisk(inside, call.arguments[i])))
  }

  function CallsOnDisk(inside: Inside, calls: seq<Call<nat>>): seq<Call<Nested>> {
    seq(|calls|, i requires 0 <= i < |calls| => CallOnDisk(inside, calls[i]))
  }

  /** The fields as they are written when the nested objects hold this. */
  function OnDisk(inside: Inside, f: Fields<nat>): Fields<Nested> {
    Fields(f.content, if f.toolCalls.None? then None else Some(CallsOnDisk(inside, f.toolCalls.value)), f.rest)
  }

  /** Redaction and writing do not interfere. */
  lemma RedactsOnDisk(s: Scrub, inside: Inside, f: Fields<nat>)
    ensures OnDisk(inside, RedactFields(s, f)) == RedactFields(s, OnDisk(inside, f))
  {
    if f.toolCalls.Some? {
      var calls := f.toolCalls.value;
      forall i | 0 <= i < |calls|
        ensures CallOnDisk(inside, RedactCall(s, calls[i])) == RedactCall(s, CallOnDisk(inside, calls[i]))
      {
        assert CallOnDisk(inside, RedactCall(s, calls[i])).arguments == RedactCall(s, CallOnDisk(inside, calls[i])).arguments;
      }
      assert CallsOnDisk(inside, RedactCalls(s, calls)) == RedactCalls(s, CallsOnDisk(inside, calls));
    }
  }

  // ---- which strings are scrubbed ---------------------------------------------------------------

  predicate ArgHas(arg: (string, Value<Nested>), x: string) {
    arg.0 == x || (arg.1.Other? && x in arg.1.nested.strings)
  }

  predicate RestHas(rest: Rest, x: string) {
    rest.role == x || rest.toolCallId == Some(x) || rest.reasoningContent == Some(x)
  }

  /** `x` is somewhere in the message where redaction does not look: a copied field, a call's id
      or name, an argument's name, or inside an argument that is not itself a string. */
  predicate Unread(f: Fields<Nested>, x: string) {
    || RestHas(f.rest, x)
    || (f.toolCalls.Some? && exists c <- f.toolCalls.value ::
          c.id == Some(x) || c.name == x || exists a <- c.arguments :: ArgHas(a, x))
  }

  /** `x` is what a scrubber made of the content or of a string argument. */
  predicate Scrubbed(s: Scrub, f: Fields<Nested>, x: string) {
    || s.text(f.content) == x
    || (f.toolCalls.Some? && exists c <- f.toolCalls.value :: exists a <- c.arguments :: ArgScrubbed(s, a, x))
  }

  predicate CallHas(c: Call<Nested>, x: string) {
    c.id == Some(x) || c.name == x || exists a <- c.arguments :: ArgWrites(a, x)
  }

  /** `x` is written to disk. */
  predicate Writes(saved: Fields<Nested>, x: string) {
    saved.content == x || RestHas(saved.rest, x) || (saved.toolCalls.Some? && exists c <- saved.toolCalls.value :: CallHas(c, x))
  }

  /** An argument as written, and what is to be said of it beforehand. */
  predicate ArgWrites(arg: (string, Value<Nested>), x: string) {
    ArgHas(arg, x) || arg.1 == Text(x)
  }

  predicate ArgScrubbed(s: Scrub, arg: (string, Value<Nested>), x: string) {
    arg.1.Text? && x == if IsCode(arg.0) then s.code(arg.1.s) else s.text(arg.1.s)
  }

  /** An argument that holds a file's text. */
  predicate IsCode(name: string) {
    name == "content" || name == "oldString" || name == "newString"
  }

  lemma ArgExactly(s: Scrub, arg: (string, Value<Nested>), x: string)
    ensures ArgWrites(RedactArg(s, arg), x) <==> ArgHas(arg, x) || ArgScrubbed(s, arg, x)
  {}

  lemma CallExactly(s: Scrub, c: Call<Nested>, x: string)
    ensures CallHas(RedactCall(s, c), x) <==>
      || c.id == Some(x) || c.name == x
      || (exists a <- c.arguments :: ArgHas(a, x))
      || (exists a <- c.arguments :: ArgScrubbed(s, a, x))
  {
    hide ArgHas, ArgScrubbed, ArgWrites, RedactArg;
    var args, args' := c.arguments, RedactCall(s, c).arguments;
    forall i | 0 <= i < |args|
      ensures args'[i] in args' && args[i] in args
      ensures ArgWrites(args'[i], x) <==> ArgHas(args[i], x) || ArgScrubbed(s, args[i], x)
    {
      ArgExactly(s, args[i], x);
    }
    if a :| a in args' && ArgWrites(a, x) {
      var i :| 0 <= i < |args'| && args'[i] == a;
      assert ArgHas(args[i], x) || ArgScrubbed(s, args[i], x);
    }
    if a :| a in args && (ArgHas(a, x) || ArgScrubbed(s, a, x)) {
      var i :| 0 <= i < |args| && args[i] == a;
      assert ArgWrites(args'[i], x);
    }
  }

  lemma CallsExactly(s: Scrub, calls: seq<Call<Nested>>, x: string)
    ensures (exists c <- RedactCalls(s, calls) :: CallHas(c, x)) <==> exists c <- calls :: CallHas(RedactCall(s, c), x)
  {
    hide CallHas, RedactCall;
    var calls' := RedactCalls(s, calls);
    if c' :| c' in calls' && CallHas(c', x) {
      var i :| 0 <= i < |calls'| && calls'[i] == c';
      assert calls[i] in calls && CallHas(RedactCall(s, calls[i]), x);
    }
    if c :| c in calls && CallHas(RedactCall(s, c), x) {
      var i :| 0 <= i < |calls| && calls[i] == c;
      assert calls'[i] in calls' && CallHas(calls'[i], x);
    }
  }

  /** Exactly what a redacted message has in it: scrubbed strings, and the unread ones as they are. */
  lemma WritesExactly(s: Scrub, f: Fields<Nested>, x: string)
    ensures Writes(RedactFields(s, f), x) <==> Scrubbed(s, f, x) || Unread(f, x)
  {
    hide CallHas, ArgHas, ArgScrubbed, RestHas, RedactCall, RedactCalls;
    if f.toolCalls.Some? {
      CallsExactly(s, f.toolCalls.value, x);
      forall c | c in f.toolCalls.value { CallExactly(s, c, x); }
    }
  }

  /** The scrubbers never let `x` through. */
  ghost predicate KeepsOut(s: Scrub, x: string) {
    forall t :: s.text(t) != x && s.code(t) != x
  }

  /** So a string that every scrubber keeps out is written exactly when it stands where none looks. */
  lemma WrittenIffUnread(s: Scrub, f: Fields<Nested>, x: string)
    requires KeepsOut(s, x)
    ensures Writes(RedactFields(s, f), x) <==> Unread(f, x)
  {
    WritesExactly(s, f, x);
  }

  ghost predicate ProseKeepsOut(s: Scrub, x: string) {
    forall t :: s.text(t) != x
  }

  ghost predicate CodeKeepsOut(s: Scrub, x: string) {
    forall t :: s.code(t) != x
  }

  /** A string argument that the scrubber for code, or that for prose, turns into `x`. */
  predicate CodeGives(s: Scrub, f: Fields<Nested>, x: string) {
    f.toolCalls.Some? && exists c <- f.toolCalls.value :: exists a <- c.arguments ::
      a.1.Text? && a.0 in {"content", "oldString", "newString"} && s.code(a.1.s) == x
  }

  predicate ProseGives(s: Scrub, f: Fields<Nested>, x: string) {
    f.toolCalls.Some? && exists c <- f.toolCalls.value :: exists a <- c.arguments ::
      a.1.Text? && a.0 !in {"content", "oldString", "newString"} && s.text(a.1.s) == x
  }

  /** Where only one of the scrubbers keeps a string out, it is written from the places that the
      other one reads: from the arguments with a file's text if that is the one for code, from the
      content and all other string arguments if it is the one for prose. */
  lemma WrittenByTheOther(s: Scrub, f: Fields<Nested>, x: string)
    ensures ProseKeepsOut(s, x) ==> (Writes(RedactFields(s, f), x) <==> Unread(f, x) || CodeGives(s, f, x))
    ensures CodeKeepsOut(s, x) ==>
      (Writes(RedactFields(s, f), x) <==> Unread(f, x) || s.text(f.content) == x || ProseGives(s, f, x))
  {
    WritesExactly(s, f, x);
    hide Writes, RedactFields, Unread;
  }

  /** As the chain of thought does, and a string in a list that is an argument. */
  lemma ReasoningIsWritten(s: Scrub, json: string, x: string)
    ensures Writes(RedactFields(s, Fields("", None, Rest("assistant", None, Some(x)))), x)
    ensures var call := Call(None, "run", [("args", Other(Nested(json, {x})))]);
      Writes(RedactFields(s, Fields("", Some([call]), Rest("assistant", None, None))), x)
  {
    var call := Call(None, "run", [("args", Other(Nested(json, {x})))]);
    var nested := Fields("", Some([call]), Rest("assistant", None, None));
    assert ArgHas(call.arguments[0], x) && call in nested.toolCalls.value;
    WritesExactly(s, nested, x);
  }

  // ---- the stamp ------------------------------------------------------------------------------

  function ArgLength(v: Value<nat>): nat {
    if v.Text? then |v.s| else 1
  }

  function ArgsLength(arguments: seq<(string, Value<nat>)>): nat {
    if arguments == [] then 0 else ArgsLength(arguments[..|arguments| - 1]) + ArgLength(arguments[|arguments| - 1].1)
  }

  function CallsLength(calls: seq<Call<nat>>): nat {
    if calls == [] then 0
    else
      var last := calls[|calls| - 1];
      CallsLength(calls[..|calls| - 1]) + |last.name| + ArgsLength(last.arguments)
  }

  function Stamp(calls: Option<Calls>): int {
    if calls.None? then -1 else CallsLength(calls.value.items)
  }

  /** `argsStamp` */
  method ArgsStamp(calls: Option<Calls>) returns (n: int)
    ensures n == Stamp(calls)
  {
    if calls.None? { return -1; }
    var items := calls.value.items;
    n := 0;
    var i := 0;
    while i < |items|
      invariant i <= |items| && n == CallsLength(items[..i])
    {
      var call := items[i];
      assert items[..i + 1][..i] == items[..i];
      n := n + |call.name|;
      var j := 0;
      while j < |call.arguments|
        invariant j <= |call.arguments| && n == CallsLength(items[..i]) + |call.name| + ArgsLength(call.arguments[..j])
      {
        assert call.arguments[..j + 1][..j] == call.arguments[..j];
        var value := call.arguments[j].1;
        n := n + if value.Text? then |value.s| else 1;
        j := j + 1;
      }
      assert call.arguments[..j] == call.arguments;
      i := i + 1;
    }
    assert items[..i] == items;
  }

  /** What a cached redaction is checked against. */
  datatype Key = Key(content: string, holder: Option<nat>, stamp: int)

  function KeyOf(m: Message): Key {
    Key(m.content, if m.toolCalls.None? then None else Some(m.toolCalls.value.identity), Stamp(m.toolCalls))
  }

  // ---- the cache ------------------------------------------------------------------------------

  datatype Entry = Entry(key: Key, redacted: Fields<nat>)

  type Cache = map<nat, Entry>

  /** The messages, by object, as they are at the moment of a save. */
  type Heap = map<nat, Message>

  predicate Hit(cache: Cache, id: nat, m: Message) {
    id in cache && cache[id].key == KeyOf(m)
  }

  function Cached(s: Scrub, cache: Cache, id: nat, m: Message): Cache {
    if Hit(cache, id, m) then cache else cache[id := Entry(KeyOf(m), Redact(s, m))]
  }

  function CachedAll(s: Scrub, cache: Cache, ids: seq<nat>, heap: Heap): Cache
    requires forall id <- ids :: id in heap
  {
    if ids == [] then cache
    else
      var last := ids[|ids| - 1];
      Cached(s, CachedAll(s, cache, ids[..|ids| - 1], heap), last, heap[last])
  }

  class Redactor {
    const scrub: Scrub
    var redactedCache: Cache

    constructor (scrub: Scrub)
      ensures this.scrub == scrub && redactedCache == map[]
    {
      this.scrub := scrub;
      redactedCache := map[];
    }

    /** `redactArgs`: the object is filled key by key. */
    method RedactArgs(args: seq<(string, Value<nat>)>) returns (out: seq<(string, Value<nat>)>)
      ensures |out| == |args| && forall i :: 0 <= i < |args| ==> out[i] == RedactArg(scrub, args[i])
    {
      out := [];
      var i := 0;
      while i < |args|
        invariant i <= |args| && |out| == i && forall k :: 0 <= k < i ==> out[k] == RedactArg(scrub, args[k])
      {
        var (key, value) := args[i];
        if value.Other? {
          out := out + [(key, value)];
        } else {
          out := out + [(key, Text(if key in CODE_ARG_KEYS then scrub.code(value.s) else scrub.text(value.s)))];
        }
        i := i + 1;
      }
    }

    method RedactToolCalls(calls: seq<Call<nat>>) returns (out: seq<Call<nat>>)
      ensures out == RedactCalls(scrub, calls)
    {
      out := [];
      var i := 0;
      while i < |calls|
        invariant i <= |calls| && |out| == i && forall k :: 0 <= k < i ==> out[k] == RedactCall(scrub, calls[k])
      {
        var arguments := RedactArgs(calls[i].arguments);
        assert arguments == RedactCall(scrub, calls[i]).arguments;
        out := out + [calls[i].(arguments := arguments)];
        i := i + 1;
      }
    }

    method RedactOne(id: nat, message: Message) returns (redacted: Fields<nat>)
      modifies this
      ensures redactedCache == Cached(scrub, old(redactedCache), id, message)
      ensures id in redactedCache && redacted == redactedCache[id].redacted
    {
      var stamp := ArgsStamp(message.toolCalls);
      var holder := if message.toolCalls.None? then None else Some(message.toolCalls.value.identity);
      if id in redactedCache {
        var hit := redactedCache[id];
        if hit.key.content == message.content && hit.key.holder == holder && hit.key.stamp == stamp {
          return hit.redacted;
        }
      }
      var toolCalls: Option<seq<Call<nat>>> := None;
      if message.toolCalls.Some? {
        var calls := RedactToolCalls(message.toolCalls.value.items);
        toolCalls := Some(calls);
      }
      redacted := Fields(scrub.text(message.content), toolCalls, message.rest);
      redactedCache := redactedCache[id := Entry(Key(message.content, holder, stamp), redacted)];
    }

    /** `redactMessages` */
    method RedactMessages(ids: seq<nat>, heap: Heap) returns (out: seq<Fields<nat>>)
      requires forall id <- ids :: id in heap
      modifies this
      ensures redactedCache == CachedAll(scrub, old(redactedCache), ids, heap)
      ensures |out| == |ids|
      ensures forall i :: 0 <= i < |ids| ==> ids[i] in redactedCache && out[i] == redactedCache[ids[i]].redacted
    {
      hide Redact, KeyOf;
      out := [];
      var i := 0;
      while i < |ids|
        invariant i <= |ids| && |out| == i && redactedCache == CachedAll(scrub, old(redactedCache), ids[..i], heap)
        invariant forall k :: 0 <= k < i ==> ids[k] in redactedCache && out[k] == redactedCache[ids[k]].redacted
        invariant forall k :: 0 <= k < i ==> redactedCache[ids[k]].key == KeyOf(heap[ids[k]])
      {
        assert ids[..i + 1][..i] == ids[..i] && ids[i] in heap;
        var redacted := RedactOne(ids[i], heap[ids[i]]);
        out := out + [redacted];
        i := i + 1;
      }
      assert ids[..i] == ids;
    }
  }

  // ---- histories ------------------------------------------------------------------------------

  /** One save: which messages, and what every message and every nested object holds then. Between
      saves anything may be appended or edited. */
  datatype Save = Save(ids: seq<nat>, heap: Heap, inside: Inside)

  predicate ValidHistory(saves: seq<Save>) {
    forall k :: 0 <= k < |saves| ==> forall id <- saves[k].ids :: id in saves[k].heap
  }

  function CacheAfter(s: Scrub, saves: seq<Save>): Cache
    requires ValidHistory(saves)
  {
    if saves == [] then map[]
    else
      var last := saves[|saves| - 1];
      CachedAll(s, CacheAfter(s, saves[..|saves| - 1]), last.ids, last.heap)
  }

  function At(cache: Cache, id: nat): Option<Entry> {
    if id in cache then Some(cache[id]) else None
  }

  /** One message's entry after `n` saves. */
  function EntryAfter(s: Scrub, saves: seq<Save>, n: nat, id: nat): (e: Option<Entry>)
    requires ValidHistory(saves) && n <= |saves|
    ensures n > 0 && id in saves[n - 1].ids ==> e.Some? && e.value.key == KeyOf(saves[n - 1].heap[id])
  {
    if n == 0 then None
    else
      var before := EntryAfter(s, saves, n - 1, id);
      if id !in saves[n - 1].ids then before
      else
        var m := saves[n - 1].heap[id];
        if before.Some? && before.value.key == KeyOf(m) then before else Some(Entry(KeyOf(m), Redact(s, m)))
  }

  lemma {:induction false} CachedAllAt(s: Scrub, cache: Cache, ids: seq<nat>, heap: Heap, id: nat)
    requires forall id <- ids :: id in heap
    ensures At(CachedAll(s, cache, ids, heap), id) == if id in ids then At(Cached(s, cache, id, heap[id]), id) else At(cache, id)
  {
    hide Redact, KeyOf;
    if ids != [] {
      var init, last := ids[..|ids| - 1], ids[|ids| - 1];
      assert id in ids <==> id in init || id == last by { assert ids == init + [last]; }
      CachedAllAt(s, cache, init, heap, id);
    }
  }

  lemma {:induction false} CacheHasEntry(s: Scrub, saves: seq<Save>, n: nat, id: nat)
    requires ValidHistory(saves) && n <= |saves|
    ensures ValidHistory(saves[..n]) && At(CacheAfter(s, saves[..n]), id) == EntryAfter(s, saves, n, id)
  {
    hide Redact, KeyOf;
    if n > 0 {
      assert saves[..n][..n - 1] == saves[..n - 1];
      CacheHasEntry(s, saves, n - 1, id);
      CachedAllAt(s, CacheAfter(s, saves[..n - 1]), saves[n - 1].ids, saves[n - 1].heap, id);
    }
  }

  /** What the `n`-th save has for a message it covers. */
  function Answer(s: Scrub, saves: seq<Save>, n: nat, id: nat): Fields<nat>
    requires ValidHistory(saves) && n < |saves| && id in saves[n].ids
  {
    EntryAfter(s, saves, n + 1, id).value.redacted
  }

  /** The answer is what `redactMessages` finds in the cache. */
  lemma AnswerIsCached(s: Scrub, saves: seq<Save>, n: nat, id: nat)
    requires ValidHistory(saves) && n < |saves| && id in saves[n].ids
    ensures ValidHistory(saves[..n + 1])
    ensures var cache := CacheAfter(s, saves[..n + 1]); id in cache && cache[id].redacted == Answer(s, saves, n, id)
  {
    CacheHasEntry(s, saves, n + 1, id);
  }

  /** What it writes. */
  function Written(s: Scrub, saves: seq<Save>, n: nat, id: nat): Fields<Nested>
    requires ValidHistory(saves) && n < |saves| && id in saves[n].ids
  {
    OnDisk(saves[n].inside, Answer(s, saves, n, id))
  }

  /** What the message of an earlier save would be written as now, unredacted. */
  function Holding(saves: seq<Save>, j: nat, n: nat, id: nat): Fields<Nested>
    requires ValidHistory(saves) && j < |saves| && n < |saves| && id in saves[j].ids
  {
    OnDisk(saves[n].inside, FieldsOf(saves[j].heap[id]))
  }

  /** The latest save before the `n`-th that covered the message. */
  function LastBefore(saves: seq<Save>, n: nat, id: nat): (k: Option<nat>)
    requires n <= |saves|
    ensures k.Some? ==> k.value < n && id in saves[k.value].ids && forall j :: k.value < j < n ==> id !in saves[j].ids
    ensures k.None? ==> forall j :: 0 <= j < n ==> id !in saves[j].ids
  {
    if n == 0 then None else if id in saves[n - 1].ids then Some(n - 1) else LastBefore(saves, n - 1, id)
  }

  /** The first of the saves that covered the message up to now, without another content, array of
      calls or stamp in between. */
  function Since(saves: seq<Save>, n: nat, id: nat): (j: nat)
    requires ValidHistory(saves) && n < |saves| && id in saves[n].ids
    ensures j <= n && id in saves[j].ids
    ensures forall k :: j <= k <= n && id in saves[k].ids ==> KeyOf(saves[k].heap[id]) == KeyOf(saves[n].heap[id])
    ensures var before := LastBefore(saves, j, id); before.Some? ==> KeyOf(saves[before.value].heap[id]) != KeyOf(saves[n].heap[id])
  {
    var before := LastBefore(saves, n, id);
    if before.Some? && KeyOf(saves[before.value].heap[id]) == KeyOf(saves[n].heap[id]) then Since(saves, before.value, id) else n
  }

  /** Since then the message has not changed, or has become the same again, but for nested objects
      edited in place. */
  predicate Visible(saves: seq<Save>, n: nat, id: nat)
    requires ValidHistory(saves) && n < |saves| && id in saves[n].ids
  {
    Holding(saves, Since(saves, n, id), n, id) == Holding(saves, n, n, id)
  }

  /** The save writes what redacting from scratch would. */
  ghost predicate Fresh(s: Scrub, saves: seq<Save>, n: nat, id: nat)
    requires ValidHistory(saves) && n < |saves| && id in saves[n].ids
  {
    Written(s, saves, n, id) == OnDisk(saves[n].inside, Redact(s, saves[n].heap[id]))
  }

  /** The entry before a save is the answer of the save that last covered the message. */
  lemma {:induction false} EntryIsLastAnswer(s: Scrub, saves: seq<Save>, n: nat, id: nat)
    requires ValidHistory(saves) && n <= |saves|
    ensures var before, e := LastBefore(saves, n, id), EntryAfter(s, saves, n, id);
      if before.None? then e.None?
      else
        && e.Some?
        && e.value.key == KeyOf(saves[before.value].heap[id])
        && e.value.redacted == Answer(s, saves, before.value, id)
  {
    hide Redact, KeyOf;
    if n > 0 && id !in saves[n - 1].ids { EntryIsLastAnswer(s, saves, n - 1, id); }
  }

  /** The answer is the redaction of what the message held back then. */
  lemma {:induction false} AnswerIsSince(s: Scrub, saves: seq<Save>, n: nat, id: nat)
    requires ValidHistory(saves) && n < |saves| && id in saves[n].ids
    ensures Answer(s, saves, n, id) == Redact(s, saves[Since(saves, n, id)].heap[id])
    decreases n
  {
    hide Redact, KeyOf;
    EntryIsLastAnswer(s, saves, n, id);
    var before := LastBefore(saves, n, id);
    if before.Some? && KeyOf(saves[before.value].heap[id]) == KeyOf(saves[n].heap[id]) {
      AnswerIsSince(s, saves, before.value, id);
    }
  }

  /** Whatever was edited, no stale content is written, and a nested object that was edited in place
      is written as it is: the save writes the redaction of what the message held at this save or an
      earlier one, with this save's content, array and stamp, its nested objects as they are now. */
  lemma ContentIsCurrent(s: Scrub, saves: seq<Save>, n: nat, id: nat)
    requires ValidHistory(saves) && n < |saves| && id in saves[n].ids
    ensures var j := Since(saves, n, id);
      && Written(s, saves, n, id) == RedactFields(s, Holding(saves, j, n, id))
      && Written(s, saves, n, id).content == s.text(saves[n].heap[id].content)
      // a string the scrubbers keep out is in it only if the message had it where none looks
      && forall x :: KeepsOut(s, x) ==> (Writes(Written(s, saves, n, id), x) <==> Unread(Holding(saves, j, n, id), x))
  {
    hide Writes, Unread, KeepsOut, Answer, Since, RedactFields, OnDisk;
    var j := Since(saves, n, id);
    AnswerIsSince(s, saves, n, id);
    RedactsOnDisk(s, saves[n].inside, FieldsOf(saves[j].heap[id]));
    ContentScrubbed(s, Holding(saves, j, n, id));
    HeldContent(saves, j, n, id);
    forall x | KeepsOut(s, x) ensures Writes(Written(s, saves, n, id), x) <==> Unread(Holding(saves, j, n, id), x) {
      WrittenIffUnread(s, Holding(saves, j, n, id), x);
    }
  }

  lemma ContentScrubbed(s: Scrub, f: Fields<Nested>)
    ensures RedactFields(s, f).content == s.text(f.content)
  {}

  lemma HeldContent(saves: seq<Save>, j: nat, n: nat, id: nat)
    requires ValidHistory(saves) && j < |saves| && n < |saves| && id in saves[j].ids
    ensures Holding(saves, j, n, id).content == saves[j].heap[id].content
  {}

  /** Scrubbers with nothing to scrub. */
  function Plain(): Scrub {
    Scrub(t => t, t => t)
  }

  lemma PlainKeeps<N>(f: Fields<N>)
    ensures RedactFields(Plain(), f) == f
  {
    if f.toolCalls.Some? {
      var calls := f.toolCalls.value;
      forall i | 0 <= i < |calls| ensures RedactCall(Plain(), calls[i]) == calls[i] {
        assert RedactCall(Plain(), calls[i]).arguments == calls[i].arguments;
      }
      assert RedactCalls(Plain(), calls) == calls;
    }
  }

  /** For every message of every save of every history: the save writes what redacting from scratch
      would, whatever the scrubbers, exactly when the message holds what it held at the first save
      since which its content, its array of calls and its stamp have been the same. */
  lemma CoherentExactly(saves: seq<Save>, n: nat, id: nat)
    requires ValidHistory(saves) && n < |saves| && id in saves[n].ids
    ensures (forall s: Scrub :: Fresh(s, saves, n, id)) <==> Visible(saves, n, id)
  {
    hide Answer, Since, RedactFields, OnDisk;
    var j := Since(saves, n, id);
    forall s: Scrub
      ensures Written(s, saves, n, id) == RedactFields(s, Holding(saves, j, n, id))
      ensures OnDisk(saves[n].inside, Redact(s, saves[n].heap[id])) == RedactFields(s, Holding(saves, n, n, id))
    {
      AnswerIsSince(s, saves, n, id);
      RedactsOnDisk(s, saves[n].inside, FieldsOf(saves[j].heap[id]));
      RedactsOnDisk(s, saves[n].inside, FieldsOf(saves[n].heap[id]));
    }
    if forall s: Scrub :: Fresh(s, saves, n, id) {
      assert Fresh(Plain(), saves, n, id);
      PlainKeeps(Holding(saves, j, n, id));
      PlainKeeps(Holding(saves, n, n, id));
    }
  }

  function Command(command: string): Message {
    Message("", Some(Calls(0, [Call(None, "run", [("command", Text(command))])])), Rest("assistant", None, None))
  }

  lemma CommandKey(command: string)
    ensures KeyOf(Command(command)) == Key("", Some(0), 3 + |command|)
  {
    var arguments: seq<(string, Value<nat>)> := [("command", Text(command))];
    var items := [Call(None, "run", arguments)];
    assert arguments[..0] == [] && items[..0] == [];
    assert ArgsLength(arguments) == |command|;
    assert CallsLength(items) == 3 + |command|;
  }

  /** Two edits that each change the stamp, made between two saves, can go unseen together: the
      second save writes the first one's command. */
  lemma TwoEditsGoUnseen(inside: Inside)
    ensures KeyOf(Command("ls")) != KeyOf(Command("pwd")) && KeyOf(Command("pwd")) != KeyOf(Command("rm"))
    ensures var saves := [Save([0], map[0 := Command("ls")], inside), Save([0], map[0 := Command("rm")], inside)];
      && ValidHistory(saves)
      && Answer(Plain(), saves, 1, 0) == FieldsOf(Command("ls")) != FieldsOf(Command("rm"))
      && !Visible(saves, 1, 0)
  {
    hide KeyOf, RedactFields, Answer;
    CommandKey("ls");
    CommandKey("pwd");
    CommandKey("rm");
    PlainKeeps(FieldsOf(Command("ls")));
    var saves := [Save([0], map[0 := Command("ls")], inside), Save([0], map[0 := Command("rm")], inside)];
    assert LastBefore(saves, 1, 0) == Some(0) && Since(saves, 0, 0) == 0 && Since(saves, 1, 0) == 0;
    AnswerIsSince(Plain(), saves, 1, 0);
    assert FieldsOf(Command("ls")).toolCalls.value[0].arguments[0].1 != FieldsOf(Command("rm")).toolCalls.value[0].arguments[0].1;
    assert Holding(saves, 0, 1, 0).toolCalls.value[0].arguments[0].1 == Text("ls");
    assert Holding(saves, 1, 1, 0).toolCalls.value[0].arguments[0].1 == Text("rm");
  }
}
