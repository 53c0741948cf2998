/** `POST /api/process-stream`: the model requests started for the selected
    tasks, the events sent back, and their framing as a server-sent event
    stream. The model calls themselves are not modelled: their outcomes, the
    order in which they finish, and `JSON.parse` are inputs. */
module ServerEvents {
  import opened Text
  import opened Json
  import Stream
  import Prompts
  import ServerAuth

  /* ---------- events and their framing ---------- */

  datatype Event =
    | Progress(task: string, message: string)
    | Result(task: string, data: Option<Json>)  // `None`: an undefined `data`, which `JSON.stringify` drops
    | Failure(task: string, error: string)
    | Done

  /** The object each `send*` helper serialises. */
  function EventJson(e: Event): (v: Json)
    ensures v.JObj? && |v.fields| > 0 && v.fields[0].0 == "type"
  {
    match e
    case Progress(task, message) =>
      JObj([("type", JStr("progress")), ("task", JStr(task)), ("message", JStr(message))])
    case Result(task, data) =>
      JObj([("type", JStr("result")), ("task", JStr(task))] + (if data.Some? then [("data", data.value)] else []))
    case Failure(task, error) =>
      JObj([("type", JStr("error")), ("task", JStr(task)), ("error", JStr(error))])
    case Done =>
      JObj([("type", JStr("done"))])
  }

  /** The text of one event. */
  function EventText(e: Event): (t: string)
    ensures '\n' !in t
  {
    StringifyOneLine(EventJson(e));
    Stringify(EventJson(e))
  }

  /** One frame: `data: <json>` and a blank line. */
  function Frame(e: Event): string {
    Stream.DataPrefix + EventText(e) + Stream.FrameSeparator
  }

  function Frames(events: seq<Event>): seq<string> {
    seq(|events|, k requires 0 <= k < |events| => Frame(events[k]))
  }

  function Texts(events: seq<Event>): seq<string> {
    seq(|events|, k requires 0 <= k < |events| => EventText(events[k]))
  }

  /** The browser's read loop recovers every event's JSON text, in order, from
      the frames written, and keeps nothing pending; however the stream is cut
      into reads, the reader's state depends only on this text. */
  lemma FramesReadBack(events: seq<Event>)
    ensures Stream.Dispatched(Stream.Concat(Frames(events))) == Texts(events)
    ensures Stream.Pending(Stream.Concat(Frames(events))) == ""
  {
    var lines := DataLines(events);
    FramesJoin(events);
    DataLinesSplit(events);
    assert AllButLast(lines + [""]) == lines;
    DataLinesPayloads(events);
  }

  /** The `data: <json>` line of each event. */
  function DataLines(events: seq<Event>): (lines: seq<string>)
    ensures |lines| == |events|
  {
    seq(|events|, k requires 0 <= k < |events| => Stream.DataPrefix + EventText(events[k]))
  }

  lemma FramesJoin(events: seq<Event>)
    ensures Stream.Concat(Frames(events)) == Join(DataLines(events) + [""], Stream.FrameSeparator)
  {
    var lines := DataLines(events);
    var sep := Stream.FrameSeparator;
    assert Frames(events) == seq(|lines|, k requires 0 <= k < |lines| => lines[k] + sep);
    ConcatTerminated(lines, sep);
  }

  lemma DataLinesSplit(events: seq<Event>)
    ensures Split(Join(DataLines(events) + [""], Stream.FrameSeparator), Stream.FrameSeparator) == DataLines(events) + [""]
  {
    var lines := DataLines(events);
    var parts := lines + [""];
    forall k | 0 <= k < |parts| ensures Stream.FrameSeparator[0] !in parts[k] {
      if k < |lines| {
        NotInAppend(Stream.DataPrefix, EventText(events[k]), '\n');
      }
    }
    SplitJoin(parts, Stream.FrameSeparator);
  }

  lemma DataLinesPayloads(events: seq<Event>)
    ensures Stream.Payloads(DataLines(events)) == Texts(events)
  {
    var lines := DataLines(events);
    PayloadsOfData(lines);
    assert seq(|lines|, k requires 0 <= k < |lines| => lines[k][|Stream.DataPrefix|..]) == Texts(events);
  }

  lemma NotInAppend(a: string, b: string, c: char)
    requires c !in a && c !in b
    ensures c !in a + b
  {
  }

  /** Chunks that each end with the separator concatenate to the join of the
      pieces with an empty last piece. */
  lemma {:induction false} ConcatTerminated(lines: seq<string>, sep: string)
    ensures Stream.Concat(seq(|lines|, k requires 0 <= k < |lines| => lines[k] + sep)) == Join(lines + [""], sep)
    decreases |lines|
  {
    var chunks := seq(|lines|, k requires 0 <= k < |lines| => lines[k] + sep);
    if lines == [] {
      assert chunks == [];
      assert lines + [""] == [""];
    } else {
      var n := |lines| - 1;
      var init := lines[..n];
      assert AllButLast(chunks) == seq(|init|, k requires 0 <= k < |init| => init[k] + sep);
      ConcatTerminated(init, sep);
      JoinTerminatedSnoc(init, lines[n], sep);
      assert init + [lines[n]] == lines;
      AppendAssoc(Join(init + [""], sep), lines[n], sep);
    }
  }

  lemma {:induction false} JoinTerminatedSnoc(xs: seq<string>, y: string, sep: string)
    ensures Join(xs + [""], sep) + (y + sep) == Join(xs + [y] + [""], sep)
    decreases |xs|
  {
    if xs == [] {
      assert xs + [""] == [""];
      assert xs + [y] + [""] == [y, ""];
      assert [y, ""][1..] == [""];
    } else {
      var rest := xs[1..];
      assert (xs + [""])[1..] == rest + [""];
      assert (xs + [y] + [""])[1..] == rest + [y] + [""];
      JoinTerminatedSnoc(rest, y, sep);
      AppendAssoc(xs[0] + sep, Join(rest + [""], sep), y + sep);
    }
  }

  /** Lines that all start with `data: ` are all dispatched, without the prefix. */
  lemma {:induction false} PayloadsOfData(lines: seq<string>)
    requires forall k :: 0 <= k < |lines| ==> Stream.DataPrefix <= lines[k]
    ensures Stream.Payloads(lines) == seq(|lines|, k requires 0 <= k < |lines| => lines[k][|Stream.DataPrefix|..])
    decreases |lines|
  {
    if lines != [] {
      PayloadsOfData(lines[1..]);
    }
  }

  /* ---------- the JSON span of a model reply ---------- */

  /** The index of the first `c` at or after `i`. */
  function IndexFrom(s: string, c: char, i: nat): (r: Option<nat>)
    decreases |s| - i
    ensures r.Some? ==> i <= r.value < |s| && s[r.value] == c && forall k :: i <= k < r.value ==> s[k] != c
    ensures r.None? ==> forall k :: i <= k < |s| ==> s[k] != c
  {
    if i >= |s| then None else if s[i] == c then Some(i) else IndexFrom(s, c, i + 1)
  }

  /** The index of the last `c` before `i`. */
  function LastIndexBefore(s: string, c: char, i: nat): (r: Option<nat>)
    requires i <= |s|
    ensures r.Some? ==> r.value < i && s[r.value] == c && forall k :: r.value < k < i ==> s[k] != c
    ensures r.None? ==> forall k :: 0 <= k < i ==> s[k] != c
  {
    if i == 0 then None else if s[i - 1] == c then Some(i - 1) else LastIndexBefore(s, c, i - 1)
  }

  /** `reply.match(/\{[\s\S]*\}/)[0]`: from the first `{` to the last `}`, or
      `None` when no `}` follows the first `{`. */
  function JsonSpan(reply: string): (r: Option<string>)
    ensures r.Some? <==> exists i, j :: 0 <= i < j < |reply| && reply[i] == '{' && reply[j] == '}'
    ensures r.Some? ==> |r.value| >= 2 && r.value[0] == '{' && r.value[|r.value| - 1] == '}'
  {
    match IndexFrom(reply, '{', 0)
    case None => None
    case Some(i) =>
      match LastIndexBefore(reply, '}', |reply|)
      case None => None
      case Some(j) => if j > i then Some(reply[i..j + 1]) else None
  }

  /** A reply that holds one braced text with no brace around it yields exactly that text. */
  lemma JsonSpanOfEmbedded(pre: string, body: string, post: string)
    requires '{' !in pre && '}' !in post
    requires |body| >= 2 && body[0] == '{' && body[|body| - 1] == '}'
    ensures JsonSpan(pre + body + post) == Some(body)
  {
    var s := pre + body + post;
    var i, j := |pre|, |pre| + |body| - 1;
    assert s[i] == '{' && s[j] == '}';
    assert forall k :: 0 <= k < i ==> s[k] == pre[k];
    assert forall k :: j < k < |s| ==> s[k] == post[k - j - 1];
    assert IndexFrom(s, '{', 0) == Some(i);
    assert LastIndexBefore(s, '}', |s|) == Some(j);
    assert s[i..j + 1] == body;
  }

  /** A serialised object starts with `{` and ends with `}`. */
  lemma StringifiedObjectBraced(fields: seq<(string, Json)>)
    ensures var t := Stringify(JObj(fields)); |t| >= 2 && t[0] == '{' && t[|t| - 1] == '}'
  {
  }

  /* ---------- requests and their outcomes ---------- */

  /** What one model request serves: a task, and for the social task one platform. */
  datatype TaskKind = Headlines | Social(platform: Prompts.Platform) | CopyEdit | FactCheck

  /** The `task` field of the events a request produces. */
  function TaskName(k: TaskKind): string {
    match k
    case Headlines => "headlines"
    case Social(_) => "social"
    case CopyEdit => "copyEdit"
    case FactCheck => "factCheck"
  }

  function ProgressMessage(k: TaskKind): string {
    match k
    case Headlines => "Generating headline suggestions..."
    case Social(p) => "Generating " + Prompts.PlatformName(p) + " posts..."
    case CopyEdit => "Analyzing article for copy-editing..."
    case FactCheck => "Fact-checking article claims..."
  }

  /** The style guides sent with the request; `None` for a missing one. */
  datatype Guides = Guides(headlines: Option<string>, socialMedia: Option<string>, copyEdit: Option<string>, factCheck: Option<string>)

  /** One model call: the task it serves, its token budget, and what its
      prompt is made of (the style guide and the article text); `PromptOf`
      gives the prompt itself. */
  datatype ModelRequest = ModelRequest(kind: TaskKind, maxTokens: nat, guide: Option<string>, text: string)

  /** The fixed wording of the prompt a request sends. */
  function TemplateOf(k: TaskKind): Prompts.Template {
    match k
    case Headlines => Prompts.HeadlineTemplate
    case Social(p) => Prompts.SocialTemplate(p)
    case CopyEdit => Prompts.CopyEditTemplate
    case FactCheck => Prompts.FactCheckTemplate
  }

  /** The style guide a request sends. */
  function GuideOf(k: TaskKind, guides: Guides): Option<string> {
    match k
    case Headlines => guides.headlines
    case Social(_) => guides.socialMedia
    case CopyEdit => guides.copyEdit
    case FactCheck => guides.factCheck
  }

  /** The request for one task: `max_tokens` is 16384 for the two tasks that
      return the whole article and 2048 otherwise. */
  function Request(k: TaskKind, text: string, guides: Guides): (r: ModelRequest)
    ensures r.kind == k && r.text == text
    ensures r.maxTokens == if k.CopyEdit? || k.FactCheck? then 16384 else 2048
  {
    ModelRequest(k, if k.CopyEdit? || k.FactCheck? then 16384 else 2048, GuideOf(k, guides), text)
  }

  /** The prompt a request sends: it ends with the article text, and its
      task's template is used with its guide. */
  function PromptOf(r: ModelRequest): (p: string)
    ensures |r.text| <= |p| && p[|p| - |r.text|..] == r.text
  {
    Prompts.Prompt(TemplateOf(r.kind), r.guide, r.text)
  }

  /** `tasks.<key>` is truthy. */
  predicate Flag(tasks: map<string, bool>, key: string) {
    key in tasks && tasks[key]
  }

  function SocialKinds(): (ks: seq<TaskKind>)
    ensures |ks| == |Prompts.Platforms|
  {
    seq(|Prompts.Platforms|, k requires 0 <= k < |Prompts.Platforms| => Social(Prompts.Platforms[k]))
  }

  /** The requests started, in the order the handler starts them. */
  function Planned(tasks: map<string, bool>): seq<TaskKind> {
    HeadlinesPart(tasks) + SocialPart(tasks) + CopyEditPart(tasks) + FactCheckPart(tasks)
  }

  function HeadlinesPart(tasks: map<string, bool>): seq<TaskKind> {
    if Flag(tasks, "headlines") then [Headlines] else []
  }

  function SocialPart(tasks: map<string, bool>): seq<TaskKind> {
    if Flag(tasks, "social") then SocialKinds() else []
  }

  function CopyEditPart(tasks: map<string, bool>): seq<TaskKind> {
    if Flag(tasks, "copyEdit") then [CopyEdit] else []
  }

  function FactCheckPart(tasks: map<string, bool>): seq<TaskKind> {
    if Flag(tasks, "factCheck") then [FactCheck] else []
  }

  /** The synchronous part of the handler: for each selected task, a progress
      event and a model request, the social task once per platform. */
  method StartTasks(text: string, tasks: map<string, bool>, guides: Guides)
    returns (progress: seq<Event>, requests: seq<ModelRequest>)
    ensures |progress| == |requests| == |Planned(tasks)|
    ensures forall m :: 0 <= m < |requests| ==>
              progress[m] == Progress(TaskName(Planned(tasks)[m]), ProgressMessage(Planned(tasks)[m]))
              && requests[m] == Request(Planned(tasks)[m], text, guides)
  {
    ghost var kinds: seq<TaskKind> := [];
    progress, requests := [], [];
    if Flag(tasks, "headlines") {
      progress, requests, kinds := Start(progress, requests, kinds, Headlines, text, guides);
    }
    assert kinds == HeadlinesPart(tasks);
    if Flag(tasks, "social") {
      progress, requests, kinds := StartSocial(progress, requests, kinds, text, guides);
    }
    assert kinds == HeadlinesPart(tasks) + SocialPart(tasks);
    if Flag(tasks, "copyEdit") {
      progress, requests, kinds := Start(progress, requests, kinds, CopyEdit, text, guides);
    }
    assert kinds == HeadlinesPart(tasks) + SocialPart(tasks) + CopyEditPart(tasks);
    if Flag(tasks, "factCheck") {
      progress, requests, kinds := Start(progress, requests, kinds, FactCheck, text, guides);
    }
    assert kinds == Planned(tasks);
  }

  /** `for (const platform of ['substack', 'twitter', 'instagram'])`: one
      progress event and one request per platform. */
  method StartSocial(progress: seq<Event>, requests: seq<ModelRequest>, ghost kinds: seq<TaskKind>,
                     text: string, guides: Guides)
    returns (progress': seq<Event>, requests': seq<ModelRequest>, ghost kinds': seq<TaskKind>)
    requires Started(progress, requests, kinds, text, guides)
    ensures kinds' == kinds + SocialKinds() && Started(progress', requests', kinds', text, guides)
  {
    progress', requests', kinds' := progress, requests, kinds;
    var i := 0;
    while i < |Prompts.Platforms|
      invariant 0 <= i <= |Prompts.Platforms|
      invariant kinds' == kinds + SocialKinds()[..i]
      invariant Started(progress', requests', kinds', text, guides)
    {
      progress', requests', kinds' := Start(progress', requests', kinds', Social(Prompts.Platforms[i]), text, guides);
      assert SocialKinds()[..i + 1] == SocialKinds()[..i] + [Social(Prompts.Platforms[i])];
      i := i + 1;
    }
    assert SocialKinds()[..i] == SocialKinds();
  }

  /** The events and requests so far match `kinds`, one for one. */
  ghost predicate Started(progress: seq<Event>, requests: seq<ModelRequest>, kinds: seq<TaskKind>, text: string, guides: Guides) {
    |progress| == |requests| == |kinds|
    && forall m :: 0 <= m < |kinds| ==>
         progress[m] == Progress(TaskName(kinds[m]), ProgressMessage(kinds[m])) && requests[m] == Request(kinds[m], text, guides)
  }

  /** Send one progress event and start one request. */
  method Start(progress: seq<Event>, requests: seq<ModelRequest>, ghost kinds: seq<TaskKind>, k: TaskKind,
               text: string, guides: Guides)
    returns (progress': seq<Event>, requests': seq<ModelRequest>, ghost kinds': seq<TaskKind>)
    requires Started(progress, requests, kinds, text, guides)
    ensures kinds' == kinds + [k] && Started(progress', requests', kinds', text, guides)
    ensures progress' == progress + [Progress(TaskName(k), ProgressMessage(k))]
  {
    progress', requests', kinds' := progress + [Progress(TaskName(k), ProgressMessage(k))], requests + [Request(k, text, guides)], kinds + [k];
  }

  /** The number of requests serving `task`. */
  function CountTask(kinds: seq<TaskKind>, task: string): nat {
    if kinds == [] then 0 else (if TaskName(kinds[0]) == task then 1 else 0) + CountTask(kinds[1..], task)
  }

  lemma {:induction false} CountTaskAppend(a: seq<TaskKind>, b: seq<TaskKind>, task: string)
    ensures CountTask(a + b, task) == CountTask(a, task) + CountTask(b, task)
    decreases |a|
  {
    if a == [] {
      assert a + b == b;
    } else {
      assert (a + b)[1..] == a[1..] + b;
      CountTaskAppend(a[1..], b, task);
    }
  }

  /** The social task issues exactly one request per platform, in the order
      substack, twitter, instagram; each other selected task issues one
      request; an unselected task issues none. */
  lemma SocialRequests(tasks: map<string, bool>)
    ensures CountTask(Planned(tasks), "social") == if Flag(tasks, "social") then 3 else 0
    ensures CountTask(Planned(tasks), "headlines") == if Flag(tasks, "headlines") then 1 else 0
    ensures CountTask(Planned(tasks), "copyEdit") == if Flag(tasks, "copyEdit") then 1 else 0
    ensures CountTask(Planned(tasks), "factCheck") == if Flag(tasks, "factCheck") then 1 else 0
    ensures SocialKinds() == [Social(Prompts.Substack), Social(Prompts.Twitter), Social(Prompts.Instagram)]
  {
    assert SocialKinds() == [Social(Prompts.Substack), Social(Prompts.Twitter), Social(Prompts.Instagram)];
    PartCounts(tasks, "social");
    PartCounts(tasks, "headlines");
    PartCounts(tasks, "copyEdit");
    PartCounts(tasks, "factCheck");
  }

  lemma PartCounts(tasks: map<string, bool>, task: string)
    ensures CountTask(Planned(tasks), task)
            == (if Flag(tasks, "headlines") && task == "headlines" then 1 else 0)
               + (if Flag(tasks, "social") && task == "social" then 3 else 0)
               + (if Flag(tasks, "copyEdit") && task == "copyEdit" then 1 else 0)
               + (if Flag(tasks, "factCheck") && task == "factCheck" then 1 else 0)
  {
    PlannedCount(tasks, task);
    SocialCount(task);
    assert CountTask([Headlines], task) == if task == "headlines" then 1 else 0 by {
      assert [Headlines][1..] == [];
    }
    assert CountTask([CopyEdit], task) == if task == "copyEdit" then 1 else 0 by {
      assert [CopyEdit][1..] == [];
    }
    assert CountTask([FactCheck], task) == if task == "factCheck" then 1 else 0 by {
      assert [FactCheck][1..] == [];
    }
  }

  lemma SocialCount(task: string)
    ensures CountTask(SocialKinds(), task) == if task == "social" then 3 else 0
  {
    var ks := SocialKinds();
    assert ks == [Social(Prompts.Substack), Social(Prompts.Twitter), Social(Prompts.Instagram)];
    var c := if task == "social" then 1 else 0;
    assert ks[1..][1..][1..] == [];
    assert CountTask(ks[1..][1..], task) == c;
    assert CountTask(ks[1..], task) == c + c;
  }

  /** The count over the plan is the sum over its four parts. */
  lemma PlannedCount(tasks: map<string, bool>, task: string)
    ensures CountTask(Planned(tasks), task)
            == CountTask(HeadlinesPart(tasks), task) + CountTask(SocialPart(tasks), task)
               + CountTask(CopyEditPart(tasks), task) + CountTask(FactCheckPart(tasks), task)
  {
    var h, s, c, f := HeadlinesPart(tasks), SocialPart(tasks), CopyEditPart(tasks), FactCheckPart(tasks);
    CountTaskAppend(h, s, task);
    CountTaskAppend(h + s, c, task);
    CountTaskAppend(h + s + c, f, task);
  }

  /** How a model call ended. */
  datatype ModelOutcome = Replied(text: string) | CallFailed(message: string)

  /** A member of a parsed object: the last one of that name, as `JSON.parse`
      keeps the last of duplicate keys; `None` when there is none or the value
      is not an object. */
  function Field(v: Json, key: string): (r: Option<Json>)
    decreases if v.JObj? then |v.fields| else 0
    ensures r.Some? ==> v.JObj? && exists m :: 0 <= m < |v.fields| && v.fields[m] == (key, r.value)
    ensures r.None? ==> !v.JObj? || forall m :: 0 <= m < |v.fields| ==> v.fields[m].0 != key
  {
    if !v.JObj? || v.fields == [] then None
    else
      var n := |v.fields| - 1;
      if v.fields[n].0 == key then Some(v.fields[n].1)
      else
        var r := Field(JObj(v.fields[..n]), key);
        assert r.Some? ==> v.fields[..n] <= v.fields;
        r
  }

  /** The reply's suggestions, or `None` when the span is missing, does not
      parse, or parses to `null` (whose property access throws). */
  function Suggestions(reply: string, parse: string -> Option<Json>): Option<Option<Json>> {
    match JsonSpan(reply)
    case None => None
    case Some(span) =>
      match parse(span)
      case None => None
      case Some(data) => if data.JNull? then None else Some(Field(data, "suggestions"))
  }

  /** The event sent when a request finishes. */
  function CompletionEvent(k: TaskKind, outcome: ModelOutcome, parse: string -> Option<Json>): (e: Event)
    ensures e.Result? || e.Failure?
    ensures e.task == TaskName(k)
    ensures outcome.CallFailed? ==> e == Failure(TaskName(k), outcome.message)
    ensures outcome.Replied? && (k.CopyEdit? || k.FactCheck?) ==> e == Result(TaskName(k), Some(JObj([("text", JStr(outcome.text))])))
  {
    match outcome
    case CallFailed(message) => Failure(TaskName(k), message)
    case Replied(text) =>
      match k
      case Headlines =>
        (match Suggestions(text, parse)
         case None => Failure("headlines", "Failed to parse headline response")
         case Some(s) => Result("headlines", s))
      case Social(p) =>
        var name := Prompts.PlatformName(p);
        (match Suggestions(text, parse)
         case None => Failure("social", "Failed to parse " + name + " response")
         case Some(s) =>
           Result("social", Some(JObj([("platform", JStr(name))] + (if s.Some? then [("suggestions", s.value)] else [])))))
      case _ => Result(TaskName(k), Some(JObj([("text", JStr(text))])))
  }

  /** A headline or social reply that holds a well-formed answer, with no brace
      around it, is passed on with that answer's `suggestions` member. */
  lemma SuggestionsRoundTrip(pre: string, fields: seq<(string, Json)>, post: string, parse: string -> Option<Json>)
    requires '{' !in pre && '}' !in post
    requires parse(Stringify(JObj(fields))) == Some(JObj(fields))
    ensures Suggestions(pre + Stringify(JObj(fields)) + post, parse) == Some(Field(JObj(fields), "suggestions"))
  {
    StringifiedObjectBraced(fields);
    JsonSpanOfEmbedded(pre, Stringify(JObj(fields)), post);
  }

  /** A reply without a braced span is reported as a failure of its task. */
  lemma UnbracedReplyFails(k: TaskKind, reply: string, parse: string -> Option<Json>)
    requires k.Headlines? || k.Social?
    requires forall i, j :: 0 <= i < j < |reply| && reply[i] == '{' ==> reply[j] != '}'
    ensures CompletionEvent(k, Replied(reply), parse).Failure?
  {
  }

  /** `order` lists each of `0..n-1` once: the order in which the calls finish. */
  predicate IsOrder(order: seq<nat>, n: nat) {
    |order| == n && (forall m :: 0 <= m < n ==> order[m] < n)
    && forall i, j :: 0 <= i < j < n ==> order[i] != order[j]
  }

  /** The progress event of each request. */
  function ProgressEvents(ks: seq<TaskKind>): (es: seq<Event>)
    ensures |es| == |ks| && forall m :: 0 <= m < |ks| ==> es[m].Progress? && es[m].task == TaskName(ks[m])
  {
    seq(|ks|, m requires 0 <= m < |ks| => Progress(TaskName(ks[m]), ProgressMessage(ks[m])))
  }

  /** The completion events, in the order the calls finish. */
  function Completions(ks: seq<TaskKind>, outcomes: seq<ModelOutcome>, order: seq<nat>, parse: string -> Option<Json>): (es: seq<Event>)
    requires |outcomes| == |ks| && IsOrder(order, |ks|)
    ensures |es| == |ks| && forall m :: 0 <= m < |ks| ==> (es[m].Result? || es[m].Failure?) && es[m].task == TaskName(ks[order[m]])
  {
    seq(|ks|, m requires 0 <= m < |ks| => CompletionEvent(ks[order[m]], outcomes[order[m]], parse))
  }

  datatype Response = BadRequest(status: nat, error: string) | EventStream(text: string)

  /** The handler: a refused request writes no event; otherwise the progress
      events, one completion event per request in the order the calls finish,
      and the final `done` event, each in its own frame. */
  method ProcessStream(text: Option<string>, tasks: Option<map<string, bool>>, guides: Guides,
                       outcomes: seq<ModelOutcome>, order: seq<nat>, parse: string -> Option<Json>)
    returns (response: Response, events: seq<Event>)
    requires ServerAuth.ValidateProcess(text, tasks).None? ==>
               |outcomes| == |Planned(tasks.value)| && IsOrder(order, |outcomes|)
    ensures response.BadRequest? <==> ServerAuth.ValidateProcess(text, tasks).Some?
    ensures response.BadRequest? ==> response == BadRequest(400, ServerAuth.ErrorText(ServerAuth.ValidateProcess(text, tasks).value)) && events == []
    ensures response.EventStream? ==>
              events == ProgressEvents(Planned(tasks.value)) + Completions(Planned(tasks.value), outcomes, order, parse) + [Done]
              && response.text == Stream.Concat(Frames(events))
  {
    var error := ServerAuth.ValidateProcess(text, tasks);
    if error.Some? {
      return BadRequest(400, ServerAuth.ErrorText(error.value)), [];
    }
    var progress, requests := StartTasks(text.value, tasks.value, guides);
    ghost var ks := Planned(tasks.value);
    assert progress == ProgressEvents(ks);
    var done := seq(|order|, m requires 0 <= m < |order| => CompletionEvent(requests[order[m]].kind, outcomes[order[m]], parse));
    assert done == Completions(ks, outcomes, order, parse);
    events := progress + done + [Done];
    response := EventStream(Stream.Concat(Frames(events)));
  }
}
