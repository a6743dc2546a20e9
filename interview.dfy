/**
 * One feature discussion: the fixed script of eight prompts, the discussion
 * record with its answer slots, the conversation context, and the transition
 * that records one answer.
 */
module Interview {
  import opened Wrappers
  import opened Lines

  /** A timestamp as the ISO text the caller's clock supplied. */
  type Timestamp = string

  datatype Status = Proposed | InDiscussion | Approved | Rejected

  /** The record fields a prompt can target. */
  datatype Field =
    | Description | BusinessValue | TargetUsers | Requirements
    | SuccessCriteria | TechnicalApproach | Risks | Timeline

  /** The fields whose answer is stored as a list of lines. */
  predicate IsListField(f: Field) {
    f == Requirements || f == TargetUsers || f == SuccessCriteria || f == Risks
  }

  datatype Prompt = Prompt(id: string, message: string, field: Field)

  /** The interview script, in the order the prompts are asked. */
  const Script: seq<Prompt> := [
    Prompt("initial_description",
      "Please provide a brief description of the feature you'd like to discuss.", Description),
    Prompt("business_value",
      "What business value does this feature provide? How does it benefit users or stakeholders?", BusinessValue),
    Prompt("target_users",
      "Who are the target users for this feature?", TargetUsers),
    Prompt("requirements",
      "What are the key requirements or constraints for this feature?", Requirements),
    Prompt("success_criteria",
      "What are the success criteria for this feature? How will we know it's working as intended?", SuccessCriteria),
    Prompt("technical_approach",
      "Do you have any specific technical approach in mind for implementing this feature?", TechnicalApproach),
    Prompt("risks",
      "Are there any potential risks or challenges we should consider?", Risks),
    Prompt("timeline",
      "What's the desired timeline or priority for this feature?", Timeline)
  ]

  /** The position of each field in the script. */
  function FieldIndex(f: Field): nat {
    match f
    case Description => 0
    case BusinessValue => 1
    case TargetUsers => 2
    case Requirements => 3
    case SuccessCriteria => 4
    case TechnicalApproach => 5
    case Risks => 6
    case Timeline => 7
  }

  /** Every field is the target of exactly one prompt. */
  lemma ScriptShape()
    ensures |Script| == 8
    ensures forall i :: 0 <= i < |Script| ==> FieldIndex(Script[i].field) == i
    ensures forall f :: FieldIndex(f) < |Script| && Script[FieldIndex(f)].field == f
  {
  }

  /** The prompt ids are pairwise different. */
  lemma ScriptIdsDistinct()
    ensures forall i, j :: 0 <= i < j < |Script| ==> Script[i].id != Script[j].id
  {
  }

  /** A slot's content: a text or a list of lines. */
  datatype Value = Text(text: string) | Items(items: seq<string>)

  /** The field writer: the lines of a list-valued answer, trimmed and with
      the blank ones dropped; any other answer verbatim. */
  function WriteValue(f: Field, response: string): (v: Value)
    ensures v.Items? <==> IsListField(f)
    ensures v.Text? ==> v.text == response
  {
    if IsListField(f) then Items(CleanLines(response)) else Text(response)
  }

  /** What the field writer stores: a list exactly for the four list-valued
      fields, made of non-empty, trimmed lines of the answer kept in their
      order; the answer verbatim for every other field. */
  lemma FieldWriter(f: Field, response: string)
    ensures var v := WriteValue(f, response);
      && (v.Items? <==> IsListField(f))
      && (v.Text? ==> v.text == response)
      && (v.Items? ==> forall i :: 0 <= i < |v.items| ==> v.items[i] != [] && IsTrimmed(v.items[i]))
      && (v.Items? ==> Subsequence(v.items, TrimmedLines(response)))
      && (v.Items? ==> multiset(v.items) == multiset(TrimmedLines(response))[[] := 0])
  {
    CleanLinesShape(response);
  }

  /** The discussion record. Its answer slots are keyed by field, as the
      source writes them with a computed property name; `description` and
      `requirements` are present from the start, the other slots only once
      their prompt is answered. */
  datatype Discussion = Discussion(
    id: string,
    title: string,
    status: Status,
    slots: map<Field, Value>,
    createdAt: Timestamp,
    updatedAt: Timestamp,
    currentPrompt: Option<string>)

  /** The content of slot `f`, or `None` when it is absent. */
  function Slot(d: Discussion, f: Field): Option<Value> {
    if f in d.slots then Some(d.slots[f]) else None
  }

  /** What slot `f` holds in a freshly created record. */
  function InitialSlot(f: Field): Option<Value> {
    match f
    case Description => Some(Text(""))
    case Requirements => Some(Items([]))
    case _ => None
  }

  /** One answered prompt in the conversation history. */
  datatype Entry = Entry(prompt: string, response: string, timestamp: Timestamp)

  /** The context kept beside each record; only the history is ever written. */
  datatype Context = Context(
    previousDecisions: seq<string>,
    relatedFeatures: seq<string>,
    technicalConstraints: seq<string>,
    conversationHistory: seq<Entry>)

  /** The record a new discussion starts with. */
  function NewDiscussion(id: string, title: string, now: Timestamp): (d: Discussion)
    ensures d.id == id && d.title == title && d.status == InDiscussion
    ensures d.currentPrompt == Some(Script[0].id) == Some("initial_description")
    ensures Slot(d, Description) == Some(Text("")) && Slot(d, Requirements) == Some(Items([]))
    ensures forall f :: Slot(d, f) == InitialSlot(f)
    ensures d.createdAt == now && d.updatedAt == now
  {
    Discussion(id, title, InDiscussion, map[Description := Text(""), Requirements := Items([])], now, now, Some(Script[0].id))
  }

  /** The context a new discussion starts with: every list empty. */
  function NewContext(): (c: Context)
    ensures c.previousDecisions == [] && c.relatedFeatures == [] && c.technicalConstraints == []
    ensures c.conversationHistory == []
  {
    Context([], [], [], [])
  }

  /** `Script.findIndex(p => p.id === cursor)`: the first prompt whose id is
      the cursor, or -1 when there is none (always so for an absent cursor). */
  function FindIndex(cursor: Option<string>): (k: int)
    ensures -1 <= k < |Script|
    ensures k >= 0 ==> cursor == Some(Script[k].id)
    ensures k >= 0 ==> forall j :: 0 <= j < k ==> cursor != Some(Script[j].id)
    ensures k == -1 <==> forall j :: 0 <= j < |Script| ==> cursor != Some(Script[j].id)
  {
    FindFrom(cursor, 0)
  }

  function FindFrom(cursor: Option<string>, from: nat): (k: int)
    requires from <= |Script|
    ensures k == -1 || from <= k < |Script|
    ensures k >= 0 ==> cursor == Some(Script[k].id)
    ensures k >= 0 ==> forall j :: from <= j < k ==> cursor != Some(Script[j].id)
    ensures k == -1 <==> forall j :: from <= j < |Script| ==> cursor != Some(Script[j].id)
    decreases |Script| - from
  {
    if from == |Script| then -1
    else if cursor == Some(Script[from].id) then from
    else FindFrom(cursor, from + 1)
  }

  /** What an accepted answer replies: the next prompt, or the completion notice. */
  datatype Reply = NextQuestion(prompt: Prompt) | Completed

  datatype Error = NotFound(id: string) | InvalidState

  /** The new record and context after an accepted answer, with the reply. */
  datatype Outcome = Outcome(discussion: Discussion, context: Context, reply: Reply)

  /** Records `response` as the answer to the record's current prompt.
      Fails, before anything is written, when the cursor names no prompt
      (the discussion is complete). */
  function Respond(d: Discussion, c: Context, response: string, now: Timestamp): (r: Result<Outcome, Error>)
    ensures r.Failure? <==> FindIndex(d.currentPrompt) == -1
    ensures r.Failure? ==> r == Failure(InvalidState)
    ensures r.Success? ==>
      && |r.value.context.conversationHistory| == |c.conversationHistory| + 1
      && r.value.discussion.id == d.id && r.value.discussion.title == d.title
      && r.value.discussion.createdAt == d.createdAt && r.value.discussion.updatedAt == now
  {
    var k := FindIndex(d.currentPrompt);
    if k < 0 then Failure(InvalidState)
    else
      var p := Script[k];
      var stored := d.(slots := d.slots[p.field := WriteValue(p.field, response)]);
      var c' := c.(conversationHistory := c.conversationHistory + [Entry(p.message, response, now)]);
      if k + 1 < |Script| then
        Success(Outcome(stored.(currentPrompt := Some(Script[k + 1].id), updatedAt := now), c', NextQuestion(Script[k + 1])))
      else
        Success(Outcome(stored.(status := Proposed, currentPrompt := None, updatedAt := now), c', Completed))
  }

  /** The interview invariant. With n answers recorded: the cursor is the id
      of prompt n (absent once all are answered) and the status follows it;
      the history holds the messages of the first n prompts; the slots of the
      first n prompts hold what the field writer made of the recorded answers
      and every later slot still holds its initial value; the placeholder
      lists are empty. */
  predicate Consistent(d: Discussion, c: Context) {
    var h := c.conversationHistory;
    && CursorAt(d, |h|)
    && d.status == (if |h| < |Script| then InDiscussion else Proposed)
    && (forall i :: 0 <= i < |h| ==> h[i].prompt == Script[i].message)
    && FilledSlots(d, h)
    && PendingSlots(d, |h|)
    && c.previousDecisions == [] && c.relatedFeatures == [] && c.technicalConstraints == []
  }

  /** After n answers the cursor names prompt n, or is absent once all are answered. */
  predicate CursorAt(d: Discussion, n: nat) {
    n <= |Script| && d.currentPrompt == (if n < |Script| then Some(Script[n].id) else None)
  }

  /** The slot of each answered prompt holds the field writer's value of its answer. */
  predicate FilledSlots(d: Discussion, h: seq<Entry>) {
    forall f :: FieldIndex(f) < |h| ==> Slot(d, f) == Some(WriteValue(f, h[FieldIndex(f)].response))
  }

  /** The slot of each prompt from the n-th on holds its initial value. */
  predicate PendingSlots(d: Discussion, n: nat) {
    forall f :: n <= FieldIndex(f) ==> Slot(d, f) == InitialSlot(f)
  }

  /** Writing the answer to prompt n into its slot, and recording it, extends
      the filled prefix of the slots by one. */
  lemma WriteExtendsPrefix(d: Discussion, h: seq<Entry>, e: Discussion, entry: Entry)
    requires |h| < |Script|
    requires FilledSlots(d, h) && PendingSlots(d, |h|)
    requires e.slots == d.slots[Script[|h|].field := WriteValue(Script[|h|].field, entry.response)]
    ensures FilledSlots(e, h + [entry]) && PendingSlots(e, |h| + 1)
  {
    ScriptShape();
    var n := |h|;
    var h' := h + [entry];
    forall f | FieldIndex(f) < |h'| ensures Slot(e, f) == Some(WriteValue(f, h'[FieldIndex(f)].response)) {
      if FieldIndex(f) == n {
        assert f == Script[n].field;
      } else {
        assert f != Script[n].field;
        assert h'[FieldIndex(f)] == h[FieldIndex(f)];
      }
    }
    forall f | n + 1 <= FieldIndex(f) ensures Slot(e, f) == InitialSlot(f) {
      assert f != Script[n].field;
    }
  }

  /** The invariant read prompt by prompt: the slot of the i-th prompt holds
      the field writer's value of the i-th recorded answer, or its initial
      value when the i-th prompt is still unanswered. */
  lemma SlotsByPrompt(d: Discussion, c: Context)
    requires Consistent(d, c)
    ensures var h := c.conversationHistory;
      && (forall i :: 0 <= i < |h| ==> Slot(d, Script[i].field) == Some(WriteValue(Script[i].field, h[i].response)))
      && (forall i :: |h| <= i < |Script| ==> Slot(d, Script[i].field) == InitialSlot(Script[i].field))
  {
    ScriptShape();
  }

  /** A new discussion is consistent and has answered nothing. */
  lemma NewIsConsistent(id: string, title: string, now: Timestamp)
    ensures Consistent(NewDiscussion(id, title, now), NewContext())
  {
  }

  /** In a consistent, unfinished discussion the cursor finds the first unanswered prompt. */
  lemma CursorIndex(d: Discussion, n: nat)
    requires CursorAt(d, n) && n < |Script|
    ensures FindIndex(d.currentPrompt) == n
  {
    ScriptIdsDistinct();
  }

  /** An answer to a consistent, unfinished discussion with n recorded
      answers is accepted. It appends exactly one history entry (the message
      of prompt n, the raw response, the time) after the unchanged earlier
      ones; writes the field writer's value into the slot of prompt n and
      into no other slot; moves the cursor to prompt n + 1 with the status
      unchanged, or after the last prompt marks the discussion proposed and
      clears the cursor; refreshes `updatedAt`; and changes nothing else. */
  lemma RespondAdvances(d: Discussion, c: Context, response: string, now: Timestamp)
    requires CursorAt(d, |c.conversationHistory|)
    requires |c.conversationHistory| < |Script|
    ensures Respond(d, c, response, now).Success?
    ensures var o := Respond(d, c, response, now).value;
      var n := |c.conversationHistory|;
      && o.context == c.(conversationHistory := c.conversationHistory + [Entry(Script[n].message, response, now)])
      && o.discussion.slots == d.slots[Script[n].field := WriteValue(Script[n].field, response)]
      && CursorAt(o.discussion, n + 1)
      && o.discussion.id == d.id && o.discussion.title == d.title
      && o.discussion.createdAt == d.createdAt && o.discussion.updatedAt == now
      && (n + 1 < |Script| ==>
            o.discussion.status == d.status && o.discussion.currentPrompt == Some(Script[n + 1].id)
            && o.reply == NextQuestion(Script[n + 1]))
      && (n + 1 == |Script| ==>
            o.discussion.status == Proposed && o.discussion.currentPrompt == None && o.reply == Completed)
  {
    CursorIndex(d, |c.conversationHistory|);
  }

  /** An accepted answer keeps the interview invariant. */
  lemma {:induction false} RespondKeepsConsistent(d: Discussion, c: Context, response: string, now: Timestamp)
    requires Consistent(d, c)
    requires |c.conversationHistory| < |Script|
    ensures Respond(d, c, response, now).Success?
    ensures Consistent(Respond(d, c, response, now).value.discussion, Respond(d, c, response, now).value.context)
  {
    RespondAdvances(d, c, response, now);
    var n := |c.conversationHistory|;
    var o := Respond(d, c, response, now).value;
    var h, h' := c.conversationHistory, o.context.conversationHistory;
    WriteExtendsPrefix(d, h, o.discussion, Entry(Script[n].message, response, now));
    HistoryMessages(h, Entry(Script[n].message, response, now));
    assert o.discussion.status == (if n + 1 < |Script| then InDiscussion else Proposed);
  }

  /** Recording the message of prompt n after those of the first n prompts
      gives the messages of the first n + 1 prompts. */
  lemma HistoryMessages(h: seq<Entry>, entry: Entry)
    requires |h| < |Script| && entry.prompt == Script[|h|].message
    requires forall i :: 0 <= i < |h| ==> h[i].prompt == Script[i].message
    ensures forall i :: 0 <= i < |h| + 1 ==> (h + [entry])[i].prompt == Script[i].message
  {
    forall i | 0 <= i < |h| + 1 ensures (h + [entry])[i].prompt == Script[i].message {
      if i < |h| {
        assert (h + [entry])[i] == h[i];
      }
    }
  }

  /** An answer changes only the slot its prompt targets: every other slot,
      present or absent, keeps its content. */
  lemma RespondOnlyTargetSlot(d: Discussion, c: Context, response: string, now: Timestamp, g: Field)
    requires Consistent(d, c)
    requires |c.conversationHistory| < |Script|
    requires g != Script[|c.conversationHistory|].field
    ensures Slot(Respond(d, c, response, now).value.discussion, g) == Slot(d, g)
  {
    RespondAdvances(d, c, response, now);
  }

  /** Answering a consistent discussion whose eight prompts are all answered
      is rejected. */
  lemma RespondWhenComplete(d: Discussion, c: Context, response: string, now: Timestamp)
    requires Consistent(d, c)
    requires |c.conversationHistory| == |Script|
    ensures Respond(d, c, response, now) == Failure(InvalidState)
  {
  }

  /** Feeds a sequence of (response, time) answers to the discussion, one
      after the other, stopping at the first rejected one. */
  function Run(d: Discussion, c: Context, answers: seq<(string, Timestamp)>): Result<(Discussion, Context), Error>
    decreases |answers|
  {
    if answers == [] then Success((d, c))
    else match Respond(d, c, answers[0].0, answers[0].1)
      case Failure(e) => Failure(e)
      case Success(o) => Run(o.discussion, o.context, answers[1..])
  }

  /** The history entries that answering prompts `from`, `from + 1`, ...
      with the given (response, time) pairs appends. */
  function Entries(from: nat, answers: seq<(string, Timestamp)>): (r: seq<Entry>)
    requires from + |answers| <= |Script|
    ensures |r| == |answers|
    ensures forall i :: 0 <= i < |r| ==> r[i] == Entry(Script[from + i].message, answers[i].0, answers[i].1)
    decreases |answers|
  {
    if answers == [] then []
    else [Entry(Script[from].message, answers[0].0, answers[0].1)] + Entries(from + 1, answers[1..])
  }

  lemma AppendAssoc<T>(a: seq<T>, b: seq<T>, c: seq<T>)
    ensures (a + b) + c == a + (b + c)
  {
  }

  /** Running answers through a consistent discussion accepts every one of
      them as long as prompts remain; the invariant still holds afterwards
      and the identity of the record is unchanged. */
  lemma {:induction false} RunAccepts(d: Discussion, c: Context, answers: seq<(string, Timestamp)>)
    requires Consistent(d, c)
    requires |c.conversationHistory| + |answers| <= |Script|
    ensures Run(d, c, answers).Success?
    ensures Consistent(Run(d, c, answers).value.0, Run(d, c, answers).value.1)
    ensures Run(d, c, answers).value.0.id == d.id
    ensures Run(d, c, answers).value.0.title == d.title
    ensures Run(d, c, answers).value.0.createdAt == d.createdAt
    decreases |answers|
  {
    if answers != [] {
      RunStep(d, c, answers);
      var o := Respond(d, c, answers[0].0, answers[0].1).value;
      RunAccepts(o.discussion, o.context, answers[1..]);
    }
  }

  /** After such a run the history holds the earlier entries followed by
      one entry per answer, in call order, and no entry was changed. */
  lemma {:induction false} RunRecordsHistory(d: Discussion, c: Context, answers: seq<(string, Timestamp)>)
    requires CursorAt(d, |c.conversationHistory|)
    requires |c.conversationHistory| + |answers| <= |Script|
    ensures Run(d, c, answers).Success?
    ensures Run(d, c, answers).value.1.conversationHistory
         == c.conversationHistory + Entries(|c.conversationHistory|, answers)
    decreases |answers|
  {
    var h := c.conversationHistory;
    if answers == [] {
      assert h + Entries(|h|, answers) == h;
    } else {
      RespondRecords(d, c, answers[0].0, answers[0].1);
      var o := Respond(d, c, answers[0].0, answers[0].1).value;
      assert Run(d, c, answers) == Run(o.discussion, o.context, answers[1..]);
      RunRecordsHistory(o.discussion, o.context, answers[1..]);
      var e0 := Entry(Script[|h|].message, answers[0].0, answers[0].1);
      AppendAssoc(h, [e0], Entries(|h| + 1, answers[1..]));
    }
  }

  /** The part of `RespondAdvances` that the history needs. */
  lemma RespondRecords(d: Discussion, c: Context, response: string, now: Timestamp)
    requires CursorAt(d, |c.conversationHistory|)
    requires |c.conversationHistory| < |Script|
    ensures Respond(d, c, response, now).Success?
    ensures var o := Respond(d, c, response, now).value;
      var n := |c.conversationHistory|;
      && o.context.conversationHistory == c.conversationHistory + [Entry(Script[n].message, response, now)]
      && CursorAt(o.discussion, n + 1)
  {
    RespondAdvances(d, c, response, now);
  }

  /** The first step of a run on an unfinished, consistent discussion. */
  lemma RunStep(d: Discussion, c: Context, answers: seq<(string, Timestamp)>)
    requires Consistent(d, c)
    requires |c.conversationHistory| + |answers| <= |Script|
    requires answers != []
    ensures Respond(d, c, answers[0].0, answers[0].1).Success?
    ensures var o := Respond(d, c, answers[0].0, answers[0].1).value;
      && Run(d, c, answers) == Run(o.discussion, o.context, answers[1..])
      && Consistent(o.discussion, o.context)
      && o.context.conversationHistory
         == c.conversationHistory + [Entry(Script[|c.conversationHistory|].message, answers[0].0, answers[0].1)]
      && o.discussion.id == d.id && o.discussion.title == d.title && o.discussion.createdAt == d.createdAt
  {
    RespondAdvances(d, c, answers[0].0, answers[0].1);
    RespondKeepsConsistent(d, c, answers[0].0, answers[0].1);
  }

  /** Starting from a new discussion: n <= 8 answers are all accepted; the
      history then holds exactly those n responses, in call order; the slots
      of the first n prompts hold what the field writer made of them and
      every later slot its initial value (the filled slots are a prefix of
      the script); the discussion is in discussion at prompt n, or after
      exactly 8 answers proposed with no cursor, and then a further answer
      is rejected. */
  lemma InterviewFromStart(id: string, title: string, now: Timestamp, answers: seq<(string, Timestamp)>)
    requires |answers| <= |Script|
    ensures Run(NewDiscussion(id, title, now), NewContext(), answers).Success?
    ensures var r := Run(NewDiscussion(id, title, now), NewContext(), answers).value;
      && |r.1.conversationHistory| == |answers|
      && (forall i :: 0 <= i < |answers| ==> r.1.conversationHistory[i].response == answers[i].0)
      && (forall i :: 0 <= i < |answers| ==> Slot(r.0, Script[i].field) == Some(WriteValue(Script[i].field, answers[i].0)))
      && (forall i :: |answers| <= i < |Script| ==> Slot(r.0, Script[i].field) == InitialSlot(Script[i].field))
      && (|answers| < |Script| ==> r.0.status == InDiscussion && r.0.currentPrompt == Some(Script[|answers|].id))
      && (|answers| == |Script| ==> r.0.status == Proposed && r.0.currentPrompt == None)
  {
    NewIsConsistent(id, title, now);
    RunAccepts(NewDiscussion(id, title, now), NewContext(), answers);
    RunRecordsHistory(NewDiscussion(id, title, now), NewContext(), answers);
    var r := Run(NewDiscussion(id, title, now), NewContext(), answers).value;
    assert r.1.conversationHistory == Entries(0, answers);
    SlotsByPrompt(r.0, r.1);
  }

  /** After all eight answers any further answer is rejected. */
  lemma InterviewEnds(id: string, title: string, now: Timestamp, answers: seq<(string, Timestamp)>, response: string, t: Timestamp)
    requires |answers| == |Script|
    ensures Run(NewDiscussion(id, title, now), NewContext(), answers).Success?
    ensures var r := Run(NewDiscussion(id, title, now), NewContext(), answers).value;
      Respond(r.0, r.1, response, t) == Failure(InvalidState)
  {
    NewIsConsistent(id, title, now);
    RunAccepts(NewDiscussion(id, title, now), NewContext(), answers);
    RunRecordsHistory(NewDiscussion(id, title, now), NewContext(), answers);
    var r := Run(NewDiscussion(id, title, now), NewContext(), answers).value;
    RespondWhenComplete(r.0, r.1, response, t);
  }
}
