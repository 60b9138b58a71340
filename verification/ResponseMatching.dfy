/**
  Request/response matching of src/session.cpp over whole runs: commands that wait, commands that
  do not, timeouts, late, duplicate and stale responses, and closing and reopening.
*/
module ResponseMatching {
  import opened Bytes

  /** A message's "id" member: an integer, or anything that equals no integer. */
  datatype Id = IntId(value: int) | OtherId

  /** A parsed message, by what the session looks at. */
  datatype Message = Message(
    isVersion2: bool,
    hasResult: bool,
    hasError: bool,
    id: Option<Id>,
    isLaserScan: bool,
    hasParams: bool,
    content: seq<byte>)

  /** An element of the response deque: a document, or one that has been moved from. */
  datatype Slot = Document(message: Message) | MovedFrom

  /** How a waiting command ended. */
  datatype Ending =
    | Result(response: Message)  // no_error
    | Error(response: Message)   // some error code
    | TimedOut

  /** The end of the command whose request went out under the id `request`. */
  datatype Outcome = Outcome(request: int, ending: Ending)

  /**
    `pending`: the id under which the caller that now waits sent its request; that caller holds the
    command mutex. `issued`: the ids of all requests; `requests`: those of the ones that wait.
  */
  datatype State = State(
    isOpen: bool,
    id: int,
    queue: seq<Slot>,
    pending: Option<int>,
    issued: seq<int>,
    requests: seq<int>,
    outcomes: seq<Outcome>)

  datatype Event =
    | Open
    | Close
    | Notify                     // executeCommand without a response
    | Request                    // executeCommand with a response, up to its wait
    | Receive(message: Message)  // onMessageReceived
    | Wake                       // the wait re-evaluates its predicate
    | Timeout                    // the wait ends, evaluating its predicate once more

  const INITIAL := State(false, -1, [], None, [], [], [])

  // ---------- std::remove_if without erase ----------

  predicate IsStale(s: Slot, id: int) {
    s.Document? && s.message.id.Some? && s.message.id.value.IntId? && s.message.id.value.value < id
  }

  predicate AllDocuments(q: seq<Slot>) {
    forall i :: 0 <= i < |q| ==> q[i].Document?
  }

  function Survivors(q: seq<Slot>, id: int): (r: seq<Slot>)
    ensures |r| <= |q|
  {
    if q == [] then []
    else if IsStale(q[|q| - 1], id) then Survivors(q[..|q| - 1], id)
    else Survivors(q[..|q| - 1], id) + [q[|q| - 1]]
  }

  /** The deque remove_if leaves: survivors moved to the front, and behind them stale or moved-from elements. */
  function RemoveIf(q: seq<Slot>, id: int): (r: seq<Slot>)
    ensures |r| == |q|
  {
    var kept := Survivors(q, id);
    seq(|q|, i requires 0 <= i < |q| => if i < |kept| then kept[i] else if IsStale(q[i], id) then q[i] else MovedFrom)
  }

  /** The algorithm of std::remove_if: every survivor is moved to the next free place, unless it is there already. */
  method RemoveStale(queue: seq<Slot>, id: int) returns (q: seq<Slot>)
    requires AllDocuments(queue)
    ensures q == RemoveIf(queue, id)
  {
    q := queue;
    var first := 0;
    for i := 0 to |queue|
      invariant |q| == |queue| && first == |Survivors(queue[..i], id)| <= i
      invariant q[..first] == Survivors(queue[..i], id)
      invariant forall k :: first <= k < i ==> q[k] == if IsStale(queue[k], id) then queue[k] else MovedFrom
      invariant forall k :: i <= k < |queue| ==> q[k] == queue[k]
    {
      assert queue[..i + 1][..i] == queue[..i];
      if !IsStale(q[i], id) {
        if first < i {
          q := q[first := q[i]][i := MovedFrom];
        }
        first := first + 1;
      }
    }
    assert queue[..|queue|] == queue;
  }

  /** The documents whose id is not below the current one, in order. */
  function NotBelow(ids: seq<int>, messages: seq<Message>, id: int): (kept: seq<Message>)
    requires |ids| == |messages|
  {
    if ids == [] then []
    else
      var n := |ids| - 1;
      NotBelow(ids[..n], messages[..n], id) + (if ids[n] >= id then [messages[n]] else [])
  }

  ghost predicate AreDocuments(q: seq<Slot>, ids: seq<int>, messages: seq<Message>) {
    && |q| == |ids| == |messages|
    && forall i :: 0 <= i < |q| ==> q[i] == Document(messages[i]) && messages[i].id == Some(IntId(ids[i]))
  }

  lemma {:induction false} SurvivorsAreNotBelow(q: seq<Slot>, ids: seq<int>, messages: seq<Message>, id: int)
    requires AreDocuments(q, ids, messages)
    ensures |Survivors(q, id)| == |NotBelow(ids, messages, id)|
    ensures forall i :: 0 <= i < |Survivors(q, id)| ==> Survivors(q, id)[i] == Document(NotBelow(ids, messages, id)[i])
    decreases |q|
  {
    if q != [] {
      var n := |q| - 1;
      SurvivorsAreNotBelow(q[..n], ids[..n], messages[..n], id);
    }
  }

  /** The call keeps the length and moves exactly the documents of ids not below the current one to the front. */
  lemma RemoveIfKeepsNewer(q: seq<Slot>, ids: seq<int>, messages: seq<Message>, id: int)
    requires AreDocuments(q, ids, messages)
    ensures |RemoveIf(q, id)| == |q| && |NotBelow(ids, messages, id)| <= |q|
    ensures forall i :: 0 <= i < |NotBelow(ids, messages, id)| ==>
      RemoveIf(q, id)[i] == Document(NotBelow(ids, messages, id)[i])
  {
    SurvivorsAreNotBelow(q, ids, messages, id);
  }

  /** Without the erase, a second entry would be lost: it is moved over the stale one and left moved-from. */
  lemma SecondEntryIsLeftMovedFrom(stale: Message, answer: Message, before: int, id: int)
    requires stale.id == Some(IntId(before)) && before < id && answer.id == Some(IntId(id))
    ensures RemoveIf([Document(stale), Document(answer)], id) == [Document(answer), MovedFrom]
  {
    var q := [Document(stale), Document(answer)];
    assert q[..1] == [Document(stale)] && [Document(stale)][..0] == [];
    assert Survivors([Document(stale)], id) == [];
    assert Survivors(q, id) == [Document(answer)];
  }

  lemma AtMostOneEntryIsUntouched(q: seq<Slot>, id: int)
    requires |q| <= 1 && AllDocuments(q)
    ensures RemoveIf(q, id) == q
  {
    if |q| == 1 {
      assert q[..0] == [];
    }
  }

  // ---------- The steps ----------

  predicate IsResponse(m: Message) {
    m.isVersion2 && (m.hasResult || m.hasError) && m.id.Some?
  }

  predicate HasId(m: Message, id: int) {
    m.id == Some(IntId(id))
  }

  predicate FrontMatches(q: seq<Slot>, id: int) {
    q != [] && q[0].Document? && HasId(q[0].message, id)
  }

  function OnMessageReceived(s: State, m: Message): (next: State) {
    if IsResponse(m) && HasId(m, s.id) then s.(queue := [Document(m)]) else s
  }

  function NewRequest(s: State): (next: State) {
    s.(id := s.id + 1, issued := s.issued + [s.id + 1])
  }

  /** The caller that now waits keeps the id it was given. */
  function StartWaiting(s: State): (next: State) {
    s.(pending := Some(s.id), requests := s.requests + [s.id])
  }

  /** The wait's predicate: stale entries go, then the front is tested for the current id. */
  function EvaluateWait(s: State): (r: (State, bool))
    ensures r.0.pending == s.pending
    ensures r.1 ==> FrontMatches(r.0.queue, s.id)
  {
    var q := RemoveIf(s.queue, s.id);
    (s.(queue := q), FrontMatches(q, s.id))
  }

  /** The waiting caller returns. */
  function Return(s: State, ending: Ending): (next: State)
    requires s.pending.Some?
  {
    s.(pending := None, outcomes := s.outcomes + [Outcome(s.pending.value, ending)])
  }

  function EndingOf(m: Message): (ending: Ending) {
    if m.hasResult then Result(m) else Error(m)
  }

  /** The end of a command whose response is at the front: a result is taken, an error stays queued. */
  function TakeResponse(s: State): (next: State)
    requires s.pending.Some? && s.queue != [] && s.queue[0].Document?
  {
    var m := s.queue[0].message;
    Return(if m.hasResult then s.(queue := s.queue[1..]) else s, EndingOf(m))
  }

  function WakeUp(s: State): (next: State)
    requires s.pending.Some?
  {
    var (s', ready) := EvaluateWait(s);
    if ready then TakeResponse(s') else s'
  }

  function TimeOut(s: State): (next: State)
    requires s.pending.Some?
  {
    var (s', ready) := EvaluateWait(s);
    if ready then TakeResponse(s') else Return(s', TimedOut)
  }

  /** The command mutex admits one command at a time; requests and messages need an open transport. */
  predicate Enabled(s: State, e: Event) {
    match e
    case Open => !s.isOpen
    case Close => true
    case Notify => s.isOpen && s.pending == None
    case Request => s.isOpen && s.pending == None
    case Receive(_) => s.isOpen
    case Wake => s.pending.Some?
    case Timeout => s.pending.Some?
  }

  function Step(s: State, e: Event): (next: State)
    requires (e.Wake? || e.Timeout?) ==> s.pending.Some?
  {
    match e
    case Open => s.(isOpen := true)
    case Close => s.(isOpen := false, queue := [])
    case Notify => NewRequest(s)
    case Request => StartWaiting(NewRequest(s))
    case Receive(m) => OnMessageReceived(s, m)
    case Wake => WakeUp(s)
    case Timeout => TimeOut(s)
  }

  ghost predicate Execution(s: State, events: seq<Event>, s': State)
    decreases |events|
  {
    if events == [] then s' == s
    else Enabled(s, events[0]) && Execution(Step(s, events[0]), events[1..], s')
  }

  // ---------- The invariant ----------

  /** What the command with this request may return. */
  predicate OutcomeIsOwn(o: Outcome, request: int) {
    && o.request == request
    && match o.ending
       case Result(response) => HasId(response, request) && response.hasResult
       case Error(response) => HasId(response, request) && !response.hasResult
       case TimedOut => true
  }

  /** Ids 0, 1, 2, ... once each; the requests that wait are some of them, in order, the last one pending. */
  ghost predicate IdsInOrder(s: State) {
    && s.id >= -1
    && |s.issued| == s.id + 1 && (forall i :: 0 <= i < |s.issued| ==> s.issued[i] == i)
    && (forall k :: 0 <= k < |s.requests| ==> 0 <= s.requests[k] <= s.id)
    && (forall j, k :: 0 <= j < k < |s.requests| ==> s.requests[j] < s.requests[k])
  }

  /** While a command waits no other id is issued; every earlier request has its one outcome. */
  ghost predicate OutcomesInOrder(s: State) {
    && (s.pending.Some? ==> s.pending.value == s.id && s.requests != [] && s.requests[|s.requests| - 1] == s.id)
    && |s.outcomes| + (if s.pending.Some? then 1 else 0) == |s.requests|
    && (forall k :: 0 <= k < |s.outcomes| ==> OutcomeIsOwn(s.outcomes[k], s.requests[k]))
  }

  /** At most one queued response, of an id not beyond the current one. */
  ghost predicate OneResponse(s: State) {
    && |s.queue| <= 1
    && (|s.queue| == 1 ==> exists id :: s.queue[0].Document? && HasId(s.queue[0].message, id) && id <= s.id)
  }

  ghost predicate Inv(s: State) {
    IdsInOrder(s) && OutcomesInOrder(s) && OneResponse(s)
  }

  lemma WaitLeavesQueue(s: State)
    requires Inv(s)
    ensures EvaluateWait(s) == (s, FrontMatches(s.queue, s.id))
  {
    AtMostOneEntryIsUntouched(s.queue, s.id);
  }

  lemma StepKeepsInv(s: State, e: Event)
    requires Inv(s) && Enabled(s, e)
    ensures Inv(Step(s, e))
  {
    hide RemoveIf;
    WaitLeavesQueue(s);
    hide EvaluateWait;
    if e.Receive? && IsResponse(e.message) && HasId(e.message, s.id) {
      assert Step(s, e).queue[0] == Document(e.message);
    }
  }

  lemma {:induction false} ExecutionKeepsInv(s: State, events: seq<Event>, s': State)
    requires Inv(s) && Execution(s, events, s')
    ensures Inv(s')
    decreases |events|
  {
    hide Inv, Step;
    if events != [] {
      StepKeepsInv(s, events[0]);
      ExecutionKeepsInv(Step(s, events[0]), events[1..], s');
    }
  }

  /**
    In every run commands end in the order of their requests, each at most once: outcome k belongs to
    the k-th Request of the run, and if it is no_error the response carries the id that this request
    went out under. No id is used twice over the session's life, and the queue never holds more than
    one entry.
  */
  lemma RunsMatchResponses(events: seq<Event>, s: State)
    requires Execution(INITIAL, events, s)
    ensures |RequestIds(events)| - 1 <= |s.outcomes| <= |RequestIds(events)|
    ensures forall k :: 0 <= k < |s.outcomes| ==> OutcomeIsOwn(s.outcomes[k], RequestIds(events)[k])
    ensures forall i, j :: 0 <= i < j < |s.issued| ==> s.issued[i] < s.issued[j]
    ensures |s.queue| <= 1 && RemoveIf(s.queue, s.id) == s.queue
  {
    hide RemoveIf;
    ExecutionKeepsInv(INITIAL, events, s);
    RequestsAreTheEvents(events, s);
    WaitLeavesQueue(s);
  }

  /** The ids of the Request events: each is the number of ids used before it. */
  function RequestIds(events: seq<Event>): (ids: seq<int>) {
    if events == [] then []
    else
      var (front, last) := (events[..|events| - 1], events[|events| - 1]);
      RequestIds(front) + (if last.Request? then [IdCount(front)] else [])
  }

  /** How many ids a run has used. */
  function IdCount(events: seq<Event>): (count: nat) {
    if events == [] then 0
    else
      var last := events[|events| - 1];
      IdCount(events[..|events| - 1]) + (if last.Request? || last.Notify? then 1 else 0)
  }

  lemma {:induction false} ExecutionSplit(s: State, events: seq<Event>, s': State) returns (middle: State)
    requires events != [] && Execution(s, events, s')
    ensures Execution(s, events[..|events| - 1], middle)
    ensures Enabled(middle, events[|events| - 1]) && s' == Step(middle, events[|events| - 1])
    decreases |events|
  {
    hide Step;
    if |events| == 1 {
      middle := s;
      assert events[1..] == [];
    } else {
      middle := ExecutionSplit(Step(s, events[0]), events[1..], s');
      assert events[..|events| - 1][1..] == events[1..][..|events| - 2];
    }
  }

  /** The ids are told by the events alone, so outcome k belongs to the k-th Request of the run. */
  lemma {:induction false} RequestsAreTheEvents(events: seq<Event>, s: State)
    requires Execution(INITIAL, events, s)
    ensures s.requests == RequestIds(events) && s.id + 1 == IdCount(events)
    decreases |events|
  {
    hide RemoveIf, Execution;
    if events == [] {
      EmptyExecution(INITIAL, s);
    } else {
      var middle := ExecutionSplit(INITIAL, events, s);
      RequestsAreTheEvents(events[..|events| - 1], middle);
    }
  }

  lemma EmptyExecution(s: State, s': State)
    requires Execution(s, [], s')
    ensures s' == s
  {
  }

  /** What the command mutex is for: an id issued during the wait would hand over another's response. */
  lemma WithoutMutexResponsesAreSwapped(m: Message)
    requires IsResponse(m) && HasId(m, 1) && m.hasResult
    ensures
      var waiting := Step(Step(INITIAL, Open), Request);
      && waiting.pending == Some(0) && !Enabled(waiting, Notify)
      && Step(Step(Step(waiting, Notify), Receive(m)), Wake).outcomes == [Outcome(0, Result(m))]
  {
    var s := Step(Step(Step(Step(INITIAL, Open), Request), Notify), Receive(m));
    assert s.queue == [Document(m)];
    AtMostOneEntryIsUntouched(s.queue, s.id);
  }

  // ---------- Refinement: a one-slot mailbox ----------

  /** The simple form: one slot for the response to the pending request, emptied by every new command. */
  datatype Mailbox = Mailbox(
    isOpen: bool, issued: seq<int>, requests: seq<int>, pending: Option<int>, slot: Option<Message>,
    outcomes: seq<Outcome>)

  const EMPTY_MAILBOX := Mailbox(false, [], [], None, None, [])

  function MailboxStep(b: Mailbox, e: Event): (next: Mailbox) {
    match e
    case Open => b.(isOpen := true)
    case Close => b.(isOpen := false, slot := None)
    case Notify => b.(issued := b.issued + [|b.issued|])
    case Request => b.(issued := b.issued + [|b.issued|], requests := b.requests + [|b.issued|],
                       pending := Some(|b.issued|), slot := None)
    case Receive(m) => if b.pending.Some? && IsResponse(m) && HasId(m, b.pending.value) then b.(slot := Some(m)) else b
    case Wake => if b.slot.Some? then MailboxReturn(b, EndingOf(b.slot.value)) else b
    case Timeout => MailboxReturn(b, if b.slot.Some? then EndingOf(b.slot.value) else TimedOut)
  }

  function MailboxReturn(b: Mailbox, ending: Ending): (next: Mailbox) {
    if b.pending == None then b
    else b.(slot := None, pending := None, outcomes := b.outcomes + [Outcome(b.pending.value, ending)])
  }

  function MailboxRun(b: Mailbox, events: seq<Event>): (next: Mailbox)
    decreases |events|
  {
    if events == [] then b else MailboxRun(MailboxStep(b, events[0]), events[1..])
  }

  /** While a command waits, the slot holds what is queued for its id. */
  ghost predicate Refines(s: State, b: Mailbox) {
    && s.isOpen == b.isOpen && s.pending == b.pending
    && s.issued == b.issued && s.requests == b.requests && s.outcomes == b.outcomes
    && (s.pending.Some? ==> b.slot == (if FrontMatches(s.queue, s.id) then Some(s.queue[0].message) else None))
  }

  lemma StepRefines(s: State, b: Mailbox, e: Event)
    requires Inv(s) && Refines(s, b) && Enabled(s, e)
    ensures Refines(Step(s, e), MailboxStep(b, e))
  {
    hide RemoveIf;
    WaitLeavesQueue(s);
    hide EvaluateWait;
  }

  lemma {:induction false} ExecutionRefines(s: State, b: Mailbox, events: seq<Event>, s': State)
    requires Inv(s) && Refines(s, b) && Execution(s, events, s')
    ensures Refines(s', MailboxRun(b, events))
    decreases |events|
  {
    hide Inv, Step, Refines, MailboxStep;
    if events != [] {
      StepRefines(s, b, events[0]);
      StepKeepsInv(s, events[0]);
      ExecutionRefines(Step(s, events[0]), MailboxStep(b, events[0]), events[1..], s');
    }
  }

  /** In every run the deque with its non-erasing remove_if behaves as the one-slot mailbox. */
  lemma QueueIsAMailbox(events: seq<Event>, s: State)
    requires Execution(INITIAL, events, s)
    ensures Refines(s, MailboxRun(EMPTY_MAILBOX, events))
  {
    ExecutionRefines(INITIAL, EMPTY_MAILBOX, events, s);
  }

  // ---------- What becomes of a queued response ----------

  /** A message of version 2.0 with a result or an error and this id is received. */
  predicate Answers(e: Event, id: int) {
    && e.Receive? && e.message.isVersion2 && (e.message.hasResult || e.message.hasError)
    && e.message.id == Some(IntId(id))
  }

  /** The answer that is queued after the events when `m` was before: the last one since the last Close. */
  function Surviving(events: seq<Event>, id: int, m: Option<Message>): (answer: Option<Message>) {
    if events == [] then m
    else
      var last := events[|events| - 1];
      if last.Close? then None
      else if Answers(last, id) then Some(last.message)
      else Surviving(events[..|events| - 1], id, m)
  }

  /** A queued answer is lost exactly when the session is closed and no answer comes after that. */
  lemma {:induction false} LostExactlyByClosing(events: seq<Event>, id: int, m: Message)
    ensures Surviving(events, id, Some(m)) == None <==>
      exists k :: 0 <= k < |events| && events[k].Close? && forall j :: k < j < |events| ==> !Answers(events[j], id)
    decreases |events|
  {
    hide Answers;
    if events != [] {
      var n := |events| - 1;
      var front := events[..n];
      LostExactlyByClosing(front, id, m);
      if !events[n].Close? && !Answers(events[n], id) {
        if k :| 0 <= k < |events| && events[k].Close? && forall j :: k < j < |events| ==> !Answers(events[j], id) {
          assert front[k].Close?;
          assert forall j :: k < j < |front| ==> !Answers(front[j], id);
        }
        if k :| 0 <= k < |front| && front[k].Close? && forall j :: k < j < |front| ==> !Answers(front[j], id) {
          assert events[k].Close?;
          assert forall j :: k < j < |events| ==> !Answers(events[j], id) by {
            forall j | k < j < |events| ensures !Answers(events[j], id) {
              if j < n { assert front[j] == events[j]; }
            }
          }
        }
      }
    }
  }

  function Queued(answer: Option<Message>): (queue: seq<Slot>) {
    if answer == None then [] else [Document(answer.value)]
  }

  /**
    Once the awaited response is queued, and until its waiter runs again, whatever is received and
    however often the session is closed and reopened, the queue holds exactly the surviving answer,
    and a wait that ends then, even by timing out, returns it.
  */
  lemma {:induction false} AnswerStaysUntilTaken(s: State, m: Message, events: seq<Event>, s': State)
    requires Inv(s) && s.pending.Some? && s.queue == [Document(m)] && HasId(m, s.id)
    requires forall i :: 0 <= i < |events| ==> !events[i].Wake? && !events[i].Timeout?
    requires Execution(s, events, s')
    ensures s'.pending == s.pending && s'.id == s.id && s'.outcomes == s.outcomes
    ensures s'.queue == Queued(Surviving(events, s.id, Some(m)))
    ensures TimeOut(s').outcomes == s.outcomes + [Outcome(s.id,
      if Surviving(events, s.id, Some(m)) == None then TimedOut else EndingOf(Surviving(events, s.id, Some(m)).value))]
    decreases |events|
  {
    hide RemoveIf;
    ExecutionKeepsInv(s, events, s');
    if events == [] {
      EmptyExecution(s, s');
    } else {
      var n := |events| - 1;
      var middle := ExecutionSplit(s, events, s');
      AnswerStaysUntilTaken(s, m, events[..n], middle);
      SurvivingHasId(events, s.id, m);
    }
    AnswerReturned(s', m, Surviving(events, s.id, Some(m)));
  }

  lemma {:induction false} SurvivingHasId(events: seq<Event>, id: int, m: Message)
    requires HasId(m, id)
    ensures Surviving(events, id, Some(m)).Some? ==> HasId(Surviving(events, id, Some(m)).value, id)
    decreases |events|
  {
    if events != [] {
      SurvivingHasId(events[..|events| - 1], id, m);
    }
  }

  lemma AnswerReturned(s: State, m: Message, answer: Option<Message>)
    requires Inv(s) && s.pending.Some? && s.queue == Queued(answer)
    requires answer.Some? ==> HasId(answer.value, s.id)
    ensures TimeOut(s).outcomes == s.outcomes + [Outcome(s.id,
      if answer == None then TimedOut else EndingOf(answer.value))]
  {
    hide RemoveIf;
    WaitLeavesQueue(s);
  }

  // ---------- How every command ends ----------

  /**
    The command sent by event `start` under `id` ends at event `end`, with the answer that has survived
    since then: as its result or error, or timed out when there is none. Until then every wake-up
    found no answer.
  */
  ghost predicate EndsWith(events: seq<Event>, start: nat, end: nat, id: int, ending: Ending) {
    && start < end < |events| && events[start].Request? && id == IdCount(events[..start])
    && var answer := Surviving(events[start + 1..end], id, None);
    && (ending.TimedOut? <==> answer == None)
    && (answer.Some? && answer.value.hasResult ==> ending == Result(answer.value))
    && (answer.Some? && !answer.value.hasResult ==> ending == Error(answer.value))
    && (events[end].Timeout? || (events[end].Wake? && answer.Some?))
    && Waits(events, start, end, id)
  }

  /** Between the two events nothing ends the command. */
  ghost predicate Waits(events: seq<Event>, start: nat, end: nat, id: int)
    requires start < end <= |events|
  {
    forall t :: start < t < end ==>
      && !events[t].Request? && !events[t].Notify? && !events[t].Timeout?
      && (events[t].Wake? ==> Surviving(events[start + 1..t], id, None) == None)
  }

  /** The starts and ends of the commands so far; a pending command has started and not ended. */
  ghost predicate Explained(events: seq<Event>, s: State, starts: seq<nat>, ends: seq<nat>) {
    && |starts| == |s.requests| && |ends| == |s.outcomes| <= |starts|
    && (forall j, k :: 0 <= j < k < |starts| ==> starts[j] < starts[k])
    && (forall i :: 0 <= i < |events| && events[i].Request? ==> i in starts)
    && (forall k :: 0 <= k < |starts| ==> starts[k] < |events| && events[starts[k]].Request?)
    && (forall k :: 0 <= k < |ends| ==> EndsWith(events, starts[k], ends[k], s.requests[k], s.outcomes[k].ending))
  }

  /** The command sent by event `start` waits, and the queue holds the answer to it that has survived, if any. */
  ghost predicate PendingSince(events: seq<Event>, s: State, start: nat) {
    && start < |events| && s.id == IdCount(events[..start]) && Waits(events, start, |events|, s.id)
    && var answer := Surviving(events[start + 1..], s.id, None);
    && (answer.Some? ==> s.queue == [Document(answer.value)] && HasId(answer.value, s.id))
    && (answer == None ==> !FrontMatches(s.queue, s.id))
  }

  ghost predicate PendingExplained(events: seq<Event>, s: State, starts: seq<nat>) {
    s.pending.Some? ==> starts != [] && PendingSince(events, s, starts[|starts| - 1])
  }

  lemma EndsWithLater(events: seq<Event>, e: Event, start: nat, end: nat, id: int, ending: Ending)
    requires EndsWith(events, start, end, id, ending)
    ensures EndsWith(events + [e], start, end, id, ending)
  {
    var all := events + [e];
    assert all[..start] == events[..start] && all[start + 1..end] == events[start + 1..end];
    forall t | start < t < end ensures all[t] == events[t] && all[start + 1..t] == events[start + 1..t] {
    }
  }

  lemma WaitsLonger(events: seq<Event>, e: Event, start: nat, id: int)
    requires start < |events| && Waits(events, start, |events|, id)
    requires !e.Request? && !e.Notify? && !e.Timeout?
    requires e.Wake? ==> Surviving(events[start + 1..], id, None) == None
    ensures Waits(events + [e], start, |events| + 1, id)
  {
    var all := events + [e];
    forall t | start < t < |events| + 1
      ensures !all[t].Request? && !all[t].Notify? && !all[t].Timeout?
      ensures all[t].Wake? ==> Surviving(all[start + 1..t], id, None) == None
    {
      assert all[start + 1..t] == events[start + 1..t];
      assert t < |events| ==> all[t] == events[t];
    }
  }

  lemma SurvivingOneMore(events: seq<Event>, e: Event, start: nat, id: int)
    requires start < |events|
    ensures Surviving((events + [e])[start + 1..], id, None) ==
      if e.Close? then None
      else if Answers(e, id) then Some(e.message)
      else Surviving(events[start + 1..], id, None)
  {
    hide Answers;
    var since := (events + [e])[start + 1..];
    assert since[..|since| - 1] == events[start + 1..];
  }

  /** What has started or ended before stays so. */
  lemma ExplainedLater(events: seq<Event>, e: Event, s: State, starts: seq<nat>, ends: seq<nat>)
    requires Explained(events, s, starts, ends) && !e.Request?
    ensures Explained(events + [e], s, starts, ends)
  {
    hide EndsWith;
    forall k | 0 <= k < |ends| ensures EndsWith(events + [e], starts[k], ends[k], s.requests[k], s.outcomes[k].ending) {
      EndsWithLater(events, e, starts[k], ends[k], s.requests[k], s.outcomes[k].ending);
    }
  }

  lemma RequestStarts(events: seq<Event>, s: State, starts: seq<nat>, ends: seq<nat>)
    requires Inv(s) && s.pending == None && Explained(events, s, starts, ends)
    ensures Explained(events + [Request], Step(s, Request), starts + [|events|], ends)
  {
    hide EndsWith, Inv;
    var (all, next) := (events + [Request], Step(s, Request));
    forall k | 0 <= k < |ends| ensures EndsWith(all, starts[k], ends[k], next.requests[k], next.outcomes[k].ending) {
      EndsWithLater(events, Request, starts[k], ends[k], s.requests[k], s.outcomes[k].ending);
    }
    var later := starts + [|events|];
    assert later[|starts|] == |events|;
    forall i | 0 <= i < |all| && all[i].Request? ensures i in later {
      if i < |events| { assert events[i].Request?; }
    }
  }

  lemma NotYetAnswered(s: State)
    requires Inv(s)
    ensures !FrontMatches(s.queue, s.id + 1)
  {
  }

  lemma PendsFromNowOn(all: seq<Event>, next: State, start: nat)
    requires |all| == start + 1 && next.id == IdCount(all[..start]) && !FrontMatches(next.queue, next.id)
    ensures PendingSince(all, next, start)
  {
    hide IdCount, FrontMatches;
    assert all[start + 1..] == [];
  }

  lemma AfterRequest(s: State)
    ensures
      var next := Step(s, Request);
      next.id == s.id + 1 && next.queue == s.queue && next.pending == Some(s.id + 1)
  {
  }

  lemma RequestPends(events: seq<Event>, s: State, starts: seq<nat>)
    requires Inv(s) && s.pending == None && s.id + 1 == IdCount(events)
    ensures PendingExplained(events + [Request], Step(s, Request), starts + [|events|])
  {
    hide Inv, IdCount, FrontMatches, PendingSince, Step;
    NotYetAnswered(s);
    AfterRequest(s);
    var (all, start) := (events + [Request], |events|);
    assert all[..start] == events;
    PendsFromNowOn(all, Step(s, Request), start);
    assert (starts + [start])[|starts|] == start;
  }

  /** While the command goes on waiting, queue and surviving answer change alike. */
  lemma WaitExplained(events: seq<Event>, s: State, starts: seq<nat>, e: Event)
    requires Inv(s) && Enabled(s, e) && s.pending.Some? && PendingExplained(events, s, starts)
    requires Step(s, e).pending == s.pending
    ensures PendingExplained(events + [e], Step(s, e), starts)
  {
    hide RemoveIf, Waits, Surviving;
    WaitLeavesQueue(s);
    hide EvaluateWait;
    var start := starts[|starts| - 1];
    SurvivingOneMore(events, e, start, s.id);
    assert (events + [e])[..start] == events[..start];
    WaitsLonger(events, e, start, s.id);
  }

  /** A wake-up or timeout that ends the command returns the surviving answer. */
  lemma EndExplained(events: seq<Event>, s: State, starts: seq<nat>, ends: seq<nat>, e: Event)
    requires Inv(s) && Enabled(s, e) && s.pending.Some? && PendingExplained(events, s, starts)
    requires Explained(events, s, starts, ends) && Step(s, e).pending == None
    ensures Explained(events + [e], Step(s, e), starts, ends + [|events|])
  {
    hide RemoveIf, Surviving;
    WaitLeavesQueue(s);
    hide EvaluateWait;
    var (k, all) := (|ends|, events + [e]);
    var start := starts[k];
    ExplainedLater(events, e, s, starts, ends);
    assert all[start + 1..|events|] == events[start + 1..] && all[..start] == events[..start];
    WaitsAsBefore(events, e, start, s.id);
    assert EndsWith(all, start, |events|, s.id, Step(s, e).outcomes[k].ending);
    hide EndsWith;
  }

  lemma WaitsAsBefore(events: seq<Event>, e: Event, start: nat, id: int)
    requires start < |events| && Waits(events, start, |events|, id)
    ensures Waits(events + [e], start, |events|, id)
  {
    var all := events + [e];
    forall t | start < t < |events|
      ensures !all[t].Request? && !all[t].Notify? && !all[t].Timeout?
      ensures all[t].Wake? ==> Surviving(all[start + 1..t], id, None) == None
    {
      assert all[t] == events[t] && all[start + 1..t] == events[start + 1..t];
    }
  }

  lemma StepExplained(events: seq<Event>, s: State, starts: seq<nat>, ends: seq<nat>, e: Event)
    returns (starts': seq<nat>, ends': seq<nat>)
    requires Inv(s) && Enabled(s, e) && s.id + 1 == IdCount(events)
    requires Explained(events, s, starts, ends) && PendingExplained(events, s, starts)
    ensures Explained(events + [e], Step(s, e), starts', ends') && PendingExplained(events + [e], Step(s, e), starts')
  {
    starts', ends' := starts, ends;
    if e.Request? {
      starts' := starts + [|events|];
      hide Explained, PendingExplained, Inv;
      RequestStarts(events, s, starts, ends);
      RequestPends(events, s, starts);
    } else if s.pending == None {
      hide Explained;
      ExplainedLater(events, e, s, starts, ends);
      SameCommands(events + [e], s, Step(s, e), starts, ends);
    } else if Step(s, e).pending.Some? {
      hide Explained, PendingExplained;
      KeepsPending(s, e);
      ExplainedLater(events, e, s, starts, ends);
      SameCommands(events + [e], s, Step(s, e), starts, ends);
      WaitExplained(events, s, starts, e);
    } else {
      hide Explained;
      ends' := ends + [|events|];
      EndExplained(events, s, starts, ends, e);
    }
  }

  lemma KeepsPending(s: State, e: Event)
    requires Inv(s) && Enabled(s, e) && s.pending.Some? && Step(s, e).pending.Some?
    ensures Step(s, e).pending == s.pending
    ensures Step(s, e).requests == s.requests && Step(s, e).outcomes == s.outcomes
  {
    hide RemoveIf;
    WaitLeavesQueue(s);
    hide EvaluateWait;
  }

  lemma SameCommands(events: seq<Event>, s: State, s': State, starts: seq<nat>, ends: seq<nat>)
    requires Explained(events, s, starts, ends) && s'.requests == s.requests && s'.outcomes == s.outcomes
    ensures Explained(events, s', starts, ends)
  {
  }

  lemma NothingToExplain()
    ensures Explained([], INITIAL, [], []) && PendingExplained([], INITIAL, [])
  {
  }

  lemma InitialKeepsInv()
    ensures Inv(INITIAL)
  {
  }

  /**
    In every run each Request starts a command, and each command that has ended did so as the events
    since its Request say: with the last answer to it that closing did not take away, as its result or
    its error, or timed out because there was none.
  */
  lemma {:induction false} CommandsEndAsAnswered(events: seq<Event>, s: State)
    returns (starts: seq<nat>, ends: seq<nat>)
    requires Execution(INITIAL, events, s)
    ensures Explained(events, s, starts, ends) && PendingExplained(events, s, starts)
    decreases |events|
  {
    hide Explained, PendingExplained, Step, Enabled, Execution, Inv, IdCount, RequestIds;
    if events == [] {
      EmptyExecution(INITIAL, s);
      NothingToExplain();
      starts, ends := [], [];
    } else {
      var (front, e) := (events[..|events| - 1], events[|events| - 1]);
      var middle := ExecutionSplit(INITIAL, events, s);
      starts, ends := CommandsEndAsAnswered(front, middle);
      InitialKeepsInv();
      ExecutionKeepsInv(INITIAL, front, middle);
      RequestsAreTheEvents(front, middle);
      starts, ends := StepExplained(front, middle, starts, ends, e);
      assert front + [e] == events;
    }
  }

  /** A result is taken out of the queue, an error stays in it, and a timeout leaves it as it was. */
  lemma EndingLeavesQueue(s: State, e: Event)
    requires Inv(s) && Enabled(s, e) && s.pending.Some? && Step(s, e).pending == None
    ensures
      var next := Step(s, e);
      && |next.outcomes| == |s.outcomes| + 1
      && match next.outcomes[|s.outcomes|].ending
         case Result(response) => s.queue == [Document(response)] && next.queue == []
         case Error(response) => s.queue == next.queue == [Document(response)]
         case TimedOut => next.queue == s.queue
  {
    hide RemoveIf;
    WaitLeavesQueue(s);
    hide EvaluateWait;
  }
}
