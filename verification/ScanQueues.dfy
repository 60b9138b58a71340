/**
  The two bounded scan block queues of src/session.cpp over whole runs: notifications and
  out-of-band packets arrive, the reader polls, closing clears both.
*/
module ScanQueues {
  const SCAN_BLOCK_BUFFERING_COUNT := 32

  /** The queues and, per queue, everything that arrived and everything that was taken. */
  datatype State<P, O> = State(
    primary: seq<P>, oob: seq<O>,
    primaryArrivals: seq<P>, oobArrivals: seq<O>,
    primaryTaken: seq<P>, oobTaken: seq<O>)

  datatype Event<P, O> =
    | Notification(item: P)  // onMessageReceived
    | Packet(data: O)        // onOobPacketReceived
    | Poll                   // pollForScanBlock, when its wait ends
    | Close

  /** What a poll returns. */
  datatype Polled<P, O> = FromPrimary(item: P) | FromOob(data: O) | TimedOut

  function Initial<P, O>(): (initial: State<P, O>) {
    State([], [], [], [], [], [])
  }

  /** push_back, after dropping the oldest item of a full queue. */
  function Push<T>(queue: seq<T>, item: T): (pushed: seq<T>) {
    (if |queue| == SCAN_BLOCK_BUFFERING_COUNT then queue[1..] else queue) + [item]
  }

  function PollResult<P, O>(primary: seq<P>, oob: seq<O>): (polled: Polled<P, O>) {
    if primary != [] then FromPrimary(primary[0]) else if oob != [] then FromOob(oob[0]) else TimedOut
  }

  function Step<P, O>(s: State<P, O>, e: Event<P, O>): (next: State<P, O>) {
    match e
    case Notification(item) =>
      s.(primary := Push(s.primary, item), primaryArrivals := s.primaryArrivals + [item])
    case Packet(data) =>
      s.(oob := Push(s.oob, data), oobArrivals := s.oobArrivals + [data])
    case Poll =>
      if s.primary != [] then s.(primary := s.primary[1..], primaryTaken := s.primaryTaken + [s.primary[0]])
      else if s.oob != [] then s.(oob := s.oob[1..], oobTaken := s.oobTaken + [s.oob[0]])
      else s
    case Close => s.(primary := [], oob := [])
  }

  function Run<P, O>(s: State<P, O>, events: seq<Event<P, O>>): (next: State<P, O>)
    decreases |events|
  {
    if events == [] then s else Run(Step(s, events[0]), events[1..])
  }

  // ---------- The fate of every item that has left a queue ----------

  /** What an event is to one of the queues. */
  datatype Mark<T> = Arrived(item: T) | Polled | Closed | Elsewhere

  function PrimaryMark<P, O>(e: Event<P, O>): (mark: Mark<P>) {
    match e
    case Notification(item) => Arrived(item)
    case Packet(_) => Elsewhere
    case Poll => Polled
    case Close => Closed
  }

  function OobMark<P, O>(e: Event<P, O>): (mark: Mark<O>) {
    match e
    case Notification(_) => Elsewhere
    case Packet(data) => Arrived(data)
    case Poll => Polled
    case Close => Closed
  }

  function PrimaryMarks<P, O>(events: seq<Event<P, O>>): (marks: seq<Mark<P>>)
    ensures |marks| == |events|
  {
    seq(|events|, k requires 0 <= k < |events| => PrimaryMark(events[k]))
  }

  function OobMarks<P, O>(events: seq<Event<P, O>>): (marks: seq<Mark<O>>)
    ensures |marks| == |events|
  {
    seq(|events|, k requires 0 <= k < |events| => OobMark(events[k]))
  }

  /** The items that arrived, in order. */
  function ArrivedItems<T>(marks: seq<Mark<T>>): (items: seq<T>) {
    if marks == [] then []
    else
      var last := marks[|marks| - 1];
      ArrivedItems(marks[..|marks| - 1]) + (if last.Arrived? then [last.item] else [])
  }

  /** How an item left the queue, and at which event. */
  datatype Fate = Taken(at: nat) | Displaced(at: nat) | Dropped(at: nat)

  /**
    What the fate of item i says: a poll took it, or the 32nd arrival behind it displaced it, or
    closing dropped it; in each case after it had arrived.
  */
  ghost predicate Holds<T>(fate: Fate, i: nat, marks: seq<Mark<T>>) {
    && fate.at < |marks| && i < |ArrivedItems(marks[..fate.at])|
    && match fate
       case Taken(at) => marks[at].Polled?
       case Displaced(at) => marks[at].Arrived? && |ArrivedItems(marks[..at])| == i + 32
       case Dropped(at) => marks[at].Closed?
  }

  /** The items whose fate is to be taken, in arrival order. */
  function Selected<T>(arrivals: seq<T>, fates: seq<Fate>): (items: seq<T>)
    requires |fates| <= |arrivals|
  {
    if fates == [] then []
    else Selected(arrivals, fates[..|fates| - 1])
         + (if fates[|fates| - 1].Taken? then [arrivals[|fates| - 1]] else [])
  }

  /**
    The queue is the part of the arrivals whose fate is open, at most 32 of them; what was taken is
    the in-order selection of those whose fate it is; and every fate holds.
  */
  ghost predicate Accounts<T>(queue: seq<T>, taken: seq<T>, fates: seq<Fate>, marks: seq<Mark<T>>) {
    && |queue| <= 32
    && |fates| + |queue| == |ArrivedItems(marks)|
    && queue == ArrivedItems(marks)[|fates|..]
    && taken == Selected(ArrivedItems(marks), fates)
    && forall i :: 0 <= i < |fates| ==> Holds(fates[i], i, marks)
  }

  lemma {:induction false} SelectedIgnoresLater<T>(arrivals: seq<T>, more: seq<T>, fates: seq<Fate>)
    requires |fates| <= |arrivals|
    ensures Selected(arrivals + more, fates) == Selected(arrivals, fates)
  {
    if fates != [] {
      SelectedIgnoresLater(arrivals, more, fates[..|fates| - 1]);
    }
  }

  lemma ArrivedOneMore<T>(marks: seq<Mark<T>>, mark: Mark<T>)
    ensures ArrivedItems(marks + [mark]) == ArrivedItems(marks) + (if mark.Arrived? then [mark.item] else [])
  {
    assert (marks + [mark])[..|marks|] == marks;
  }

  lemma HoldsLater<T>(fate: Fate, i: nat, marks: seq<Mark<T>>, mark: Mark<T>)
    requires Holds(fate, i, marks)
    ensures Holds(fate, i, marks + [mark])
  {
    assert (marks + [mark])[..fate.at] == marks[..fate.at];
  }

  /** Settled fates stay as they are; new ones belong to the newest event. */
  lemma AccountsOneMore<T>(queue: seq<T>, taken: seq<T>, fates: seq<Fate>, marks: seq<Mark<T>>, mark: Mark<T>)
    requires Accounts(queue, taken, fates, marks)
    ensures |fates| <= |ArrivedItems(marks + [mark])|
    ensures Selected(ArrivedItems(marks + [mark]), fates) == taken
    ensures forall i :: 0 <= i < |fates| ==> Holds(fates[i], i, marks + [mark])
  {
    ArrivedOneMore(marks, mark);
    SelectedIgnoresLater(ArrivedItems(marks), if mark.Arrived? then [mark.item] else [], fates);
    hide Holds;
    forall i | 0 <= i < |fates| ensures Holds(fates[i], i, marks + [mark]) {
      HoldsLater(fates[i], i, marks, mark);
    }
  }

  /** An arrival settles one fate when the queue is full, none otherwise. */
  lemma PushAccounts<T>(queue: seq<T>, taken: seq<T>, fates: seq<Fate>, marks: seq<Mark<T>>, item: T)
    returns (fates': seq<Fate>)
    requires Accounts(queue, taken, fates, marks)
    ensures Accounts(Push(queue, item), taken, fates', marks + [Arrived(item)])
    ensures fates' == if |queue| == 32 then fates + [Displaced(|marks|)] else fates
  {
    AccountsOneMore(queue, taken, fates, marks, Arrived(item));
    ArrivedOneMore(marks, Arrived(item));
    fates' := fates;
    if |queue| == SCAN_BLOCK_BUFFERING_COUNT {
      fates' := fates + [Displaced(|marks|)];
      assert fates'[..|fates'| - 1] == fates;
      assert (marks + [Arrived(item)])[..|marks|] == marks;
      assert Holds(fates'[|fates|], |fates|, marks + [Arrived(item)]);
    }
  }

  /** A poll that takes an item settles its fate. */
  lemma PopAccounts<T>(queue: seq<T>, taken: seq<T>, fates: seq<Fate>, marks: seq<Mark<T>>)
    returns (fates': seq<Fate>)
    requires Accounts(queue, taken, fates, marks) && queue != []
    ensures Accounts(queue[1..], taken + [queue[0]], fates', marks + [Polled])
    ensures fates' == fates + [Taken(|marks|)]
  {
    AccountsOneMore(queue, taken, fates, marks, Polled);
    ArrivedOneMore(marks, Polled);
    fates' := fates + [Taken(|marks|)];
    assert fates'[..|fates'| - 1] == fates;
    assert (marks + [Polled])[..|marks|] == marks;
    assert Holds(fates'[|fates|], |fates|, marks + [Polled]);
  }

  /** An event that does not change the queue settles nothing. */
  lemma RestAccounts<T>(queue: seq<T>, taken: seq<T>, fates: seq<Fate>, marks: seq<Mark<T>>, mark: Mark<T>)
    requires Accounts(queue, taken, fates, marks) && !mark.Arrived?
    ensures Accounts(queue, taken, fates, marks + [mark])
  {
    AccountsOneMore(queue, taken, fates, marks, mark);
    ArrivedOneMore(marks, mark);
  }

  function Drops(n: nat, at: nat): (fates: seq<Fate>)
    ensures |fates| == n && forall i :: 0 <= i < n ==> fates[i] == Dropped(at)
  {
    seq(n, _ => Dropped(at))
  }

  lemma {:induction false} SelectedDrops<T>(arrivals: seq<T>, fates: seq<Fate>, n: nat, at: nat)
    requires |fates| + n <= |arrivals|
    ensures Selected(arrivals, fates + Drops(n, at)) == Selected(arrivals, fates)
  {
    if n > 0 {
      var all := fates + Drops(n, at);
      assert all[..|all| - 1] == fates + Drops(n - 1, at);
      SelectedDrops(arrivals, fates, n - 1, at);
    } else {
      assert fates + Drops(0, at) == fates;
    }
  }

  /** Closing settles the fates of exactly the items queued. */
  lemma ClearAccounts<T>(queue: seq<T>, taken: seq<T>, fates: seq<Fate>, marks: seq<Mark<T>>)
    returns (fates': seq<Fate>)
    requires Accounts(queue, taken, fates, marks)
    ensures Accounts([], taken, fates', marks + [Closed])
    ensures fates' == fates + Drops(|queue|, |marks|)
  {
    AccountsOneMore(queue, taken, fates, marks, Closed);
    ArrivedOneMore(marks, Closed);
    fates' := fates + Drops(|queue|, |marks|);
    SelectedDrops(ArrivedItems(marks + [Closed]), fates, |queue|, |marks|);
    assert (marks + [Closed])[..|marks|] == marks;
    forall i | |fates| <= i < |fates'| ensures Holds(fates'[i], i, marks + [Closed]) {
      assert fates'[i] == Dropped(|marks|);
    }
  }

  // ---------- Runs ----------

  ghost predicate BothAccount<P, O>(s: State<P, O>, events: seq<Event<P, O>>, pf: seq<Fate>, of: seq<Fate>) {
    && s.primaryArrivals == ArrivedItems(PrimaryMarks(events)) && s.oobArrivals == ArrivedItems(OobMarks(events))
    && Accounts(s.primary, s.primaryTaken, pf, PrimaryMarks(events))
    && Accounts(s.oob, s.oobTaken, of, OobMarks(events))
  }

  /** `later` continues `fates` with fates settled by the event at `at`. */
  ghost predicate Continues(fates: seq<Fate>, later: seq<Fate>, at: nat) {
    fates <= later && forall i :: |fates| <= i < |later| ==> later[i].at == at
  }

  lemma MarksOneMore<P, O>(events: seq<Event<P, O>>, e: Event<P, O>)
    ensures PrimaryMarks(events + [e]) == PrimaryMarks(events) + [PrimaryMark(e)]
    ensures OobMarks(events + [e]) == OobMarks(events) + [OobMark(e)]
  {
  }

  lemma PrimaryAccounts<P, O>(s: State<P, O>, e: Event<P, O>, fates: seq<Fate>, marks: seq<Mark<P>>)
    returns (fates': seq<Fate>)
    requires Accounts(s.primary, s.primaryTaken, fates, marks)
    ensures Accounts(Step(s, e).primary, Step(s, e).primaryTaken, fates', marks + [PrimaryMark(e)])
    ensures Continues(fates, fates', |marks|)
  {
    hide Accounts;
    if e.Notification? {
      fates' := PushAccounts(s.primary, s.primaryTaken, fates, marks, e.item);
    } else if e.Poll? && s.primary != [] {
      fates' := PopAccounts(s.primary, s.primaryTaken, fates, marks);
    } else if e.Close? {
      fates' := ClearAccounts(s.primary, s.primaryTaken, fates, marks);
    } else {
      RestAccounts(s.primary, s.primaryTaken, fates, marks, PrimaryMark(e));
      fates' := fates;
    }
  }

  lemma OobAccounts<P, O>(s: State<P, O>, e: Event<P, O>, fates: seq<Fate>, marks: seq<Mark<O>>)
    returns (fates': seq<Fate>)
    requires Accounts(s.oob, s.oobTaken, fates, marks)
    ensures Accounts(Step(s, e).oob, Step(s, e).oobTaken, fates', marks + [OobMark(e)])
    ensures Continues(fates, fates', |marks|)
  {
    hide Accounts;
    if e.Packet? {
      fates' := PushAccounts(s.oob, s.oobTaken, fates, marks, e.data);
    } else if e.Poll? && s.primary == [] && s.oob != [] {
      fates' := PopAccounts(s.oob, s.oobTaken, fates, marks);
    } else if e.Close? {
      fates' := ClearAccounts(s.oob, s.oobTaken, fates, marks);
    } else {
      RestAccounts(s.oob, s.oobTaken, fates, marks, OobMark(e));
      fates' := fates;
    }
  }

  lemma StepAccounts<P, O>(s: State<P, O>, events: seq<Event<P, O>>, e: Event<P, O>, pf: seq<Fate>, of: seq<Fate>)
    returns (pf': seq<Fate>, of': seq<Fate>)
    requires BothAccount(s, events, pf, of)
    ensures BothAccount(Step(s, e), events + [e], pf', of')
    ensures Continues(pf, pf', |events|) && Continues(of, of', |events|)
  {
    var (pm, om) := (PrimaryMarks(events), OobMarks(events));
    MarksOneMore(events, e);
    ArrivedOneMore(pm, PrimaryMark(e));
    ArrivedOneMore(om, OobMark(e));
    hide Accounts, ArrivedItems, PrimaryMarks, OobMarks, Continues;
    pf' := PrimaryAccounts(s, e, pf, pm);
    of' := OobAccounts(s, e, of, om);
  }

  /** The fates settled before event k. */
  function Settled(fates: seq<Fate>, k: nat): (settled: seq<Fate>) {
    if fates == [] || fates[|fates| - 1].at < k then fates else Settled(fates[..|fates| - 1], k)
  }

  /** One assignment of fates accounts for both queues at every point of the run. */
  ghost predicate Explains<P, O>(events: seq<Event<P, O>>, pf: seq<Fate>, of: seq<Fate>) {
    && Settled(pf, |events|) == pf && Settled(of, |events|) == of
    && forall k :: 0 <= k <= |events| ==>
         BothAccount(Run(Initial<P, O>(), events[..k]), events[..k], Settled(pf, k), Settled(of, k))
  }

  lemma {:induction false} SettledEarlier(fates: seq<Fate>, later: seq<Fate>, at: nat, k: nat)
    requires Continues(fates, later, at) && k <= at
    ensures Settled(later, k) == Settled(fates, k)
    decreases |later|
  {
    if |later| > |fates| {
      assert later[|later| - 1].at == at;
      SettledEarlier(fates, later[..|later| - 1], at, k);
    } else {
      assert later == fates;
    }
  }

  lemma SettledAll(fates: seq<Fate>, later: seq<Fate>, at: nat)
    requires Continues(fates, later, at) && Settled(fates, at) == fates
    ensures Settled(later, at + 1) == later
  {
    if later != [] && |later| == |fates| {
      SettledShorter(fates[..|fates| - 1], at);
    }
  }

  lemma {:induction false} SettledShorter(fates: seq<Fate>, k: nat)
    ensures |Settled(fates, k)| <= |fates|
  {
    if fates != [] {
      SettledShorter(fates[..|fates| - 1], k);
    }
  }

  lemma RunOneMore<P, O>(events: seq<Event<P, O>>, e: Event<P, O>)
    ensures Run(Initial<P, O>(), events + [e]) == Step(Run(Initial<P, O>(), events), e)
  {
    hide Step;
    RunAppend(Initial<P, O>(), events, [e]);
    assert [e][1..] == [];
  }

  /**
    In every run every item that leaves a queue has one fate, settled at one event: at each point k
    the queue is what has arrived and has no fate settled before k. So an item is lost only to the
    32nd arrival behind it, after waiting in the queue until then, or to closing.
  */
  lemma {:induction false} EveryItemIsAccountedFor<P, O>(events: seq<Event<P, O>>)
    returns (pf: seq<Fate>, of: seq<Fate>)
    ensures Explains(events, pf, of)
    decreases |events|
  {
    hide BothAccount, Step, Run, Continues;
    if events == [] {
      pf, of := [], [];
      NothingHappened<P, O>();
      assert events[..0] == [];
    } else {
      var n := |events| - 1;
      var front := events[..n];
      var pf0, of0 := EveryItemIsAccountedFor(front);
      assert front[..n] == front && events == front + [events[n]];
      pf, of := StepAccounts(Run(Initial<P, O>(), front), front, events[n], pf0, of0);
      RunOneMore(front, events[n]);
      SettledAll(pf0, pf, n);
      SettledAll(of0, of, n);
      forall k | 0 <= k <= |events|
        ensures BothAccount(Run(Initial<P, O>(), events[..k]), events[..k], Settled(pf, k), Settled(of, k))
      {
        if k <= n {
          assert events[..k] == front[..k];
          SettledEarlier(pf0, pf, n, k);
          SettledEarlier(of0, of, n, k);
        } else {
          assert events[..k] == events;
        }
      }
    }
  }

  lemma NothingHappened<P, O>()
    ensures BothAccount(Run(Initial<P, O>(), []), [], [], [])
  {
  }

  /** An item that was lost, and by which arrival. */
  ghost predicate IsLostTo<T>(fates: seq<Fate>, i: nat, marks: seq<Mark<T>>) {
    && i < |fates| && fates[i].at < |marks| && marks[fates[i].at].Arrived?
    && |ArrivedItems(marks[..fates[i].at])| == i + 32
  }

  /** Unless the session was closed, every item lost was displaced by the 32nd arrival behind it. */
  lemma LostOnlyToLaterArrivals<P, O>(events: seq<Event<P, O>>, pf: seq<Fate>, of: seq<Fate>)
    requires Explains(events, pf, of)
    requires forall k :: 0 <= k < |events| ==> !events[k].Close?
    ensures forall i :: 0 <= i < |pf| && !pf[i].Taken? ==> IsLostTo(pf, i, PrimaryMarks(events))
    ensures forall i :: 0 <= i < |of| && !of[i].Taken? ==> IsLostTo(of, i, OobMarks(events))
  {
    hide ArrivedItems, Run, Settled, Selected;
    assert events[..|events|] == events;
    forall i | 0 <= i < |pf| && !pf[i].Taken? ensures IsLostTo(pf, i, PrimaryMarks(events)) {
      assert Holds(pf[i], i, PrimaryMarks(events));
    }
    forall i | 0 <= i < |of| && !of[i].Taken? ensures IsLostTo(of, i, OobMarks(events)) {
      assert Holds(of[i], i, OobMarks(events));
    }
  }

  lemma {:induction false} RunAppend<P, O>(s: State<P, O>, a: seq<Event<P, O>>, b: seq<Event<P, O>>)
    ensures Run(s, a + b) == Run(Run(s, a), b)
    decreases |a|
  {
    hide Step;
    if a == [] {
      assert a + b == b;
    } else {
      assert (a + b)[1..] == a[1..] + b;
      RunAppend(Step(s, a[0]), a[1..], b);
    }
  }

  // ---------- What polls return ----------

  /** A poll returns what it removes: a notification if there is one, else a packet if there is one. */
  lemma PollRemovesWhatItReturns<P, O>(s: State<P, O>)
    ensures
      var next := Step(s, Poll);
      match PollResult(s.primary, s.oob)
      case FromPrimary(item) => s.primary == [item] + next.primary && s.oob == next.oob
      case FromOob(data) => s.primary == next.primary == [] && s.oob == [data] + next.oob
      case TimedOut => s.primary == [] && s.oob == [] && next == s
  {
  }

  /** What the polls of a run return, in order. */
  function Results<P, O>(s: State<P, O>, events: seq<Event<P, O>>): (results: seq<Polled<P, O>>)
    decreases |events|
  {
    if events == [] then []
    else (if events[0].Poll? then [PollResult(s.primary, s.oob)] else []) + Results(Step(s, events[0]), events[1..])
  }

  function PrimaryResults<P, O>(results: seq<Polled<P, O>>): (items: seq<P>) {
    if results == [] then []
    else (if results[0].FromPrimary? then [results[0].item] else []) + PrimaryResults(results[1..])
  }

  function OobResults<P, O>(results: seq<Polled<P, O>>): (packets: seq<O>) {
    if results == [] then []
    else (if results[0].FromOob? then [results[0].data] else []) + OobResults(results[1..])
  }

  /** In every run, transports mixed, the results are, transport by transport, what was taken, in order. */
  lemma {:induction false} ResultsAreTaken<P, O>(s: State<P, O>, events: seq<Event<P, O>>)
    ensures Run(s, events).primaryTaken == s.primaryTaken + PrimaryResults(Results(s, events))
    ensures Run(s, events).oobTaken == s.oobTaken + OobResults(Results(s, events))
    decreases |events|
  {
    if events != [] {
      var (e, later) := (events[0], events[1..]);
      ResultsAreTaken(Step(s, e), later);
      if e.Poll? {
        var results := Results(s, events);
        assert results[1..] == Results(Step(s, e), later);
        TakenByPoll(s);
      } else {
        assert Results(s, events) == Results(Step(s, e), later);
      }
    }
  }

  lemma TakenByPoll<P, O>(s: State<P, O>)
    ensures
      var (next, r) := (Step(s, Poll), PollResult(s.primary, s.oob));
      && next.primaryTaken == s.primaryTaken + (if r.FromPrimary? then [r.item] else [])
      && next.oobTaken == s.oobTaken + (if r.FromOob? then [r.data] else [])
  {
  }

  /** Closing empties both queues, and nothing that was queued is returned afterwards. */
  lemma NothingSurvivesClosing<P, O>(events: seq<Event<P, O>>, pf: seq<Fate>, of: seq<Fate>, k: nat)
    requires Explains(events, pf, of) && k < |events| && events[k].Close?
    ensures Run(Initial<P, O>(), events[..k + 1]).primary == [] && Run(Initial<P, O>(), events[..k + 1]).oob == []
    ensures |Settled(pf, k + 1)| == |ArrivedItems(PrimaryMarks(events[..k]))|
    ensures |Settled(of, k + 1)| == |ArrivedItems(OobMarks(events[..k]))|
  {
    var front := events[..k];
    assert events[..k + 1] == front + [events[k]];
    RunOneMore(front, events[k]);
    MarksOneMore(front, events[k]);
    ArrivedOneMore(PrimaryMarks(front), PrimaryMark(events[k]));
    ArrivedOneMore(OobMarks(front), OobMark(events[k]));
    hide Run, Settled, ArrivedItems, PrimaryMarks, OobMarks, Selected, Holds;
    assert BothAccount(Run(Initial<P, O>(), events[..k + 1]), events[..k + 1], Settled(pf, k + 1), Settled(of, k + 1));
  }

  // ---------- Nothing is lost when the reader keeps up ----------

  /** No item arrives at a full queue, and the session is not closed. */
  predicate KeepsUp<P, O>(s: State<P, O>, events: seq<Event<P, O>>)
    decreases |events|
  {
    events == [] ||
    (&& (events[0].Notification? ==> |s.primary| < SCAN_BLOCK_BUFFERING_COUNT)
     && (events[0].Packet? ==> |s.oob| < SCAN_BLOCK_BUFFERING_COUNT)
     && !events[0].Close?
     && KeepsUp(Step(s, events[0]), events[1..]))
  }

  /** Both queues hold what arrived after what was taken, nothing missing in between. */
  ghost predicate Lossless<P, O>(s: State<P, O>) {
    && s.primaryArrivals == s.primaryTaken + s.primary
    && s.oobArrivals == s.oobTaken + s.oob
  }

  lemma {:induction false} KeepingUpLosesNothing<P, O>(s: State<P, O>, events: seq<Event<P, O>>)
    requires Lossless(s) && KeepsUp(s, events)
    ensures Lossless(Run(s, events))
    decreases |events|
  {
    if events != [] {
      var next := Step(s, events[0]);
      assert Lossless(next);
      hide Lossless, Step;
      KeepingUpLosesNothing(next, events[1..]);
    }
  }
}
