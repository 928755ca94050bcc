/**
 The transfer loop both scripts share, as one state machine parameterised by a policy
 (search key, fetch items, acknowledging store) and a destination sink:

   for each folder, in order: SELECT, SEARCH, then for each handle the search returned,
   in order: FETCH -> deliver -> STORE; finally CLOSE and LOGOUT.

 Every call whose status is not OK, and every failed delivery, raises in the scripts and so
 ends the run on the spot: later messages and later folders are not touched, and CLOSE and
 LOGOUT are not reached because there is no try/finally. Which calls fail is an input.
 */
module Transfer {
  import opened Types
  import opened Imap
  import opened Sinks

  /** What a script selects on, what it fetches, and how it acknowledges a delivered message. */
  datatype Policy = Policy(key: SearchKey, items: seq<FetchItem>, ack: StoreOp)

  /** A message position in a run: the folder's index in the folder list, then the message's index in that folder's search result. */
  type Pos = (nat, nat)

  /**
   The outcome oracle: which calls of the run come back with a status other than OK. A
   delivery at a position in `connect` cannot reach the destination; one in `deliver` reaches
   it and is refused.
   */
  datatype Faults = Faults(search: set<nat>, fetch: set<Pos>, connect: set<Pos>, deliver: set<Pos>, store: set<Pos>)

  /** How the delivery of the message at index k of folder fi goes. */
  function AttemptAt(f: Faults, fi: nat, k: nat): Attempt {
    if (fi, k) in f.connect then Unreachable
    else if (fi, k) in f.deliver then Refused
    else Accepted
  }

  datatype Stage = SearchStage | FetchStage | DeliverStage | StoreStage | CloseStage

  /** How a run ends. For an abort at the search (or close) stage, `msgIndex` is 0. */
  datatype RunResult = Completed | Aborted(stage: Stage, folderIndex: nat, msgIndex: nat)

  /** What the run did, in order: each call that took effect. */
  datatype Event =
    | Selected(folder: nat)
    | Searched(folder: nat, handles: seq<Handle>)
    | Fetched(folder: nat, handle: Handle)
    | Delivered(folder: nat, handle: Handle)
    | Stored(folder: nat, handle: Handle)
    | Closed
    | LoggedOut

  /** The run's working state inside the selected folder. */
  datatype Progress = Progress(mailbox: Mailbox, sink: Sink, trace: seq<Event>)

  datatype Step = Step(progress: Progress, result: RunResult)

  /** The whole state a run changes: the IMAP account, the destination, the event log. */
  datatype State = State(account: Account, sink: Sink, trace: seq<Event>)

  datatype Outcome = Outcome(state: State, result: RunResult)

  /* ---------------- one message ---------------- */

  /**
   FETCH handle h, deliver its body, STORE the acknowledgement. `k` is h's index in the
   folder's search result. A sequence number outside the mailbox is refused by the server,
   which the scripts see as a failed fetch.
   */
  function ProcessMessage(p: Policy, f: Faults, fi: nat, k: nat, h: Handle, pr: Progress): (s: Step)
    ensures s.result == Completed || s.result == Aborted(s.result.stage, fi, k)
    ensures s.result.Aborted? ==> s.result.stage in {FetchStage, DeliverStage, StoreStage}
    ensures s.result == Aborted(FetchStage, fi, k) ==> s.progress == pr
    ensures |s.progress.mailbox| == |pr.mailbox|
    ensures forall m :: 0 <= m < |pr.mailbox| && m != h - 1 ==> s.progress.mailbox[m] == pr.mailbox[m]
    ensures forall m :: 0 <= m < |pr.mailbox| ==> s.progress.mailbox[m].payload == pr.mailbox[m].payload
    ensures s.result.Completed? ==> Valid(pr.mailbox, h) && Applied(p.ack, s.progress.mailbox[h - 1].flags)
  {
    if (fi, k) in f.fetch || !Valid(pr.mailbox, h) then Step(pr, Aborted(FetchStage, fi, k))
    else
      var data := pr.mailbox[h - 1].payload;
      var mb := Fetch(pr.mailbox, h, p.items);
      var a := AttemptAt(f, fi, k);
      var sink := Deliver(pr.sink, data, a);
      var trace := pr.trace + [Fetched(fi, h)];
      if a != Accepted then Step(Progress(mb, sink, trace), Aborted(DeliverStage, fi, k))
      else if (fi, k) in f.store then Step(Progress(mb, sink, trace + [Delivered(fi, h)]), Aborted(StoreStage, fi, k))
      else Step(Progress(Store(mb, h, p.ack), sink, trace + [Delivered(fi, h), Stored(fi, h)]), Completed)
  }

  /** Processes `hs` in order, the first of them having index k0 in the search result; stops at the first failure. */
  function ProcessHandles(p: Policy, f: Faults, fi: nat, hs: seq<Handle>, k0: nat, pr: Progress): (s: Step)
    ensures |s.progress.mailbox| == |pr.mailbox|
    ensures s.result.Aborted? ==>
      && s.result.folderIndex == fi
      && k0 <= s.result.msgIndex < k0 + |hs|
      && s.result.stage in {FetchStage, DeliverStage, StoreStage}
    decreases |hs|
  {
    if hs == [] then Step(pr, Completed)
    else
      var s := ProcessMessage(p, f, fi, k0, hs[0], pr);
      if s.result.Aborted? then s else ProcessHandles(p, f, fi, hs[1..], k0 + 1, s.progress)
  }

  /* ---------------- folders and the whole run ---------------- */

  /**
   SELECT the folder and SEARCH it, then process the handles found. The scripts ignore the
   status of SELECT; a folder that does not exist leaves the session unselected, and the
   client then refuses SEARCH, so both show up as a failed search.
   */
  function ProcessFolder(p: Policy, f: Faults, fi: nat, name: string, st: State): (o: Outcome)
    ensures o.result.Aborted? ==> o.result.folderIndex == fi && o.result.stage != CloseStage
  {
    var trace := st.trace + [Selected(fi)];
    if name !in st.account || fi in f.search then Outcome(st.(trace := trace), Aborted(SearchStage, fi, 0))
    else
      var mb := st.account[name];
      var hs := Search(mb, p.key);
      var s := ProcessHandles(p, f, fi, hs, 0, Progress(mb, st.sink, trace + [Searched(fi, hs)]));
      Outcome(State(st.account[name := s.progress.mailbox], s.progress.sink, s.progress.trace), s.result)
  }

  /** Processes the folders in order, the first of them having index fi; stops at the first failure. */
  function ProcessFolders(p: Policy, f: Faults, folders: seq<string>, fi: nat, st: State): (o: Outcome)
    ensures o.result.Aborted? ==> fi <= o.result.folderIndex < fi + |folders| && o.result.stage != CloseStage
    decreases |folders|
  {
    if folders == [] then Outcome(st, Completed)
    else
      var o := ProcessFolder(p, f, fi, folders[0], st);
      if o.result.Aborted? then o else ProcessFolders(p, f, folders[1..], fi + 1, o.state)
  }

  /**
   The whole run: every folder, then CLOSE and LOGOUT. CLOSE is only legal with a folder
   selected, so a run given no folder at all fails there.
   */
  function Run(p: Policy, f: Faults, folders: seq<string>, st: State): (o: Outcome)
    ensures o.result.Aborted? ==> (o.result.stage == CloseStage <==> folders == [])
    ensures o.result.Completed? ==> 2 <= |o.state.trace| && o.state.trace[|o.state.trace| - 2..] == [Closed, LoggedOut]
  {
    var o := ProcessFolders(p, f, folders, 0, st);
    if o.result.Aborted? then o
    else if folders == [] then Outcome(o.state, Aborted(CloseStage, 0, 0))
    else Outcome(o.state.(trace := o.state.trace + [Closed, LoggedOut]), Completed)
  }

  /* ---------------- reference descriptions ---------------- */

  /** The stage at which the message at index k (handle h) fails, if any, in a mailbox of `size` messages. */
  function Fault(f: Faults, fi: nat, k: nat, size: nat, h: Handle): Option<Stage> {
    if (fi, k) in f.fetch || !(1 <= h <= size) then Some(FetchStage)
    else if AttemptAt(f, fi, k) != Accepted then Some(DeliverStage)
    else if (fi, k) in f.store then Some(StoreStage)
    else None
  }

  /** The length of the longest prefix of `hs` in which no message fails. */
  function Clean(f: Faults, fi: nat, k0: nat, size: nat, hs: seq<Handle>): (n: nat)
    ensures n <= |hs|
    ensures forall j :: 0 <= j < n ==> Fault(f, fi, k0 + j, size, hs[j]).None?
    ensures n < |hs| ==> Fault(f, fi, k0 + n, size, hs[n]).Some?
    decreases |hs|
  {
    if hs == [] || Fault(f, fi, k0, size, hs[0]).Some? then 0
    else 1 + Clean(f, fi, k0 + 1, size, hs[1..])
  }

  /** The events of one message whose cycle completed. */
  function Cycle(fi: nat, h: Handle): seq<Event> {
    [Fetched(fi, h), Delivered(fi, h), Stored(fi, h)]
  }

  function Cycles(fi: nat, hs: seq<Handle>): seq<Event>
    decreases |hs|
  {
    if hs == [] then [] else Cycle(fi, hs[0]) + Cycles(fi, hs[1..])
  }

  /** The handles of one kind that the cycle of h, failing at `stage`, leaves in the log: it was fetched, and maybe delivered. */
  function PartialHandles(stage: Stage, h: Handle, kind: Kind): seq<Handle> {
    if kind == FetchKind && (stage == DeliverStage || stage == StoreStage) then [h]
    else if kind == DeliverKind && stage == StoreStage then [h]
    else []
  }

  /** The events of the message whose cycle failed at `stage`. */
  function Partial(stage: Stage, fi: nat, h: Handle): seq<Event> {
    match stage
    case DeliverStage => [Fetched(fi, h)]
    case StoreStage => [Fetched(fi, h), Delivered(fi, h)]
    case _ => []
  }

  /** The stage at which processing `hs` stops, if it stops early. */
  function FailStage(f: Faults, fi: nat, k0: nat, size: nat, hs: seq<Handle>): Option<Stage> {
    var n := Clean(f, fi, k0, size, hs);
    if n < |hs| then Fault(f, fi, k0 + n, size, hs[n]) else None
  }

  /** How processing `hs` ends: completed when no message fails, otherwise at the first failure. */
  function Ended(f: Faults, fi: nat, k0: nat, size: nat, hs: seq<Handle>): RunResult {
    var n := Clean(f, fi, k0, size, hs);
    if n == |hs| then Completed else Aborted(Fault(f, fi, k0 + n, size, hs[n]).value, fi, k0 + n)
  }

  /** The log of processing `hs`: complete cycles up to the first failure, then what of its cycle took effect. */
  function HandlesLog(f: Faults, fi: nat, k0: nat, size: nat, hs: seq<Handle>): seq<Event> {
    var n := Clean(f, fi, k0, size, hs);
    Cycles(fi, hs[..n]) + (if n < |hs| then Partial(Fault(f, fi, k0 + n, size, hs[n]).value, fi, hs[n]) else [])
  }

  /** How many of `hs`, from the first, were fetched successfully. */
  function FetchedCount(f: Faults, fi: nat, k0: nat, size: nat, hs: seq<Handle>): nat {
    var n := Clean(f, fi, k0, size, hs);
    var stage := FailStage(f, fi, k0, size, hs);
    if stage == Some(DeliverStage) || stage == Some(StoreStage) then n + 1 else n
  }

  /** How many of `hs`, from the first, were handed to the destination successfully. */
  function DeliveredCount(f: Faults, fi: nat, k0: nat, size: nat, hs: seq<Handle>): nat {
    var n := Clean(f, fi, k0, size, hs);
    if FailStage(f, fi, k0, size, hs) == Some(StoreStage) then n + 1 else n
  }

  /** The bodies of the given messages, in order. */
  function Payloads(mb: Mailbox, hs: seq<Handle>): seq<Bytes>
    decreases |hs|
  {
    if hs == [] then [] else [Payload(mb, hs[0])] + Payloads(mb, hs[1..])
  }

  /** How far one message got in a run of a folder. */
  datatype Reach = Untouched | FetchedOnly | Acknowledged

  /** How far handle h got when `hs` was processed. */
  function ReachOf(f: Faults, fi: nat, k0: nat, size: nat, hs: seq<Handle>, h: Handle): Reach {
    var n := Clean(f, fi, k0, size, hs);
    if h in hs[..n] then Acknowledged
    else if n < |hs| && h == hs[n] && Fault(f, fi, k0 + n, size, hs[n]) != Some(FetchStage) then FetchedOnly
    else Untouched
  }

  /** The flags a message ends with, given how far it got. */
  function FlagsAfter(p: Policy, flags: set<Flag>, r: Reach): set<Flag> {
    match r
    case Untouched => flags
    case FetchedOnly => FetchFlags(p.items, flags)
    case Acknowledged => Apply(p.ack, FetchFlags(p.items, flags))
  }

  predicate Distinct(hs: seq<Handle>) {
    forall i, j :: 0 <= i < j < |hs| ==> hs[i] != hs[j]
  }

  /** Every store follows the delivery of the same message, which follows its fetch. */
  predicate Sequenced(t: seq<Event>) {
    && (forall i :: 0 <= i < |t| && t[i].Stored? ==> 1 <= i && t[i - 1] == Delivered(t[i].folder, t[i].handle))
    && (forall i :: 0 <= i < |t| && t[i].Delivered? ==> 1 <= i && t[i - 1] == Fetched(t[i].folder, t[i].handle))
  }

  /** The event concerns a folder with index in [lo, hi). */
  predicate InFolders(e: Event, lo: nat, hi: nat) {
    !e.Closed? && !e.LoggedOut? && lo <= e.folder < hi
  }

  /** Kinds of per-message events. */
  datatype Kind = FetchKind | DeliverKind | StoreKind

  predicate IsKind(e: Event, kind: Kind) {
    match kind
    case FetchKind => e.Fetched?
    case DeliverKind => e.Delivered?
    case StoreKind => e.Stored?
  }

  /** The handles of the events of one kind, in log order. */
  function HandlesOf(t: seq<Event>, kind: Kind): seq<Handle>
    decreases |t|
  {
    if t == [] then []
    else (if IsKind(t[0], kind) then [t[0].handle] else []) + HandlesOf(t[1..], kind)
  }

  /* ---------------- facts about the reference descriptions ---------------- */

  lemma {:induction false} HandlesOfAppend(a: seq<Event>, b: seq<Event>, kind: Kind)
    ensures HandlesOf(a + b, kind) == HandlesOf(a, kind) + HandlesOf(b, kind)
    decreases |a|
  {
    if a == [] {
      assert a + b == b;
    } else {
      assert (a + b)[1..] == a[1..] + b;
      HandlesOfAppend(a[1..], b, kind);
    }
  }

  /** Neither SELECT, SEARCH, CLOSE nor LOGOUT counts as a fetch, a delivery or a store. */
  lemma {:induction false} HandlesOfNoMessage(u: seq<Event>, kind: Kind)
    requires forall i :: 0 <= i < |u| ==> u[i].Selected? || u[i].Searched? || u[i].Closed? || u[i].LoggedOut?
    ensures HandlesOf(u, kind) == []
    decreases |u|
  {
    if u != [] {
      HandlesOfNoMessage(u[1..], kind);
    }
  }

  /** A run of complete cycles fetches, delivers and stores exactly the given handles, in order. */
  lemma {:induction false} HandlesOfCycles(fi: nat, hs: seq<Handle>, kind: Kind)
    ensures HandlesOf(Cycles(fi, hs), kind) == hs
    decreases |hs|
  {
    if hs != [] {
      HandlesOfAppend(Cycle(fi, hs[0]), Cycles(fi, hs[1..]), kind);
      HandlesOfCycles(fi, hs[1..], kind);
      HandlesOfCycle(fi, hs[0], kind);
    }
  }

  lemma HandlesOfCycle(fi: nat, h: Handle, kind: Kind)
    ensures HandlesOf(Cycle(fi, h), kind) == [h]
  {
    var c := Cycle(fi, h);
    var e1, e2, e3 := Fetched(fi, h), Delivered(fi, h), Stored(fi, h);
    assert HandlesOf([e3], kind) == (if IsKind(e3, kind) then [h] else []) + HandlesOf([], kind);
    assert [e2, e3][1..] == [e3];
    assert HandlesOf([e2, e3], kind) == (if IsKind(e2, kind) then [h] else []) + HandlesOf([e3], kind);
    assert c[1..] == [e2, e3];
    assert HandlesOf(c, kind) == (if IsKind(e1, kind) then [h] else []) + HandlesOf([e2, e3], kind);
  }

  lemma CyclesAppend(fi: nat, a: seq<Handle>, b: seq<Handle>)
    ensures Cycles(fi, a + b) == Cycles(fi, a) + Cycles(fi, b)
    decreases |a|
  {
    if a == [] {
      assert a + b == b;
    } else {
      assert (a + b)[1..] == a[1..] + b;
      CyclesAppend(fi, a[1..], b);
    }
  }

  /** Events of complete cycles all belong to their folder and are correctly ordered. */
  lemma {:induction false} CyclesShape(fi: nat, hs: seq<Handle>)
    ensures |Cycles(fi, hs)| == 3 * |hs|
    ensures forall i :: 0 <= i < |Cycles(fi, hs)| ==> InFolders(Cycles(fi, hs)[i], fi, fi + 1)
    ensures forall i :: 0 <= i < |Cycles(fi, hs)| ==> !Cycles(fi, hs)[i].Selected? && !Cycles(fi, hs)[i].Searched?
    ensures Sequenced(Cycles(fi, hs))
    ensures hs != [] ==> Cycles(fi, hs)[0].Fetched?
    decreases |hs|
  {
    if hs != [] {
      CyclesShape(fi, hs[1..]);
      var c := Cycle(fi, hs[0]);
      var rest := Cycles(fi, hs[1..]);
      SequencedAppend(c, rest);
    }
  }

  /** Appending a log that does not open with a delivery or a store keeps the order of every cycle. */
  lemma SequencedAppend(a: seq<Event>, b: seq<Event>)
    requires Sequenced(a) && Sequenced(b)
    requires b != [] ==> !b[0].Delivered? && !b[0].Stored?
    ensures Sequenced(a + b)
  {
    var t := a + b;
    forall i | 0 <= i < |t| && t[i].Stored?
      ensures 1 <= i && t[i - 1] == Delivered(t[i].folder, t[i].handle)
    {
      if i >= |a| { assert t[i] == b[i - |a|]; assert t[i - 1] == b[i - |a| - 1]; }
    }
    forall i | 0 <= i < |t| && t[i].Delivered?
      ensures 1 <= i && t[i - 1] == Fetched(t[i].folder, t[i].handle)
    {
      if i >= |a| { assert t[i] == b[i - |a|]; assert t[i - 1] == b[i - |a| - 1]; }
    }
  }

  lemma PayloadsSame(mb: Mailbox, mb': Mailbox, hs: seq<Handle>)
    requires |mb'| == |mb|
    requires forall m :: 0 <= m < |mb| ==> mb'[m].payload == mb[m].payload
    ensures Payloads(mb', hs) == Payloads(mb, hs)
    decreases |hs|
  {
    if hs != [] {
      PayloadsSame(mb, mb', hs[1..]);
    }
  }

  /* ---------------- the loop over one folder's handles ---------------- */

  /** One message: the cycle runs up to the stage at which it fails, or completes. */
  lemma ProcessMessageSpec(p: Policy, f: Faults, fi: nat, k: nat, h: Handle, pr: Progress)
    ensures var s := ProcessMessage(p, f, fi, k, h, pr);
            var stage := Fault(f, fi, k, |pr.mailbox|, h);
      && (s.result == Completed <==> stage.None?)
      && (stage.Some? ==> s.result == Aborted(stage.value, fi, k))
      && s.progress.trace == pr.trace + (if stage.None? then Cycle(fi, h) else Partial(stage.value, fi, h))
      && |s.progress.mailbox| == |pr.mailbox|
      && (forall m :: 0 <= m < |pr.mailbox| ==> s.progress.mailbox[m].payload == pr.mailbox[m].payload)
      && s.progress.sink == (if stage == Some(FetchStage) then pr.sink
                             else Deliver(pr.sink, Payload(pr.mailbox, h), AttemptAt(f, fi, k)))
  {
  }

  /**
   Fail-fast: the handles are processed in order and the loop stops at the first message
   that fails, with that failure as its result; it completes exactly when none fails. Only
   flags change in the mailbox, never its size or a message body.
   */
  lemma {:induction false} ProcessHandlesResult(p: Policy, f: Faults, fi: nat, hs: seq<Handle>, k0: nat, pr: Progress)
    ensures var s := ProcessHandles(p, f, fi, hs, k0, pr);
            var n := Clean(f, fi, k0, |pr.mailbox|, hs);
      && |s.progress.mailbox| == |pr.mailbox|
      && (forall m :: 0 <= m < |pr.mailbox| ==> s.progress.mailbox[m].payload == pr.mailbox[m].payload)
      && (s.result == Completed <==> n == |hs|)
      && (n < |hs| ==> s.result == Aborted(Fault(f, fi, k0 + n, |pr.mailbox|, hs[n]).value, fi, k0 + n))
    decreases |hs|
  {
    if hs != [] {
      var s1 := ProcessMessage(p, f, fi, k0, hs[0], pr);
      if s1.result.Completed? {
        CompletedCycle(p, f, fi, k0, hs[0], pr);
        ProcessHandlesResult(p, f, fi, hs[1..], k0 + 1, s1.progress);
        CleanCons(f, fi, hs, k0, |pr.mailbox|);
      } else {
        ProcessMessageSpec(p, f, fi, k0, hs[0], pr);
        assert Clean(f, fi, k0, |pr.mailbox|, hs) == 0;
      }
    }
  }

  /**
   The log of a folder's loop: the complete cycles of the messages before the first failure,
   then the part of the failing message's cycle that took effect.
   */
  lemma {:induction false} ProcessHandlesTrace(p: Policy, f: Faults, fi: nat, hs: seq<Handle>, k0: nat, pr: Progress)
    ensures ProcessHandles(p, f, fi, hs, k0, pr).progress.trace == pr.trace + HandlesLog(f, fi, k0, |pr.mailbox|, hs)
    decreases |hs|
  {
    if hs == [] {
      assert hs[..0] == [];
    } else {
      var s1 := ProcessMessage(p, f, fi, k0, hs[0], pr);
      if s1.result.Aborted? {
        TraceAtFailure(p, f, fi, hs, k0, pr);
      } else {
        CompletedCycle(p, f, fi, k0, hs[0], pr);
        var pr1 := s1.progress;
        ProcessHandlesTrace(p, f, fi, hs[1..], k0 + 1, pr1);
        HandlesLogCons(f, fi, hs, k0, |pr.mailbox|);
      }
    }
  }

  /** A message that went through left its whole cycle in the log and the loop went on. */
  lemma CompletedCycle(p: Policy, f: Faults, fi: nat, k: nat, h: Handle, pr: Progress)
    requires ProcessMessage(p, f, fi, k, h, pr).result.Completed?
    ensures Fault(f, fi, k, |pr.mailbox|, h).None?
    ensures ProcessMessage(p, f, fi, k, h, pr).progress.trace == pr.trace + Cycle(fi, h)
    ensures |ProcessMessage(p, f, fi, k, h, pr).progress.mailbox| == |pr.mailbox|
    ensures forall m :: 0 <= m < |pr.mailbox| ==> ProcessMessage(p, f, fi, k, h, pr).progress.mailbox[m].payload == pr.mailbox[m].payload
  {
  }

  /** When the first message fails, the loop's log is the part of its cycle that took effect. */
  lemma TraceAtFailure(p: Policy, f: Faults, fi: nat, hs: seq<Handle>, k0: nat, pr: Progress)
    requires hs != [] && ProcessMessage(p, f, fi, k0, hs[0], pr).result.Aborted?
    ensures ProcessHandles(p, f, fi, hs, k0, pr).progress.trace == pr.trace + HandlesLog(f, fi, k0, |pr.mailbox|, hs)
  {
    ProcessMessageSpec(p, f, fi, k0, hs[0], pr);
    assert Clean(f, fi, k0, |pr.mailbox|, hs) == 0;
    assert hs[..0] == [];
  }

  /** The log of a loop whose first message went through: that message's cycle, then the log of the rest. */
  lemma HandlesLogCons(f: Faults, fi: nat, hs: seq<Handle>, k0: nat, size: nat)
    requires hs != [] && Fault(f, fi, k0, size, hs[0]).None?
    ensures HandlesLog(f, fi, k0, size, hs) == Cycle(fi, hs[0]) + HandlesLog(f, fi, k0 + 1, size, hs[1..])
  {
    var n1 := Clean(f, fi, k0 + 1, size, hs[1..]);
    var tail := if n1 < |hs[1..]| then Partial(Fault(f, fi, k0 + 1 + n1, size, hs[1..][n1]).value, fi, hs[1..][n1]) else [];
    assert HandlesLog(f, fi, k0 + 1, size, hs[1..]) == Cycles(fi, hs[1..][..n1]) + tail;
    assert HandlesLog(f, fi, k0, size, hs) == Cycles(fi, hs[..1 + n1]) + tail by {
      CleanCons(f, fi, hs, k0, size);
    }
    CyclesPrefixCons(fi, hs, n1);
  }

  /** Past a first message that went through, the loop stops at the same message, for the same reason. */
  lemma CleanCons(f: Faults, fi: nat, hs: seq<Handle>, k0: nat, size: nat)
    requires hs != [] && Fault(f, fi, k0, size, hs[0]).None?
    ensures var n := Clean(f, fi, k0, size, hs);
            var n1 := Clean(f, fi, k0 + 1, size, hs[1..]);
      && n == 1 + n1
      && (n < |hs| ==> hs[1..][n1] == hs[n])
  {
  }

  /** The complete cycles of a prefix of length 1 + n1: the first cycle, then the rest. */
  lemma CyclesPrefixCons(fi: nat, hs: seq<Handle>, n1: nat)
    requires n1 < |hs|
    ensures Cycles(fi, hs[..1 + n1]) == Cycle(fi, hs[0]) + Cycles(fi, hs[1..][..n1])
  {
    assert hs[..1 + n1] == [hs[0]] + hs[1..][..n1];
  }

  /**
   The destination after a folder's handles were processed: it received, in order, the bodies
   of the messages whose delivery succeeded (all messages before the failing one, and the
   failing one too when only its STORE failed); a failed delivery is still an attempt, which
   the sink sees.
   */
  function SinkAfter(f: Faults, fi: nat, k0: nat, sink: Sink, mb: Mailbox, hs: seq<Handle>): Sink {
    var n := Clean(f, fi, k0, |mb|, hs);
    var stage := if n < |hs| then Fault(f, fi, k0 + n, |mb|, hs[n]) else None;
    var d := if stage == Some(StoreStage) then n + 1 else n;
    var base := DeliverEach(sink, Payloads(mb, hs[..d]));
    if stage == Some(DeliverStage) then Deliver(base, Payload(mb, hs[n]), AttemptAt(f, fi, k0 + n)) else base
  }

  /** Processing the handles leaves the destination as SinkAfter describes. */
  lemma {:induction false} ProcessHandlesSink(p: Policy, f: Faults, fi: nat, hs: seq<Handle>, k0: nat, pr: Progress)
    ensures ProcessHandles(p, f, fi, hs, k0, pr).progress.sink == SinkAfter(f, fi, k0, pr.sink, pr.mailbox, hs)
    decreases |hs|
  {
    if hs == [] {
      assert hs[..0] == [];
    } else {
      var s1 := ProcessMessage(p, f, fi, k0, hs[0], pr);
      ProcessMessageSpec(p, f, fi, k0, hs[0], pr);
      if s1.result.Aborted? {
        assert ProcessHandles(p, f, fi, hs, k0, pr) == s1;
        FirstMessageSink(p, f, fi, hs, k0, pr);
      } else {
        var pr1 := s1.progress;
        assert ProcessHandles(p, f, fi, hs, k0, pr) == ProcessHandles(p, f, fi, hs[1..], k0 + 1, pr1);
        ProcessHandlesSink(p, f, fi, hs[1..], k0 + 1, pr1);
        SinkAfterFirst(f, fi, hs, k0, pr, pr1);
      }
    }
  }

  /** The induction step of ProcessHandlesSink: the first message went through. */
  lemma SinkAfterFirst(f: Faults, fi: nat, hs: seq<Handle>, k0: nat, pr: Progress, pr1: Progress)
    requires hs != []
    requires Fault(f, fi, k0, |pr.mailbox|, hs[0]).None?
    requires pr1.sink == Deliver(pr.sink, Payload(pr.mailbox, hs[0]), Accepted)
    requires |pr1.mailbox| == |pr.mailbox|
    requires forall m :: 0 <= m < |pr.mailbox| ==> pr1.mailbox[m].payload == pr.mailbox[m].payload
    ensures SinkAfter(f, fi, k0 + 1, pr1.sink, pr1.mailbox, hs[1..]) == SinkAfter(f, fi, k0, pr.sink, pr.mailbox, hs)
  {
    var size := |pr.mailbox|;
    var n := Clean(f, fi, k0, size, hs);
    var n1 := Clean(f, fi, k0 + 1, size, hs[1..]);
    assert n == 1 + n1;
    var stage := if n < |hs| then Fault(f, fi, k0 + n, size, hs[n]) else None;
    var d := if stage == Some(StoreStage) then n + 1 else n;
    var stage1 := if n1 < |hs[1..]| then Fault(f, fi, k0 + 1 + n1, size, hs[1..][n1]) else None;
    assert stage1 == stage by {
      if n < |hs| { assert hs[1..][n1] == hs[n]; }
    }
    var d1 := if stage1 == Some(StoreStage) then n1 + 1 else n1;
    assert d1 == d - 1;
    DeliverEachCons(pr.sink, pr.mailbox, pr1.mailbox, hs, d);
    if stage == Some(DeliverStage) {
      assert hs[1..][n1] == hs[n];
    }
  }

  /** When the first message fails, the sink has seen at most that message's delivery. */
  lemma FirstMessageSink(p: Policy, f: Faults, fi: nat, hs: seq<Handle>, k0: nat, pr: Progress)
    requires hs != []
    requires Fault(f, fi, k0, |pr.mailbox|, hs[0]).Some?
    ensures ProcessMessage(p, f, fi, k0, hs[0], pr).progress.sink == SinkAfter(f, fi, k0, pr.sink, pr.mailbox, hs)
  {
    ProcessMessageSpec(p, f, fi, k0, hs[0], pr);
    assert Clean(f, fi, k0, |pr.mailbox|, hs) == 0;
    assert hs[..0] == [];
    assert Payloads(pr.mailbox, hs[..0]) == [];
    if Fault(f, fi, k0, |pr.mailbox|, hs[0]) == Some(StoreStage) {
      assert hs[..1] == [hs[0]];
      var ds := Payloads(pr.mailbox, hs[..1]);
      assert hs[..1][1..] == [];
      assert ds == [Payload(pr.mailbox, hs[0])] + Payloads(pr.mailbox, []);
      assert DeliverEach(pr.sink, ds) == DeliverEach(Deliver(pr.sink, ds[0], Accepted), ds[1..]);
      assert ds[1..] == [];
    }
  }

  /** Delivering the first body and then the rest is delivering them all, whatever flags changed meanwhile. */
  lemma DeliverEachCons(sink: Sink, mb: Mailbox, mb1: Mailbox, hs: seq<Handle>, d: nat)
    requires 1 <= d <= |hs|
    requires |mb1| == |mb|
    requires forall m :: 0 <= m < |mb| ==> mb1[m].payload == mb[m].payload
    ensures DeliverEach(Deliver(sink, Payload(mb, hs[0]), Accepted), Payloads(mb1, hs[1..][..d - 1]))
         == DeliverEach(sink, Payloads(mb, hs[..d]))
    ensures forall h :: Payload(mb1, h) == Payload(mb, h)
  {
    assert hs[..d] == [hs[0]] + hs[1..][..d - 1];
    PayloadsSame(mb, mb1, hs[1..][..d - 1]);
  }

  /**
   With each handle listed once: a message acknowledged in this run was fetched and then
   stored, the failing message was only fetched (unless its fetch failed), every other
   message keeps its flags; bodies never change.
   */
  lemma {:induction false} ProcessHandlesFlags(p: Policy, f: Faults, fi: nat, hs: seq<Handle>, k0: nat, pr: Progress)
    requires Distinct(hs)
    ensures var s := ProcessHandles(p, f, fi, hs, k0, pr);
            var mb := pr.mailbox;
      && |s.progress.mailbox| == |mb|
      && forall m :: 0 <= m < |mb| ==>
           s.progress.mailbox[m] == Message(FlagsAfter(p, mb[m].flags, ReachOf(f, fi, k0, |mb|, hs, m + 1)), mb[m].payload)
    decreases |hs|
  {
    if hs != [] {
      var s1 := ProcessMessage(p, f, fi, k0, hs[0], pr);
      if s1.result.Aborted? {
        FlagsAtFailure(p, f, fi, hs, k0, pr);
      } else {
        assert Distinct(hs[1..]);
        ProcessHandlesFlags(p, f, fi, hs[1..], k0 + 1, s1.progress);
        FlagsAfterFirst(p, f, fi, hs, k0, pr, ProcessHandles(p, f, fi, hs[1..], k0 + 1, s1.progress).progress.mailbox);
      }
    }
  }

  /** When the first message fails, nothing is acknowledged and that message at most fetched. */
  lemma FlagsAtFailure(p: Policy, f: Faults, fi: nat, hs: seq<Handle>, k0: nat, pr: Progress)
    requires hs != [] && ProcessMessage(p, f, fi, k0, hs[0], pr).result.Aborted?
    ensures var mb := pr.mailbox;
            var mb' := ProcessMessage(p, f, fi, k0, hs[0], pr).progress.mailbox;
      && |mb'| == |mb|
      && forall m :: 0 <= m < |mb| ==>
           mb'[m] == Message(FlagsAfter(p, mb[m].flags, ReachOf(f, fi, k0, |mb|, hs, m + 1)), mb[m].payload)
  {
    var mb := pr.mailbox;
    assert Clean(f, fi, k0, |mb|, hs) == 0;
    assert hs[..0] == [];
  }

  /**
   When the first message succeeds, what the rest of the loop does to the mailbox it left
   behind is what the whole loop does to the mailbox it started from.
   */
  lemma FlagsAfterFirst(p: Policy, f: Faults, fi: nat, hs: seq<Handle>, k0: nat, pr: Progress, mb': Mailbox)
    requires hs != [] && Distinct(hs)
    requires ProcessMessage(p, f, fi, k0, hs[0], pr).result.Completed?
    requires var mb1 := ProcessMessage(p, f, fi, k0, hs[0], pr).progress.mailbox;
      && |mb'| == |mb1|
      && forall m :: 0 <= m < |mb1| ==>
           mb'[m] == Message(FlagsAfter(p, mb1[m].flags, ReachOf(f, fi, k0 + 1, |mb1|, hs[1..], m + 1)), mb1[m].payload)
    ensures var mb := pr.mailbox;
      && |mb'| == |mb|
      && forall m :: 0 <= m < |mb| ==>
           mb'[m] == Message(FlagsAfter(p, mb[m].flags, ReachOf(f, fi, k0, |mb|, hs, m + 1)), mb[m].payload)
  {
    var mb := pr.mailbox;
    var mb1 := ProcessMessage(p, f, fi, k0, hs[0], pr).progress.mailbox;
    var size := |mb|;
    assert Fault(f, fi, k0, size, hs[0]).None?;
    forall m | 0 <= m < size
      ensures mb'[m] == Message(FlagsAfter(p, mb[m].flags, ReachOf(f, fi, k0, size, hs, m + 1)), mb[m].payload)
    {
      if m + 1 == hs[0] {
        ReachOfHead(f, fi, k0, size, hs);
      } else {
        assert mb1[m] == mb[m];
        ReachOfTail(f, fi, k0, size, hs, m + 1);
      }
    }
  }

  /** The first handle, once it succeeded, is acknowledged, and the rest of the loop never reaches it again. */
  lemma ReachOfHead(f: Faults, fi: nat, k0: nat, size: nat, hs: seq<Handle>)
    requires hs != [] && Distinct(hs)
    requires Fault(f, fi, k0, size, hs[0]).None?
    ensures ReachOf(f, fi, k0 + 1, size, hs[1..], hs[0]) == Untouched
    ensures ReachOf(f, fi, k0, size, hs, hs[0]) == Acknowledged
  {
    var n1 := Clean(f, fi, k0 + 1, size, hs[1..]);
    assert Clean(f, fi, k0, size, hs) == 1 + n1;
    assert hs[0] !in hs[1..] by {
      forall j | 0 <= j < |hs[1..]| ensures hs[1..][j] != hs[0] { assert hs[1..][j] == hs[j + 1]; }
    }
    assert hs[0] !in hs[1..][..n1];
    assert hs[..1 + n1][0] == hs[0];
  }

  /** Any other handle gets as far in the whole loop as in the loop after the first message. */
  lemma ReachOfTail(f: Faults, fi: nat, k0: nat, size: nat, hs: seq<Handle>, h: Handle)
    requires hs != []
    requires Fault(f, fi, k0, size, hs[0]).None?
    requires h != hs[0]
    ensures ReachOf(f, fi, k0 + 1, size, hs[1..], h) == ReachOf(f, fi, k0, size, hs, h)
  {
    var n := Clean(f, fi, k0, size, hs);
    var n1 := Clean(f, fi, k0 + 1, size, hs[1..]);
    assert n == 1 + n1;
    assert hs[..n] == [hs[0]] + hs[1..][..n1];
    assert (h in hs[..n]) == (h in hs[1..][..n1]);
    if n < |hs| {
      assert hs[1..][n1] == hs[n];
    }
  }

  /* ---------------- the folder's loop, summarised ---------------- */

  /** A strictly increasing list of handles names each message at most once. */
  lemma IncreasingDistinct(hs: seq<Handle>)
    requires Increasing(hs)
    ensures Distinct(hs)
  {
  }

  /** A handle listed after the failing one is neither fetched nor otherwise reached. */
  lemma LaterUntouched(f: Faults, fi: nat, mb: Mailbox, hs: seq<Handle>, j: nat)
    requires Distinct(hs) && Clean(f, fi, 0, |mb|, hs) < j < |hs|
    ensures hs[j] !in hs[..FetchedCount(f, fi, 0, |mb|, hs)]
    ensures ReachOf(f, fi, 0, |mb|, hs, hs[j]) == Untouched
  {
    var k := Clean(f, fi, 0, |mb|, hs);
    var fc := FetchedCount(f, fi, 0, |mb|, hs);
    assert fc <= k + 1;
    forall i | 0 <= i < fc ensures hs[..fc][i] != hs[j] {
      assert hs[..fc][i] == hs[i];
    }
    forall i | 0 <= i < k ensures hs[..k][i] != hs[j] {
      assert hs[..k][i] == hs[i];
    }
  }

  /** How a folder's loop ends, its log and the destination afterwards, against the reference descriptions. */
  lemma ProcessHandlesSpec(p: Policy, f: Faults, fi: nat, hs: seq<Handle>, k0: nat, pr: Progress)
    ensures var s := ProcessHandles(p, f, fi, hs, k0, pr);
            var mb := pr.mailbox;
      && s.result == Ended(f, fi, k0, |mb|, hs)
      && s.progress.trace == pr.trace + HandlesLog(f, fi, k0, |mb|, hs)
      && s.progress.sink == SinkAfter(f, fi, k0, pr.sink, mb, hs)
  {
    ProcessHandlesEnded(p, f, fi, hs, k0, pr);
    ProcessHandlesTrace(p, f, fi, hs, k0, pr);
    ProcessHandlesSink(p, f, fi, hs, k0, pr);
  }

  lemma ProcessHandlesEnded(p: Policy, f: Faults, fi: nat, hs: seq<Handle>, k0: nat, pr: Progress)
    ensures ProcessHandles(p, f, fi, hs, k0, pr).result == Ended(f, fi, k0, |pr.mailbox|, hs)
  {
    var s := ProcessHandles(p, f, fi, hs, k0, pr);
    var n := Clean(f, fi, k0, |pr.mailbox|, hs);
    ProcessHandlesResult(p, f, fi, hs, k0, pr);
    if n < |hs| {
      assert s.result == Aborted(Fault(f, fi, k0 + n, |pr.mailbox|, hs[n]).value, fi, k0 + n);
    }
  }


  /** What a partial cycle contributes to each kind of event. */
  lemma HandlesOfPartial(stage: Stage, fi: nat, h: Handle, kind: Kind)
    ensures HandlesOf(Partial(stage, fi, h), kind) == PartialHandles(stage, h, kind)
  {
    var e1, e2 := Fetched(fi, h), Delivered(fi, h);
    assert HandlesOf([e2], kind) == (if IsKind(e2, kind) then [h] else []) + HandlesOf([], kind);
    assert HandlesOf([e1], kind) == (if IsKind(e1, kind) then [h] else []) + HandlesOf([], kind);
    assert [e1, e2][1..] == [e2];
    assert HandlesOf([e1, e2], kind) == (if IsKind(e1, kind) then [h] else []) + HandlesOf([e2], kind);
  }

  /** The events of a partial cycle belong to its folder and are correctly ordered. */
  lemma PartialShape(stage: Stage, fi: nat, h: Handle)
    ensures var t := Partial(stage, fi, h);
      && (forall i :: 0 <= i < |t| ==> InFolders(t[i], fi, fi + 1) && !t[i].Selected? && !t[i].Searched? && !t[i].Stored?)
      && Sequenced(t)
      && (t != [] ==> t[0].Fetched?)
  {
  }

  /**
   The log of a folder's loop fetches, delivers and stores the search result's handles from
   the first, in order: stores up to the failure, deliveries and fetches as far as they went.
   */
  lemma HandlesLogKinds(f: Faults, fi: nat, k0: nat, size: nat, hs: seq<Handle>)
    ensures var t := HandlesLog(f, fi, k0, size, hs);
      && FetchedCount(f, fi, k0, size, hs) <= |hs|
      && DeliveredCount(f, fi, k0, size, hs) <= FetchedCount(f, fi, k0, size, hs)
      && HandlesOf(t, FetchKind) == hs[..FetchedCount(f, fi, k0, size, hs)]
      && HandlesOf(t, DeliverKind) == hs[..DeliveredCount(f, fi, k0, size, hs)]
      && HandlesOf(t, StoreKind) == hs[..Clean(f, fi, k0, size, hs)]
  {
    LogCount(f, fi, k0, size, hs, FetchKind, FetchedCount(f, fi, k0, size, hs));
    LogCount(f, fi, k0, size, hs, DeliverKind, DeliveredCount(f, fi, k0, size, hs));
    LogCount(f, fi, k0, size, hs, StoreKind, Clean(f, fi, k0, size, hs));
  }

  /** One kind of event in the loop's log is a prefix of the handles, of the length the kind's count gives. */
  lemma LogCount(f: Faults, fi: nat, k0: nat, size: nat, hs: seq<Handle>, kind: Kind, count: nat)
    requires count == match kind
      case FetchKind => FetchedCount(f, fi, k0, size, hs)
      case DeliverKind => DeliveredCount(f, fi, k0, size, hs)
      case StoreKind => Clean(f, fi, k0, size, hs)
    ensures count <= |hs|
    ensures HandlesOf(HandlesLog(f, fi, k0, size, hs), kind) == hs[..count]
  {
    var n := Clean(f, fi, k0, size, hs);
    LogKind(f, fi, k0, size, hs, kind);
    if n < |hs| {
      PartialCount(f, fi, k0, size, hs, kind, count);
      if count == n + 1 {
        assert hs[..count] == hs[..n] + [hs[n]];
      } else {
        assert hs[..n] + [] == hs[..n];
      }
    } else {
      assert hs[..n] + [] == hs[..n];
    }
  }

  /** The failing message adds itself to a kind's handles exactly when that kind's count includes it. */
  lemma PartialCount(f: Faults, fi: nat, k0: nat, size: nat, hs: seq<Handle>, kind: Kind, count: nat)
    requires Clean(f, fi, k0, size, hs) < |hs|
    requires count == match kind
      case FetchKind => FetchedCount(f, fi, k0, size, hs)
      case DeliverKind => DeliveredCount(f, fi, k0, size, hs)
      case StoreKind => Clean(f, fi, k0, size, hs)
    ensures var n := Clean(f, fi, k0, size, hs);
            var ph := PartialHandles(FailStage(f, fi, k0, size, hs).value, hs[n], kind);
      && (count == n || count == n + 1)
      && (count == n ==> ph == [])
      && (count == n + 1 ==> ph == [hs[n]])
  {
  }


  /** One kind of event in the loop's log: the complete cycles' handles, then what the failing message's cycle adds. */
  lemma LogKind(f: Faults, fi: nat, k0: nat, size: nat, hs: seq<Handle>, kind: Kind)
    ensures var n := Clean(f, fi, k0, size, hs);
      HandlesOf(HandlesLog(f, fi, k0, size, hs), kind) ==
        hs[..n] + if n < |hs| then PartialHandles(FailStage(f, fi, k0, size, hs).value, hs[n], kind) else []
  {
    var n := Clean(f, fi, k0, size, hs);
    var c := Cycles(fi, hs[..n]);
    var tail := if n < |hs| then Partial(FailStage(f, fi, k0, size, hs).value, fi, hs[n]) else [];
    var ph := if n < |hs| then PartialHandles(FailStage(f, fi, k0, size, hs).value, hs[n], kind) else [];
    assert HandlesLog(f, fi, k0, size, hs) == c + tail;
    assert HandlesOf(tail, kind) == ph by {
      if n < |hs| {
        HandlesOfPartial(FailStage(f, fi, k0, size, hs).value, fi, hs[n], kind);
      }
    }
    HandlesOfAppend(c, tail, kind);
    HandlesOfCycles(fi, hs[..n], kind);
  }



  /** The log of a folder's loop is made of that folder's per-message events, each cycle in order. */
  lemma HandlesLogShape(f: Faults, fi: nat, k0: nat, size: nat, hs: seq<Handle>)
    ensures var t := HandlesLog(f, fi, k0, size, hs);
      && (forall i :: 0 <= i < |t| ==> InFolders(t[i], fi, fi + 1) && !t[i].Selected? && !t[i].Searched?)
      && Sequenced(t)
      && (t != [] ==> t[0].Fetched?)
  {
    var n := Clean(f, fi, k0, size, hs);
    var c := Cycles(fi, hs[..n]);
    CyclesShape(fi, hs[..n]);
    if n < |hs| {
      var stage := Fault(f, fi, k0 + n, size, hs[n]).value;
      var tail := Partial(stage, fi, hs[n]);
      assert HandlesLog(f, fi, k0, size, hs) == c + tail;
      PartialShape(stage, fi, hs[n]);
      ConcatShape(fi, c, tail);
    } else {
      assert HandlesLog(f, fi, k0, size, hs) == c + [];
      assert c + [] == c;
    }
  }

  /** Complete cycles followed by a partial one keep the shape of a folder's loop log. */
  lemma ConcatShape(fi: nat, c: seq<Event>, tail: seq<Event>)
    requires forall i :: 0 <= i < |c| ==> InFolders(c[i], fi, fi + 1) && !c[i].Selected? && !c[i].Searched?
    requires forall i :: 0 <= i < |tail| ==> InFolders(tail[i], fi, fi + 1) && !tail[i].Selected? && !tail[i].Searched? && !tail[i].Stored?
    requires Sequenced(c) && Sequenced(tail)
    requires c != [] ==> c[0].Fetched?
    requires tail != [] ==> tail[0].Fetched?
    ensures var t := c + tail;
      && (forall i :: 0 <= i < |t| ==> InFolders(t[i], fi, fi + 1) && !t[i].Selected? && !t[i].Searched?)
      && Sequenced(t)
      && (t != [] ==> t[0].Fetched?)
  {
    SequencedAppend(c, tail);
    var t := c + tail;
    forall i | 0 <= i < |t|
      ensures InFolders(t[i], fi, fi + 1) && !t[i].Selected? && !t[i].Searched?
    {
      if i >= |c| { assert t[i] == tail[i - |c|]; }
    }
  }


  /* ---------------- one folder ---------------- */

  /** SELECT then a SEARCH that fails: the run stops there, having changed nothing but the log. */
  lemma ProcessFolderNoSearch(p: Policy, f: Faults, fi: nat, name: string, st: State)
    requires name !in st.account || fi in f.search
    ensures ProcessFolder(p, f, fi, name, st) == Outcome(st.(trace := st.trace + [Selected(fi)]), Aborted(SearchStage, fi, 0))
  {
  }

  /** A folder whose SEARCH succeeds: its handles are the search result, processed as the loop summary says. */
  lemma ProcessFolderSearched(p: Policy, f: Faults, fi: nat, name: string, st: State)
    requires name in st.account && fi !in f.search
    ensures var o := ProcessFolder(p, f, fi, name, st);
            var mb := st.account[name];
            var hs := Search(mb, p.key);
      && o.result == Ended(f, fi, 0, |mb|, hs)
      && o.state.trace == st.trace + [Selected(fi), Searched(fi, hs)] + HandlesLog(f, fi, 0, |mb|, hs)
      && o.state.sink == SinkAfter(f, fi, 0, st.sink, mb, hs)
  {
    var mb := st.account[name];
    var hs := Search(mb, p.key);
    var pr := Progress(mb, st.sink, st.trace + [Selected(fi)] + [Searched(fi, hs)]);
    ProcessHandlesSpec(p, f, fi, hs, 0, pr);
    var s := ProcessHandles(p, f, fi, hs, 0, pr);
    assert ProcessFolder(p, f, fi, name, st) == Outcome(State(st.account[name := s.progress.mailbox], s.progress.sink, s.progress.trace), s.result);
    assert st.trace + [Selected(fi)] + [Searched(fi, hs)] == st.trace + [Selected(fi), Searched(fi, hs)];
  }

  /** A folder whose SEARCH succeeds: only that folder's mailbox changes, and only in its flags. */
  lemma ProcessFolderMailbox(p: Policy, f: Faults, fi: nat, name: string, st: State)
    requires name in st.account && fi !in f.search
    ensures var o := ProcessFolder(p, f, fi, name, st);
            var mb := st.account[name];
            var hs := Search(mb, p.key);
      && o.state.account.Keys == st.account.Keys
      && (forall other :: other in st.account && other != name ==> o.state.account[other] == st.account[other])
      && |o.state.account[name]| == |mb|
      && forall m :: 0 <= m < |mb| ==>
           o.state.account[name][m] == Message(FlagsAfter(p, mb[m].flags, ReachOf(f, fi, 0, |mb|, hs, m + 1)), mb[m].payload)
  {
    var mb := st.account[name];
    var hs := Search(mb, p.key);
    IncreasingDistinct(hs);
    var pr := Progress(mb, st.sink, st.trace + [Selected(fi)] + [Searched(fi, hs)]);
    ProcessHandlesFlags(p, f, fi, hs, 0, pr);
  }
}
