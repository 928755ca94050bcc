/**
 The IMAP-to-Exchange relay (`imap2ews.py`): one IMAP folder is searched for its unseen (or
 all) messages; each one is fetched, saved into the Exchange inbox, and then marked \Seen on
 the IMAP server; CLOSE and LOGOUT end a run in which nothing failed.
 */
module Imap2Ews {
  import opened Types
  import opened Imap
  import opened Sinks
  import opened Transfer
  import opened Folders

  /** The script's settings: the folder to drain, `only_unseen`, and the Exchange side. */
  datatype Config = Config(inbox: string, onlyUnseen: bool, ews: EwsConfig)

  /** `(RFC822 BODY[HEADER.FIELDS (MESSAGE-ID)])`: both items are non-PEEK. */
  const FetchItems: seq<FetchItem> := [RFC822, Body("HEADER.FIELDS (MESSAGE-ID)", false)]

  /** `(UNSEEN)` when `only_unseen`, else `(ALL)`. */
  function KeyFor(c: Config): SearchKey {
    if c.onlyUnseen then UNSEEN else ALL
  }

  /** Search as configured, fetch the body, acknowledge with `+FLAGS (\Seen)`. */
  function EwsPolicy(c: Config): Policy {
    Policy(KeyFor(c), FetchItems, AddFlags({Seen}))
  }

  /**
   `transfer_messages` in a fresh process: the Exchange account does not exist yet
   (`account_ews` is None) and the configured folder is the only one, with index 0.
   */
  function TransferMessages(c: Config, f: Faults, account: Account): (o: Outcome)
    ensures Evolves(EwsPolicy(c), account, o.state.account)
    ensures o.state.sink.Ews? && o.state.sink.ews == c.ews
  {
    FoldersEvolve(EwsPolicy(c), f, [c.inbox], 0, State(account, FreshEws(c.ews), []));
    RunSink(c, f, account);
    Run(EwsPolicy(c), f, [c.inbox], State(account, FreshEws(c.ews), []))
  }

  /* ---------------- the run, summarised ---------------- */

  /** The single folder is the whole run; CLOSE and LOGOUT follow only a completed one. */
  lemma RunIsFolder(c: Config, f: Faults, account: Account)
    ensures var st := State(account, FreshEws(c.ews), []);
            var o1 := ProcessFolder(EwsPolicy(c), f, 0, c.inbox, st);
            var o := Run(EwsPolicy(c), f, [c.inbox], st);
      && o.result == o1.result
      && o.state.account == o1.state.account
      && o.state.sink == o1.state.sink
      && o.state.trace == o1.state.trace + (if o1.result == Completed then [Closed, LoggedOut] else [])
  {
    var st := State(account, FreshEws(c.ews), []);
    var o1 := ProcessFolder(EwsPolicy(c), f, 0, c.inbox, st);
    if o1.result.Completed? {
      assert [c.inbox][1..] == [];
      assert ProcessFolders(EwsPolicy(c), f, [c.inbox], 0, st) == Outcome(o1.state, Completed);
    }
  }

  /** The destination the run leaves behind is an Exchange sink for the configured account. */
  lemma RunSink(c: Config, f: Faults, account: Account)
    ensures var o := Run(EwsPolicy(c), f, [c.inbox], State(account, FreshEws(c.ews), []));
      o.state.sink.Ews? && o.state.sink.ews == c.ews
  {
    RunIsFolder(c, f, account);
    var st := State(account, FreshEws(c.ews), []);
    if c.inbox in account && 0 !in f.search {
      var mb := account[c.inbox];
      var hs := Search(mb, KeyFor(c));
      ProcessFolderSearched(EwsPolicy(c), f, 0, c.inbox, st);
      SinkShape(f, mb, hs, c.ews);
    }
  }

  /** The events a run with a successful search logs. */
  function Log(c: Config, f: Faults, mb: Mailbox): seq<Event> {
    var hs := Search(mb, KeyFor(c));
    [Selected(0), Searched(0, hs)] + HandlesLog(f, 0, 0, |mb|, hs)
  }

  /** A run whose search succeeds: the loop summary applied to the configured folder. */
  lemma RunSearched(c: Config, f: Faults, account: Account)
    requires c.inbox in account && 0 !in f.search
    ensures var o := TransferMessages(c, f, account);
            var mb := account[c.inbox];
            var hs := Search(mb, KeyFor(c));
      && o.result == Ended(f, 0, 0, |mb|, hs)
      && o.state.trace == Log(c, f, mb) + (if o.result == Completed then [Closed, LoggedOut] else [])
      && o.state.sink == SinkAfter(f, 0, 0, FreshEws(c.ews), mb, hs)
  {
    var st := State(account, FreshEws(c.ews), []);
    var mb := account[c.inbox];
    RunIsFolder(c, f, account);
    ProcessFolderSearched(EwsPolicy(c), f, 0, c.inbox, st);
    assert ProcessFolder(EwsPolicy(c), f, 0, c.inbox, st).state.trace == Log(c, f, mb);
  }

  /** A run whose search succeeds changes only the configured folder, message by message as far as each got. */
  lemma RunMailbox(c: Config, f: Faults, account: Account)
    requires c.inbox in account && 0 !in f.search
    ensures var o := TransferMessages(c, f, account);
            var mb := account[c.inbox];
            var hs := Search(mb, KeyFor(c));
      && o.state.account.Keys == account.Keys
      && (forall other :: other in account && other != c.inbox ==> o.state.account[other] == account[other])
      && |o.state.account[c.inbox]| == |mb|
      && forall m :: 0 <= m < |mb| ==>
           o.state.account[c.inbox][m] == Message(FlagsAfter(EwsPolicy(c), mb[m].flags, ReachOf(f, 0, 0, |mb|, hs, m + 1)), mb[m].payload)
  {
    RunIsFolder(c, f, account);
    ProcessFolderMailbox(EwsPolicy(c), f, 0, c.inbox, State(account, FreshEws(c.ews), []));
  }

  /** Framing the loop's log with SELECT and SEARCH before and CLOSE and LOGOUT after changes no kind of event. */
  lemma HandlesOfFramed(head: seq<Event>, log: seq<Event>, tail: seq<Event>, kind: Kind)
    requires forall i :: 0 <= i < |head| ==> head[i].Selected? || head[i].Searched?
    requires tail == [] || tail == [Closed, LoggedOut]
    ensures HandlesOf(head + log + tail, kind) == HandlesOf(log, kind)
  {
    assert head + log + tail == head + (log + tail);
    HandlesOfAppend(head, log + tail, kind);
    HandlesOfAppend(log, tail, kind);
    HandlesOfNoMessage(head, kind);
    HandlesOfNoMessage(tail, kind);
  }

  /** A run whose search succeeds fetches, saves and flags the search result from the first, as far as it got. */
  lemma RunKinds(c: Config, f: Faults, account: Account)
    requires c.inbox in account && 0 !in f.search
    ensures var o := TransferMessages(c, f, account);
            var mb := account[c.inbox];
            var hs := Search(mb, KeyFor(c));
      && HandlesOf(o.state.trace, FetchKind) == hs[..FetchedCount(f, 0, 0, |mb|, hs)]
      && HandlesOf(o.state.trace, DeliverKind) == hs[..DeliveredCount(f, 0, 0, |mb|, hs)]
      && HandlesOf(o.state.trace, StoreKind) == hs[..Clean(f, 0, 0, |mb|, hs)]
      && Clean(f, 0, 0, |mb|, hs) <= DeliveredCount(f, 0, 0, |mb|, hs) <= FetchedCount(f, 0, 0, |mb|, hs) <= |hs|
  {
    var o := TransferMessages(c, f, account);
    var mb := account[c.inbox];
    var hs := Search(mb, KeyFor(c));
    RunSearched(c, f, account);
    HandlesLogKinds(f, 0, 0, |mb|, hs);
    var tail := if o.result == Completed then [Closed, LoggedOut] else [];
    var head := [Selected(0), Searched(0, hs)];
    var log := HandlesLog(f, 0, 0, |mb|, hs);
    assert o.state.trace == head + log + tail;
    HandlesOfFramed(head, log, tail, FetchKind);
    HandlesOfFramed(head, log, tail, DeliverKind);
    HandlesOfFramed(head, log, tail, StoreKind);
  }

  /* ---------------- properties of the script ---------------- */

  /**
   When SEARCH fails (or the folder does not exist), the run stops right after SELECT:
   nothing is fetched, saved or flagged, and CLOSE and LOGOUT are not reached.
   */
  lemma SearchFailureTouchesNothing(c: Config, f: Faults, account: Account)
    requires c.inbox !in account || 0 in f.search
    ensures var o := TransferMessages(c, f, account);
      && o.result == Aborted(SearchStage, 0, 0)
      && o.state.account == account
      && o.state.sink == FreshEws(c.ews)
      && o.state.trace == [Selected(0)]
  {
    RunIsFolder(c, f, account);
    ProcessFolderNoSearch(EwsPolicy(c), f, 0, c.inbox, State(account, FreshEws(c.ews), []));
  }

  /**
   The messages fetched, saved and flagged are the search result (the unseen messages, or
   all of them), from the first and in the server's ascending order; every one once a run
   completes; no other message of the folder changes, and no other folder does.
   */
  lemma ProcessesSearchResultInOrder(c: Config, f: Faults, account: Account)
    requires c.inbox in account && 0 !in f.search
    ensures var o := TransferMessages(c, f, account);
            var mb := account[c.inbox];
            var hs := Search(mb, KeyFor(c));
            var fetched := HandlesOf(o.state.trace, FetchKind);
            var delivered := HandlesOf(o.state.trace, DeliverKind);
            var stored := HandlesOf(o.state.trace, StoreKind);
      && (forall h :: h in hs <==> Valid(mb, h) && Satisfies(mb[h - 1].flags, KeyFor(c)))
      && |stored| <= |delivered| <= |fetched| <= |hs|
      && fetched == hs[..|fetched|] && delivered == hs[..|delivered|] && stored == hs[..|stored|]
      && (o.result == Completed ==> fetched == hs && delivered == hs && stored == hs)
      && (forall m :: 0 <= m < |mb| && m + 1 !in hs ==> o.state.account[c.inbox][m] == mb[m])
      && (forall other :: other in account && other != c.inbox ==> o.state.account[other] == account[other])
  {
    var o := TransferMessages(c, f, account);
    var mb := account[c.inbox];
    var hs := Search(mb, KeyFor(c));
    RunSearched(c, f, account);
    RunMailbox(c, f, account);
    RunKinds(c, f, account);
    forall m | 0 <= m < |mb| && m + 1 !in hs
      ensures o.state.account[c.inbox][m] == mb[m]
    {
      var n := Clean(f, 0, 0, |mb|, hs);
      assert m + 1 !in hs[..n];
      assert ReachOf(f, 0, 0, |mb|, hs, m + 1) == Untouched;
    }
  }

  /**
   \Seen is stored on a message only right after that message was saved to Exchange, which
   itself comes right after its fetch.
   */
  lemma SeenOnlyAfterDelivery(c: Config, f: Faults, account: Account)
    ensures Sequenced(TransferMessages(c, f, account).state.trace)
  {
    var st := State(account, FreshEws(c.ews), []);
    var o0 := ProcessFolders(EwsPolicy(c), f, [c.inbox], 0, st);
    FoldersSequenced(EwsPolicy(c), f, [c.inbox], 0, st);
    SequencedNoAck([Closed, LoggedOut]);
    SequencedAppend(o0.state.trace, [Closed, LoggedOut]);
  }

  /**
   Fail-fast, before the failure: the run completes exactly when no message fails, and
   otherwise reports the first failing message k and its stage; the messages before k were
   all saved to Exchange and marked \Seen, and only they were flagged.
   */
  lemma FailFastPrefix(c: Config, f: Faults, account: Account)
    requires c.inbox in account && 0 !in f.search
    ensures var o := TransferMessages(c, f, account);
            var mb := account[c.inbox];
            var mb' := o.state.account[c.inbox];
            var hs := Search(mb, KeyFor(c));
            var k := Clean(f, 0, 0, |mb|, hs);
      && (o.result == Completed <==> k == |hs|)
      && (k < |hs| ==> o.result == Aborted(Fault(f, 0, k, |mb|, hs[k]).value, 0, k))
      && HandlesOf(o.state.trace, StoreKind) == hs[..k]
      && (forall j :: 0 <= j < k ==> Seen in mb'[hs[j] - 1].flags)
      && (forall j :: 0 <= j < k ==> SavedItem(mb[hs[j] - 1].payload, TransferMarker) in o.state.sink.saved)
  {
    var o := TransferMessages(c, f, account);
    var mb := account[c.inbox];
    var hs := Search(mb, KeyFor(c));
    var k := Clean(f, 0, 0, |mb|, hs);
    RunSearched(c, f, account);
    RunKinds(c, f, account);
    RunMailbox(c, f, account);
    AcknowledgedAreSeen(c, f, mb, o.state.account[c.inbox]);
    AcknowledgedAreSaved(c, f, mb);
  }

  /** Each message before the first failure ends up `\Seen`. */
  lemma AcknowledgedAreSeen(c: Config, f: Faults, mb: Mailbox, mb': Mailbox)
    requires var hs := Search(mb, KeyFor(c));
      && |mb'| == |mb|
      && forall m :: 0 <= m < |mb| ==>
           mb'[m] == Message(FlagsAfter(EwsPolicy(c), mb[m].flags, ReachOf(f, 0, 0, |mb|, hs, m + 1)), mb[m].payload)
    ensures var hs := Search(mb, KeyFor(c));
            var k := Clean(f, 0, 0, |mb|, hs);
      forall j :: 0 <= j < k ==> Seen in mb'[hs[j] - 1].flags
  {
    var hs := Search(mb, KeyFor(c));
    var k := Clean(f, 0, 0, |mb|, hs);
    FetchMarksSeen();
    forall j | 0 <= j < k
      ensures Seen in mb'[hs[j] - 1].flags
    {
      assert hs[j] in hs[..k];
      assert ReachOf(f, 0, 0, |mb|, hs, hs[j]) == Acknowledged;
    }
  }

  /** Each message before the first failure was saved to Exchange with the transfer marker. */
  lemma AcknowledgedAreSaved(c: Config, f: Faults, mb: Mailbox)
    ensures var hs := Search(mb, KeyFor(c));
            var k := Clean(f, 0, 0, |mb|, hs);
            var s := SinkAfter(f, 0, 0, FreshEws(c.ews), mb, hs);
      forall j :: 0 <= j < k ==> SavedItem(mb[hs[j] - 1].payload, TransferMarker) in s.saved
  {
    var hs := Search(mb, KeyFor(c));
    var k := Clean(f, 0, 0, |mb|, hs);
    var s := SinkAfter(f, 0, 0, FreshEws(c.ews), mb, hs);
    HandlesLogKinds(f, 0, 0, |mb|, hs);
    SinkShape(f, mb, hs, c.ews);
    forall j | 0 <= j < k
      ensures SavedItem(mb[hs[j] - 1].payload, TransferMarker) in s.saved
    {
      assert s.saved[j] == SavedItem(Payload(mb, hs[j]), TransferMarker);
    }
  }

  /**
   Fail-fast, after the failure: the messages listed after the failing one are neither
   fetched, saved nor flagged, and keep their flags.
   */
  lemma FailFastSuffix(c: Config, f: Faults, account: Account)
    requires c.inbox in account && 0 !in f.search
    ensures var o := TransferMessages(c, f, account);
            var mb := account[c.inbox];
            var mb' := o.state.account[c.inbox];
            var hs := Search(mb, KeyFor(c));
            var k := Clean(f, 0, 0, |mb|, hs);
      forall j :: k < j < |hs| ==>
        && Valid(mb, hs[j])
        && hs[j] !in HandlesOf(o.state.trace, FetchKind)
        && hs[j] !in HandlesOf(o.state.trace, DeliverKind)
        && mb'[hs[j] - 1] == mb[hs[j] - 1]
  {
    var o := TransferMessages(c, f, account);
    var mb := account[c.inbox];
    var hs := Search(mb, KeyFor(c));
    var k := Clean(f, 0, 0, |mb|, hs);
    RunKinds(c, f, account);
    RunMailbox(c, f, account);
    IncreasingDistinct(hs);
    forall j | k < j < |hs|
      ensures Valid(mb, hs[j])
      ensures hs[j] !in HandlesOf(o.state.trace, FetchKind)
      ensures hs[j] !in HandlesOf(o.state.trace, DeliverKind)
      ensures o.state.account[c.inbox][hs[j] - 1] == mb[hs[j] - 1]
    {
      assert hs[j] in hs;
      LaterUntouched(f, 0, mb, hs, j);
      assert hs[..DeliveredCount(f, 0, 0, |mb|, hs)] <= hs[..FetchedCount(f, 0, 0, |mb|, hs)];
    }
  }

  /** CLOSE and LOGOUT are reached exactly when every message completed; any failure skips them. */
  lemma ClosedOnlyWhenComplete(c: Config, f: Faults, account: Account)
    ensures var o := TransferMessages(c, f, account);
      && (o.result == Completed <==> Closed in o.state.trace)
      && (o.result == Completed <==> LoggedOut in o.state.trace)
  {
    RunCloses(EwsPolicy(c), f, [c.inbox], State(account, FreshEws(c.ews), []));
  }

  /**
   The Exchange account is built at most once, on the first call of `put_message`, whether
   or not that save succeeds, and is then reused. It exists after the run exactly when some
   message was fetched and the run did not stop because the account could not be built for
   the first message. It is the configured one.
   */
  lemma AtMostOneSession(c: Config, f: Faults, account: Account)
    ensures var s := TransferMessages(c, f, account).state.sink;
      && s.sessionsCreated <= 1
      && (s.session.Some? <==>
            HandlesOf(TransferMessages(c, f, account).state.trace, FetchKind) != []
            && !(TransferMessages(c, f, account).result == Aborted(DeliverStage, 0, 0) && (0, 0) in f.connect))
      && (s.session.Some? ==> s.session.value == Login(c.ews))
  {
    var o := TransferMessages(c, f, account);
    if c.inbox !in account || 0 in f.search {
      SearchFailureTouchesNothing(c, f, account);
      HandlesOfNoMessage(o.state.trace, FetchKind);
    } else {
      var mb := account[c.inbox];
      var hs := Search(mb, KeyFor(c));
      RunSearched(c, f, account);
      RunKinds(c, f, account);
      SinkShape(f, mb, hs, c.ews);
    }
  }

  /**
   What the Exchange sink holds after processing `hs`: at most one account, built iff some
   message was fetched and building it did not fail on the first, and one item per
   successful save, in order, holding the fetched bytes unchanged and the marker 1.
   */
  lemma SinkShape(f: Faults, mb: Mailbox, hs: seq<Handle>, ec: EwsConfig)
    ensures var s := SinkAfter(f, 0, 0, FreshEws(ec), mb, hs);
            var d := DeliveredCount(f, 0, 0, |mb|, hs);
      && OneSession(s)
      && s.ews == ec
      && (s.session.Some? <==>
            FetchedCount(f, 0, 0, |mb|, hs) > 0
            && !(Ended(f, 0, 0, |mb|, hs) == Aborted(DeliverStage, 0, 0) && AttemptAt(f, 0, 0) == Unreachable))
      && |s.saved| == d
      && forall j :: 0 <= j < d ==> s.saved[j] == SavedItem(Payload(mb, hs[j]), TransferMarker)
  {
    var n := Clean(f, 0, 0, |mb|, hs);
    var d := DeliveredCount(f, 0, 0, |mb|, hs);
    HandlesLogKinds(f, 0, 0, |mb|, hs);
    var ds := Payloads(mb, hs[..d]);
    PayloadsIndex(mb, hs[..d]);
    DeliverEachEws(FreshEws(ec), ds);
    var base := DeliverEach(FreshEws(ec), ds);
    if FailStage(f, 0, 0, |mb|, hs) == Some(DeliverStage) {
      PutEwsKeepsOneSession(base, Payload(mb, hs[n]), AttemptAt(f, 0, n));
    }
    forall j | 0 <= j < d
      ensures base.saved[j] == SavedItem(Payload(mb, hs[j]), TransferMarker)
    {
      assert ds[j] == Payload(mb, hs[..d][j]);
    }
  }

  /** The list of bodies has one entry per handle, in the same order. */
  lemma {:induction false} PayloadsIndex(mb: Mailbox, hs: seq<Handle>)
    ensures |Payloads(mb, hs)| == |hs|
    ensures forall j :: 0 <= j < |hs| ==> Payloads(mb, hs)[j] == Payload(mb, hs[j])
    decreases |hs|
  {
    if hs != [] {
      PayloadsIndex(mb, hs[1..]);
      forall j | 1 <= j < |hs| ensures Payloads(mb, hs)[j] == Payload(mb, hs[j]) {
        assert hs[1..][j - 1] == hs[j];
      }
    }
  }

  /**
   The items saved to Exchange are, in order, the messages whose save succeeded: each holds
   that message's RFC 822 bytes unchanged and the marker property set to 1.
   */
  lemma SavedItemsAreFetchedPayloads(c: Config, f: Faults, account: Account)
    ensures var o := TransferMessages(c, f, account);
            var delivered := HandlesOf(o.state.trace, DeliverKind);
      && |o.state.sink.saved| == |delivered|
      && (c.inbox in account ==> forall j :: 0 <= j < |delivered| ==>
            o.state.sink.saved[j] == SavedItem(Payload(account[c.inbox], delivered[j]), TransferMarker))
  {
    var o := TransferMessages(c, f, account);
    if c.inbox !in account || 0 in f.search {
      SearchFailureTouchesNothing(c, f, account);
      HandlesOfNoMessage(o.state.trace, DeliverKind);
    } else {
      var mb := account[c.inbox];
      var hs := Search(mb, KeyFor(c));
      RunSearched(c, f, account);
      RunKinds(c, f, account);
      SinkShape(f, mb, hs, c.ews);
    }
  }

  /** The script's fetch sets \Seen: RFC822 is not a PEEK (section 6.4.5 of RFC 3501). */
  lemma FetchMarksSeen()
    ensures SetsSeen(FetchItems)
  {
    assert MarksSeen(FetchItems[0]);
  }

  /**
   Every message the run fetched, even one whose save then failed, is \Seen afterwards, so
   a rerun's UNSEEN search skips it.
   */
  lemma RerunSkipsFetched(c: Config, f: Faults, account: Account)
    requires c.inbox in account
    ensures var o := TransferMessages(c, f, account);
            var mb' := o.state.account[c.inbox];
      forall h :: h in HandlesOf(o.state.trace, FetchKind) ==> Valid(mb', h) && h !in Search(mb', UNSEEN)
  {
    var o := TransferMessages(c, f, account);
    var mb := account[c.inbox];
    FetchMarksSeen();
    if 0 in f.search {
      SearchFailureTouchesNothing(c, f, account);
      HandlesOfNoMessage(o.state.trace, FetchKind);
    } else {
      var hs := Search(mb, KeyFor(c));
      RunKinds(c, f, account);
      RunMailbox(c, f, account);
      var mb' := o.state.account[c.inbox];
      forall h | h in HandlesOf(o.state.trace, FetchKind)
        ensures Valid(mb', h) && h !in Search(mb', UNSEEN)
      {
        FetchedIsSeen(c, f, mb, mb', h);
      }
    }
  }

  /** A message fetched from the folder ends up `\Seen`, whatever happened to its save. */
  lemma FetchedIsSeen(c: Config, f: Faults, mb: Mailbox, mb': Mailbox, h: Handle)
    requires var hs := Search(mb, KeyFor(c));
      && |mb'| == |mb|
      && (forall m :: 0 <= m < |mb| ==>
           mb'[m] == Message(FlagsAfter(EwsPolicy(c), mb[m].flags, ReachOf(f, 0, 0, |mb|, hs, m + 1)), mb[m].payload))
      && h in hs[..FetchedCount(f, 0, 0, |mb|, hs)]
    ensures Valid(mb', h) && Seen in mb'[h - 1].flags && h !in Search(mb', UNSEEN)
  {
    FetchMarksSeen();
    FetchedIsReached(f, mb, Search(mb, KeyFor(c)), h);
  }

  /** After a completed run the folder has no unseen message left: a rerun finds nothing to do. */
  lemma CompletedLeavesNothingUnseen(c: Config, f: Faults, account: Account)
    requires c.inbox in account
    requires TransferMessages(c, f, account).result == Completed
    ensures Search(TransferMessages(c, f, account).state.account[c.inbox], UNSEEN) == []
  {
    var o := TransferMessages(c, f, account);
    var mb := account[c.inbox];
    FetchMarksSeen();
    if 0 in f.search {
      SearchFailureTouchesNothing(c, f, account);
    } else {
      RunSearched(c, f, account);
      RunMailbox(c, f, account);
      var mb' := o.state.account[c.inbox];
      CompletedMarksAllSeen(c, f, mb, mb');
      SearchEmptyIff(mb', UNSEEN);
    }
  }

  /** When no message failed, every message of the folder is `\Seen`: the unseen ones were all fetched. */
  lemma CompletedMarksAllSeen(c: Config, f: Faults, mb: Mailbox, mb': Mailbox)
    requires var hs := Search(mb, KeyFor(c));
      && Clean(f, 0, 0, |mb|, hs) == |hs|
      && |mb'| == |mb|
      && forall m :: 0 <= m < |mb| ==>
           mb'[m] == Message(FlagsAfter(EwsPolicy(c), mb[m].flags, ReachOf(f, 0, 0, |mb|, hs, m + 1)), mb[m].payload)
    ensures forall m :: 0 <= m < |mb'| ==> Seen in mb'[m].flags
  {
    var hs := Search(mb, KeyFor(c));
    FetchMarksSeen();
    assert hs[..|hs|] == hs;
    forall m | 0 <= m < |mb'| ensures Seen in mb'[m].flags {
      if m + 1 !in hs {
        assert !Satisfies(mb[m].flags, KeyFor(c));
      }
    }
  }

  /** A message whose fetch succeeded got at least as far as the fetch. */
  lemma FetchedIsReached(f: Faults, mb: Mailbox, hs: seq<Handle>, h: Handle)
    requires Increasing(hs) && forall x :: x in hs ==> Valid(mb, x)
    requires h in hs[..FetchedCount(f, 0, 0, |mb|, hs)]
    ensures Valid(mb, h) && ReachOf(f, 0, 0, |mb|, hs, h) != Untouched
  {
    var n := Clean(f, 0, 0, |mb|, hs);
    var i :| 0 <= i < FetchedCount(f, 0, 0, |mb|, hs) && hs[..FetchedCount(f, 0, 0, |mb|, hs)][i] == h;
    assert hs[i] == h;
    if i < n {
      assert hs[..n][i] == h;
    }
  }
}
