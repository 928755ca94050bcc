/**
 The IMAP-to-SMTP relay (`imap2smtp.py`): each listed IMAP folder in turn is searched for
 its flagged (or all) messages; each one is fetched, sent with its Subject line tagged to
 the forwarding address, and then has \Flagged removed; CLOSE and LOGOUT end a run in which
 nothing failed.
 */
module Imap2Smtp {
  import opened Types
  import opened Imap
  import opened Sinks
  import opened Transfer
  import opened Folders
  import SubjectRewrite

  /**
   The script's settings. The IMAP login (`server`, `username`, `password`) is also the SMTP
   login, on `smtpPort`; `inboxes` are the folders to drain, in order.
   */
  datatype Config = Config(
    server: string, username: string, password: string, smtpPort: nat,
    inboxes: seq<string>, forwardTo: string, onlyFlagged: bool)

  /** The relay `put_message` talks to. */
  function SmtpOf(c: Config): SmtpConfig {
    SmtpConfig(c.server, c.smtpPort, c.username, c.password, c.forwardTo)
  }

  /** `(RFC822 BODY.PEEK[HEADER.FIELDS (MESSAGE-ID)])`: the header part is a PEEK, the body is not. */
  const FetchItems: seq<FetchItem> := [RFC822, Body("HEADER.FIELDS (MESSAGE-ID)", true)]

  /** `(FLAGGED)` when `only_flagged`, else `(ALL)`. */
  function KeyFor(c: Config): SearchKey {
    if c.onlyFlagged then FLAGGED else ALL
  }

  /** Search as configured, fetch the body, acknowledge with `-FLAGS (\Flagged)`. */
  function SmtpPolicy(c: Config): Policy {
    Policy(KeyFor(c), FetchItems, RemoveFlags({Flagged}))
  }

  function Start(c: Config, account: Account): State {
    State(account, FreshSmtp(SmtpOf(c)), [])
  }

  /** `transfer_messages`: every listed folder in order, then CLOSE and LOGOUT. */
  function TransferMessages(c: Config, f: Faults, account: Account): (o: Outcome)
    ensures Evolves(SmtpPolicy(c), account, o.state.account)
  {
    FoldersEvolve(SmtpPolicy(c), f, c.inboxes, 0, Start(c, account));
    Run(SmtpPolicy(c), f, c.inboxes, Start(c, account))
  }

  /**
   Only the header part is a PEEK: the FETCH as a whole still sets \Seen, through RFC822
   (section 6.4.5 of RFC 3501).
   */
  lemma FetchMarksSeen()
    ensures !MarksSeen(FetchItems[1])
    ensures SetsSeen(FetchItems)
  {
    assert MarksSeen(FetchItems[0]);
  }

  /** Whatever the settings, the run can set \Seen but never \Flagged. */
  lemma NeverFlags(c: Config)
    ensures Adds(SmtpPolicy(c)) == {Seen}
  {
    assert MarksSeen(FetchItems[0]);
  }

  /* ---------------- folders ---------------- */

  /** The events before CLOSE and LOGOUT: the folders' own. */
  function FolderEvents(o: Outcome): seq<Event> {
    var t := o.state.trace;
    if o.result == Completed && |t| >= 2 then t[..|t| - 2] else t
  }

  /**
   The folders are processed in the given order: every event before CLOSE concerns a
   listed folder and the folder index never goes back; a failure is reported at a listed
   folder (or at CLOSE when no folder was given), and nothing after that folder is touched.
   */
  lemma FoldersInOrder(c: Config, f: Faults, account: Account)
    ensures var o := TransferMessages(c, f, account);
            var u := FolderEvents(o);
      && Within(u, 0, |c.inboxes|)
      && Ordered(u)
      && (o.result.Aborted? ==>
            if c.inboxes == [] then o.result == Aborted(CloseStage, 0, 0)
            else o.result.folderIndex < |c.inboxes| && o.result.stage != CloseStage
                 && Within(u, 0, o.result.folderIndex + 1))
  {
    var st := Start(c, account);
    var o0 := ProcessFolders(SmtpPolicy(c), f, c.inboxes, 0, st);
    FoldersLog(SmtpPolicy(c), f, c.inboxes, 0, st);
    FoldersResult(SmtpPolicy(c), f, c.inboxes, 0, st);
    assert o0.state.trace[0..] == o0.state.trace;
    var o := TransferMessages(c, f, account);
    if o.result == Completed {
      var t := o0.state.trace + [Closed, LoggedOut];
      assert t[..|t| - 2] == o0.state.trace;
    }
  }

  /**
   Folder j is selected only after every folder before it completed, and then it always is:
   a failure in folder i means no later folder is ever selected.
   */
  lemma NextFolderOnlyAfterCompletion(c: Config, f: Faults, account: Account, j: nat)
    requires j < |c.inboxes|
    ensures Selected(j) in TransferMessages(c, f, account).state.trace <==>
      ProcessFolders(SmtpPolicy(c), f, c.inboxes[..j], 0, Start(c, account)).result == Completed
  {
    var st := Start(c, account);
    var o0 := ProcessFolders(SmtpPolicy(c), f, c.inboxes, 0, st);
    SelectedIffEarlierCompleted(SmtpPolicy(c), f, c.inboxes, 0, st, j);
    assert o0.state.trace[0..] == o0.state.trace;
    if o0.result.Completed? {
      var t := o0.state.trace + [Closed, LoggedOut];
      assert (Selected(j) in t) == (Selected(j) in o0.state.trace);
    }
  }

  /** The run up to and including folder j is the run up to j, then folder j from where that left off. */
  lemma FolderAfterPrefix(p: Policy, f: Faults, folders: seq<string>, st: State, j: nat)
    requires j < |folders|
    requires ProcessFolders(p, f, folders[..j], 0, st).result == Completed
    ensures ProcessFolders(p, f, folders[..j + 1], 0, st) ==
      ProcessFolder(p, f, j, folders[j], ProcessFolders(p, f, folders[..j], 0, st).state)
  {
    var s0 := ProcessFolders(p, f, folders[..j], 0, st).state;
    assert folders[..j + 1] == folders[..j] + [folders[j]];
    FoldersSplit(p, f, folders[..j], [folders[j]], 0, st);
    var o1 := ProcessFolder(p, f, j, folders[j], s0);
    assert [folders[j]][1..] == [];
    if o1.result.Completed? {
      assert ProcessFolders(p, f, [folders[j]], j, s0) == Outcome(o1.state, Completed);
    }
  }

  /** The run of the folders before folder j. */
  function Prefix(c: Config, f: Faults, account: Account, j: nat): Outcome
    requires j <= |c.inboxes|
  {
    ProcessFolders(SmtpPolicy(c), f, c.inboxes[..j], 0, Start(c, account))
  }

  /**
   Inside one folder whose SEARCH succeeded: the handles are the FLAGGED (or ALL) search
   result of the folder as it then is; they are fetched, sent and unflagged from the first,
   in order, as far as the run got (all of them when the folder completes); no other
   message changes.
   */
  lemma FolderForwardsItsSearch(c: Config, f: Faults, j: nat, name: string, s0: State)
    requires name in s0.account && j !in f.search
    ensures var o := ProcessFolder(SmtpPolicy(c), f, j, name, s0);
            var mb := s0.account[name];
            var hs := Search(mb, KeyFor(c));
      && (forall h :: h in hs <==> Valid(mb, h) && Satisfies(mb[h - 1].flags, KeyFor(c)))
      && o.result == Ended(f, j, 0, |mb|, hs)
      && HandlesOf(o.state.trace, FetchKind) == HandlesOf(s0.trace, FetchKind) + hs[..FetchedCount(f, j, 0, |mb|, hs)]
      && HandlesOf(o.state.trace, DeliverKind) == HandlesOf(s0.trace, DeliverKind) + hs[..DeliveredCount(f, j, 0, |mb|, hs)]
      && HandlesOf(o.state.trace, StoreKind) == HandlesOf(s0.trace, StoreKind) + hs[..Clean(f, j, 0, |mb|, hs)]
      && (o.result == Completed ==> Clean(f, j, 0, |mb|, hs) == |hs|)
      && name in o.state.account
      && (forall m :: 0 <= m < |mb| && m + 1 !in hs ==> m < |o.state.account[name]| && o.state.account[name][m] == mb[m])
  {
    var p := SmtpPolicy(c);
    var mb := s0.account[name];
    var hs := Search(mb, KeyFor(c));
    ProcessFolderSearched(p, f, j, name, s0);
    FolderKinds(c, f, j, name, s0);
    FolderUntouched(c, f, j, name, s0);
  }

  /**
   Fail-fast inside a folder: the messages listed after the failing one are neither
   fetched, sent nor unflagged (FolderForwardsItsSearch) and keep their flags.
   */
  lemma FolderLaterUntouched(c: Config, f: Faults, j: nat, name: string, s0: State)
    requires name in s0.account && j !in f.search
    ensures var o := ProcessFolder(SmtpPolicy(c), f, j, name, s0);
            var mb := s0.account[name];
            var hs := Search(mb, KeyFor(c));
      && name in o.state.account
      && (forall i :: Clean(f, j, 0, |mb|, hs) < i < |hs| ==>
            Valid(mb, hs[i]) && |o.state.account[name]| == |mb| && o.state.account[name][hs[i] - 1] == mb[hs[i] - 1])
  {
    var p := SmtpPolicy(c);
    var mb := s0.account[name];
    var hs := Search(mb, KeyFor(c));
    ProcessFolderMailbox(p, f, j, name, s0);
    IncreasingDistinct(hs);
    var mb' := ProcessFolder(p, f, j, name, s0).state.account[name];
    forall i | Clean(f, j, 0, |mb|, hs) < i < |hs|
      ensures Valid(mb, hs[i]) && mb'[hs[i] - 1] == mb[hs[i] - 1]
    {
      assert hs[i] in hs;
      LaterUntouched(f, j, mb, hs, i);
      var m := hs[i] - 1;
      assert mb'[m] == Message(FlagsAfter(p, mb[m].flags, ReachOf(f, j, 0, |mb|, hs, m + 1)), mb[m].payload);
    }
  }

  lemma FolderKinds(c: Config, f: Faults, j: nat, name: string, s0: State)
    requires name in s0.account && j !in f.search
    ensures var o := ProcessFolder(SmtpPolicy(c), f, j, name, s0);
            var mb := s0.account[name];
            var hs := Search(mb, KeyFor(c));
      && HandlesOf(o.state.trace, FetchKind) == HandlesOf(s0.trace, FetchKind) + hs[..FetchedCount(f, j, 0, |mb|, hs)]
      && HandlesOf(o.state.trace, DeliverKind) == HandlesOf(s0.trace, DeliverKind) + hs[..DeliveredCount(f, j, 0, |mb|, hs)]
      && HandlesOf(o.state.trace, StoreKind) == HandlesOf(s0.trace, StoreKind) + hs[..Clean(f, j, 0, |mb|, hs)]
  {
    var mb := s0.account[name];
    var hs := Search(mb, KeyFor(c));
    HandlesLogKinds(f, j, 0, |mb|, hs);
    FolderKind(SmtpPolicy(c), f, j, name, s0, FetchKind);
    FolderKind(SmtpPolicy(c), f, j, name, s0, DeliverKind);
    FolderKind(SmtpPolicy(c), f, j, name, s0, StoreKind);
  }

  /** SELECT and SEARCH add nothing of any kind: a folder's events of one kind are its loop's. */
  lemma FolderKind(p: Policy, f: Faults, j: nat, name: string, s0: State, kind: Kind)
    requires name in s0.account && j !in f.search
    ensures var mb := s0.account[name];
      HandlesOf(ProcessFolder(p, f, j, name, s0).state.trace, kind) ==
        HandlesOf(s0.trace, kind) + HandlesOf(HandlesLog(f, j, 0, |mb|, Search(mb, p.key)), kind)
  {
    var mb := s0.account[name];
    var hs := Search(mb, p.key);
    ProcessFolderSearched(p, f, j, name, s0);
    var head := [Selected(j), Searched(j, hs)];
    var log := HandlesLog(f, j, 0, |mb|, hs);
    HandlesOfAppend(s0.trace + head, log, kind);
    HandlesOfAppend(s0.trace, head, kind);
    HandlesOfNoMessage(head, kind);
  }


  lemma FolderUntouched(c: Config, f: Faults, j: nat, name: string, s0: State)
    requires name in s0.account && j !in f.search
    ensures var o := ProcessFolder(SmtpPolicy(c), f, j, name, s0);
            var mb := s0.account[name];
            var hs := Search(mb, KeyFor(c));
      && name in o.state.account
      && (forall m :: 0 <= m < |mb| && m + 1 !in hs ==> m < |o.state.account[name]| && o.state.account[name][m] == mb[m])
  {
    var p := SmtpPolicy(c);
    var mb := s0.account[name];
    var hs := Search(mb, KeyFor(c));
    var n := Clean(f, j, 0, |mb|, hs);
    ProcessFolderMailbox(p, f, j, name, s0);
    var mb' := ProcessFolder(p, f, j, name, s0).state.account[name];
    forall m | 0 <= m < |mb| && m + 1 !in hs
      ensures mb'[m] == mb[m]
    {
      assert m + 1 !in hs[..n];
    }
  }

  /**
   \Flagged is removed from a message only right after that message was sent, which itself
   comes right after its fetch.
   */
  lemma UnflagOnlyAfterDelivery(c: Config, f: Faults, account: Account)
    ensures Sequenced(TransferMessages(c, f, account).state.trace)
  {
    var st := Start(c, account);
    var o0 := ProcessFolders(SmtpPolicy(c), f, c.inboxes, 0, st);
    FoldersSequenced(SmtpPolicy(c), f, c.inboxes, 0, st);
    SequencedNoAck([Closed, LoggedOut]);
    SequencedAppend(o0.state.trace, [Closed, LoggedOut]);
  }

  /**
   Any failure (a search, fetch or store that is not OK, or a failed send) aborts the whole
   run: CLOSE and LOGOUT are not reached, and every folder after the failing one, and every
   folder not listed, is exactly as it was.
   */
  lemma AnyFailureAborts(c: Config, f: Faults, account: Account)
    requires TransferMessages(c, f, account).result.Aborted?
    ensures var o := TransferMessages(c, f, account);
            var j := o.result.folderIndex;
      && Closed !in o.state.trace && LoggedOut !in o.state.trace
      && o.state.account.Keys == account.Keys
      && (c.inboxes != [] ==> j < |c.inboxes|)
      && (c.inboxes != [] ==>
            forall name :: name in account && name !in c.inboxes[..j + 1] ==> o.state.account[name] == account[name])
  {
    var st := Start(c, account);
    RunCloses(SmtpPolicy(c), f, c.inboxes, st);
    FoldersResult(SmtpPolicy(c), f, c.inboxes, 0, st);
    FoldersUntouched(SmtpPolicy(c), f, c.inboxes, 0, st);
  }

  /** CLOSE and LOGOUT are reached exactly when every folder completed. */
  lemma ClosedOnlyWhenComplete(c: Config, f: Faults, account: Account)
    ensures var o := TransferMessages(c, f, account);
      && (o.result == Completed <==> Closed in o.state.trace)
      && (o.result == Completed <==> LoggedOut in o.state.trace)
  {
    RunCloses(SmtpPolicy(c), f, c.inboxes, Start(c, account));
  }

  /* ---------------- flags left for a rerun ---------------- */

  /** No message of the mailbox is flagged. */
  predicate NoneFlagged(mb: Mailbox) {
    forall m :: 0 <= m < |mb| ==> Flagged !in mb[m].flags
  }

  /**
   A run that fails does so inside one folder j: every folder before it completed, and the
   final state is folder j's, processed from where they left off.
   */
  lemma FailureLocated(c: Config, f: Faults, account: Account)
    requires TransferMessages(c, f, account).result.Aborted?
    requires c.inboxes != []
    ensures TransferMessages(c, f, account).result.folderIndex < |c.inboxes|
    ensures var j := TransferMessages(c, f, account).result.folderIndex;
      && Prefix(c, f, account, j).result == Completed
      && TransferMessages(c, f, account) ==
           ProcessFolder(SmtpPolicy(c), f, j, c.inboxes[j], Prefix(c, f, account, j).state)
  {
    var p := SmtpPolicy(c);
    var st := Start(c, account);
    var o := TransferMessages(c, f, account);
    var j := o.result.folderIndex;
    FoldersResult(p, f, c.inboxes, 0, st);
    FailureIsLastFolder(p, f, c.inboxes, st, j);
    var a := c.inboxes[..j];
    assert c.inboxes[..j + 1] == a + [c.inboxes[j]];
    FoldersSplit(p, f, a, [c.inboxes[j]], 0, st);
    var oa := ProcessFolders(p, f, a, 0, st);
    FolderAfterPrefix(p, f, c.inboxes, st, j);
  }

  /**
   A message whose send failed was fetched (so it is now \Seen) but not unflagged: with
   `only_flagged` a rerun selects it again. The failing folder is the last one touched, so
   this is its state at the end of the run.
   */
  lemma DeliveryFailureKeepsFlag(c: Config, f: Faults, account: Account)
    requires TransferMessages(c, f, account).result.Aborted?
    requires TransferMessages(c, f, account).result.stage == DeliverStage
    ensures TransferMessages(c, f, account).result.folderIndex < |c.inboxes|
    ensures var j := TransferMessages(c, f, account).result.folderIndex;
      && Prefix(c, f, account, j).result == Completed
      && c.inboxes[j] in Prefix(c, f, account, j).state.account
      && c.inboxes[j] in TransferMessages(c, f, account).state.account
    ensures var o := TransferMessages(c, f, account);
            var j := o.result.folderIndex;
            var mb := Prefix(c, f, account, j).state.account[c.inboxes[j]];
            var hs := Search(mb, KeyFor(c));
            var mb' := o.state.account[c.inboxes[j]];
            var k := o.result.msgIndex;
      && k < |hs| && |mb'| == |mb| && Valid(mb, hs[k])
      && mb'[hs[k] - 1].flags == mb[hs[k] - 1].flags + {Seen}
      && (c.onlyFlagged ==> hs[k] in Search(mb', FLAGGED))
  {
    var p := SmtpPolicy(c);
    var o := TransferMessages(c, f, account);
    if c.inboxes == [] {
      assert false;
    } else {
      FailureLocated(c, f, account);
      var j := o.result.folderIndex;
      var s0 := Prefix(c, f, account, j).state;
      var name := c.inboxes[j];
      assert name in s0.account && j !in f.search by {
        if name !in s0.account || j in f.search {
          ProcessFolderNoSearch(p, f, j, name, s0);
        }
      }
      ProcessFolderMailbox(p, f, j, name, s0);
      FailedSendKeepsFlag(c, f, j, name, s0);
    }
  }

  /** A run that fails at folder j is the run of the folders up to j. */
  lemma FailureIsLastFolder(p: Policy, f: Faults, folders: seq<string>, st: State, j: nat)
    requires j < |folders|
    requires ProcessFolders(p, f, folders, 0, st).result.Aborted?
    requires ProcessFolders(p, f, folders, 0, st).result.folderIndex == j
    ensures ProcessFolders(p, f, folders[..j + 1], 0, st) == ProcessFolders(p, f, folders, 0, st)
  {
    var a, b := folders[..j + 1], folders[j + 1..];
    assert a + b == folders;
    FoldersSplit(p, f, a, b, 0, st);
  }

  /** Within one folder: the message whose send failed keeps its flags, plus \Seen. */
  lemma FailedSendKeepsFlag(c: Config, f: Faults, j: nat, name: string, s0: State)
    requires name in s0.account && j !in f.search
    requires ProcessFolder(SmtpPolicy(c), f, j, name, s0).result.Aborted?
    requires ProcessFolder(SmtpPolicy(c), f, j, name, s0).result.stage == DeliverStage
    ensures var o := ProcessFolder(SmtpPolicy(c), f, j, name, s0);
            var k := o.result.msgIndex;
            var mb := s0.account[name];
            var hs := Search(mb, KeyFor(c));
            var mb' := o.state.account[name];
      && k < |hs| && |mb'| == |mb| && Valid(mb, hs[k])
      && mb'[hs[k] - 1].flags == mb[hs[k] - 1].flags + {Seen}
      && (c.onlyFlagged ==> hs[k] in Search(mb', FLAGGED))
  {
    var p := SmtpPolicy(c);
    var mb := s0.account[name];
    ProcessFolderSearched(p, f, j, name, s0);
    ProcessFolderMailbox(p, f, j, name, s0);
    FetchedOnlyKeepsFlag(c, f, j, mb, ProcessFolder(p, f, j, name, s0).state.account[name]);
  }

  /** The message whose sending failed was fetched and nothing more: its flags gain only `\Seen`. */
  lemma FetchedOnlyKeepsFlag(c: Config, f: Faults, j: nat, mb: Mailbox, mb': Mailbox)
    requires var hs := Search(mb, KeyFor(c));
             var n := Clean(f, j, 0, |mb|, hs);
      && n < |hs| && Fault(f, j, n, |mb|, hs[n]) == Some(DeliverStage)
    requires var hs := Search(mb, KeyFor(c));
      && |mb'| == |mb|
      && forall m :: 0 <= m < |mb| ==>
           mb'[m] == Message(FlagsAfter(SmtpPolicy(c), mb[m].flags, ReachOf(f, j, 0, |mb|, hs, m + 1)), mb[m].payload)
    ensures var hs := Search(mb, KeyFor(c));
            var n := Clean(f, j, 0, |mb|, hs);
      && Valid(mb, hs[n])
      && mb'[hs[n] - 1].flags == mb[hs[n] - 1].flags + {Seen}
      && (c.onlyFlagged ==> hs[n] in Search(mb', FLAGGED))
  {
    var hs := Search(mb, KeyFor(c));
    var n := Clean(f, j, 0, |mb|, hs);
    FetchMarksSeen();
    IncreasingDistinct(hs);
    assert hs[n] in hs;
    assert hs[n] !in hs[..n] by {
      forall i | 0 <= i < n ensures hs[..n][i] != hs[n] { assert hs[..n][i] == hs[i]; }
    }
    assert ReachOf(f, j, 0, |mb|, hs, hs[n]) == FetchedOnly;
    if c.onlyFlagged {
      assert Flagged in mb[hs[n] - 1].flags;
    }
  }

  /** A folder that completed has no flagged message left, whether it searched FLAGGED or ALL. */
  lemma FolderClearsFlags(c: Config, f: Faults, fi: nat, name: string, st: State)
    requires ProcessFolder(SmtpPolicy(c), f, fi, name, st).result == Completed
    ensures name in st.account && name in ProcessFolder(SmtpPolicy(c), f, fi, name, st).state.account
    ensures NoneFlagged(ProcessFolder(SmtpPolicy(c), f, fi, name, st).state.account[name])
  {
    var p := SmtpPolicy(c);
    if name !in st.account || fi in f.search {
      ProcessFolderNoSearch(p, f, fi, name, st);
    } else {
      var mb := st.account[name];
      var hs := Search(mb, KeyFor(c));
      var n := Clean(f, fi, 0, |mb|, hs);
      ProcessFolderSearched(p, f, fi, name, st);
      ProcessFolderMailbox(p, f, fi, name, st);
      assert hs[..n] == hs;
      var mb' := ProcessFolder(p, f, fi, name, st).state.account[name];
      forall m | 0 <= m < |mb'| ensures Flagged !in mb'[m].flags {
        if m + 1 !in hs {
          assert !Satisfies(mb[m].flags, KeyFor(c));
        }
      }
    }
  }

  /** A completed run over the folders leaves none of them with a flagged message. */
  lemma {:induction false} FoldersClearFlags(c: Config, f: Faults, folders: seq<string>, fi: nat, st: State)
    requires ProcessFolders(SmtpPolicy(c), f, folders, fi, st).result == Completed
    ensures var a := ProcessFolders(SmtpPolicy(c), f, folders, fi, st).state.account;
      forall name :: name in folders ==> name in a && NoneFlagged(a[name])
    decreases |folders|
  {
    var p := SmtpPolicy(c);
    if folders != [] {
      var o1 := ProcessFolder(p, f, fi, folders[0], st);
      assert o1.result == Completed;
      var o := ProcessFolders(p, f, folders[1..], fi + 1, o1.state);
      assert ProcessFolders(p, f, folders, fi, st) == o;
      FolderClearsFlags(c, f, fi, folders[0], st);
      FoldersClearFlags(c, f, folders[1..], fi + 1, o1.state);
      FoldersEvolve(p, f, folders[1..], fi + 1, o1.state);
      assert folders == [folders[0]] + folders[1..];
      ClearAfterRest(c, folders[0], folders[1..], o1.state.account, o.state.account);
    }
  }

  /** The induction step of FoldersClearFlags: the first folder stays clear while the rest are processed. */
  lemma ClearAfterRest(c: Config, first: string, rest: seq<string>, a1: Account, a: Account)
    requires first in a1 && NoneFlagged(a1[first])
    requires Evolves(SmtpPolicy(c), a1, a)
    requires forall name :: name in rest ==> name in a && NoneFlagged(a[name])
    ensures forall name :: name in [first] + rest ==> name in a && NoneFlagged(a[name])
  {
    NeverFlags(c);
    assert first in a;
    assert NoneFlagged(a[first]) by {
      var mb1: Mailbox := a1[first];
      var mb: Mailbox := a[first];
      forall m | 0 <= m < |mb| ensures Flagged !in mb[m].flags {
        assert mb[m].flags <= mb1[m].flags + {Seen};
      }
    }
    forall name | name in [first] + rest ensures name in a && NoneFlagged(a[name]) {
      if name != first { assert name in rest; }
    }
  }

  /**
   After a completed run, with no other change to the mailboxes, a rerun's FLAGGED search
   finds nothing in any listed folder.
   */
  lemma RerunSelectsNothing(c: Config, f: Faults, account: Account)
    requires TransferMessages(c, f, account).result == Completed
    ensures var a := TransferMessages(c, f, account).state.account;
      forall name :: name in c.inboxes ==> name in a && Search(a[name], FLAGGED) == []
  {
    var st := Start(c, account);
    var o0 := ProcessFolders(SmtpPolicy(c), f, c.inboxes, 0, st);
    FoldersClearFlags(c, f, c.inboxes, 0, st);
    forall name | name in c.inboxes ensures Search(o0.state.account[name], FLAGGED) == [] {
      SearchEmptyIff(o0.state.account[name], FLAGGED);
    }
  }

  /* ---------------- what was sent ---------------- */

  /** The mails the relay sends for these bodies, in order. */
  function Mails(c: SmtpConfig, ds: seq<Bytes>): (r: seq<Mail>)
    ensures |r| == |ds|
    decreases |ds|
  {
    if ds == [] then [] else [MailFor(c, ds[0])] + Mails(c, ds[1..])
  }

  /** Mail i carries body i, rewritten, from the login user to the forwarding address. */
  lemma {:induction false} MailsIndex(c: SmtpConfig, ds: seq<Bytes>)
    ensures forall i :: 0 <= i < |ds| ==> Mails(c, ds)[i] == Mail(c.username, c.forwardTo, SubjectRewrite.Rewrite(ds[i]))
    decreases |ds|
  {
    if ds != [] {
      MailsIndex(c, ds[1..]);
      forall i | 1 <= i < |ds| ensures Mails(c, ds)[i] == Mails(c, ds[1..])[i - 1] { }
    }
  }

  lemma {:induction false} MailsAppend(c: SmtpConfig, a: seq<Bytes>, b: seq<Bytes>)
    ensures Mails(c, a + b) == Mails(c, a) + Mails(c, b)
    decreases |a|
  {
    if a == [] {
      assert a + b == b;
    } else {
      assert (a + b)[1..] == a[1..] + b;
      MailsAppend(c, a[1..], b);
    }
  }

  /** Successful sends append one mail per body, in order, and change nothing else. */
  lemma {:induction false} DeliverEachMails(s: Sink, ds: seq<Bytes>)
    requires s.Smtp?
    ensures DeliverEach(s, ds) == Smtp(s.smtp, s.sent + Mails(s.smtp, ds))
  {
    var s' := DeliverEach(s, ds);
    DeliverEachSmtp(s, ds);
    MailsIndex(s.smtp, ds);
    assert s'.sent == s.sent + Mails(s.smtp, ds) by {
      forall i | 0 <= i < |s'.sent| ensures s'.sent[i] == (s.sent + Mails(s.smtp, ds))[i] {
        if i < |s.sent| { assert s'.sent[..|s.sent|][i] == s'.sent[i]; }
      }
    }
  }

  /** The body of a delivered message, read from the account as it was when the run started. */
  function BodyAt(account: Account, folders: seq<string>, e: Event): Bytes
    requires e.Delivered?
  {
    if e.folder < |folders| && folders[e.folder] in account then Payload(account[folders[e.folder]], e.handle) else []
  }

  /** The bodies of the deliveries the log records, in order. */
  function Bodies(account: Account, folders: seq<string>, t: seq<Event>): (r: seq<Bytes>)
    ensures |r| == |HandlesOf(t, DeliverKind)|
    decreases |t|
  {
    if t == [] then []
    else (if t[0].Delivered? then [BodyAt(account, folders, t[0])] else []) + Bodies(account, folders, t[1..])
  }

  lemma {:induction false} BodiesAppend(account: Account, folders: seq<string>, a: seq<Event>, b: seq<Event>)
    ensures Bodies(account, folders, a + b) == Bodies(account, folders, a) + Bodies(account, folders, b)
    decreases |a|
  {
    if a == [] {
      assert a + b == b;
    } else {
      var head := if a[0].Delivered? then [BodyAt(account, folders, a[0])] else [];
      assert (a + b)[0] == a[0];
      assert (a + b)[1..] == a[1..] + b;
      BodiesAppend(account, folders, a[1..], b);
      assert Bodies(account, folders, a + b) == head + Bodies(account, folders, a[1..] + b);
    }
  }

  /** Within one folder's log, the bodies are those of the delivered handles. */
  lemma {:induction false} BodiesOfFolder(account: Account, folders: seq<string>, fi: nat, t: seq<Event>)
    requires fi < |folders| && folders[fi] in account
    requires forall i :: 0 <= i < |t| ==> InFolders(t[i], fi, fi + 1)
    ensures Bodies(account, folders, t) == Payloads(account[folders[fi]], HandlesOf(t, DeliverKind))
    decreases |t|
  {
    if t != [] {
      BodiesOfFolder(account, folders, fi, t[1..]);
      if t[0].Delivered? {
        var hs := HandlesOf(t, DeliverKind);
        assert hs == [t[0].handle] + HandlesOf(t[1..], DeliverKind);
        assert hs[1..] == HandlesOf(t[1..], DeliverKind);
      } else {
        assert HandlesOf(t, DeliverKind) == HandlesOf(t[1..], DeliverKind);
      }
    }
  }

  /** SELECT and SEARCH deliver nothing. */
  lemma HeadNoBodies(account: Account, folders: seq<string>, fi: nat, hs: seq<Handle>, log: seq<Event>)
    ensures Bodies(account, folders, [Selected(fi), Searched(fi, hs)] + log) == Bodies(account, folders, log)
  {
    var head := [Selected(fi), Searched(fi, hs)];
    BodiesAppend(account, folders, head, log);
    assert head[1..][1..] == [];
  }

  /** The relay after one folder whose SEARCH succeeded: the bodies delivered, rewritten, in order. */
  lemma SmtpSinkAfter(f: Faults, fi: nat, sink: Sink, mb: Mailbox, hs: seq<Handle>)
    requires sink.Smtp?
    ensures SinkAfter(f, fi, 0, sink, mb, hs) ==
      Smtp(sink.smtp, sink.sent + Mails(sink.smtp, Payloads(mb, hs[..DeliveredCount(f, fi, 0, |mb|, hs)])))
  {
    DeliverEachMails(sink, Payloads(mb, hs[..DeliveredCount(f, fi, 0, |mb|, hs)]));
  }

  /** A folder whose SEARCH succeeded: what the relay received is what its log says was delivered. */
  lemma SearchedSent(f: Faults, all: seq<string>, fi: nat, account: Account, sink: Sink, mb: Mailbox, hs: seq<Handle>)
    requires fi < |all| && all[fi] in account
    requires sink.Smtp?
    requires |account[all[fi]]| == |mb|
    requires forall m :: 0 <= m < |mb| ==> account[all[fi]][m].payload == mb[m].payload
    ensures SinkAfter(f, fi, 0, sink, mb, hs) ==
      Smtp(sink.smtp, sink.sent + Mails(sink.smtp, Bodies(account, all, [Selected(fi), Searched(fi, hs)] + HandlesLog(f, fi, 0, |mb|, hs))))
  {
    var log := HandlesLog(f, fi, 0, |mb|, hs);
    HeadNoBodies(account, all, fi, hs, log);
    HandlesLogShape(f, fi, 0, |mb|, hs);
    BodiesOfFolder(account, all, fi, log);
    HandlesLogKinds(f, fi, 0, |mb|, hs);
    PayloadsSame(mb, account[all[fi]], hs[..DeliveredCount(f, fi, 0, |mb|, hs)]);
    SmtpSinkAfter(f, fi, sink, mb, hs);
  }

  /** One folder: the relay sent, in order, the rewritten bodies of the deliveries its log records. */
  lemma FolderSent(p: Policy, f: Faults, all: seq<string>, fi: nat, st: State, account: Account)
    requires fi < |all|
    requires st.sink.Smtp?
    requires Evolves(p, account, st.account)
    ensures |st.trace| <= |ProcessFolder(p, f, fi, all[fi], st).state.trace|
    ensures ProcessFolder(p, f, fi, all[fi], st).state.trace[..|st.trace|] == st.trace
    ensures var o := ProcessFolder(p, f, fi, all[fi], st);
      o.state.sink == Smtp(st.sink.smtp, st.sink.sent + Mails(st.sink.smtp, Bodies(account, all, o.state.trace[|st.trace|..])))
  {
    var name := all[fi];
    var o := ProcessFolder(p, f, fi, name, st);
    if name !in st.account || fi in f.search {
      ProcessFolderNoSearch(p, f, fi, name, st);
      assert o.state.trace[|st.trace|..] == [Selected(fi)];
      assert Bodies(account, all, [Selected(fi)]) == [];
    } else {
      var mb := st.account[name];
      var hs := Search(mb, p.key);
      ProcessFolderSearched(p, f, fi, name, st);
      var u := [Selected(fi), Searched(fi, hs)] + HandlesLog(f, fi, 0, |mb|, hs);
      assert o.state.trace == st.trace + u;
      assert o.state.trace[|st.trace|..] == u;
      SearchedSent(f, all, fi, account, st.sink, mb, hs);
    }
  }

  lemma SliceSplit(t0: seq<Event>, t1: seq<Event>, t2: seq<Event>)
    requires |t0| <= |t1| <= |t2| && t1[..|t0|] == t0 && t2[..|t1|] == t1
    ensures t2[..|t0|] == t0
    ensures t2[|t0|..] == t1[|t0|..] + t2[|t1|..]
  {
    assert t2[..|t0|] == t2[..|t1|][..|t0|];
  }

  /** Two stretches of a run, one after the other: what was sent composes as the logs do. */
  lemma ComposeSent(c: SmtpConfig, account: Account, all: seq<string>, t0: seq<Event>, t1: seq<Event>, t2: seq<Event>,
                    sent0: seq<Mail>, sent1: seq<Mail>, sent2: seq<Mail>)
    requires |t0| <= |t1| <= |t2| && t1[..|t0|] == t0 && t2[..|t1|] == t1
    requires sent1 == sent0 + Mails(c, Bodies(account, all, t1[|t0|..]))
    requires sent2 == sent1 + Mails(c, Bodies(account, all, t2[|t1|..]))
    ensures t2[..|t0|] == t0
    ensures sent2 == sent0 + Mails(c, Bodies(account, all, t2[|t0|..]))
  {
    SliceSplit(t0, t1, t2);
    var b1, b2 := Bodies(account, all, t1[|t0|..]), Bodies(account, all, t2[|t1|..]);
    BodiesAppend(account, all, t1[|t0|..], t2[|t1|..]);
    MailsAppend(c, b1, b2);
  }

  /** The folders from fi on: the relay sent the rewritten bodies of every delivery logged, in order. */
  lemma {:induction false} FoldersSent(p: Policy, f: Faults, all: seq<string>, fi: nat, st: State, account: Account)
    requires fi <= |all|
    requires st.sink.Smtp?
    requires Evolves(p, account, st.account)
    ensures |st.trace| <= |ProcessFolders(p, f, all[fi..], fi, st).state.trace|
    ensures ProcessFolders(p, f, all[fi..], fi, st).state.trace[..|st.trace|] == st.trace
    ensures var o := ProcessFolders(p, f, all[fi..], fi, st);
      o.state.sink == Smtp(st.sink.smtp, st.sink.sent + Mails(st.sink.smtp, Bodies(account, all, o.state.trace[|st.trace|..])))
    decreases |all| - fi
  {
    var o := ProcessFolders(p, f, all[fi..], fi, st);
    if fi == |all| {
      assert o.state.trace[|st.trace|..] == [];
    } else {
      var o1 := ProcessFolder(p, f, fi, all[fi], st);
      FolderSent(p, f, all, fi, st, account);
      if o1.result.Completed? {
        assert all[fi..][1..] == all[fi + 1..];
        assert o == ProcessFolders(p, f, all[fi + 1..], fi + 1, o1.state);
        FolderEvolves(p, f, fi, all[fi], st);
        EvolvesTrans(p, account, st.account, o1.state.account);
        FoldersSent(p, f, all, fi + 1, o1.state, account);
        ComposeSent(st.sink.smtp, account, all, st.trace, o1.state.trace, o.state.trace,
                    st.sink.sent, o1.state.sink.sent, o.state.sink.sent);
      }
    }
  }

  /** CLOSE and LOGOUT deliver nothing. */
  lemma CloseNoBodies(account: Account, folders: seq<string>, t: seq<Event>)
    ensures Bodies(account, folders, t + [Closed, LoggedOut]) == Bodies(account, folders, t)
  {
    BodiesAppend(account, folders, t, [Closed, LoggedOut]);
    assert [Closed, LoggedOut][1..][1..] == [];
  }

  /** The relay at the end of a run holds exactly the rewritten bodies of the logged deliveries. */
  lemma RunSent(c: Config, f: Faults, account: Account)
    ensures var o := TransferMessages(c, f, account);
      o.state.sink == Smtp(SmtpOf(c), Mails(SmtpOf(c), Bodies(account, c.inboxes, o.state.trace)))
  {
    var p := SmtpPolicy(c);
    var st := Start(c, account);
    assert c.inboxes[0..] == c.inboxes;
    assert Evolves(p, account, account);
    FoldersSent(p, f, c.inboxes, 0, st, account);
    var o0 := ProcessFolders(p, f, c.inboxes, 0, st);
    assert o0.state.trace[0..] == o0.state.trace;
    CloseNoBodies(account, c.inboxes, o0.state.trace);
  }

  /**
   Everything the run sent: one mail per delivery the log records, in the same order, each
   from the login user to the forwarding address and carrying the delivered message's body
   (as it was on the server) with its Subject line tagged.
   */
  lemma SentMailIsRewritten(c: Config, f: Faults, account: Account)
    ensures var o := TransferMessages(c, f, account);
            var ds := Bodies(account, c.inboxes, o.state.trace);
      && o.state.sink.Smtp? && o.state.sink.smtp == SmtpOf(c)
      && |o.state.sink.sent| == |HandlesOf(o.state.trace, DeliverKind)|
      && forall i :: 0 <= i < |ds| ==> o.state.sink.sent[i] == Mail(c.username, c.forwardTo, SubjectRewrite.Rewrite(ds[i]))
  {
    var o := TransferMessages(c, f, account);
    RunSent(c, f, account);
    MailsIndex(SmtpOf(c), Bodies(account, c.inboxes, o.state.trace));
  }
}
