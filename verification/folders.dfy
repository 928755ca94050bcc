/**
 The run over a list of folders: folders are handled one after another, the next one is
 selected only once the previous one completed, and the first failure anywhere ends the run.
 Only flags change on the server; which flags can appear is fixed by the policy.
 */
module Folders {
  import opened Types
  import opened Imap
  import opened Sinks
  import opened Transfer

  /* ---------------- the shape of the log ---------------- */

  /** The folder index an event concerns (0 for CLOSE and LOGOUT, which concern none). */
  function FolderOf(e: Event): nat {
    if e.Closed? || e.LoggedOut? then 0 else e.folder
  }

  /** Every event concerns a folder with index in [lo, hi). */
  predicate Within(u: seq<Event>, lo: nat, hi: nat) {
    forall i :: 0 <= i < |u| ==> InFolders(u[i], lo, hi)
  }

  /** The folders are visited in order: the folder index never goes back. */
  predicate Ordered(u: seq<Event>) {
    forall i, j :: 0 <= i < j < |u| ==> FolderOf(u[i]) <= FolderOf(u[j])
  }

  /** The failure cannot be at CLOSE: that is only reached after the last folder. */
  lemma FaultIsPerMessage(f: Faults, fi: nat, k0: nat, size: nat, hs: seq<Handle>)
    ensures Ended(f, fi, k0, size, hs).Aborted? ==>
      Ended(f, fi, k0, size, hs).folderIndex == fi && Ended(f, fi, k0, size, hs).stage != CloseStage
  {
  }

  /**
   One folder appends to the log: its SELECT first, then only events of this folder; the
   order of every fetch, delivery and store is kept; a failure is reported at this folder.
   */
  lemma FolderLog(p: Policy, f: Faults, fi: nat, name: string, st: State)
    ensures var o := ProcessFolder(p, f, fi, name, st);
            var t := o.state.trace;
      && |st.trace| < |t|
      && t[..|st.trace|] == st.trace
      && t[|st.trace|] == Selected(fi)
      && Within(t[|st.trace|..], fi, fi + 1)
      && (Sequenced(st.trace) ==> Sequenced(t))
      && (o.result.Aborted? ==> o.result.folderIndex == fi && o.result.stage != CloseStage)
  {
    if name !in st.account || fi in f.search {
      ProcessFolderNoSearch(p, f, fi, name, st);
      AppendFolderLog(st.trace, [Selected(fi)], fi);
    } else {
      SearchedFolderLog(p, f, fi, name, st);
      SearchedFolderFails(p, f, fi, name, st);
    }
  }

  /** A folder whose SEARCH succeeded can only fail at one of its own messages. */
  lemma SearchedFolderFails(p: Policy, f: Faults, fi: nat, name: string, st: State)
    requires name in st.account && fi !in f.search
    ensures var r := ProcessFolder(p, f, fi, name, st).result;
      r.Aborted? ==> r.folderIndex == fi && r.stage != CloseStage
  {
    ProcessFolderSearched(p, f, fi, name, st);
    var mb := st.account[name];
    FaultIsPerMessage(f, fi, 0, |mb|, Search(mb, p.key));
  }

  /** The log of a folder whose SEARCH succeeded is the old log, then SELECT, SEARCH and the loop's events. */
  lemma SearchedFolderLog(p: Policy, f: Faults, fi: nat, name: string, st: State)
    requires name in st.account && fi !in f.search
    ensures var t := ProcessFolder(p, f, fi, name, st).state.trace;
      && |st.trace| < |t|
      && t[..|st.trace|] == st.trace
      && t[|st.trace|] == Selected(fi)
      && Within(t[|st.trace|..], fi, fi + 1)
      && (Sequenced(st.trace) ==> Sequenced(t))
  {
    var mb := st.account[name];
    var hs := Search(mb, p.key);
    var log := HandlesLog(f, fi, 0, |mb|, hs);
    var u := [Selected(fi), Searched(fi, hs)] + log;
    assert ProcessFolder(p, f, fi, name, st).state.trace == st.trace + u by {
      ProcessFolderSearched(p, f, fi, name, st);
      assert st.trace + [Selected(fi), Searched(fi, hs)] + log == st.trace + u;
    }
    assert u[0] == Selected(fi) && Within(u, fi, fi + 1) && Sequenced(u) by {
      HandlesLogShape(f, fi, 0, |mb|, hs);
      SearchedLog(fi, hs, log);
    }
    AppendFolderLog(st.trace, u, fi);
  }


  /** The events of a single folder lie in any range containing it, and are trivially in folder order. */
  lemma OneFolderOrdered(u: seq<Event>, fi: nat, hi: nat)
    requires fi < hi && Within(u, fi, fi + 1)
    ensures Within(u, fi, hi) && Ordered(u)
  {
    forall i | 0 <= i < |u| ensures InFolders(u[i], fi, hi) {
      assert InFolders(u[i], fi, fi + 1);
    }
    forall i, j | 0 <= i < j < |u| ensures FolderOf(u[i]) <= FolderOf(u[j]) {
      assert InFolders(u[i], fi, fi + 1) && InFolders(u[j], fi, fi + 1);
    }
  }

  /** A folder's own events, appended to the log. */
  lemma AppendFolderLog(pre: seq<Event>, u: seq<Event>, fi: nat)
    requires u != [] && u[0] == Selected(fi) && Within(u, fi, fi + 1) && Sequenced(u)
    ensures var t := pre + u;
      && |pre| < |t| && t[..|pre|] == pre && t[|pre|] == Selected(fi)
      && t[|pre|..] == u
      && (Sequenced(pre) ==> Sequenced(t))
  {
    var t := pre + u;
    assert t[|pre|..] == u;
    if Sequenced(pre) {
      SequencedAppend(pre, u);
    }
  }

  /** SELECT and SEARCH, then the loop's log: events of this folder, each cycle in order. */
  lemma SearchedLog(fi: nat, hs: seq<Handle>, log: seq<Event>)
    requires forall i :: 0 <= i < |log| ==> InFolders(log[i], fi, fi + 1)
    requires Sequenced(log) && (log != [] ==> log[0].Fetched?)
    ensures var u := [Selected(fi), Searched(fi, hs)] + log;
      u[0] == Selected(fi) && Within(u, fi, fi + 1) && Sequenced(u)
  {
    var head := [Selected(fi), Searched(fi, hs)];
    var u := head + log;
    forall i | 0 <= i < |u| ensures InFolders(u[i], fi, fi + 1) {
      if i >= 2 { assert u[i] == log[i - 2]; }
    }
    SequencedNoAck(head);
    SequencedAppend(head, log);
  }

  /** Events of one folder followed by events of later folders, in order, are in order. */
  lemma OrderedConcat(u1: seq<Event>, u2: seq<Event>, fi: nat, hi: nat)
    requires fi < hi
    requires Within(u1, fi, fi + 1)
    requires Within(u2, fi + 1, hi) && Ordered(u2)
    ensures Within(u1 + u2, fi, hi) && Ordered(u1 + u2)
  {
    var u := u1 + u2;
    forall i | 0 <= i < |u| ensures InFolders(u[i], fi, hi) {
      if i >= |u1| { assert u[i] == u2[i - |u1|]; } else { assert u[i] == u1[i]; }
    }
    forall i, j | 0 <= i < j < |u| ensures FolderOf(u[i]) <= FolderOf(u[j]) {
      if j < |u1| {
        assert u[i] == u1[i] && u[j] == u1[j];
      } else if i < |u1| {
        assert u[i] == u1[i] && u[j] == u2[j - |u1|];
      } else {
        assert u[i] == u2[i - |u1|] && u[j] == u2[j - |u1|];
      }
    }
  }

  /** The log of one folder followed by the log of the later folders. */
  lemma LogStep(pre: seq<Event>, t1: seq<Event>, t: seq<Event>, fi: nat, hi: nat)
    requires fi < hi
    requires |pre| < |t1| <= |t| && t1[..|pre|] == pre && t[..|t1|] == t1
    requires t1[|pre|] == Selected(fi) && Within(t1[|pre|..], fi, fi + 1)
    requires Within(t[|t1|..], fi + 1, hi) && Ordered(t[|t1|..])
    ensures t[..|pre|] == pre && t[|pre|] == Selected(fi)
    ensures Within(t[|pre|..], fi, hi) && Ordered(t[|pre|..])
  {
    assert t[|pre|..] == t1[|pre|..] + t[|t1|..];
    OrderedConcat(t1[|pre|..], t[|t1|..], fi, hi);
  }

  /** A log with no delivery and no store is trivially in order. */
  lemma SequencedNoAck(u: seq<Event>)
    requires forall i :: 0 <= i < |u| ==> !u[i].Delivered? && !u[i].Stored?
    ensures Sequenced(u)
  {
  }

  /** A run over the folders that fails reports one of the listed folders, and a per-message or search stage. */
  lemma {:induction false} FoldersResult(p: Policy, f: Faults, folders: seq<string>, fi: nat, st: State)
    ensures var o := ProcessFolders(p, f, folders, fi, st);
      o.result.Aborted? ==> fi <= o.result.folderIndex < fi + |folders| && o.result.stage != CloseStage
    decreases |folders|
  {
    if folders != [] {
      var o1 := ProcessFolder(p, f, fi, folders[0], st);
      FolderLog(p, f, fi, folders[0], st);
      if o1.result.Completed? {
        FoldersResult(p, f, folders[1..], fi + 1, o1.state);
      }
    }
  }

  /**
   The log of a run over the folders extends the old log; the new events concern the listed
   folders only, visit them in order, start with the first SELECT, and stop at the folder
   that failed.
   */
  lemma {:induction false} FoldersLog(p: Policy, f: Faults, folders: seq<string>, fi: nat, st: State)
    ensures var o := ProcessFolders(p, f, folders, fi, st);
            var t := o.state.trace;
      && |st.trace| <= |t|
      && t[..|st.trace|] == st.trace
      && Within(t[|st.trace|..], fi, fi + |folders|)
      && Ordered(t[|st.trace|..])
      && (folders != [] ==> |st.trace| < |t| && t[|st.trace|] == Selected(fi))
      && (o.result.Aborted? ==> Within(t[|st.trace|..], fi, o.result.folderIndex + 1))
    decreases |folders|
  {
    if folders == [] {
      assert st.trace[|st.trace|..] == [];
    } else {
      var o1 := ProcessFolder(p, f, fi, folders[0], st);
      FolderLog(p, f, fi, folders[0], st);
      var t1 := o1.state.trace;
      if o1.result.Aborted? {
        assert ProcessFolders(p, f, folders, fi, st) == o1;
        OneFolderOrdered(t1[|st.trace|..], fi, fi + |folders|);
      } else {
        var o := ProcessFolders(p, f, folders[1..], fi + 1, o1.state);
        assert ProcessFolders(p, f, folders, fi, st) == o;
        FoldersLog(p, f, folders[1..], fi + 1, o1.state);
        FoldersResult(p, f, folders[1..], fi + 1, o1.state);
        var t := o.state.trace;
        LogStep(st.trace, t1, t, fi, fi + |folders|);
        if o.result.Aborted? {
          LogStep(st.trace, t1, t, fi, o.result.folderIndex + 1);
        }
      }
    }
  }

  /** A run over the folders keeps every fetch, delivery and store in order. */
  lemma {:induction false} FoldersSequenced(p: Policy, f: Faults, folders: seq<string>, fi: nat, st: State)
    requires Sequenced(st.trace)
    ensures Sequenced(ProcessFolders(p, f, folders, fi, st).state.trace)
    decreases |folders|
  {
    if folders != [] {
      var o1 := ProcessFolder(p, f, fi, folders[0], st);
      FolderLog(p, f, fi, folders[0], st);
      if o1.result.Completed? {
        FoldersSequenced(p, f, folders[1..], fi + 1, o1.state);
      }
    }
  }

  /* ---------------- sequential composition ---------------- */

  /** Running a + b is running a, then, unless a failed, b from where a left off. */
  lemma {:induction false} FoldersSplit(p: Policy, f: Faults, a: seq<string>, b: seq<string>, fi: nat, st: State)
    ensures ProcessFolders(p, f, a + b, fi, st) ==
      var o := ProcessFolders(p, f, a, fi, st);
      if o.result.Aborted? then o else ProcessFolders(p, f, b, fi + |a|, o.state)
    decreases |a|
  {
    if a == [] {
      assert a + b == b;
    } else {
      assert (a + b)[0] == a[0];
      assert (a + b)[1..] == a[1..] + b;
      var o1 := ProcessFolder(p, f, fi, a[0], st);
      if o1.result.Completed? {
        FoldersSplit(p, f, a[1..], b, fi + 1, o1.state);
      }
    }
  }

  /** After a failure in the folders given, the log never mentions a later folder. */
  lemma NothingAfterFailure(p: Policy, f: Faults, a: seq<string>, fi: nat, st: State)
    requires ProcessFolders(p, f, a, fi, st).result.Aborted?
    ensures var t := ProcessFolders(p, f, a, fi, st).state.trace;
      |st.trace| <= |t| && Selected(fi + |a|) !in t[|st.trace|..]
  {
    FoldersLog(p, f, a, fi, st);
    var t := ProcessFolders(p, f, a, fi, st).state.trace;
    var u := t[|st.trace|..];
    forall i | 0 <= i < |u| ensures u[i] != Selected(fi + |a|) {
      assert InFolders(u[i], fi, fi + |a|);
    }
  }

  /** After the folders given completed, the next folder's SELECT follows. */
  lemma NextSelectedAfterCompletion(p: Policy, f: Faults, a: seq<string>, b: seq<string>, fi: nat, st: State)
    requires b != []
    requires ProcessFolders(p, f, a, fi, st).result == Completed
    ensures var ta := ProcessFolders(p, f, a, fi, st).state.trace;
            var t := ProcessFolders(p, f, b, fi + |a|, ProcessFolders(p, f, a, fi, st).state).state.trace;
      |st.trace| <= |t| && Selected(fi + |a|) in t[|st.trace|..]
  {
    var oa := ProcessFolders(p, f, a, fi, st);
    var ta := oa.state.trace;
    var t := ProcessFolders(p, f, b, fi + |a|, oa.state).state.trace;
    FoldersExtend(p, f, a, fi, st);
    FoldersExtend(p, f, b, fi + |a|, oa.state);
    EventAfterPrefix(st.trace, ta, t, Selected(fi + |a|));
  }

  /** The folders' log extends the old one and, when there is a folder, goes on with the first SELECT. */
  lemma FoldersExtend(p: Policy, f: Faults, folders: seq<string>, fi: nat, st: State)
    ensures var t := ProcessFolders(p, f, folders, fi, st).state.trace;
      && |st.trace| <= |t| && t[..|st.trace|] == st.trace
      && (folders != [] ==> |st.trace| < |t| && t[|st.trace|] == Selected(fi))
  {
    FoldersLog(p, f, folders, fi, st);
  }

  /** An event that follows an extension of s in a log lies in the part of the log after s. */
  lemma EventAfterPrefix(s: seq<Event>, ta: seq<Event>, t: seq<Event>, e: Event)
    requires |s| <= |ta| < |t|
    requires ta[..|s|] == s && t[..|ta|] == ta && t[|ta|] == e
    ensures |s| <= |t| && e in t[|s|..]
  {
    assert t[|s|..][|ta| - |s|] == t[|ta|];
  }

  /**
   Folder j of the list is selected exactly when every folder before it completed: a
   failure in an earlier folder means folder j is never touched.
   */
  lemma SelectedIffEarlierCompleted(p: Policy, f: Faults, folders: seq<string>, fi: nat, st: State, j: nat)
    requires j < |folders|
    ensures var t := ProcessFolders(p, f, folders, fi, st).state.trace;
      |st.trace| <= |t| &&
      (Selected(fi + j) in t[|st.trace|..] <==> ProcessFolders(p, f, folders[..j], fi, st).result == Completed)
  {
    var a, b := folders[..j], folders[j..];
    assert a + b == folders;
    FoldersSplit(p, f, a, b, fi, st);
    if ProcessFolders(p, f, a, fi, st).result.Aborted? {
      NothingAfterFailure(p, f, a, fi, st);
    } else {
      NextSelectedAfterCompletion(p, f, a, b, fi, st);
    }
  }

  /* ---------------- what the run does to the server ---------------- */

  /** The flags a policy can ever set: \Seen through a non-PEEK fetch, and those its STORE adds. */
  function Adds(p: Policy): set<Flag> {
    (if SetsSeen(p.items) then {Seen} else {}) + (if p.ack.AddFlags? then p.ack.flags else {})
  }

  /**
   The server after a run, compared with before: the same folders, the same number of
   messages in each with the same bodies, and no flag set other than those the policy sets.
   */
  predicate Evolves(p: Policy, a: Account, b: Account) {
    && a.Keys == b.Keys
    && forall name :: name in a ==>
         && |b[name]| == |a[name]|
         && forall m :: 0 <= m < |a[name]| ==>
              b[name][m].payload == a[name][m].payload && b[name][m].flags <= a[name][m].flags + Adds(p)
  }

  lemma EvolvesTrans(p: Policy, a: Account, b: Account, c: Account)
    requires Evolves(p, a, b) && Evolves(p, b, c)
    ensures Evolves(p, a, c)
  {
    forall name | name in a
      ensures |c[name]| == |a[name]|
      ensures forall m :: 0 <= m < |a[name]| ==>
                c[name][m].payload == a[name][m].payload && c[name][m].flags <= a[name][m].flags + Adds(p)
    {
    }
  }

  /** However far a message got, its flags grow only by what the policy sets. */
  lemma FlagsAfterBound(p: Policy, flags: set<Flag>, r: Reach)
    ensures FlagsAfter(p, flags, r) <= flags + Adds(p)
  {
  }

  /** One folder: only that folder's mailbox changes, and only as Evolves allows. */
  lemma FolderEvolves(p: Policy, f: Faults, fi: nat, name: string, st: State)
    ensures var o := ProcessFolder(p, f, fi, name, st);
      && Evolves(p, st.account, o.state.account)
      && forall other :: other in st.account && other != name ==> o.state.account[other] == st.account[other]
  {
    if name in st.account && fi !in f.search {
      ProcessFolderMailbox(p, f, fi, name, st);
      var mb := st.account[name];
      var hs := Search(mb, p.key);
      forall m | 0 <= m < |mb|
        ensures FlagsAfter(p, mb[m].flags, ReachOf(f, fi, 0, |mb|, hs, m + 1)) <= mb[m].flags + Adds(p)
      {
        FlagsAfterBound(p, mb[m].flags, ReachOf(f, fi, 0, |mb|, hs, m + 1));
      }
    }
  }

  /** A run over the folders changes the server only as Evolves allows. */
  lemma {:induction false} FoldersEvolve(p: Policy, f: Faults, folders: seq<string>, fi: nat, st: State)
    ensures Evolves(p, st.account, ProcessFolders(p, f, folders, fi, st).state.account)
    decreases |folders|
  {
    if folders == [] {
      assert Evolves(p, st.account, st.account);
    } else {
      var o1 := ProcessFolder(p, f, fi, folders[0], st);
      FolderEvolves(p, f, fi, folders[0], st);
      if o1.result.Completed? {
        var o := ProcessFolders(p, f, folders[1..], fi + 1, o1.state);
        FoldersEvolve(p, f, folders[1..], fi + 1, o1.state);
        EvolvesTrans(p, st.account, o1.state.account, o.state.account);
      }
    }
  }

  /** One folder changes no other folder, and no folder appears or disappears. */
  lemma FolderKeepsOthers(p: Policy, f: Faults, fi: nat, name: string, st: State)
    ensures var o := ProcessFolder(p, f, fi, name, st);
      && o.state.account.Keys == st.account.Keys
      && forall other :: other in st.account && other != name ==> o.state.account[other] == st.account[other]
  {
  }

  /**
   A run over the folders leaves every folder it did not reach exactly as it was: all
   unlisted folders, and on a failure every folder not among those up to the failing one.
   */
  lemma {:induction false} FoldersUntouched(p: Policy, f: Faults, folders: seq<string>, fi: nat, st: State)
    ensures var o := ProcessFolders(p, f, folders, fi, st);
      && o.state.account.Keys == st.account.Keys
      && (forall name :: name in st.account && name !in folders ==> o.state.account[name] == st.account[name])
      && (o.result.Aborted? && fi <= o.result.folderIndex < fi + |folders| ==>
            forall name :: name in st.account && name !in folders[..o.result.folderIndex - fi + 1] ==>
              o.state.account[name] == st.account[name])
    decreases |folders|
  {
    var o := ProcessFolders(p, f, folders, fi, st);
    if folders != [] {
      var o1 := ProcessFolder(p, f, fi, folders[0], st);
      FolderKeepsOthers(p, f, fi, folders[0], st);
      if o1.result.Aborted? {
        FolderLog(p, f, fi, folders[0], st);
        assert folders[..o.result.folderIndex - fi + 1] == [folders[0]];
      } else {
        FoldersUntouched(p, f, folders[1..], fi + 1, o1.state);
        FoldersResult(p, f, folders[1..], fi + 1, o1.state);
        UntouchedStep(folders, fi, st.account, o1.state.account, o.state.account, o.result);
      }
    }
  }

  /** The inductive step of FoldersUntouched, with the run itself out of sight. */
  lemma UntouchedStep(folders: seq<string>, fi: nat, a0: Account, a1: Account, a2: Account, r: RunResult)
    requires folders != []
    requires a1.Keys == a0.Keys
    requires forall other :: other in a0 && other != folders[0] ==> a1[other] == a0[other]
    requires a2.Keys == a1.Keys
    requires forall name :: name in a1 && name !in folders[1..] ==> a2[name] == a1[name]
    requires r.Aborted? && fi + 1 <= r.folderIndex < fi + 1 + |folders[1..]| ==>
               forall name :: name in a1 && name !in folders[1..][..r.folderIndex - (fi + 1) + 1] ==> a2[name] == a1[name]
    ensures forall name :: name in a0 && name !in folders ==> a2[name] == a0[name]
    ensures r.Aborted? && fi + 1 <= r.folderIndex < fi + |folders| ==>
              forall name :: name in a0 && name !in folders[..r.folderIndex - fi + 1] ==> a2[name] == a0[name]
  {
    forall name | name in a0 && name !in folders
      ensures a2[name] == a0[name]
    {
      assert name != folders[0] && name !in folders[1..];
    }
    if r.Aborted? && fi + 1 <= r.folderIndex < fi + |folders| {
      var j := r.folderIndex;
      assert folders[..j - fi + 1] == [folders[0]] + folders[1..][..j - (fi + 1) + 1];
      forall name | name in a0 && name !in folders[..j - fi + 1]
        ensures a2[name] == a0[name]
      {
        assert name != folders[0] && name !in folders[1..][..j - (fi + 1) + 1];
      }
    }
  }

  /* ---------------- CLOSE and LOGOUT ---------------- */

  /**
   CLOSE and LOGOUT happen exactly when the run completes: they end the log of a completed
   run, and a failed run never reaches them.
   */
  lemma RunCloses(p: Policy, f: Faults, folders: seq<string>, st: State)
    requires Closed !in st.trace && LoggedOut !in st.trace
    ensures var o := Run(p, f, folders, st);
            var t := o.state.trace;
      && (o.result == Completed <==> Closed in t)
      && (o.result == Completed <==> LoggedOut in t)
      && (o.result == Completed ==> folders != [] && |t| >= 2 && t[|t| - 2..] == [Closed, LoggedOut])
  {
    var o0 := ProcessFolders(p, f, folders, 0, st);
    FoldersLog(p, f, folders, 0, st);
    var t0 := o0.state.trace;
    assert t0 == st.trace + t0[|st.trace|..];
    assert Closed !in t0 && LoggedOut !in t0 by {
      forall i | 0 <= i < |t0| ensures t0[i] != Closed && t0[i] != LoggedOut {
        if i >= |st.trace| { assert t0[i] == t0[|st.trace|..][i - |st.trace|]; }
      }
    }
    if o0.result.Completed? && folders != [] {
      var t := t0 + [Closed, LoggedOut];
      assert t[|t| - 2..] == [Closed, LoggedOut];
      assert t[|t| - 2] == Closed && t[|t| - 1] == LoggedOut;
    }
  }
}
