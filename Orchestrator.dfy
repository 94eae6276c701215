/**
  The orchestrator's vault and one run over it. The vault is a fixed set of
  stage folders, each a map from file name to entry, plus the dashboard text
  (absent when `Dashboard.md` does not exist) and the activity log. A run
  first executes every approved item whose engine call succeeds and moves it
  to Done, then asks the engine once about all pending items. An item is
  never moved to Done by the Needs_Action step. The engine is a parameter
  from argv to outcome, and every clock reading of one call is the `now`
  text passed in.
 */
module Orchestrator {
  import opened Wrappers
  import opened Text
  import opened Items
  import opened Engine
  import opened Dashboard

  /** The stage folders under the vault root. */
  datatype Stage = NeedsAction | Approved | Done | PendingApproval | Rejected | Logs

  function FolderName(s: Stage): string {
    match s
    case NeedsAction => "Needs_Action"
    case Approved => "Approved"
    case Done => "Done"
    case PendingApproval => "Pending_Approval"
    case Rejected => "Rejected"
    case Logs => "Logs"
  }

  const DashboardName := "Dashboard.md"

  /** Every stage has its own folder, and none of them is the dashboard file. */
  lemma FolderNamesDistinct(s: Stage, t: Stage)
    ensures FolderName(s) == FolderName(t) ==> s == t
    ensures FolderName(s) != DashboardName
  {
  }

  /** A stage folder: the entries it holds, by name. */
  type Folder = map<string, Node>

  /** The folder for a stage after `mkdir(parents=True, exist_ok=True)`: as it was, or empty. */
  function Created(existing: map<Stage, Folder>, s: Stage): Folder {
    if s in existing then existing[s] else map[]
  }

  /** One line of the daily log: the fields `log_activity` writes. */
  datatype LogEntry = LogEntry(timestamp: string, action: string, details: string, status: string)

  /** The names a listing reports all exist in the folder. */
  predicate Scans(scan: Option<seq<string>>, folder: Folder) {
    scan.Some? ==> forall i :: 0 <= i < |scan.value| ==> scan.value[i] in folder
  }

  /** The listing of a folder: its entries in the order `iterdir` reports their names, or the error. */
  function ListingOf(folder: Folder, scan: Option<seq<string>>): Listing
    requires Scans(scan, folder)
  {
    match scan
    case None => ListFailed
    case Some(order) => Listed(seq(|order|, i requires 0 <= i < |order| => Entry(order[i], folder[order[i]])))
  }

  /** The dashboard after `update_dashboard`: not written when it does not exist. */
  function Updated(d: Option<string>, now: string, action: string, details: string): Option<string> {
    if d.None? then None else Some(DashboardText(d.value, ActivityEntry(now, action, details)))
  }

  // ----- process_approved -----

  /** The two folders `process_approved` changes. */
  datatype Folders = Folders(approved: Folder, done: Folder)

  /** `move_to_done`: the entry leaves Approved for Done under the same name, replacing any entry
      of that name there. When it is no longer in Approved, or `shutil.move` raises for another
      reason (`fails`), the error is logged and nothing changes. */
  function MoveStep(f: Folders, name: string, fails: bool): Folders {
    if name in f.approved && !fails then Folders(f.approved - {name}, f.done[name := f.approved[name]]) else f
  }

  /** Whether the engine call for an approved item reports success. */
  predicate Succeeds(c: Caller, e: Entry) {
    Ask(c, ApprovedPrompt(c.wording, e)).success
  }

  /** The folders after the loop has handled `items`; the move of a name in `stuck` raises. */
  function ApproveFolders(f: Folders, items: seq<Entry>, c: Caller, stuck: set<string>): Folders
    decreases |items|
  {
    if |items| == 0 then f
    else
      var g := ApproveFolders(f, items[..|items| - 1], c, stuck);
      var e := items[|items| - 1];
      if Succeeds(c, e) then MoveStep(g, e.name, e.name in stuck) else g
  }

  /** The dashboard after the loop has handled `items`: one `Completed` entry per success. */
  function ApproveDashboard(d: Option<string>, items: seq<Entry>, c: Caller, now: string): Option<string>
    decreases |items|
  {
    if |items| == 0 then d
    else
      var g := ApproveDashboard(d, items[..|items| - 1], c, now);
      var e := items[|items| - 1];
      if Succeeds(c, e) then Updated(g, now, "Completed", "Approved action: " + e.name) else g
  }

  /** The log line `process_approved` writes for one item. */
  function ApproveLogEntry(e: Entry, c: Caller, now: string): LogEntry {
    var reply := Ask(c, ApprovedPrompt(c.wording, e));
    if reply.success then LogEntry(now, "execute_approved", "Executed: " + e.name, "success")
    else LogEntry(now, "execute_approved", "Failed: " + reply.text, "error")
  }

  /** The log lines `process_approved` writes for `items`, one per item, in order. */
  function ApproveLog(items: seq<Entry>, c: Caller, now: string): seq<LogEntry>
    decreases |items|
  {
    if |items| == 0 then []
    else ApproveLog(items[..|items| - 1], c, now) + [ApproveLogEntry(items[|items| - 1], c, now)]
  }

  /** The names of the items whose engine call succeeds and whose move does not raise. */
  function Moved(items: seq<Entry>, c: Caller, stuck: set<string>): set<string>
    decreases |items|
  {
    if |items| == 0 then {}
    else
      var rest := Moved(items[..|items| - 1], c, stuck);
      var e := items[|items| - 1];
      if Succeeds(c, e) && e.name !in stuck then rest + {e.name} else rest
  }

  /** Handling one more item extends each of the three folds by that item's step. */
  lemma ApproveStep(f: Folders, d: Option<string>, items: seq<Entry>, i: nat, c: Caller, stuck: set<string>, now: string)
    requires i < |items|
    ensures ApproveFolders(f, items[..i + 1], c, stuck) ==
      if Succeeds(c, items[i]) then MoveStep(ApproveFolders(f, items[..i], c, stuck), items[i].name, items[i].name in stuck)
      else ApproveFolders(f, items[..i], c, stuck)
    ensures ApproveDashboard(d, items[..i + 1], c, now) ==
      if Succeeds(c, items[i]) then Updated(ApproveDashboard(d, items[..i], c, now), now, "Completed", "Approved action: " + items[i].name)
      else ApproveDashboard(d, items[..i], c, now)
    ensures ApproveLog(items[..i + 1], c, now) == ApproveLog(items[..i], c, now) + [ApproveLogEntry(items[i], c, now)]
  {
    assert items[..i + 1][..i] == items[..i];
  }

  /** A name is moved exactly when its move does not raise and some item of that name has a
      successful engine call. */
  lemma {:induction false} MovedMembers(items: seq<Entry>, c: Caller, stuck: set<string>, n: string)
    ensures n in Moved(items, c, stuck) <==>
      n !in stuck && exists i :: 0 <= i < |items| && items[i].name == n && Succeeds(c, items[i])
    decreases |items|
  {
    if |items| > 0 {
      var init := items[..|items| - 1];
      MovedMembers(init, c, stuck, n);
      if n in Moved(init, c, stuck) {
        var i :| 0 <= i < |init| && init[i].name == n && Succeeds(c, init[i]);
        assert items[i] == init[i];
      }
      if exists i :: 0 <= i < |items| && items[i].name == n && Succeeds(c, items[i]) {
        var i :| 0 <= i < |items| && items[i].name == n && Succeeds(c, items[i]);
        if i < |items| - 1 {
          assert init[i] == items[i];
        }
      }
    }
  }

  lemma {:induction false} ApproveFoldersApproved(f: Folders, items: seq<Entry>, c: Caller, stuck: set<string>)
    requires forall i :: 0 <= i < |items| ==> items[i].name in f.approved
    ensures Moved(items, c, stuck) <= f.approved.Keys
    ensures ApproveFolders(f, items, c, stuck).approved == f.approved - Moved(items, c, stuck)
    decreases |items|
  {
    if |items| > 0 {
      var init := items[..|items| - 1];
      ApproveFoldersApproved(f, init, c, stuck);
    }
  }

  /** Moving one more entry of `src` adds it to the moved part. */
  lemma MoveOneMore(base: Folder, src: Folder, m: set<string>, k: string)
    requires k in src
    ensures (base + map n | n in m && n in src :: src[n])[k := src[k]] ==
      base + map n | n in m + {k} && n in src :: src[n]
  {
  }

  lemma {:induction false} ApproveFoldersDone(f: Folders, items: seq<Entry>, c: Caller, stuck: set<string>)
    requires forall i :: 0 <= i < |items| ==> items[i].name in f.approved
    ensures ApproveFolders(f, items, c, stuck).done ==
      f.done + map n | n in Moved(items, c, stuck) && n in f.approved :: f.approved[n]
    decreases |items|
  {
    if |items| > 0 {
      var init := items[..|items| - 1];
      var e := items[|items| - 1];
      ApproveFoldersDone(f, init, c, stuck);
      ApproveFoldersApproved(f, init, c, stuck);
      var m0 := Moved(init, c, stuck);
      var g := ApproveFolders(f, init, c, stuck);
      if Succeeds(c, e) && e.name !in stuck && e.name !in m0 {
        assert g.approved[e.name] == f.approved[e.name];
        MoveOneMore(f.done, f.approved, m0, e.name);
      }
    }
  }

  /** Approved loses exactly the moved names and keeps every other entry unchanged; Done gains
      the moved entries, as they were in Approved, and keeps every other entry. */
  lemma ApproveFoldersMoves(f: Folders, items: seq<Entry>, c: Caller, stuck: set<string>)
    requires forall i :: 0 <= i < |items| ==> items[i].name in f.approved
    ensures Moved(items, c, stuck) <= f.approved.Keys
    ensures ApproveFolders(f, items, c, stuck).approved == f.approved - Moved(items, c, stuck)
    ensures ApproveFolders(f, items, c, stuck).done ==
      f.done + map n | n in Moved(items, c, stuck) && n in f.approved :: f.approved[n]
  {
    ApproveFoldersApproved(f, items, c, stuck);
    ApproveFoldersDone(f, items, c, stuck);
  }

  /** In a listing without repeated names, an item whose engine call fails, or whose move raises,
      stays in Approved unchanged. */
  lemma FailedStays(f: Folders, items: seq<Entry>, c: Caller, stuck: set<string>, k: nat)
    requires forall i :: 0 <= i < |items| ==> items[i].name in f.approved
    requires forall i, j :: 0 <= i < j < |items| ==> items[i].name != items[j].name
    requires k < |items| && (!Succeeds(c, items[k]) || items[k].name in stuck)
    ensures items[k].name in ApproveFolders(f, items, c, stuck).approved
    ensures ApproveFolders(f, items, c, stuck).approved[items[k].name] == f.approved[items[k].name]
  {
    ApproveFoldersMoves(f, items, c, stuck);
    MovedMembers(items, c, stuck, items[k].name);
  }

  /** An item whose engine call succeeds and whose move does not raise ends up in Done under its
      name, with the entry it had in Approved, and is gone from Approved. */
  lemma SucceededMoved(f: Folders, items: seq<Entry>, c: Caller, stuck: set<string>, k: nat)
    requires forall i :: 0 <= i < |items| ==> items[i].name in f.approved
    requires k < |items| && Succeeds(c, items[k]) && items[k].name !in stuck
    ensures items[k].name !in ApproveFolders(f, items, c, stuck).approved
    ensures items[k].name in ApproveFolders(f, items, c, stuck).done
    ensures ApproveFolders(f, items, c, stuck).done[items[k].name] == f.approved[items[k].name]
  {
    ApproveFoldersMoves(f, items, c, stuck);
    MovedMembers(items, c, stuck, items[k].name);
  }

  /** One log line per item, in order; success exactly for the items whose call succeeds. */
  lemma {:induction false} ApproveLogLines(items: seq<Entry>, c: Caller, now: string)
    ensures |ApproveLog(items, c, now)| == |items|
    ensures forall i :: 0 <= i < |items| ==> ApproveLog(items, c, now)[i] == ApproveLogEntry(items[i], c, now)
    ensures forall i :: 0 <= i < |items| ==>
      (ApproveLog(items, c, now)[i].status == "success" <==> Succeeds(c, items[i]))
    decreases |items|
  {
    if |items| > 0 {
      var init := items[..|items| - 1];
      ApproveLogLines(init, c, now);
      assert forall i :: 0 <= i < |init| ==> items[i] == init[i];
    }
  }

  /** A missing dashboard stays missing. */
  lemma {:induction false} ApproveDashboardMissing(items: seq<Entry>, c: Caller, now: string)
    ensures ApproveDashboard(None, items, c, now) == None
    decreases |items|
  {
    if |items| > 0 {
      ApproveDashboardMissing(items[..|items| - 1], c, now);
    }
  }

  // ----- process_needs_action -----

  /** The log lines `process_needs_action` writes: none without items, otherwise one. */
  function NeedsActionLog(items: seq<Entry>, c: Caller, now: string): seq<LogEntry> {
    if |items| == 0 then []
    else
      var reply := Ask(c, NeedsActionPrompt(c.wording, items));
      if reply.success then [LogEntry(now, "process_needs_action", "Processed " + NatToString(|items|) + " items", "success")]
      else [LogEntry(now, "process_needs_action", "Failed: " + reply.text, "error")]
  }

  /** The dashboard after `process_needs_action`: one `Processed` entry when the call succeeds. */
  function NeedsActionDashboard(d: Option<string>, items: seq<Entry>, c: Caller, now: string): Option<string> {
    if |items| > 0 && Ask(c, NeedsActionPrompt(c.wording, items)).success
    then Updated(d, now, "Processed", NatToString(|items|) + " pending item(s)")
    else d
  }

  // ----- the vault -----

  class Vault {
    /** The engine command `_find_qwen` settled on. */
    const command: string
    /** The fixed prompt text. */
    const wording: Wording
    var needsAction: Folder
    var approved: Folder
    var done: Folder
    var pendingApproval: Folder
    var rejected: Folder
    /** The text of `Dashboard.md`, or `None` when the file does not exist. */
    var dashboard: Option<string>
    /** The lines this orchestrator appended to the daily logs, oldest first. */
    var log: seq<LogEntry>

    /** `__init__`: every stage folder exists afterwards, and one that existed keeps its entries.
        The orchestrator's prompts use `QwenWording`; it is passed in so that proofs about a run
        never unfold that text. */
    constructor(command: string, wording: Wording, existing: map<Stage, Folder>, dashboard: Option<string>)
      ensures this.command == command
      ensures this.wording == wording
      ensures needsAction == Created(existing, NeedsAction)
      ensures approved == Created(existing, Approved)
      ensures done == Created(existing, Done)
      ensures pendingApproval == Created(existing, PendingApproval)
      ensures rejected == Created(existing, Rejected)
      ensures this.dashboard == dashboard
      ensures log == []
    {
      this.command := command;
      this.wording := wording;
      needsAction := Created(existing, NeedsAction);
      approved := Created(existing, Approved);
      done := Created(existing, Done);
      pendingApproval := Created(existing, PendingApproval);
      rejected := Created(existing, Rejected);
      this.dashboard := dashboard;
      log := [];
    }

    /** `log_activity`: one line appended. */
    method LogActivity(now: string, action: string, details: string, status: string)
      modifies this`log
      ensures log == old(log) + [LogEntry(now, action, details, status)]
    {
      log := log + [LogEntry(now, action, details, status)];
    }

    /** `update_dashboard`. */
    method UpdateDashboard(now: string, action: string, details: string)
      modifies this`dashboard
      ensures dashboard == Updated(old(dashboard), now, action, details)
    {
      if dashboard.Some? {
        var content := dashboard.value;
        var entry := ActivityEntry(now, action, details);
        if Contains(content, RecentActivity.placeholder) {
          content := Replace(content, RecentActivity.placeholder, entry);
        } else if Contains(content, RecentActivity.header) {
          var lines := Split(content, '\n');
          var newLines := InsertEntries(RecentActivity, lines, entry);
          content := Join(newLines, '\n');
        }
        dashboard := Some(content);
      }
    }

    /** `move_to_done`: true and moved when the entry is still in Approved and the move does not
        raise (`fails`); otherwise false and nothing changes. */
    method MoveToDone(name: string, fails: bool) returns (moved: bool)
      modifies this`approved, this`done
      ensures moved <==> name in old(approved) && !fails
      ensures Folders(approved, done) == MoveStep(Folders(old(approved), old(done)), name, fails)
    {
      moved := name in approved && !fails;
      if moved {
        done := done[name := approved[name]];
        approved := approved - {name};
      }
    }

    /** One iteration of the loop in `process_approved`. */
    method ApproveOne(e: Entry, run: seq<string> -> Outcome, stuck: set<string>, now: string)
      modifies this`approved, this`done, this`dashboard, this`log
      ensures Folders(approved, done) ==
        if Succeeds(Caller(command, wording, run), e) then MoveStep(Folders(old(approved), old(done)), e.name, e.name in stuck)
        else Folders(old(approved), old(done))
      ensures dashboard ==
        if Succeeds(Caller(command, wording, run), e) then Updated(old(dashboard), now, "Completed", "Approved action: " + e.name)
        else old(dashboard)
      ensures log == old(log) + [ApproveLogEntry(e, Caller(command, wording, run), now)]
    {
      var reply := Ask(Caller(command, wording, run), ApprovedPrompt(wording, e));
      if reply.success {
        LogActivity(now, "execute_approved", "Executed: " + e.name, "success");
        UpdateDashboard(now, "Completed", "Approved action: " + e.name);
        var _ := MoveToDone(e.name, e.name in stuck);
      } else {
        LogActivity(now, "execute_approved", "Failed: " + reply.text, "error");
      }
    }

    /** `process_approved`: the approved items, oldest first, each executed and on success moved. */
    method ProcessApproved(scan: Option<seq<string>>, run: seq<string> -> Outcome, stuck: set<string>, now: string)
      requires Scans(scan, approved)
      modifies this`approved, this`done, this`dashboard, this`log
      ensures Folders(approved, done) ==
        ApproveFolders(Folders(old(approved), old(done)), ApprovedItems(ListingOf(old(approved), scan)), Caller(command, wording, run), stuck)
      ensures dashboard == ApproveDashboard(old(dashboard), ApprovedItems(ListingOf(old(approved), scan)), Caller(command, wording, run), now)
      ensures log == old(log) + ApproveLog(ApprovedItems(ListingOf(old(approved), scan)), Caller(command, wording, run), now)
      ensures needsAction == old(needsAction)
    {
      var items := ApprovedItems(ListingOf(approved, scan));
      ghost var f0 := Folders(approved, done);
      ghost var d0 := dashboard;
      ghost var l0 := log;
      if |items| > 0 {
        var i := 0;
        while i < |items|
          invariant 0 <= i <= |items|
          invariant Folders(approved, done) == ApproveFolders(f0, items[..i], Caller(command, wording, run), stuck)
          invariant dashboard == ApproveDashboard(d0, items[..i], Caller(command, wording, run), now)
          invariant log == l0 + ApproveLog(items[..i], Caller(command, wording, run), now)
        {
          ApproveStep(f0, d0, items, i, Caller(command, wording, run), stuck, now);
          ApproveOne(items[i], run, stuck, now);
          i := i + 1;
        }
        assert items[..|items|] == items;
      }
    }

    /** `process_needs_action`: one engine call listing every pending item; no file is moved. */
    method ProcessNeedsAction(scan: Option<seq<string>>, run: seq<string> -> Outcome, now: string)
      requires Scans(scan, needsAction)
      modifies this`dashboard, this`log
      ensures dashboard == NeedsActionDashboard(old(dashboard), PendingItems(ListingOf(needsAction, scan)), Caller(command, wording, run), now)
      ensures log == old(log) + NeedsActionLog(PendingItems(ListingOf(needsAction, scan)), Caller(command, wording, run), now)
    {
      var items := PendingItems(ListingOf(needsAction, scan));
      if |items| > 0 {
        var reply := Ask(Caller(command, wording, run), NeedsActionPrompt(wording, items));
        if reply.success {
          LogActivity(now, "process_needs_action", "Processed " + NatToString(|items|) + " items", "success");
          UpdateDashboard(now, "Processed", NatToString(|items|) + " pending item(s)");
        } else {
          LogActivity(now, "process_needs_action", "Failed: " + reply.text, "error");
        }
      }
    }

    /** `run_once`: Approved first, then Needs_Action, whose listing is the one taken before the run
        since the first step leaves that folder alone. */
    method RunOnce(approvedScan: Option<seq<string>>, pendingScan: Option<seq<string>>,
                   run: seq<string> -> Outcome, stuck: set<string>, now: string)
      requires Scans(approvedScan, approved)
      requires Scans(pendingScan, needsAction)
      modifies this`approved, this`done, this`dashboard, this`log
      ensures Folders(approved, done) ==
        ApproveFolders(Folders(old(approved), old(done)), ApprovedItems(ListingOf(old(approved), approvedScan)), Caller(command, wording, run), stuck)
      ensures dashboard ==
        NeedsActionDashboard(
          ApproveDashboard(old(dashboard), ApprovedItems(ListingOf(old(approved), approvedScan)), Caller(command, wording, run), now),
          PendingItems(ListingOf(needsAction, pendingScan)), Caller(command, wording, run), now)
      ensures log == old(log)
        + ApproveLog(ApprovedItems(ListingOf(old(approved), approvedScan)), Caller(command, wording, run), now)
        + NeedsActionLog(PendingItems(ListingOf(needsAction, pendingScan)), Caller(command, wording, run), now)
    {
      ProcessApproved(approvedScan, run, stuck, now);
      ProcessNeedsAction(pendingScan, run, now);
    }
  }
}
