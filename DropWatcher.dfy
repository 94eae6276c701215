/**
  The drop-folder watcher (`FilesystemWatcher`): a ledger of content hashes
  already turned into action files, the scan that picks new files out of the
  drop folder, the copy of each new file into the vault's `Files` folder under
  a name that collides with nothing there, and the action record written into
  `Needs_Action`. Hashing is a parameter (`hashOf`), the clock reading taken when a file's
  action file is named is a text per file name (`clockOf`), and every failure the
  scripts catch is an explicit input.
 */
module DropWatcher {
  import opened Wrappers
  import opened Text
  import opened Paths
  import Watcher

  // ---------------------------------------------------------------- ledger

  /** One ledger line `hash|filename`, split at its first `|`; a line without `|` holds no record. */
  function ParseRecord(line: string): (r: Option<(string, string)>)
    ensures r.Some? <==> '|' in line
    ensures r.Some? ==> '|' !in r.value.0 && line == r.value.0 + "|" + r.value.1
  {
    var i := FirstIndex(line, '|');
    if i < 0 then None
    else
      assert line == line[..i] + "|" + line[i + 1..];
      Some((line[..i], line[i + 1..]))
  }

  /** The line `_save_processed_file` appends to the ledger file. */
  function Record(hash: string, filename: string): string {
    hash + "|" + filename + "\n"
  }

  /** Reading ledger lines in order into a map: a later record for a hash replaces an earlier one. */
  function ApplyLines(m: map<string, string>, lines: seq<string>): map<string, string>
    decreases |lines|
  {
    if |lines| == 0 then m
    else
      var prev := ApplyLines(m, lines[..|lines| - 1]);
      match ParseRecord(lines[|lines| - 1])
      case None => prev
      case Some(kv) => prev[kv.0 := kv.1]
  }

  /** The ledger a file text describes. */
  function ParseLedger(text: string): map<string, string> {
    ApplyLines(map[], Split(text, '\n'))
  }

  predicate RecordsKey(line: string, k: string) {
    ParseRecord(line).Some? && ParseRecord(line).value.0 == k
  }

  predicate HasRecordFor(lines: seq<string>, k: string) {
    exists i :: 0 <= i < |lines| && RecordsKey(lines[i], k)
  }

  lemma HasRecordForSnoc(init: seq<string>, last: string, k: string)
    ensures HasRecordFor(init + [last], k) <==> HasRecordFor(init, k) || RecordsKey(last, k)
  {
    var lines := init + [last];
    if HasRecordFor(init, k) {
      var i :| 0 <= i < |init| && RecordsKey(init[i], k);
      assert lines[i] == init[i];
    }
    if RecordsKey(last, k) {
      assert lines[|init|] == last;
    }
    if HasRecordFor(lines, k) {
      var i :| 0 <= i < |lines| && RecordsKey(lines[i], k);
      if i < |init| {
        assert init[i] == lines[i];
      }
    }
  }

  /** A hash is in the loaded ledger exactly when it was there before or some line records it. */
  lemma {:induction false} LedgerKeys(m: map<string, string>, lines: seq<string>, k: string)
    ensures k in ApplyLines(m, lines) <==> k in m || HasRecordFor(lines, k)
    decreases |lines|
  {
    if |lines| > 0 {
      var init := lines[..|lines| - 1];
      var last := lines[|lines| - 1];
      LedgerKeys(m, init, k);
      assert lines == init + [last];
      HasRecordForSnoc(init, last, k);
    }
  }

  /** The value loaded for a hash is the file name of the last line that records it. */
  lemma {:induction false} LedgerLastWins(m: map<string, string>, lines: seq<string>, i: nat, k: string)
    requires i < |lines| && RecordsKey(lines[i], k)
    requires forall j :: i < j < |lines| ==> !RecordsKey(lines[j], k)
    ensures k in ApplyLines(m, lines) && ApplyLines(m, lines)[k] == ParseRecord(lines[i]).value.1
    decreases |lines|
  {
    var init := lines[..|lines| - 1];
    if i < |lines| - 1 {
      LedgerLastWins(m, init, i, k);
    }
  }

  /** The lines of a well-formed ledger file: some records, then the empty piece after the final newline. */
  lemma SplitLedgerText(text: string, line: string) returns (front: seq<string>)
    requires text == "" || text[|text| - 1] == '\n'
    requires '\n' !in line
    ensures Split(text, '\n') == front + [""]
    ensures Split(text + line + "\n", '\n') == front + [line, ""]
  {
    SplitNoSep(line, '\n');
    SplitAppend(line, "", '\n');
    assert line + ['\n'] + "" == line + "\n";
    if text == "" {
      front := [];
      assert text + line + "\n" == line + ['\n'] + "";
    } else {
      var p := text[..|text| - 1];
      assert text == p + ['\n'] + "";
      SplitAppend(p, "", '\n');
      front := Split(p, '\n');
      assert text + line + "\n" == p + ['\n'] + (line + ['\n'] + "");
      SplitAppend(p, line + ['\n'] + "", '\n');
    }
  }

  lemma ApplyRecordLines(m: map<string, string>, front: seq<string>, line: string, hash: string, filename: string)
    requires ParseRecord(line) == Some((hash, filename))
    ensures ApplyLines(m, front + [""]) == ApplyLines(m, front)
    ensures ApplyLines(m, front + [line, ""]) == ApplyLines(m, front)[hash := filename]
  {
    assert ParseRecord("") == None;
    assert (front + [""])[..|front|] == front;
    var all := front + [line, ""];
    assert all[..|all| - 1] == front + [line];
    assert (front + [line])[..|front|] == front;
  }

  /** Appending one record to a well-formed ledger file and re-reading it adds exactly that record. */
  lemma LedgerAppendRecord(m: map<string, string>, text: string, hash: string, filename: string)
    requires text == "" || text[|text| - 1] == '\n'
    requires '|' !in hash && '\n' !in hash && '\n' !in filename
    ensures ApplyLines(m, Split(text + Record(hash, filename), '\n'))
         == ApplyLines(m, Split(text, '\n'))[hash := filename]
  {
    var line := hash + "|" + filename;
    assert '\n' !in line;
    assert ParseRecord(line) == Some((hash, filename)) by {
      var i := FirstIndex(line, '|');
      assert line[|hash|] == '|' && line[..|hash|] == hash;
      assert i == |hash|;
      assert line[i + 1..] == filename;
    }
    var front := SplitLedgerText(text, line);
    assert text + Record(hash, filename) == text + line + "\n";
    ApplyRecordLines(m, front, line, hash, filename);
  }

  // ---------------------------------------------------------------- drop folder scan

  datatype DropFile = DropFile(name: string, isFile: bool, content: string)

  /** A scanned entry is new when it is a regular, non-hidden file whose hash the ledger lacks. */
  predicate IsNew(d: DropFile, ledger: map<string, string>, hashOf: string -> string) {
    d.isFile && !StartsWith(d.name, ".") && hashOf(d.content) !in ledger
  }

  /** The new files of a scan, in scan order. */
  function NewFiles(scan: seq<DropFile>, ledger: map<string, string>, hashOf: string -> string): seq<DropFile>
    decreases |scan|
  {
    if |scan| == 0 then []
    else
      var last := scan[|scan| - 1];
      NewFiles(scan[..|scan| - 1], ledger, hashOf) + (if IsNew(last, ledger, hashOf) then [last] else [])
  }

  /** Exactly the new entries are kept. */
  lemma {:induction false} NewFilesMembers(scan: seq<DropFile>, ledger: map<string, string>, hashOf: string -> string, d: DropFile)
    ensures d in NewFiles(scan, ledger, hashOf) <==> d in scan && IsNew(d, ledger, hashOf)
    decreases |scan|
  {
    if |scan| > 0 {
      var init := scan[..|scan| - 1];
      NewFilesMembers(init, ledger, hashOf, d);
      assert scan == init + [scan[|scan| - 1]];
    }
  }

  /** The scan is order-preserving: scanning two stretches is scanning them one after the other. */
  lemma {:induction false} NewFilesAppend(a: seq<DropFile>, b: seq<DropFile>, ledger: map<string, string>, hashOf: string -> string)
    ensures NewFiles(a + b, ledger, hashOf) == NewFiles(a, ledger, hashOf) + NewFiles(b, ledger, hashOf)
    decreases |b|
  {
    if |b| == 0 {
      assert a + b == a;
    } else {
      var binit := b[..|b| - 1];
      NewFilesAppend(a, binit, ledger, hashOf);
      assert (a + b)[..|a + b| - 1] == a + binit;
      assert (a + b)[|a + b| - 1] == b[|b| - 1];
    }
  }

  // ---------------------------------------------------------------- collision-free copy name

  /** The `k`-th alternative name `stem_k.suffix` for a copy into `Files`. */
  function Candidate(name: string, k: nat): string {
    Stem(name) + "_" + NatToString(k) + Suffix(name)
  }

  ghost function MaxLen(s: set<string>): (r: nat)
    ensures forall x :: x in s ==> |x| <= r
    decreases |s|
  {
    if s == {} then 0
    else
      var x :| x in s;
      var m := MaxLen(s - {x});
      if |x| > m then |x| else m
  }

  /** Past 10^(longest existing name) every candidate is too long to collide. */
  lemma LongCandidateFree(existing: set<string>, name: string, k: nat)
    requires k >= Pow10(MaxLen(existing))
    ensures Candidate(name, k) !in existing
  {
    NatToStringLong(k, MaxLen(existing));
  }

  /** The first free candidate from `k` on. */
  ghost function FreeFrom(existing: set<string>, name: string, k: nat): (r: nat)
    requires k >= 1
    ensures r >= k && Candidate(name, r) !in existing
    ensures forall j :: k <= j < r ==> Candidate(name, j) in existing
    decreases Pow10(MaxLen(existing)) + 1 - k
  {
    if Candidate(name, k) !in existing then k
    else
      assert k < Pow10(MaxLen(existing)) by {
        if k >= Pow10(MaxLen(existing)) { LongCandidateFree(existing, name, k); }
      }
      FreeFrom(existing, name, k + 1)
  }

  /** A free candidate with every earlier one taken is the first free one. */
  lemma FirstFree(existing: set<string>, name: string, k: nat)
    requires k >= 1 && Candidate(name, k) !in existing
    requires forall j :: 1 <= j < k ==> Candidate(name, j) in existing
    ensures FreeFrom(existing, name, 1) == k
  {
    var r := FreeFrom(existing, name, 1);
    assert Candidate(name, r) !in existing && Candidate(name, k) !in existing;
  }

  /** Where a dropped file is copied: its own name when free, otherwise the first free candidate. */
  ghost function Destination(existing: set<string>, name: string): string {
    if name !in existing then name else Candidate(name, FreeFrom(existing, name, 1))
  }

  /**
    The `while dest_path.exists()` loop. `k` is the counter value of the name chosen
    (0 for the original name). The result is free, is the original name exactly when
    that is free, and otherwise is the smallest free candidate.
   */
  method ChooseDestination(existing: set<string>, name: string) returns (dest: string, k: nat)
    ensures dest !in existing
    ensures k == 0 <==> name !in existing
    ensures dest == if k == 0 then name else Candidate(name, k)
    ensures forall j :: 1 <= j < k ==> Candidate(name, j) in existing
    ensures dest == Destination(existing, name)
  {
    ghost var bound := Pow10(MaxLen(existing));
    dest := name;
    var counter := 1;
    while dest in existing
      invariant 1 <= counter <= bound + 1
      invariant dest == if counter == 1 then name else Candidate(name, counter - 1)
      invariant counter > 1 ==> name in existing
      invariant forall j :: 1 <= j < counter - 1 ==> Candidate(name, j) in existing
      decreases bound + 1 - counter
    {
      if counter > 1 && counter - 1 >= bound {
        LongCandidateFree(existing, name, counter - 1);
      }
      dest := Candidate(name, counter);
      counter := counter + 1;
    }
    k := counter - 1;
    if k > 0 {
      FirstFree(existing, name, k);
    }
  }

  // ---------------------------------------------------------------- type hints

  /** `_categorize_file`: extension (with its dot, lower-cased) to category. */
  const CategoryTable: map<string, string> := map[
    ".pdf" := "document", ".doc" := "document", ".docx" := "document",
    ".txt" := "text", ".md" := "markdown", ".csv" := "data",
    ".xls" := "spreadsheet", ".xlsx" := "spreadsheet",
    ".jpg" := "image", ".jpeg" := "image", ".png" := "image", ".gif" := "image",
    ".zip" := "archive", ".rar" := "archive"]

  /** `_get_suggested_actions`: category to checklist. */
  const ActionTable: map<string, seq<string>> := map[
    "document" := ["Read and summarize the document", "Extract key information",
                   "File in appropriate category", "Take any required actions"],
    "text" := ["Read and process the content", "Extract any action items", "Archive after processing"],
    "markdown" := ["Review markdown content", "Merge with existing notes if applicable", "Archive after processing"],
    "data" := ["Analyze the data", "Extract insights or summaries", "Update relevant records"],
    "spreadsheet" := ["Review spreadsheet contents", "Extract key data points", "Update accounting or tracking sheets"],
    "image" := ["Analyze image content (OCR if needed)", "Extract any text or data", "File in appropriate category"],
    "archive" := ["Extract archive contents", "Process each extracted file", "Clean up after extraction"],
    "unknown" := ["Identify file type and content", "Determine appropriate processing", "Take necessary actions"]]

  /** Every category has a checklist entry of its own. */
  function Categorize(ext: string): (c: string)
    ensures c in ActionTable
    ensures ext in CategoryTable ==> c == CategoryTable[ext]
    ensures ext !in CategoryTable ==> c == "unknown"
  {
    if ext in CategoryTable then CategoryTable[ext] else "unknown"
  }

  /** The category of a dropped file, from its lower-cased suffix. */
  function CategoryOf(name: string): string {
    Categorize(Lower(Suffix(name)))
  }

  /** The checklist never runs empty: four items for documents, three for everything else. */
  function SuggestedActions(category: string): (r: seq<string>)
    ensures |r| == if category == "document" then 4 else 3
    ensures category !in ActionTable ==> r == ActionTable["unknown"]
  {
    if category in ActionTable then ActionTable[category] else ActionTable["unknown"]
  }

  /** Each category comes from exactly the extensions listed for it, and only the fourteen listed
      extensions leave the `unknown` category. */
  lemma CategorizeCases(ext: string)
    ensures Categorize(ext) == "document" <==> ext in {".pdf", ".doc", ".docx"}
    ensures Categorize(ext) == "text" <==> ext == ".txt"
    ensures Categorize(ext) == "markdown" <==> ext == ".md"
    ensures Categorize(ext) == "data" <==> ext == ".csv"
    ensures Categorize(ext) == "image" <==> ext in {".jpg", ".jpeg", ".png", ".gif"}
    ensures Categorize(ext) == "spreadsheet" <==> ext in {".xls", ".xlsx"}
    ensures Categorize(ext) == "archive" <==> ext in {".zip", ".rar"}
    ensures Categorize(ext) == "unknown" <==> ext !in CategoryTable
  {
  }

  // ---------------------------------------------------------------- action files

  /** Where `create_action_file` can raise: hashing or copying, writing the action file, or the ledger save. */
  datatype Fault = NoFault | BeforeCopy | AtWrite | AtSave

  /** The metadata the action file carries (its markdown layout is not modelled). */
  datatype ActionRecord = ActionRecord(originalName: string, copiedName: string, fileSize: nat,
                                       fileType: string, fileHash: string, suggested: seq<string>)

  const NeedsActionDir := "Needs_Action"

  function ActionFileName(d: DropFile, timestamp: string): string {
    Watcher.GenerateFilename("FILE", Stem(d.name), timestamp)
  }

  function ActionFor(d: DropFile, copiedName: string, hashOf: string -> string): ActionRecord {
    ActionRecord(d.name, copiedName, |d.content|, CategoryOf(d.name), hashOf(d.content),
                 SuggestedActions(CategoryOf(d.name)))
  }

  /** A file whose ledger line reads back as written: the hash has no `|` or line break, the name no line break. */
  predicate Clean(d: DropFile, hashOf: string -> string) {
    '|' !in hashOf(d.content) && '\n' !in hashOf(d.content) && '\n' !in d.name
  }

  /** The action file is on disk after the call. */
  predicate Writes(f: Fault) {
    f == NoFault || f == AtSave
  }

  function Min(a: nat, b: nat): nat {
    if a <= b then a else b
  }

  /** The ledger after a tick over `items`: each item that went through without a fault is recorded, in order. */
  function RecordAll(ledger: map<string, string>, items: seq<DropFile>, faultOf: string -> Fault,
                     hashOf: string -> string): map<string, string>
    decreases |items|
  {
    if |items| == 0 then ledger
    else
      var last := items[|items| - 1];
      var prev := RecordAll(ledger, items[..|items| - 1], faultOf, hashOf);
      if faultOf(last.name) == NoFault then prev[hashOf(last.content) := last.name] else prev
  }

  /** What one call of `create_action_file` appends to the ledger file. */
  function Appended(d: DropFile, fault: Fault, hashOf: string -> string): string {
    if fault == NoFault then Record(hashOf(d.content), d.name) else ""
  }

  /** The text a tick over `items` appends to the ledger file. */
  function RecordsText(items: seq<DropFile>, faultOf: string -> Fault, hashOf: string -> string): string
    decreases |items|
  {
    if |items| == 0 then ""
    else
      var last := items[|items| - 1];
      RecordsText(items[..|items| - 1], faultOf, hashOf) + Appended(last, faultOf(last.name), hashOf)
  }

  /** One more item of the tick appends its own share of the ledger text. */
  lemma RecordsTextStep(start: string, before: string, after: string, items: seq<DropFile>, i: nat,
                        faultOf: string -> Fault, hashOf: string -> string)
    requires i < |items|
    requires before == start + RecordsText(items[..i], faultOf, hashOf)
    requires after == before + Appended(items[i], faultOf(items[i].name), hashOf)
    ensures after == start + RecordsText(items[..i + 1], faultOf, hashOf)
  {
    assert items[..i + 1][..i] == items[..i];
  }

  /** One more item of the tick records its hash exactly when it went through. */
  lemma RecordAllStep(start: map<string, string>, before: map<string, string>, after: map<string, string>,
                      items: seq<DropFile>, i: nat, faultOf: string -> Fault, hashOf: string -> string)
    requires i < |items|
    requires before == RecordAll(start, items[..i], faultOf, hashOf)
    requires faultOf(items[i].name) == NoFault ==> after == before[hashOf(items[i].content) := items[i].name]
    requires faultOf(items[i].name) != NoFault ==> after == before
    ensures after == RecordAll(start, items[..i + 1], faultOf, hashOf)
  {
    assert items[..i + 1][..i] == items[..i];
  }

  // ---------------------------------------------------------------- what a pass writes

  /** The two folders `create_action_file` writes into: `Files`, copied contents by name, and
      `Needs_Action`, action records by file name. */
  datatype Store = Store(files: map<string, string>, actions: map<string, ActionRecord>)

  /** The action file names of one pass; `clockOf(n)` is the clock reading taken for the file named `n`. */
  function ActionNames(clockOf: string -> string): DropFile -> string {
    (d: DropFile) => ActionFileName(d, clockOf(d.name))
  }

  /** One call of `create_action_file`: unless it fails before the copy, the content is copied
      under the first free name in `Files`; when the action file gets written it goes under
      `actionName`, replacing any action file of that name. */
  ghost function StoreStep(st: Store, d: DropFile, actionName: string, fault: Fault,
                           hashOf: string -> string): Store
  {
    if fault == BeforeCopy then st
    else
      var dest := Destination(st.files.Keys, d.name);
      Store(st.files[dest := d.content],
            if Writes(fault) then st.actions[actionName := ActionFor(d, dest, hashOf)] else st.actions)
  }

  /** The two folders after the calls for `items`, in order; `nameOf` names each action file. */
  ghost function Stores(st: Store, items: seq<DropFile>, nameOf: DropFile -> string, faultOf: string -> Fault,
                        hashOf: string -> string): Store
    decreases |items|
  {
    if |items| == 0 then st
    else
      var last := items[|items| - 1];
      StoreStep(Stores(st, items[..|items| - 1], nameOf, faultOf, hashOf), last, nameOf(last),
                faultOf(last.name), hashOf)
  }

  /** The name in `Files` the `j`-th item is copied under. */
  ghost function CopyName(st: Store, items: seq<DropFile>, j: nat, nameOf: DropFile -> string,
                          faultOf: string -> Fault, hashOf: string -> string): string
    requires j < |items|
  {
    Destination(Stores(st, items[..j], nameOf, faultOf, hashOf).files.Keys, items[j].name)
  }

  /** One more item of the tick applies its own step to both folders. */
  lemma StoresStep(st: Store, items: seq<DropFile>, i: nat, nameOf: DropFile -> string, faultOf: string -> Fault,
                   hashOf: string -> string)
    requires i < |items|
    ensures Stores(st, items[..i + 1], nameOf, faultOf, hashOf) ==
      StoreStep(Stores(st, items[..i], nameOf, faultOf, hashOf), items[i], nameOf(items[i]), faultOf(items[i].name), hashOf)
  {
    assert items[..i + 1][..i] == items[..i];
  }

  /** A file that was in `Files` before the tick is still there, unchanged: copies never overwrite. */
  lemma {:induction false} FilesKept(st: Store, items: seq<DropFile>, nameOf: DropFile -> string,
                                     faultOf: string -> Fault, hashOf: string -> string, n: string)
    requires n in st.files
    ensures n in Stores(st, items, nameOf, faultOf, hashOf).files
    ensures Stores(st, items, nameOf, faultOf, hashOf).files[n] == st.files[n]
    decreases |items|
  {
    if |items| > 0 {
      FilesKept(st, items[..|items| - 1], nameOf, faultOf, hashOf, n);
    }
  }

  /** Every item copied in the tick keeps its content under its copy name to the end of the tick. */
  lemma {:induction false} CopyKept(st: Store, items: seq<DropFile>, j: nat, nameOf: DropFile -> string,
                                    faultOf: string -> Fault, hashOf: string -> string)
    requires j < |items| && faultOf(items[j].name) != BeforeCopy
    ensures CopyName(st, items, j, nameOf, faultOf, hashOf) in Stores(st, items, nameOf, faultOf, hashOf).files
    ensures Stores(st, items, nameOf, faultOf, hashOf).files[CopyName(st, items, j, nameOf, faultOf, hashOf)]
            == items[j].content
    decreases |items|
  {
    var init := items[..|items| - 1];
    if j < |items| - 1 {
      assert init[..j] == items[..j];
      assert CopyName(st, init, j, nameOf, faultOf, hashOf) == CopyName(st, items, j, nameOf, faultOf, hashOf);
      CopyKept(st, init, j, nameOf, faultOf, hashOf);
    } else {
      assert init == items[..j];
    }
  }

  /** A file in `Files` after the tick that was not there before is the copy of some item. */
  lemma {:induction false} FilesNew(st: Store, items: seq<DropFile>, nameOf: DropFile -> string,
                                    faultOf: string -> Fault, hashOf: string -> string, n: string)
    requires n in Stores(st, items, nameOf, faultOf, hashOf).files && n !in st.files
    ensures exists j :: 0 <= j < |items| && faultOf(items[j].name) != BeforeCopy &&
                        n == CopyName(st, items, j, nameOf, faultOf, hashOf)
    decreases |items|
  {
    var init := items[..|items| - 1];
    var k := |items| - 1;
    assert init == items[..k];
    if n in Stores(st, init, nameOf, faultOf, hashOf).files {
      FilesNew(st, init, nameOf, faultOf, hashOf, n);
      var j :| 0 <= j < |init| && faultOf(init[j].name) != BeforeCopy &&
               n == CopyName(st, init, j, nameOf, faultOf, hashOf);
      assert init[..j] == items[..j];
      assert n == CopyName(st, items, j, nameOf, faultOf, hashOf);
    } else {
      assert n == CopyName(st, items, k, nameOf, faultOf, hashOf);
    }
  }

  /** One call keeps every action file name and adds its own when it writes. */
  lemma StepActions(prev: Store, d: DropFile, actionName: string, fault: Fault, hashOf: string -> string)
    ensures prev.actions.Keys <= StoreStep(prev, d, actionName, fault, hashOf).actions.Keys
    ensures Writes(fault) ==> actionName in StoreStep(prev, d, actionName, fault, hashOf).actions
  {
  }

  /** No action file goes away during a tick. */
  lemma {:induction false} ActionsGrow(st: Store, items: seq<DropFile>, nameOf: DropFile -> string,
                                       faultOf: string -> Fault, hashOf: string -> string)
    ensures st.actions.Keys <= Stores(st, items, nameOf, faultOf, hashOf).actions.Keys
    decreases |items|
  {
    if |items| > 0 {
      var init := items[..|items| - 1];
      var last := items[|items| - 1];
      ActionsGrow(st, init, nameOf, faultOf, hashOf);
      StepActions(Stores(st, init, nameOf, faultOf, hashOf), last, nameOf(last), faultOf(last.name), hashOf);
    }
  }

  /** Every item whose action file was written has an action file under its name after the tick,
      and no action file goes away. */
  lemma {:induction false} ActionFilesMember(st: Store, items: seq<DropFile>, j: nat, nameOf: DropFile -> string,
                                             faultOf: string -> Fault, hashOf: string -> string)
    requires j < |items| && Writes(faultOf(items[j].name))
    ensures nameOf(items[j]) in Stores(st, items, nameOf, faultOf, hashOf).actions
    ensures st.actions.Keys <= Stores(st, items, nameOf, faultOf, hashOf).actions.Keys
    decreases |items|
  {
    var init := items[..|items| - 1];
    var last := items[|items| - 1];
    var prev := Stores(st, init, nameOf, faultOf, hashOf);
    StepActions(prev, last, nameOf(last), faultOf(last.name), hashOf);
    if j < |items| - 1 {
      assert init[j] == items[j];
      ActionFilesMember(st, init, j, nameOf, faultOf, hashOf);
    } else {
      ActionsGrow(st, init, nameOf, faultOf, hashOf);
    }
  }

  /** A call that writes no action file named `n` leaves `n` as it was. */
  lemma StepOther(prev: Store, d: DropFile, actionName: string, fault: Fault, hashOf: string -> string, n: string)
    requires !Writes(fault) || actionName != n
    ensures n in StoreStep(prev, d, actionName, fault, hashOf).actions <==> n in prev.actions
    ensures n in prev.actions ==> StoreStep(prev, d, actionName, fault, hashOf).actions[n] == prev.actions[n]
  {
  }

  /** An action file no written item of the tick is named after is left as it was (or absent). */
  lemma {:induction false} ActionsUntouched(st: Store, items: seq<DropFile>, nameOf: DropFile -> string,
                                            faultOf: string -> Fault, hashOf: string -> string, n: string)
    requires forall j :: 0 <= j < |items| && Writes(faultOf(items[j].name)) ==> nameOf(items[j]) != n
    ensures n in Stores(st, items, nameOf, faultOf, hashOf).actions <==> n in st.actions
    ensures n in st.actions ==> Stores(st, items, nameOf, faultOf, hashOf).actions[n] == st.actions[n]
    decreases |items|
  {
    if |items| > 0 {
      var init := items[..|items| - 1];
      var last := items[|items| - 1];
      assert forall j :: 0 <= j < |init| ==> init[j] == items[j];
      ActionsUntouched(st, init, nameOf, faultOf, hashOf, n);
      StepOther(Stores(st, init, nameOf, faultOf, hashOf), last, nameOf(last), faultOf(last.name), hashOf, n);
    }
  }

  /** A call that writes its action file puts its own record under its name. */
  lemma StepWrites(prev: Store, d: DropFile, actionName: string, fault: Fault, hashOf: string -> string)
    requires Writes(fault)
    ensures StoreStep(prev, d, actionName, fault, hashOf).actions[actionName] ==
      ActionFor(d, Destination(prev.files.Keys, d.name), hashOf)
  {
  }

  /** The action file under a name holds the record of the last item written under that name. */
  lemma {:induction false} ActionsLastWins(st: Store, items: seq<DropFile>, j: nat, nameOf: DropFile -> string,
                                           faultOf: string -> Fault, hashOf: string -> string)
    requires j < |items| && Writes(faultOf(items[j].name))
    requires forall k :: j < k < |items| && Writes(faultOf(items[k].name)) ==> nameOf(items[k]) != nameOf(items[j])
    ensures nameOf(items[j]) in Stores(st, items, nameOf, faultOf, hashOf).actions
    ensures Stores(st, items, nameOf, faultOf, hashOf).actions[nameOf(items[j])] ==
      ActionFor(items[j], CopyName(st, items, j, nameOf, faultOf, hashOf), hashOf)
    decreases |items|
  {
    var init := items[..|items| - 1];
    var last := items[|items| - 1];
    var n := nameOf(items[j]);
    var prev := Stores(st, init, nameOf, faultOf, hashOf);
    if j < |items| - 1 {
      assert init[..j] == items[..j];
      assert CopyName(st, init, j, nameOf, faultOf, hashOf) == CopyName(st, items, j, nameOf, faultOf, hashOf);
      assert init[j] == items[j];
      assert forall k :: j < k < |init| ==> init[k] == items[k];
      ActionsLastWins(st, init, j, nameOf, faultOf, hashOf);
      StepOther(prev, last, nameOf(last), faultOf(last.name), hashOf, n);
    } else {
      assert init == items[..j];
      StepWrites(prev, last, nameOf(last), faultOf(last.name), hashOf);
    }
  }

  // ---------------------------------------------------------------- colliding action file names

  /** The fault assignment of a pass in which every call goes through. */
  function NoFaults(name: string): Fault {
    NoFault
  }

  /** A call that writes its action file changes `Needs_Action` only under its name. */
  lemma StepActionsWritten(prev: Store, d: DropFile, actionName: string, fault: Fault, hashOf: string -> string)
    requires Writes(fault)
    ensures StoreStep(prev, d, actionName, fault, hashOf).actions ==
      prev.actions[actionName := ActionFor(d, Destination(prev.files.Keys, d.name), hashOf)]
  {
  }

  /** Two calls that write under one name leave only the second record under it. */
  lemma TwoWritesOneName(st: Store, d1: DropFile, d2: DropFile, nameOf: DropFile -> string, hashOf: string -> string)
    requires nameOf(d1) == nameOf(d2)
    ensures Stores(st, [d1, d2], nameOf, NoFaults, hashOf).actions ==
      Stores(st, [d1], nameOf, NoFaults, hashOf).actions[nameOf(d2) :=
        ActionFor(d2, Destination(Stores(st, [d1], nameOf, NoFaults, hashOf).files.Keys, d2.name), hashOf)]
    ensures Stores(st, [d1], nameOf, NoFaults, hashOf).actions ==
      st.actions[nameOf(d1) := ActionFor(d1, Destination(st.files.Keys, d1.name), hashOf)]
  {
    var items := [d1, d2];
    assert items[..1] == [d1] && [d1][..0] == [];
    var one := Stores(st, [d1], nameOf, NoFaults, hashOf);
    StepActionsWritten(st, d1, nameOf(d1), NoFaults(d1.name), hashOf);
    StepActionsWritten(one, d2, nameOf(d2), NoFaults(d2.name), hashOf);
  }

  /** A pass in which every call goes through records every hash of a two-file pass. */
  lemma TwoRecorded(d1: DropFile, d2: DropFile, hashOf: string -> string)
    ensures hashOf(d1.content) in RecordAll(map[], [d1, d2], NoFaults, hashOf)
    ensures hashOf(d2.content) in RecordAll(map[], [d1, d2], NoFaults, hashOf)
  {
    var items := [d1, d2];
    assert items[..1] == [d1] && [d1][..0] == [];
  }

  /**
    As written, two files with different names but the same stem, dropped in the same pass, get
    the same action file name: the second action file replaces the first, so no action file is
    left for the first file, although the ledger records both hashes and the first file is never
    picked up again.
   */
  lemma SameStemReplaced(d1: DropFile, d2: DropFile, clockOf: string -> string, hashOf: string -> string)
    requires Stem(d1.name) == Stem(d2.name) && d1.name != d2.name
    requires clockOf(d1.name) == clockOf(d2.name)
    ensures ActionFileName(d1, clockOf(d1.name)) == ActionFileName(d2, clockOf(d2.name))
    ensures var after := Stores(Store(map[], map[]), [d1, d2], ActionNames(clockOf), NoFaults, hashOf);
            forall n :: n in after.actions ==> after.actions[n].originalName != d1.name
    ensures hashOf(d1.content) in RecordAll(map[], [d1, d2], NoFaults, hashOf)
    ensures hashOf(d2.content) in RecordAll(map[], [d1, d2], NoFaults, hashOf)
  {
    var nameOf := ActionNames(clockOf);
    assert nameOf(d1) == ActionFileName(d1, clockOf(d1.name)) && nameOf(d2) == ActionFileName(d2, clockOf(d2.name));
    FirstRecordLost(d1, d2, nameOf, hashOf);
    TwoRecorded(d1, d2, hashOf);
  }

  /** Two differently named files written under one action file name into an empty folder leave no record of the first. */
  lemma FirstRecordLost(d1: DropFile, d2: DropFile, nameOf: DropFile -> string, hashOf: string -> string)
    requires nameOf(d1) == nameOf(d2) && d1.name != d2.name
    ensures var after := Stores(Store(map[], map[]), [d1, d2], nameOf, NoFaults, hashOf);
            forall n :: n in after.actions ==> after.actions[n].originalName != d1.name
  {
    TwoWritesOneName(Store(map[], map[]), d1, d2, nameOf, hashOf);
  }

  /** `a.pdf` and `a.png` are different names with the same stem `a`. */
  lemma PdfPngStems()
    ensures Stem("a.pdf") == "a" && Stem("a.png") == "a" && "a.pdf" != "a.png"
  {
    SuffixOf("a", ".pdf");
    SuffixOf("a", ".png");
    assert "a" + ".pdf" == "a.pdf" && "a" + ".png" == "a.png";
    assert "a.pdf"[4] != "a.png"[4];
  }

  /** Files of one stem whose names are made in different seconds get different action files. */
  lemma SameStemSecondsApart(d1: DropFile, d2: DropFile, t1: string, t2: string)
    requires Stem(d1.name) == Stem(d2.name) && t1 != t2
    ensures ActionFileName(d1, t1) != ActionFileName(d2, t2)
  {
    var x := "FILE" + "_" + Watcher.Sanitize(Stem(d1.name)) + "_";
    assert ActionFileName(d1, t1) == x + t1 + ".md";
    assert ActionFileName(d2, t2) == x + t2 + ".md";
    MiddleOf(x, t1, ".md");
    MiddleOf(x, t2, ".md");
  }

  /** The middle part of a three-part text is found by the lengths of the outer parts. */
  lemma MiddleOf(x: string, t: string, e: string)
    ensures |x + t + e| - |e| == |x| + |t|
    ensures (x + t + e)[|x|..|x + t + e| - |e|] == t
  {
    assert (x + t + e)[|x|..|x| + |t|] == t;
  }

  /**
    `a.pdf` and `a.png` dropped together and named within the same second leave a single
    action file, the one for `a.png`.
   */
  lemma ActionFileCollision(d1: DropFile, d2: DropFile, clockOf: string -> string, hashOf: string -> string)
    requires d1 == DropFile("a.pdf", true, "x") && d2 == DropFile("a.png", true, "y")
    requires clockOf("a.pdf") == clockOf("a.png")
    ensures ActionFileName(d1, clockOf(d1.name)) == ActionFileName(d2, clockOf(d2.name))
    ensures var after := Stores(Store(map[], map[]), [d1, d2], ActionNames(clockOf), NoFaults, hashOf);
            forall n :: n in after.actions ==> after.actions[n].originalName != d1.name
    ensures hashOf(d1.content) in RecordAll(map[], [d1, d2], NoFaults, hashOf)
    ensures hashOf(d2.content) in RecordAll(map[], [d1, d2], NoFaults, hashOf)
  {
    PdfPngStems();
    SameStemReplaced(d1, d2, clockOf, hashOf);
  }

  /** The evidently intended step: an action file never replaces another; a taken name gets the
      first free `_k` variant, the way copies into `Files` do. */
  ghost function UniqueStoreStep(st: Store, d: DropFile, actionName: string, fault: Fault,
                                 hashOf: string -> string): Store
  {
    if fault == BeforeCopy then st
    else
      var dest := Destination(st.files.Keys, d.name);
      Store(st.files[dest := d.content],
            if Writes(fault) then st.actions[Destination(st.actions.Keys, actionName) := ActionFor(d, dest, hashOf)]
            else st.actions)
  }

  ghost function UniqueStores(st: Store, items: seq<DropFile>, nameOf: DropFile -> string,
                              faultOf: string -> Fault, hashOf: string -> string): Store
    decreases |items|
  {
    if |items| == 0 then st
    else
      var last := items[|items| - 1];
      UniqueStoreStep(UniqueStores(st, items[..|items| - 1], nameOf, faultOf, hashOf), last, nameOf(last),
                      faultOf(last.name), hashOf)
  }

  /** The name the `j`-th item's action file gets under the intended naming. */
  ghost function UniqueActionName(st: Store, items: seq<DropFile>, j: nat, nameOf: DropFile -> string,
                                  faultOf: string -> Fault, hashOf: string -> string): string
    requires j < |items|
  {
    Destination(UniqueStores(st, items[..j], nameOf, faultOf, hashOf).actions.Keys, nameOf(items[j]))
  }

  /** Under the intended naming one call keeps every action file as it was. */
  lemma UniqueStepKeeps(prev: Store, d: DropFile, actionName: string, fault: Fault, hashOf: string -> string,
                        n: string)
    requires n in prev.actions
    ensures n in UniqueStoreStep(prev, d, actionName, fault, hashOf).actions
    ensures UniqueStoreStep(prev, d, actionName, fault, hashOf).actions[n] == prev.actions[n]
  {
  }

  /** Under the intended naming an action file present before the tick is kept unchanged. */
  lemma {:induction false} UniqueActionsKeepOld(st: Store, items: seq<DropFile>, nameOf: DropFile -> string,
                                                faultOf: string -> Fault, hashOf: string -> string, n: string)
    requires n in st.actions
    ensures n in UniqueStores(st, items, nameOf, faultOf, hashOf).actions
    ensures UniqueStores(st, items, nameOf, faultOf, hashOf).actions[n] == st.actions[n]
    decreases |items|
  {
    if |items| > 0 {
      var init := items[..|items| - 1];
      var last := items[|items| - 1];
      UniqueActionsKeepOld(st, init, nameOf, faultOf, hashOf, n);
      UniqueStepKeeps(UniqueStores(st, init, nameOf, faultOf, hashOf), last, nameOf(last), faultOf(last.name), hashOf, n);
    }
  }

  /** Under the intended naming every item whose action file was written keeps its own record to
      the end of the tick, whatever the other items are called. */
  lemma {:induction false} UniqueActionsKeepAll(st: Store, items: seq<DropFile>, j: nat, nameOf: DropFile -> string,
                                                faultOf: string -> Fault, hashOf: string -> string)
    requires j < |items| && Writes(faultOf(items[j].name))
    ensures UniqueActionName(st, items, j, nameOf, faultOf, hashOf) in UniqueStores(st, items, nameOf, faultOf, hashOf).actions
    ensures UniqueStores(st, items, nameOf, faultOf, hashOf).actions[UniqueActionName(st, items, j, nameOf, faultOf, hashOf)] ==
      ActionFor(items[j], Destination(UniqueStores(st, items[..j], nameOf, faultOf, hashOf).files.Keys, items[j].name), hashOf)
    decreases |items|
  {
    var init := items[..|items| - 1];
    var last := items[|items| - 1];
    var prev := UniqueStores(st, init, nameOf, faultOf, hashOf);
    if j < |items| - 1 {
      assert init[..j] == items[..j];
      assert init[j] == items[j];
      var n := UniqueActionName(st, items, j, nameOf, faultOf, hashOf);
      assert UniqueActionName(st, init, j, nameOf, faultOf, hashOf) == n;
      UniqueActionsKeepAll(st, init, j, nameOf, faultOf, hashOf);
      UniqueStepKeeps(prev, last, nameOf(last), faultOf(last.name), hashOf, n);
    } else {
      assert init == items[..j];
    }
  }

  /** A ledger file text that is empty or ends at a line break. */
  predicate EndsLine(t: string) {
    t == "" || t[|t| - 1] == '\n'
  }

  lemma AppendRecordEndsLine(t: string, hash: string, filename: string)
    ensures EndsLine(t + Record(hash, filename))
  {
    var u := t + Record(hash, filename);
    assert u[|u| - 1] == Record(hash, filename)[|Record(hash, filename)| - 1];
  }

  lemma ConcatAssoc(a: string, b: string, c: string)
    ensures a + (b + c) == a + b + c
  {
  }

  /**
    Re-reading the ledger file after a tick gives the ledger map the tick built: the
    file text and the map stay in step as long as every recorded line reads back as written.
   */
  lemma {:induction false} TickLedgerAgrees(text: string, items: seq<DropFile>, faultOf: string -> Fault,
                                            hashOf: string -> string)
    requires EndsLine(text)
    requires forall i :: 0 <= i < |items| ==> Clean(items[i], hashOf)
    ensures ParseLedger(text + RecordsText(items, faultOf, hashOf))
         == RecordAll(ParseLedger(text), items, faultOf, hashOf)
    ensures EndsLine(text + RecordsText(items, faultOf, hashOf))
    decreases |items|
  {
    if |items| == 0 {
      assert text + "" == text;
    } else {
      var init := items[..|items| - 1];
      var last := items[|items| - 1];
      var t := text + RecordsText(init, faultOf, hashOf);
      TickLedgerAgrees(text, init, faultOf, hashOf);
      ConcatAssoc(text, RecordsText(init, faultOf, hashOf), Appended(last, faultOf(last.name), hashOf));
      if faultOf(last.name) == NoFault {
        assert Clean(last, hashOf);
        LedgerAppendRecord(map[], t, hashOf(last.content), last.name);
        AppendRecordEndsLine(t, hashOf(last.content), last.name);
      } else {
        assert t + "" == t;
      }
    }
  }

  /** The ledger only grows, and it holds the hash of every item that went through. */
  lemma {:induction false} RecordAllGrows(ledger: map<string, string>, items: seq<DropFile>,
                                          faultOf: string -> Fault, hashOf: string -> string)
    ensures ledger.Keys <= RecordAll(ledger, items, faultOf, hashOf).Keys
    ensures forall i :: 0 <= i < |items| && faultOf(items[i].name) == NoFault ==>
              hashOf(items[i].content) in RecordAll(ledger, items, faultOf, hashOf)
    decreases |items|
  {
    if |items| > 0 {
      var init := items[..|items| - 1];
      RecordAllGrows(ledger, init, faultOf, hashOf);
      forall i | 0 <= i < |items| - 1
        ensures items[i] == init[i]
      {
      }
    }
  }

  /**
    A tick in which every new file went through leaves nothing new for the next tick
    over the same drop folder: a file is turned into an action file once.
   */
  lemma TickSettles(scan: seq<DropFile>, ledger: map<string, string>, faultOf: string -> Fault,
                    hashOf: string -> string)
    requires forall d :: d in NewFiles(scan, ledger, hashOf) ==> faultOf(d.name) == NoFault
    ensures NewFiles(scan, RecordAll(ledger, NewFiles(scan, ledger, hashOf), faultOf, hashOf), hashOf) == []
  {
    var items := NewFiles(scan, ledger, hashOf);
    var after := RecordAll(ledger, items, faultOf, hashOf);
    RecordAllGrows(ledger, items, faultOf, hashOf);
    forall d | d in scan
      ensures !IsNew(d, after, hashOf)
    {
      NewFilesMembers(scan, ledger, hashOf, d);
      if IsNew(d, ledger, hashOf) {
        var i :| 0 <= i < |items| && items[i] == d;
        assert hashOf(items[i].content) in after;
      }
    }
    var rest := NewFiles(scan, after, hashOf);
    if |rest| > 0 {
      NewFilesMembers(scan, after, hashOf, rest[0]);
      assert false;
    }
  }

  /**
    `FilesystemWatcher` together with the `BaseWatcher` loop it inherits. The drop
    folder, the vault's `Files` folder, `Needs_Action` and the ledger file are fields;
    the ledger is kept both as the `processed_files` map and as the ledger file text.
   */
  class FilesystemWatcher {
    const hashOf: string -> string
    const checkInterval: nat
    var drop: seq<DropFile>
    var files: map<string, string>
    var needsAction: map<string, ActionRecord>
    var processed: map<string, string>
    var tracking: string
    var running: bool

    /** The in-memory ledger is the one the ledger file describes, and the file ends at a line break. */
    ghost predicate Synced()
      reads this
    {
      (tracking == "" || tracking[|tracking| - 1] == '\n') && processed == ParseLedger(tracking)
    }

    /** A missing ledger file is modelled as an empty text; `ledgerReadFails` is a ledger file
        whose `read_text` raises, which leaves the in-memory ledger empty. */
    constructor (hashOf: string -> string, checkInterval: nat, drop: seq<DropFile>,
                 files: map<string, string>, needsAction: map<string, ActionRecord>, tracking: string,
                 ledgerReadFails: bool)
      ensures this.hashOf == hashOf && this.checkInterval == checkInterval && this.drop == drop
      ensures this.files == files && this.needsAction == needsAction && this.tracking == tracking
      ensures processed == (if ledgerReadFails then map[] else ParseLedger(tracking)) && !running
    {
      this.hashOf := hashOf;
      this.checkInterval := checkInterval;
      this.drop := drop;
      this.files := files;
      this.needsAction := needsAction;
      this.tracking := tracking;
      processed := map[];
      running := false;
      new;
      LoadProcessedFiles(ledgerReadFails);
      assert this.tracking == tracking;
    }

    /** `_load_processed_files`: every `hash|name` line of the ledger file, in order, into the map.
        When reading the file raises (`readFails`) the warning is logged and the map is untouched. */
    method LoadProcessedFiles(readFails: bool)
      modifies this`processed
      ensures processed == if readFails then old(processed) else ApplyLines(old(processed), Split(tracking, '\n'))
    {
      if readFails {
        return;
      }
      var lines := Split(tracking, '\n');
      var i := 0;
      while i < |lines|
        invariant 0 <= i <= |lines|
        invariant processed == ApplyLines(old(processed), lines[..i])
      {
        assert lines[..i + 1][..i] == lines[..i];
        var rec := ParseRecord(lines[i]);
        if rec.Some? {
          processed := processed[rec.value.0 := rec.value.1];
        }
        i := i + 1;
      }
      assert lines[..|lines|] == lines;
    }

    /** `_save_processed_file`: append one record to the file, then to the map; the two stay in step. */
    method SaveProcessedFile(hash: string, filename: string)
      modifies this`tracking, this`processed
      ensures tracking == old(tracking) + Record(hash, filename)
      ensures processed == old(processed)[hash := filename]
      ensures old(Synced()) && '|' !in hash && '\n' !in hash && '\n' !in filename ==> Synced()
    {
      ghost var wasSynced := Synced();
      ghost var before := tracking;
      tracking := tracking + Record(hash, filename);
      processed := processed[hash := filename];
      if wasSynced && '|' !in hash && '\n' !in hash && '\n' !in filename {
        LedgerAppendRecord(map[], before, hash, filename);
      }
    }

    /**
      `check_for_updates`: the new files of the drop folder, in scan order. The ledger is
      only read, so two files with the same content in one scan are both returned. A scan
      that raises at position `failAt` returns what it had collected before that position.
     */
    method CheckForUpdates(failAt: nat) returns (newFiles: seq<DropFile>)
      ensures newFiles == NewFiles(drop[..Min(failAt, |drop|)], processed, hashOf)
      ensures forall d :: d in newFiles ==> d in drop && IsNew(d, processed, hashOf)
    {
      newFiles := [];
      var i := 0;
      while i < |drop| && i < failAt
        invariant 0 <= i <= Min(failAt, |drop|)
        invariant newFiles == NewFiles(drop[..i], processed, hashOf)
      {
        assert drop[..i + 1][..i] == drop[..i];
        var d := drop[i];
        if d.isFile && !StartsWith(d.name, ".") {
          var h := hashOf(d.content);
          if h !in processed {
            newFiles := newFiles + [d];
          }
        }
        i := i + 1;
      }
      forall d | d in newFiles
        ensures d in drop && IsNew(d, processed, hashOf)
      {
        NewFilesMembers(drop[..i], processed, hashOf, d);
      }
    }

    /** `shutil.copy2` into `Files` under the first free name. */
    method CopyIntoFiles(d: DropFile) returns (dest: string)
      modifies this`files
      ensures dest == Destination(old(files).Keys, d.name) && dest !in old(files)
      ensures files == old(files)[dest := d.content]
    {
      var k;
      dest, k := ChooseDestination(files.Keys, d.name);
      files := files[dest := d.content];
    }

    /** `_write_action_file`: the content lands in `Needs_Action` under exactly the given name. */
    method WriteActionFile(filename: string, record: ActionRecord) returns (path: string)
      modifies this`needsAction
      ensures needsAction == old(needsAction)[filename := record]
      ensures path == NeedsActionDir + "/" + filename
    {
      needsAction := needsAction[filename := record];
      path := NeedsActionDir + "/" + filename;
    }

    /**
      `create_action_file`: copy the file into `Files` under a free name, write the action
      file, then record the hash. A fault stops the sequence where it happens: the ledger
      is updated only once the action file exists, and only a full run returns a path.
     */
    method CreateActionFile(d: DropFile, timestamp: string, fault: Fault) returns (actionFile: Option<string>)
      modifies this`files, this`needsAction, this`processed, this`tracking
      ensures fault == BeforeCopy ==> files == old(files)
      ensures fault != BeforeCopy ==> files == old(files)[Destination(old(files).Keys, d.name) := d.content]
      ensures fault != BeforeCopy ==> Destination(old(files).Keys, d.name) !in old(files)
      ensures Writes(fault) ==> needsAction == old(needsAction)[ActionFileName(d, timestamp) :=
                                  ActionFor(d, Destination(old(files).Keys, d.name), hashOf)]
      ensures !Writes(fault) ==> needsAction == old(needsAction)
      ensures fault == NoFault ==> processed == old(processed)[hashOf(d.content) := d.name]
      ensures tracking == old(tracking) + Appended(d, fault, hashOf)
      ensures fault != NoFault ==> processed == old(processed)
      ensures old(needsAction).Keys <= needsAction.Keys
      ensures Writes(fault) ==> ActionFileName(d, timestamp) in needsAction
      ensures actionFile == if fault == NoFault then Some(NeedsActionDir + "/" + ActionFileName(d, timestamp)) else None
      ensures Store(files, needsAction) ==
        StoreStep(Store(old(files), old(needsAction)), d, ActionFileName(d, timestamp), fault, hashOf)
    {
      actionFile := None;
      if fault != BeforeCopy {
        var dest := CopyIntoFiles(d);
        if fault != AtWrite {
          var path := WriteActionFile(ActionFileName(d, timestamp), ActionFor(d, dest, hashOf));
          if fault == NoFault {
            SaveProcessedFile(hashOf(d.content), d.name);
            actionFile := Some(path);
          }
        }
      }
    }

    /** One turn of the `for` loop of `run`: `create_action_file` for the `i`-th new file. */
    method Attempt(items: seq<DropFile>, i: nat, clockOf: string -> string, faultOf: string -> Fault,
                   ghost ledger0: map<string, string>, ghost text0: string, ghost st0: Store)
      requires i < |items|
      requires processed == RecordAll(ledger0, items[..i], faultOf, hashOf)
      requires tracking == text0 + RecordsText(items[..i], faultOf, hashOf)
      requires Store(files, needsAction) == Stores(st0, items[..i], ActionNames(clockOf), faultOf, hashOf)
      modifies this`files, this`needsAction, this`processed, this`tracking
      ensures processed == RecordAll(ledger0, items[..i + 1], faultOf, hashOf)
      ensures tracking == text0 + RecordsText(items[..i + 1], faultOf, hashOf)
      ensures Store(files, needsAction) == Stores(st0, items[..i + 1], ActionNames(clockOf), faultOf, hashOf)
    {
      var d := items[i];
      ghost var ledgerBefore := processed;
      ghost var textBefore := tracking;
      var _ := CreateActionFile(d, clockOf(d.name), faultOf(d.name));
      RecordAllStep(ledger0, ledgerBefore, processed, items, i, faultOf, hashOf);
      RecordsTextStep(text0, textBefore, tracking, items, i, faultOf, hashOf);
      StoresStep(st0, items, i, ActionNames(clockOf), faultOf, hashOf);
    }

    /**
      The `for` loop of `run` over the new files, in scan order. A failing item does not
      stop the ones after it; the ledger then holds exactly the hashes of the items that went
      through, and `Files` and `Needs_Action` are exactly what the calls, in order, wrote.
     */
    method CreateActionFiles(items: seq<DropFile>, clockOf: string -> string, faultOf: string -> Fault)
      modifies this`files, this`needsAction, this`processed, this`tracking
      ensures processed == RecordAll(old(processed), items, faultOf, hashOf)
      ensures tracking == old(tracking) + RecordsText(items, faultOf, hashOf)
      ensures Store(files, needsAction) == Stores(Store(old(files), old(needsAction)), items, ActionNames(clockOf), faultOf, hashOf)
    {
      ghost var st0 := Store(files, needsAction);
      var i := 0;
      while i < |items|
        invariant 0 <= i <= |items|
        invariant processed == RecordAll(old(processed), items[..i], faultOf, hashOf)
        invariant tracking == old(tracking) + RecordsText(items[..i], faultOf, hashOf)
        invariant Store(files, needsAction) == Stores(st0, items[..i], ActionNames(clockOf), faultOf, hashOf)
      {
        Attempt(items, i, clockOf, faultOf, old(processed), old(tracking), st0);
        i := i + 1;
      }
      assert items[..|items|] == items;
    }

    /** One pass of `run`: scan, then an action file for every new file. */
    method Tick(clockOf: string -> string, failAt: nat, faultOf: string -> Fault) returns (items: seq<DropFile>)
      modifies this`files, this`needsAction, this`processed, this`tracking
      ensures items == NewFiles(drop[..Min(failAt, |drop|)], old(processed), hashOf)
      ensures processed == RecordAll(old(processed), items, faultOf, hashOf)
      ensures tracking == old(tracking) + RecordsText(items, faultOf, hashOf)
      ensures Store(files, needsAction) == Stores(Store(old(files), old(needsAction)), items, ActionNames(clockOf), faultOf, hashOf)
    {
      items := CheckForUpdates(failAt);
      CreateActionFiles(items, clockOf, faultOf);
    }

    /**
      The sleep countdown after a pass: at most `checkInterval` one-second sleeps, cut
      short once `running` is false. An outside `stop()` arrives during sleep number
      `stopAt` (never, when `stopAt >= checkInterval`).
     */
    method SleepPhase(stopAt: nat) returns (slept: nat)
      modifies this`running
      ensures slept == if !old(running) then 0 else Min(checkInterval, stopAt + 1)
      ensures running == (old(running) && stopAt >= checkInterval)
    {
      slept := 0;
      while slept < checkInterval
        invariant slept <= checkInterval
        invariant !old(running) ==> slept == 0 && !running
        invariant old(running) ==> (running <==> slept <= stopAt) && slept <= stopAt + 1
      {
        if !running {
          break;
        }
        if slept == stopAt {
          running := false;
        }
        slept := slept + 1;
      }
    }

    /** `stop`. */
    method Stop()
      modifies this`running
      ensures !running
    {
      running := false;
    }

    /** `is_running`. */
    method IsRunning() returns (r: bool)
      ensures r == running
    {
      r := running;
    }

    /**
      `run`: passes until stopped. The outside stop arrives in pass number `lastTick`,
      during sleep `stopAt` of its countdown or, when the countdown is shorter, right
      after it. Whatever happens, the `finally` leaves `running` false.
     */
    method Run(lastTick: nat, stopAt: nat, clockOf: string -> string, failAt: nat, faultOf: string -> Fault)
      modifies this`files, this`needsAction, this`processed, this`tracking, this`running
      ensures !running
      ensures old(processed).Keys <= processed.Keys
    {
      running := true;
      var tick := 0;
      while running
        invariant running ==> tick <= lastTick
        invariant old(processed).Keys <= processed.Keys
        decreases lastTick + 1 - tick
      {
        ghost var before := processed;
        var items := Tick(clockOf, failAt, faultOf);
        RecordAllGrows(before, items, faultOf, hashOf);
        var slept;
        if tick == lastTick {
          slept := SleepPhase(stopAt);
          running := false;
        } else {
          slept := SleepPhase(checkInterval);
        }
        tick := tick + 1;
      }
      Stop();
    }
  }
}
