/**
  The naming rule shared by every watcher (`BaseWatcher._generate_filename`):
  an action file is called `<prefix>_<safe id>_<timestamp>.md`, where the
  id has every character that is not a letter, a digit, `-` or `_` turned
  into `_`. The clock reading is passed in as the timestamp text.
 */
module Watcher {
  import opened Text
  import opened Paths

  /** `str.isalnum` restricted to ASCII. */
  predicate IsAlnum(c: char) {
    ('a' <= c <= 'z') || ('A' <= c <= 'Z') || ('0' <= c <= '9')
  }

  predicate IsSafe(c: char) {
    IsAlnum(c) || c == '-' || c == '_'
  }

  predicate AllSafe(s: string) {
    forall i :: 0 <= i < |s| ==> IsSafe(s[i])
  }

  /** The sanitised id: same length, every character safe, safe characters kept, the rest `_`. */
  function Sanitize(id: string): (r: string)
    ensures |r| == |id|
    ensures AllSafe(r)
    ensures forall i :: 0 <= i < |id| ==> (IsSafe(id[i]) ==> r[i] == id[i]) && (!IsSafe(id[i]) ==> r[i] == '_')
  {
    seq(|id|, i requires 0 <= i < |id| => if IsSafe(id[i]) then id[i] else '_')
  }

  /** An id that is already safe is left unchanged. */
  lemma SanitizeKeepsSafe(id: string)
    requires AllSafe(id)
    ensures Sanitize(id) == id
  {
    var r := Sanitize(id);
    assert forall i :: 0 <= i < |id| ==> r[i] == id[i];
  }

  /** Sanitising twice is sanitising once. */
  lemma SanitizeIdempotent(id: string)
    ensures Sanitize(Sanitize(id)) == Sanitize(id)
  {
    SanitizeKeepsSafe(Sanitize(id));
  }

  /** `_generate_filename`: `<prefix>_<safe id>_<timestamp>.md`. */
  function GenerateFilename(prefix: string, uniqueId: string, timestamp: string): string {
    prefix + "_" + Sanitize(uniqueId) + "_" + timestamp + ".md"
  }

  /** Every generated name is a `.md` file whose stem is the prefix, the safe id and the timestamp. */
  lemma GeneratedNameShape(prefix: string, uniqueId: string, timestamp: string)
    ensures Suffix(GenerateFilename(prefix, uniqueId, timestamp)) == ".md"
    ensures Stem(GenerateFilename(prefix, uniqueId, timestamp)) == prefix + "_" + Sanitize(uniqueId) + "_" + timestamp
    ensures StartsWith(GenerateFilename(prefix, uniqueId, timestamp), prefix)
  {
    assert ".md"[1..] == "md";
    SuffixOf(prefix + "_" + Sanitize(uniqueId) + "_" + timestamp, ".md");
    assert GenerateFilename(prefix, uniqueId, timestamp)[..|prefix|] == prefix;
  }
}
