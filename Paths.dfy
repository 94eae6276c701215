/**
  The parts of a file name that `pathlib.PurePath` exposes: `suffix` and `stem`.
  CPython takes the last dot, and only when it is neither the first nor the
  last character of the name (so `.bashrc` and `notes.` have no suffix).
 */
module Paths {
  import opened Text

  /** Position of the dot that starts the suffix, or -1 when there is none. */
  function SuffixDot(name: string): (i: int)
    ensures i == -1 || (0 < i < |name| - 1 && name[i] == '.' && '.' !in name[i + 1..])
  {
    var j := LastIndex(name, '.');
    if 0 < j < |name| - 1 then j else -1
  }

  /** `Path(name).suffix`: empty, or a dot followed by at least one dot-free character, shorter than the name. */
  function Suffix(name: string): (r: string)
    ensures r == "" || (|r| >= 2 && r[0] == '.' && '.' !in r[1..])
    ensures r != "" ==> |r| < |name|
    ensures EndsWithPart(name, r)
  {
    var i := SuffixDot(name);
    if i < 0 then "" else name[i..]
  }

  /**
    A name has no suffix exactly when no dot after its first character is both the last dot
    and followed by something (so `.bashrc`, `.md` and `notes.` have none).
   */
  lemma SuffixEmpty(name: string)
    ensures Suffix(name) == "" <==> forall i :: 0 < i < |name| - 1 && name[i] == '.' ==> '.' in name[i + 1..]
  {
    if SuffixDot(name) < 0 {
      forall k | 0 < k < |name| - 1 && name[k] == '.'
        ensures '.' in name[k + 1..]
      {
        LastDotAfter(name, k);
      }
    }
  }

  /** A dot at `k` that is not the last dot of the name has another dot after it. */
  lemma LastDotAfter(name: string, k: nat)
    requires 0 < k < |name| - 1 && name[k] == '.'
    requires !(0 < LastIndex(name, '.') < |name| - 1)
    ensures '.' in name[k + 1..]
  {
    var j := LastIndex(name, '.');
    assert '.' in name && j >= 0;
    assert j > k;
    assert name[k + 1..][j - k - 1] == name[j];
  }

  /** `Path(name).stem`: the name with its suffix taken off. */
  function Stem(name: string): (r: string)
    ensures r + Suffix(name) == name
  {
    var i := SuffixDot(name);
    if i < 0 then name else name[..i]
  }

  predicate EndsWithPart(s: string, t: string) {
    |t| <= |s| && s[|s| - |t|..] == t
  }

  /** A non-empty base followed by a dot and dot-free text has exactly that suffix and that stem. */
  lemma SuffixOf(base: string, ext: string)
    requires |base| > 0 && |ext| >= 2 && ext[0] == '.' && '.' !in ext[1..]
    ensures Suffix(base + ext) == ext
    ensures Stem(base + ext) == base
  {
    var s := base + ext;
    var j := LastIndex(s, '.');
    assert s[|base|] == '.';
    assert s[|base| + 1..] == ext[1..];
    assert j == |base|;
    assert s[j..] == ext;
    assert s[..j] == base;
  }
}
