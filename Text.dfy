/**
  Python string operations used by the vault scripts, on `seq<char>`.
  Characters are treated as plain code points: no Unicode case folding,
  and line splitting knows only the single separator it is given.
 */
module Text {

  predicate StartsWith(s: string, p: string) {
    |p| <= |s| && s[..|p|] == p
  }

  /** Python's substring test `t in s`. */
  predicate Contains(s: string, t: string)
    decreases |s|
  {
    StartsWith(s, t) || (|s| > 0 && Contains(s[1..], t))
  }

  lemma {:induction false} ContainsExtendRight(b: string, c: string, t: string)
    requires Contains(b, t)
    ensures Contains(b + c, t)
    decreases |b|
  {
    if StartsWith(b, t) {
      assert (b + c)[..|t|] == b[..|t|];
    } else {
      ContainsExtendRight(b[1..], c, t);
      assert (b + c)[1..] == b[1..] + c;
    }
  }

  lemma {:induction false} ContainsExtendLeft(a: string, b: string, t: string)
    requires Contains(b, t)
    ensures Contains(a + b, t)
    decreases |a|
  {
    if |a| == 0 {
      assert a + b == b;
    } else {
      ContainsExtendLeft(a[1..], b, t);
      assert (a + b)[1..] == a[1..] + b;
    }
  }

  /** A substring of a middle piece is a substring of the whole. */
  lemma ContainsInfix(a: string, b: string, c: string, t: string)
    requires Contains(b, t)
    ensures Contains(a + b + c, t)
  {
    ContainsExtendRight(b, c, t);
    ContainsExtendLeft(a, b + c, t);
    assert a + b + c == a + (b + c);
  }

  /** Index of the first `c` in `s` at or after `k`, or -1. */
  function FindFrom(s: string, c: char, k: nat): (i: int)
    requires k <= |s|
    ensures i == -1 || (k <= i < |s| && s[i] == c)
    ensures forall j :: k <= j < |s| && (i == -1 || j < i) ==> s[j] != c
    decreases |s| - k
  {
    if k == |s| then -1
    else if s[k] == c then k
    else FindFrom(s, c, k + 1)
  }

  /** Index of the first `c` in `s` (Python `s.find(c)`), or -1. */
  function FirstIndex(s: string, c: char): (i: int)
    ensures -1 <= i < |s|
    ensures i == -1 <==> c !in s
    ensures i >= 0 ==> s[i] == c && c !in s[..i]
  {
    var i := FindFrom(s, c, 0);
    assert i >= 0 ==> c !in s[..i] by {
      if i >= 0 {
        forall j | 0 <= j < i ensures s[..i][j] != c {
        }
      }
    }
    i
  }

  /** Index of the last `c` in `s` before position `k`, or -1. */
  function FindLast(s: string, c: char, k: nat): (i: int)
    requires k <= |s|
    ensures i == -1 || (0 <= i < k && s[i] == c)
    ensures forall j :: 0 <= j < k && i < j ==> s[j] != c
    decreases k
  {
    if k == 0 then -1
    else if s[k - 1] == c then k - 1
    else FindLast(s, c, k - 1)
  }

  /** Index of the last `c` in `s` (Python `s.rfind(c)`), or -1. */
  function LastIndex(s: string, c: char): (i: int)
    ensures -1 <= i < |s|
    ensures i == -1 <==> c !in s
    ensures i >= 0 ==> s[i] == c && c !in s[i + 1..]
  {
    var i := FindLast(s, c, |s|);
    assert i >= 0 ==> c !in s[i + 1..] by {
      if i >= 0 {
        var t := s[i + 1..];
        forall j | 0 <= j < |t| ensures t[j] != c {
          assert t[j] == s[i + 1 + j];
        }
      }
    }
    i
  }

  /** Python `s.split(sep)` for a one-character separator. */
  function Split(s: string, sep: char): (r: seq<string>)
    ensures |r| >= 1
    ensures forall i :: 0 <= i < |r| ==> sep !in r[i]
    decreases |s|
  {
    if |s| == 0 then [""]
    else if s[0] == sep then [""] + Split(s[1..], sep)
    else
      var rest := Split(s[1..], sep);
      [[s[0]] + rest[0]] + rest[1..]
  }

  /** Python `sep.join(parts)` for a one-character separator. */
  function Join(parts: seq<string>, sep: char): string
    decreases |parts|
  {
    if |parts| == 0 then ""
    else if |parts| == 1 then parts[0]
    else parts[0] + [sep] + Join(parts[1..], sep)
  }

  /** Joining the pieces of a split gives back the original text. */
  lemma {:induction false} JoinSplit(s: string, sep: char)
    ensures Join(Split(s, sep), sep) == s
    decreases |s|
  {
    if |s| == 0 {
    } else if s[0] == sep {
      var rest := Split(s[1..], sep);
      JoinSplit(s[1..], sep);
      assert Split(s, sep) == [""] + rest;
      assert ([""] + rest)[1..] == rest;
      assert s == [sep] + s[1..];
    } else {
      var rest := Split(s[1..], sep);
      JoinSplit(s[1..], sep);
      var r := Split(s, sep);
      assert r == [[s[0]] + rest[0]] + rest[1..];
      if |rest| == 1 {
        assert s == [s[0]] + rest[0];
      } else {
        assert r[1..] == rest[1..];
        assert Join(rest, sep) == rest[0] + [sep] + Join(rest[1..], sep);
        assert s == [s[0]] + s[1..];
      }
    }
  }

  /** Text without the separator splits into itself alone. */
  lemma {:induction false} SplitNoSep(s: string, sep: char)
    requires sep !in s
    ensures Split(s, sep) == [s]
    decreases |s|
  {
    if |s| > 0 {
      SplitNoSep(s[1..], sep);
      assert s == [s[0]] + s[1..];
    }
  }

  /** Splitting a text by its first character. */
  lemma SplitCons(c: char, t: string, sep: char)
    ensures Split([c] + t, sep) ==
      if c == sep then [""] + Split(t, sep) else [[c] + Split(t, sep)[0]] + Split(t, sep)[1..]
  {
    assert ([c] + t)[1..] == t;
  }

  /** Gluing a prefix onto the first piece commutes with appending more pieces. */
  lemma GlueFirst(x: string, ra: seq<string>, rb: seq<string>)
    requires |ra| >= 1
    ensures [x + (ra + rb)[0]] + (ra + rb)[1..] == [x + ra[0]] + ra[1..] + rb
  {
    assert (ra + rb)[0] == ra[0];
    assert (ra + rb)[1..] == ra[1..] + rb;
  }

  /** The step of `SplitAppend` for one more leading character, which is not the separator. */
  lemma SplitAppendCons(c: char, a: string, b: string, sep: char)
    requires c != sep
    requires Split(a + [sep] + b, sep) == Split(a, sep) + Split(b, sep)
    ensures Split([c] + a + [sep] + b, sep) == Split([c] + a, sep) + Split(b, sep)
  {
    var t := a + [sep] + b;
    assert [c] + a + [sep] + b == [c] + t;
    SplitCons(c, t, sep);
    SplitCons(c, a, sep);
    GlueFirst([c], Split(a, sep), Split(b, sep));
  }

  /** The step of `SplitAppend` for one more leading separator. */
  lemma SplitAppendSep(a: string, b: string, sep: char)
    requires Split(a + [sep] + b, sep) == Split(a, sep) + Split(b, sep)
    ensures Split([sep] + a + [sep] + b, sep) == Split([sep] + a, sep) + Split(b, sep)
  {
    var t := a + [sep] + b;
    assert [sep] + a + [sep] + b == [sep] + t;
    SplitCons(sep, t, sep);
    SplitCons(sep, a, sep);
  }

  /** Splitting distributes over a separator occurrence. */
  lemma {:induction false} SplitAppend(a: string, b: string, sep: char)
    ensures Split(a + [sep] + b, sep) == Split(a, sep) + Split(b, sep)
    decreases |a|
  {
    if |a| == 0 {
      assert a + [sep] + b == [sep] + b;
      SplitCons(sep, b, sep);
    } else {
      SplitAppend(a[1..], b, sep);
      if a[0] == sep {
        SplitAppendSep(a[1..], b, sep);
      } else {
        SplitAppendCons(a[0], a[1..], b, sep);
      }
      assert [a[0]] + a[1..] == a;
    }
  }

  /** A substring of one piece is a substring of the joined text. */
  lemma {:induction false} JoinContains(parts: seq<string>, sep: char, k: nat, t: string)
    requires k < |parts|
    requires Contains(parts[k], t)
    ensures Contains(Join(parts, sep), t)
    decreases |parts|
  {
    if |parts| > 1 {
      if k == 0 {
        ContainsExtendRight(parts[0], [sep] + Join(parts[1..], sep), t);
        assert parts[0] + [sep] + Join(parts[1..], sep) == parts[0] + ([sep] + Join(parts[1..], sep));
      } else {
        JoinContains(parts[1..], sep, k - 1, t);
        ContainsExtendLeft(parts[0] + [sep], Join(parts[1..], sep), t);
      }
    }
  }

  /** Splitting the join of separator-free pieces gives back the pieces. */
  lemma {:induction false} SplitJoin(parts: seq<string>, sep: char)
    requires |parts| >= 1
    requires forall i :: 0 <= i < |parts| ==> sep !in parts[i]
    ensures Split(Join(parts, sep), sep) == parts
    decreases |parts|
  {
    if |parts| == 1 {
      SplitNoSep(parts[0], sep);
    } else {
      SplitJoin(parts[1..], sep);
      SplitAppend(parts[0], Join(parts[1..], sep), sep);
      SplitNoSep(parts[0], sep);
      assert parts == [parts[0]] + parts[1..];
    }
  }

  /** Python `s.replace(pat, rep)`: left-to-right, non-overlapping. */
  function Replace(s: string, pat: string, rep: string): string
    requires |pat| > 0
    decreases |s|
  {
    if |s| == 0 then s
    else if StartsWith(s, pat) then rep + Replace(s[|pat|..], pat, rep)
    else [s[0]] + Replace(s[1..], pat, rep)
  }

  /** The number of occurrences that `Replace` rewrites (Python `s.count(pat)`). */
  function Occurrences(s: string, pat: string): nat
    requires |pat| > 0
    decreases |s|
  {
    if |s| == 0 then 0
    else if StartsWith(s, pat) then 1 + Occurrences(s[|pat|..], pat)
    else Occurrences(s[1..], pat)
  }

  lemma {:induction false} OccurrencesPositive(s: string, pat: string)
    requires |pat| > 0
    ensures Occurrences(s, pat) > 0 <==> Contains(s, pat)
    decreases |s|
  {
    if |s| > 0 && !StartsWith(s, pat) {
      OccurrencesPositive(s[1..], pat);
    }
  }

  /** Text without the pattern is left as it is. */
  lemma {:induction false} ReplaceAbsent(s: string, pat: string, rep: string)
    requires |pat| > 0
    requires !Contains(s, pat)
    ensures Replace(s, pat, rep) == s
    decreases |s|
  {
    if |s| > 0 {
      ReplaceAbsent(s[1..], pat, rep);
      assert s == [s[0]] + s[1..];
    }
  }

  lemma MulSucc(k: int, d: int)
    ensures (1 + k) * d == d + k * d
  {
  }

  /** Every rewritten occurrence trades |pat| characters for |rep|; nothing else changes length. */
  lemma {:induction false} ReplaceLength(s: string, pat: string, rep: string)
    requires |pat| > 0
    ensures |Replace(s, pat, rep)| == |s| + Occurrences(s, pat) * (|rep| - |pat|)
    decreases |s|
  {
    if |s| == 0 {
    } else if StartsWith(s, pat) {
      var t := s[|pat|..];
      ReplaceLength(t, pat, rep);
      var k := Occurrences(t, pat);
      var d := |rep| - |pat|;
      assert Occurrences(s, pat) == 1 + k;
      MulSucc(k, d);
      assert |Replace(s, pat, rep)| == |rep| + |Replace(t, pat, rep)|;
      assert |s| == |pat| + |t|;
    } else {
      ReplaceLength(s[1..], pat, rep);
      assert Occurrences(s, pat) == Occurrences(s[1..], pat);
      assert |Replace(s, pat, rep)| == 1 + |Replace(s[1..], pat, rep)|;
    }
  }

  /** When the pattern occurs, the replacement text occurs in the result. */
  lemma {:induction false} ReplaceInserts(s: string, pat: string, rep: string)
    requires |pat| > 0
    requires Contains(s, pat)
    ensures Contains(Replace(s, pat, rep), rep)
    decreases |s|
  {
    if StartsWith(s, pat) {
      var r := Replace(s, pat, rep);
      assert r[..|rep|] == rep;
    } else {
      ReplaceInserts(s[1..], pat, rep);
      ContainsExtendLeft([s[0]], Replace(s[1..], pat, rep), rep);
    }
  }

  /** Up to the first occurrence of the pattern the text is kept, that occurrence becomes the
      replacement, and the rest is replaced on its own: nothing but occurrences is rewritten. */
  lemma {:induction false} ReplaceFirst(a: string, pat: string, b: string, rep: string)
    requires |pat| > 0
    requires forall j :: 0 <= j < |a| ==> !StartsWith((a + pat + b)[j..], pat)
    ensures Replace(a + pat + b, pat, rep) == a + rep + Replace(b, pat, rep)
    decreases |a|
  {
    var s := a + pat + b;
    if |a| == 0 {
      assert s == pat + b;
      assert s[..|pat|] == pat;
      assert s[|pat|..] == b;
    } else {
      assert s[0..] == s;
      var t := a[1..] + pat + b;
      assert s[1..] == t;
      forall j | 0 <= j < |a[1..]| ensures !StartsWith(t[j..], pat) {
        assert t[j..] == s[j + 1..];
      }
      ReplaceFirst(a[1..], pat, b, rep);
      assert [s[0]] + (a[1..] + rep + Replace(b, pat, rep)) == a + rep + Replace(b, pat, rep);
    }
  }

  function Digit(d: nat): (c: char)
    requires d < 10
    ensures '0' <= c <= '9'
  {
    (48 + d) as char
  }

  /** Python `str(n)` for a non-negative integer. */
  function NatToString(n: nat): (r: string)
    ensures |r| >= 1
    ensures forall i :: 0 <= i < |r| ==> '0' <= r[i] <= '9'
    decreases n
  {
    if n < 10 then [Digit(n)] else NatToString(n / 10) + [Digit(n % 10)]
  }

  /** Python `str(i)` for any integer. */
  function IntToString(i: int): (r: string)
    ensures |r| >= 1
  {
    if i < 0 then "-" + NatToString(-i) else NatToString(i)
  }

  function Pow10(d: nat): (p: nat)
    ensures p >= 1
  {
    if d == 0 then 1 else 10 * Pow10(d - 1)
  }

  /** A number of at least 10^d takes more than d digits. */
  lemma {:induction false} NatToStringLong(n: nat, d: nat)
    requires n >= Pow10(d)
    ensures |NatToString(n)| > d
    decreases d
  {
    if d > 0 {
      NatToStringLong(n / 10, d - 1);
    }
  }

  /** The number a string of decimal digits spells. */
  function DigitsValue(r: string): nat
    requires forall i :: 0 <= i < |r| ==> '0' <= r[i] <= '9'
    decreases |r|
  {
    if |r| == 0 then 0
    else DigitsValue(r[..|r| - 1]) * 10 + (r[|r| - 1] as int - '0' as int)
  }

  /** `str(n)` spells `n`, without leading zeros. */
  lemma {:induction false} NatToStringValue(n: nat)
    ensures DigitsValue(NatToString(n)) == n
    ensures |NatToString(n)| > 1 ==> NatToString(n)[0] != '0'
    decreases n
  {
    var r := NatToString(n);
    if n >= 10 {
      NatToStringValue(n / 10);
      var p := NatToString(n / 10);
      assert r[..|r| - 1] == p;
      assert r[0] == p[0];
    }
  }

  function LowerChar(c: char): char {
    if 'A' <= c <= 'Z' then (c as int + 32) as char else c
  }

  /** Python `s.lower()` restricted to ASCII letters. */
  function Lower(s: string): (r: string)
    ensures |r| == |s|
    ensures forall i :: 0 <= i < |s| ==> r[i] == LowerChar(s[i])
    ensures forall i :: 0 <= i < |s| ==> !('A' <= r[i] <= 'Z')
  {
    seq(|s|, i requires 0 <= i < |s| => LowerChar(s[i]))
  }

  /** The ASCII characters Python's argument-less `str.split()` breaks on: space, tab, line feed,
      vertical tab, form feed, carriage return, and the four separators 0x1C to 0x1F. */
  predicate IsSpace(c: char) {
    c == ' ' || c == '\t' || c == '\n' || c == '\r' || c == '\U{0B}' || c == '\U{0C}' ||
    ('\U{1C}' <= c <= '\U{1F}')
  }

  predicate NoSpace(w: string) {
    forall j :: 0 <= j < |w| ==> !IsSpace(w[j])
  }

  /** Python `s.split()`: maximal runs of non-space characters, in order. */
  function Words(s: string): (r: seq<string>)
    ensures forall i :: 0 <= i < |r| ==> |r[i]| > 0 && NoSpace(r[i])
    ensures |s| > 0 && !IsSpace(s[0]) ==> |r| > 0 && r[0][0] == s[0]
    decreases |s|
  {
    if |s| == 0 then []
    else if IsSpace(s[0]) then Words(s[1..])
    else
      var rest := Words(s[1..]);
      if |s| > 1 && !IsSpace(s[1]) then [[s[0]] + rest[0]] + rest[1..]
      else [[s[0]]] + rest
  }

  function Concat(ws: seq<string>): string
    decreases |ws|
  {
    if |ws| == 0 then "" else ws[0] + Concat(ws[1..])
  }

  function RemoveSpaces(s: string): string
    decreases |s|
  {
    if |s| == 0 then "" else (if IsSpace(s[0]) then "" else [s[0]]) + RemoveSpaces(s[1..])
  }

  /** The words hold exactly the non-space characters of the text, in order. */
  lemma {:induction false} WordsKeepLetters(s: string)
    ensures Concat(Words(s)) == RemoveSpaces(s)
    decreases |s|
  {
    if |s| > 0 {
      WordsKeepLetters(s[1..]);
      if !IsSpace(s[0]) {
        var rest := Words(s[1..]);
        if |s| > 1 && !IsSpace(s[1]) {
          var r := [[s[0]] + rest[0]] + rest[1..];
          assert r[1..] == rest[1..];
          assert Concat(rest) == rest[0] + Concat(rest[1..]);
        } else {
          assert ([[s[0]]] + rest)[1..] == rest;
        }
      }
    }
  }

  /** A non-empty space-free text is one word. */
  lemma {:induction false} WordsSingle(s: string)
    requires |s| > 0 && NoSpace(s)
    ensures Words(s) == [s]
    decreases |s|
  {
    assert !IsSpace(s[0]);
    if |s| > 1 {
      var t := s[1..];
      assert NoSpace(t) by {
        forall j | 0 <= j < |t| ensures !IsSpace(t[j]) { assert t[j] == s[j + 1]; }
      }
      WordsSingle(t);
      assert !IsSpace(s[0]) && !IsSpace(s[1]);
      assert Words(s) == [[s[0]] + t] + [t][1..];
      assert s == [s[0]] + t;
    } else {
      assert Words(s[1..]) == [];
      assert Words(s) == [[s[0]]] + [];
      assert s == [s[0]];
    }
  }
  /** A word followed by nothing or by whitespace is cut off whole. */
  lemma {:induction false} WordsPrefix(w: string, rest: string)
    requires |w| > 0 && NoSpace(w)
    requires rest == "" || IsSpace(rest[0])
    ensures Words(w + rest) == [w] + Words(rest)
    decreases |w|
  {
    var s := w + rest;
    assert s[0] == w[0] && !IsSpace(s[0]);
    if |w| == 1 {
      assert s[1..] == rest;
      assert [s[0]] == w;
      assert |s| > 1 ==> s[1] == rest[0];
    } else {
      var t := w[1..];
      assert NoSpace(t) by {
        forall j | 0 <= j < |t| ensures !IsSpace(t[j]) { assert t[j] == w[j + 1]; }
      }
      WordsPrefix(t, rest);
      assert s[1..] == t + rest;
      assert s[1] == w[1] && !IsSpace(s[1]);
      var tail := Words(s[1..]);
      assert tail == [t] + Words(rest);
      assert tail[0] == t && tail[1..] == Words(rest);
      assert [s[0]] + t == w;
    }
  }

  /** A join of several pieces is the first piece, the separator and the join of the rest. */
  lemma JoinCons(parts: seq<string>, sep: char)
    requires |parts| > 1
    ensures Join(parts, sep) == parts[0] + ([sep] + Join(parts[1..], sep))
  {
    assert parts[0] + [sep] + Join(parts[1..], sep) == parts[0] + ([sep] + Join(parts[1..], sep));
  }

  /** A leading blank is dropped. */
  lemma WordsBlank(t: string)
    ensures Words([' '] + t) == Words(t)
  {
    assert ([' '] + t)[1..] == t;
  }

  /** `split()` undoes a join with single spaces: the words are exactly the runs between the
      whitespace, so no other cutting of the text into whitespace-free pieces is produced. */
  lemma {:induction false} WordsJoin(ws: seq<string>)
    requires forall i :: 0 <= i < |ws| ==> |ws[i]| > 0 && NoSpace(ws[i])
    ensures Words(Join(ws, ' ')) == ws
    decreases |ws|
  {
    if |ws| == 1 {
      WordsPrefix(ws[0], "");
      assert ws[0] + "" == ws[0];
    } else if |ws| > 1 {
      var tail := ws[1..];
      assert forall i :: 0 <= i < |tail| ==> tail[i] == ws[i + 1];
      var rest := Join(tail, ' ');
      WordsJoin(tail);
      var blank := [' '] + rest;
      JoinCons(ws, ' ');
      WordsPrefix(ws[0], blank);
      WordsBlank(rest);
      assert ws == [ws[0]] + tail;
    }
  }
}
