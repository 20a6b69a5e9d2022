/**
 * The JavaScript string primitives the parser is built from: `trim()`,
 * `indexOf`, `split(sep)`, `replace(/c/g, '')`, `replace(';', '')` and the
 * `\s` character class of regular expressions.
 */
module Strings {
  import opened Options

  /** JavaScript WhiteSpace and LineTerminator: what `trim()` removes and `\s` matches. */
  predicate IsWhitespace(c: char) {
    || c == ' ' || c == '\t' || c == '\n' || c == '\r' || c == '\U{B}' || c == '\U{C}'
    || c == '\U{A0}' || c == '\U{1680}' || ('\U{2000}' <= c <= '\U{200A}')
    || c == '\U{2028}' || c == '\U{2029}' || c == '\U{202F}' || c == '\U{205F}'
    || c == '\U{3000}' || c == '\U{FEFF}'
  }

  /** The characters a regular-expression `.` refuses to match. */
  predicate IsLineTerminator(c: char) {
    c == '\n' || c == '\r' || c == '\U{2028}' || c == '\U{2029}'
  }

  predicate AllWhitespace(s: string) {
    forall k :: 0 <= k < |s| ==> IsWhitespace(s[k])
  }

  /** Neither begins nor ends with white space. */
  predicate IsTrimmed(s: string) {
    |s| == 0 || (!IsWhitespace(s[0]) && !IsWhitespace(s[|s| - 1]))
  }

  /** `s` is `core`, found at offset `lo`, with only white space around it. */
  predicate PaddedBy(s: string, core: string, lo: nat) {
    && lo + |core| <= |s|
    && s[lo..lo + |core|] == core
    && (forall j :: 0 <= j < lo ==> IsWhitespace(s[j]))
    && (forall j :: lo + |core| <= j < |s| ==> IsWhitespace(s[j]))
  }

  /** The first position at or after `from` that is not white space. */
  function SkipSpace(s: string, from: nat): (k: nat)
    requires from <= |s|
    decreases |s| - from
    ensures from <= k <= |s|
    ensures forall j :: from <= j < k ==> IsWhitespace(s[j])
    ensures k == |s| || !IsWhitespace(s[k])
  {
    if from < |s| && IsWhitespace(s[from]) then SkipSpace(s, from + 1) else from
  }

  /** The end of `s[lo..hi]` once its trailing white space is dropped. */
  function SkipSpaceBack(s: string, lo: nat, hi: nat): (k: nat)
    requires lo <= hi <= |s|
    decreases hi
    ensures lo <= k <= hi
    ensures forall j :: k <= j < hi ==> IsWhitespace(s[j])
    ensures k == lo || !IsWhitespace(s[k - 1])
  {
    if lo < hi && IsWhitespace(s[hi - 1]) then SkipSpaceBack(s, lo, hi - 1) else hi
  }

  /** `s.trim()`. */
  function Trim(s: string): (r: string)
    ensures IsTrimmed(r)
  {
    var lo := SkipSpace(s, 0);
    var hi := SkipSpaceBack(s, lo, |s|);
    assert hi == lo || !IsWhitespace(s[lo]);
    s[lo..hi]
  }

  /** What `trim()` keeps is `s` itself less the white space before its first and after its last other character. */
  lemma TrimPads(s: string)
    ensures PaddedBy(s, Trim(s), SkipSpace(s, 0))
  {
    var lo := SkipSpace(s, 0);
    var hi := SkipSpaceBack(s, lo, |s|);
    assert Trim(s) == s[lo..hi];
  }

  /** `Trim` leaves a string alone when it has nothing to remove. */
  lemma TrimmedFixed(s: string)
    requires IsTrimmed(s)
    ensures Trim(s) == s
  {
    assert s[0..|s|] == s;
    TrimUnique(s, s, 0);
  }

  /** Trimming only removes characters. */
  lemma TrimKeepsAbsent(s: string, c: char)
    requires c !in s
    ensures c !in Trim(s)
  {
    var lo := SkipSpace(s, 0);
    TrimPads(s);
    forall k | 0 <= k < |Trim(s)| ensures Trim(s)[k] != c {
      assert Trim(s)[k] == s[lo + k];
    }
  }

  /** The trimmed core of a padded string is unique: it is what `trim()` returns. */
  lemma TrimUnique(s: string, core: string, lo: nat)
    requires PaddedBy(s, core, lo) && IsTrimmed(core)
    ensures Trim(s) == core
  {
    var r := Trim(s);
    var lo' := SkipSpace(s, 0);
    TrimPads(s);
    if |core| > 0 {
      assert s[lo] == core[0] && s[lo + |core| - 1] == core[|core| - 1];
    }
    if |r| > 0 {
      assert s[lo'] == r[0] && s[lo' + |r| - 1] == r[|r| - 1];
    }
    if |core| > 0 && |r| > 0 {
      assert lo == lo';
      assert lo + |core| == lo' + |r|;
    }
  }

  /** Trimming white space added around a trimmed string gives it back. */
  lemma TrimPadded(lead: string, core: string, trail: string)
    requires AllWhitespace(lead) && AllWhitespace(trail) && IsTrimmed(core)
    ensures Trim(lead + core + trail) == core
  {
    var s := lead + core + trail;
    assert s[..|lead|] == lead;
    assert s[|lead|..|lead| + |core|] == core;
    assert s[|lead| + |core|..] == trail;
    TrimUnique(s, core, |lead|);
  }

  /** `pat` occurs in `s` at offset `k`. */
  predicate OccursAt(s: string, pat: string, k: int) {
    0 <= k && k + |pat| <= |s| && s[k..k + |pat|] == pat
  }

  /** `s.indexOf(pat) != -1`. */
  predicate Contains(s: string, pat: string) {
    exists k :: 0 <= k <= |s| && OccursAt(s, pat, k)
  }

  /** `s.indexOf(pat, from)`: the first occurrence of `pat` at or after `from`. */
  function Find(s: string, pat: string, from: nat): (r: Option<nat>)
    requires from <= |s|
    decreases |s| - from
    ensures r.Some? ==> from <= r.value && OccursAt(s, pat, r.value)
    ensures r.Some? ==> forall k :: from <= k < r.value ==> !OccursAt(s, pat, k)
    ensures r.None? ==> forall k :: from <= k ==> !OccursAt(s, pat, k)
  {
    if from + |pat| > |s| then None
    else if s[from..from + |pat|] == pat then Some(from)
    else Find(s, pat, from + 1)
  }

  /** A single character occurs as a one-character pattern exactly when it is an element. */
  lemma ContainsChar(s: string, c: char)
    ensures Contains(s, [c]) <==> c in s
  {
    if c in s {
      var k :| 0 <= k < |s| && s[k] == c;
      assert OccursAt(s, [c], k);
    }
    if Contains(s, [c]) {
      var k :| 0 <= k <= |s| && OccursAt(s, [c], k);
      assert s[k] == s[k..k + 1][0];
    }
  }

  /** An occurrence in a prefix is an occurrence in the whole string. */
  lemma ContainsPrefix(a: string, b: string, pat: string)
    requires Contains(a, pat)
    ensures Contains(a + b, pat)
  {
    var k :| 0 <= k <= |a| && OccursAt(a, pat, k);
    assert k + |pat| <= |a|;
    assert (a + b)[k..k + |pat|] == a[k..k + |pat|];
    assert OccursAt(a + b, pat, k);
  }

  /** The inverse of `Split`: the parts glued back together with `sep`. */
  function Join(parts: seq<string>, sep: string): string {
    if |parts| == 0 then ""
    else if |parts| == 1 then parts[0]
    else parts[0] + sep + Join(parts[1..], sep)
  }

  /** `s.split(sep)` for a non-empty separator string. */
  function Split(s: string, sep: string): (parts: seq<string>)
    requires |sep| > 0
    decreases |s|
    ensures |parts| >= 1
  {
    match Find(s, sep, 0)
    case None => [s]
    case Some(k) => [s[..k]] + Split(s[k + |sep|..], sep)
  }

  /** Joining the parts of a split gives the string back, and no part holds the separator. */
  lemma {:induction false} SplitParts(s: string, sep: string)
    requires |sep| > 0
    decreases |s|
    ensures Join(Split(s, sep), sep) == s
    ensures forall i :: 0 <= i < |Split(s, sep)| ==> !Contains(Split(s, sep)[i], sep)
  {
    match Find(s, sep, 0)
    case None =>
    case Some(k) =>
      var head, tail := s[..k], s[k + |sep|..];
      var rest := Split(tail, sep);
      SplitParts(tail, sep);
      SplitAt(s, sep, k);
      JoinCons(head, rest, sep);
      assert forall i :: 1 <= i < |[head] + rest| ==> ([head] + rest)[i] == rest[i - 1];
  }

  /** The split at the first occurrence `k` of the separator. */
  lemma SplitAt(s: string, sep: string, k: nat)
    requires |sep| > 0 && Find(s, sep, 0) == Some(k)
    ensures k + |sep| <= |s| && s == s[..k] + sep + s[k + |sep|..]
    ensures !Contains(s[..k], sep)
    ensures Split(s, sep) == [s[..k]] + Split(s[k + |sep|..], sep)
  {
    NoOccurrenceBefore(s, sep, k);
    assert OccursAt(s, sep, k);
  }

  /** The split has more than one part exactly when the separator occurs. */
  lemma SplitCount(s: string, sep: string)
    requires |sep| > 0
    ensures |Split(s, sep)| == 1 <==> !Contains(s, sep)
  {
    match Find(s, sep, 0)
    case None =>
    case Some(k) =>
      assert OccursAt(s, sep, k);
      assert |Split(s[k + |sep|..], sep)| >= 1;
  }

  lemma NoOccurrenceBefore(s: string, sep: string, k: nat)
    requires k <= |s| && |sep| > 0
    requires forall j :: 0 <= j < k ==> !OccursAt(s, sep, j)
    ensures !Contains(s[..k], sep)
  {
    forall j | 0 <= j <= k && OccursAt(s[..k], sep, j) ensures false {
      assert s[j..j + |sep|] == s[..k][j..j + |sep|];
      assert OccursAt(s, sep, j);
    }
  }

  lemma JoinCons(head: string, rest: seq<string>, sep: string)
    requires |rest| >= 1
    ensures Join([head] + rest, sep) == head + sep + Join(rest, sep)
  {
    assert ([head] + rest)[1..] == rest;
  }

  /** Splitting a joined list gives it back, provided no separator can straddle a part's end. */
  lemma {:induction false} SplitJoin(parts: seq<string>, sep: string)
    requires |sep| > 0 && |parts| >= 1
    requires forall i :: 0 <= i < |parts| ==> !Contains(parts[i] + sep[..|sep| - 1], sep)
    ensures Split(Join(parts, sep), sep) == parts
  {
    var p := parts[0];
    if |parts| == 1 {
      if Contains(p, sep) {
        ContainsPrefix(p, sep[..|sep| - 1], sep);
      }
    } else {
      var rest := Join(parts[1..], sep);
      FirstSeparator(p, sep, rest);
      SplitJoin(parts[1..], sep);
      assert [p] + parts[1..] == parts;
    }
  }

  /** When no separator ends inside `p`, the first one in `p + sep + rest` is the one after `p`. */
  lemma FirstSeparator(p: string, sep: string, rest: string)
    requires |sep| > 0 && !Contains(p + sep[..|sep| - 1], sep)
    ensures var s := p + sep + rest;
      Find(s, sep, 0) == Some(|p|) && s[..|p|] == p && s[|p| + |sep|..] == rest
  {
    ConcatCuts(p, sep, rest);
    NoEarlySeparator(p, sep, rest);
    FindFirst(p + sep + rest, sep, |p|);
  }

  lemma ConcatCuts(p: string, sep: string, rest: string)
    ensures var s := p + sep + rest;
      OccursAt(s, sep, |p|) && s[..|p|] == p && s[|p| + |sep|..] == rest
  {
    var s := p + sep + rest;
    assert s[|p|..|p| + |sep|] == sep;
    assert s[..|p|] == p;
    assert s[|p| + |sep|..] == rest;
  }

  /** An occurrence with none before it is the one `indexOf` finds. */
  lemma FindFirst(s: string, pat: string, k: nat)
    requires OccursAt(s, pat, k)
    requires forall j :: 0 <= j < k ==> !OccursAt(s, pat, j)
    ensures Find(s, pat, 0) == Some(k)
  {
  }

  lemma NoEarlySeparator(p: string, sep: string, rest: string)
    requires |sep| > 0 && !Contains(p + sep[..|sep| - 1], sep)
    ensures forall k :: 0 <= k < |p| ==> !OccursAt(p + sep + rest, sep, k)
  {
    var s := p + sep + rest;
    var w := p + sep[..|sep| - 1];
    forall k | 0 <= k < |p| ensures !OccursAt(s, sep, k) {
      if OccursAt(s, sep, k) {
        assert s[k..k + |sep|] == w[k..k + |sep|];
        assert OccursAt(w, sep, k);
      }
    }
  }

  const CRLF: string := "\r\n"

  /** The last element of `s.split('\r\n')`. */
  function LastLine(s: string): (r: string)
    ensures !Contains(r, CRLF)
    ensures |r| <= |s| && s[|s| - |r|..] == r
    ensures !Contains(s, CRLF) ==> r == s
    ensures Contains(s, CRLF) ==> |r| + 2 <= |s| && s[|s| - |r| - 2..|s| - |r|] == CRLF
  {
    var lines := Split(s, CRLF);
    SplitParts(s, CRLF);
    JoinEndsWithLast(lines, CRLF);
    SplitCount(s, CRLF);
    var l := lines[|lines| - 1];
    if |lines| > 1 then
      JoinEndsWithSepLast(lines, CRLF);
      assert s[|s| - |l| - 2..|s| - |l|] == (CRLF + l)[..2];
      l
    else l
  }

  /** With two parts or more, the last part follows a separator. */
  lemma {:induction false} JoinEndsWithSepLast(parts: seq<string>, sep: string)
    requires |parts| >= 2
    ensures var j, l := Join(parts, sep), parts[|parts| - 1];
      |sep| + |l| <= |j| && j[|j| - |l| - |sep|..] == sep + l
  {
    var l := parts[|parts| - 1];
    if |parts| > 2 {
      var rest := Join(parts[1..], sep);
      JoinEndsWithSepLast(parts[1..], sep);
      assert Join(parts, sep) == parts[0] + sep + rest;
      assert (parts[0] + sep + rest)[|parts[0] + sep + rest| - |l| - |sep|..] == rest[|rest| - |l| - |sep|..];
    } else {
      assert Join(parts, sep) == parts[0] + sep + l;
    }
  }

  lemma {:induction false} JoinEndsWithLast(parts: seq<string>, sep: string)
    requires |parts| >= 1
    ensures var j, l := Join(parts, sep), parts[|parts| - 1]; |l| <= |j| && j[|j| - |l|..] == l
  {
    if |parts| > 1 {
      JoinEndsWithLast(parts[1..], sep);
    }
  }

  lemma CrlfAt(s: string, k: int)
    requires OccursAt(s, CRLF, k)
    ensures k + 1 < |s| && s[k] == '\r' && s[k + 1] == '\n'
  {
    assert s[k] == s[k..k + 2][0];
    assert s[k + 1] == s[k..k + 2][1];
  }

  /** Without a carriage return, a line cannot complete a `\r\n` with one that follows it. */
  lemma NoCrlfAcross(s: string)
    requires '\r' !in s
    ensures !Contains(s + "\r", CRLF)
  {
    var t := s + "\r";
    assert forall k :: 0 <= k < |t| && t[k] == '\r' ==> k == |s| by {
      forall k | 0 <= k < |s| ensures t[k] == s[k] {
      }
    }
    forall k | 0 <= k <= |t| && OccursAt(t, CRLF, k) ensures false {
      CrlfAt(t, k);
    }
  }

  /** `s.replace(/c/g, '')`: every occurrence of `c` deleted. */
  function RemoveAll(s: string, c: char): (r: string)
    ensures c !in r
    ensures c !in s ==> r == s
  {
    if s == [] then []
    else
      assert s == [s[0]] + s[1..];
      (if s[0] == c then [] else [s[0]]) + RemoveAll(s[1..], c)
  }

  /** Only `c` is deleted: every other character keeps its number of occurrences. */
  lemma {:induction false} RemoveAllCounts(s: string, c: char)
    ensures multiset(RemoveAll(s, c)) == multiset(s)[c := 0]
  {
    if s != [] {
      RemoveAllCounts(s[1..], c);
      assert s == [s[0]] + s[1..];
    }
  }

  /** Deleting characters commutes with concatenation, so the survivors keep their order. */
  lemma {:induction false} RemoveAllConcat(a: string, b: string, c: char)
    ensures RemoveAll(a + b, c) == RemoveAll(a, c) + RemoveAll(b, c)
  {
    if a == [] {
      assert a + b == b;
    } else {
      assert (a + b)[0] == a[0];
      assert (a + b)[1..] == a[1..] + b;
      RemoveAllConcat(a[1..], b, c);
    }
  }

  /** `s.replace(';', '')` with a string pattern: only the first occurrence of `c` deleted. */
  function DeleteFirst(s: string, c: char): (r: string)
    ensures c !in s ==> r == s
    ensures c in s ==> exists k :: 0 <= k < |s| && s[k] == c && c !in s[..k] && r == s[..k] + s[k + 1..]
    ensures c in s ==> |r| == |s| - 1 && multiset(r) == multiset(s) - multiset{c}
  {
    ContainsChar(s, c);
    match Find(s, [c], 0)
    case None => s
    case Some(k) =>
      assert s[k] == s[k..k + 1][0];
      assert c !in s[..k] by {
        NoOccurrenceBefore(s, [c], k);
        ContainsChar(s[..k], c);
      }
      assert s == s[..k] + [s[k]] + s[k + 1..];
      s[..k] + s[k + 1..]
  }

  /** Deleting the first `c` of a string that ends in its only `c` drops that last character. */
  lemma DeleteFirstLast(v: string, c: char)
    requires c !in v
    ensures DeleteFirst(v + [c], c) == v
  {
    var s := v + [c];
    assert s[|v|] == c;
    var k :| 0 <= k < |s| && s[k] == c && c !in s[..k] && DeleteFirst(s, c) == s[..k] + s[k + 1..];
    assert s[..|v|] == v;
  }

  /** `utils.toUpperCaseFirst`: the first letter capitalised (ASCII letters only). */
  function UpperFirst(s: string): (r: string)
    ensures |r| == |s| && (|s| > 0 ==> r[1..] == s[1..])
    ensures |s| > 0 ==> !('a' <= r[0] <= 'z')
    ensures |s| > 0 ==> LowerChar(r[0]) == LowerChar(s[0])
  {
    if |s| > 0 && 'a' <= s[0] <= 'z' then [(s[0] as int - 32) as char] + s[1..] else s
  }

  function LowerChar(c: char): char {
    if 'A' <= c <= 'Z' then (c as int + 32) as char else c
  }

  /** `s.toLowerCase()` for ASCII text. */
  function Lower(s: string): (r: string)
    ensures |r| == |s|
    ensures forall k :: 0 <= k < |s| ==> !('A' <= r[k] <= 'Z')
  {
    if s == [] then [] else [LowerChar(s[0])] + Lower(s[1..])
  }
}
