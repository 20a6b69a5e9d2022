/**
 * The header classifier (`processRegion`): the single line in front of an
 * opening brace is tried against the numbered pattern
 * `([a-z]+)\s([0-9]+)\s(.*)`, then against the keyword pattern
 * `([aA-zZ]+)\((.*)\)`, and otherwise taken verbatim.
 *
 * Both patterns are unanchored, so the first match is the leftmost one; for a
 * fixed start the regular-expression engine prefers the longest run for each
 * greedy group. The predicates `NumberedAt` and `KeywordAt` state which
 * decompositions the patterns accept; the scanning functions below compute the
 * one the engine picks, and their contracts say so.
 */
module Headers {
  import opened Options
  import opened Strings

  /** The character classes the two patterns use. `[aA-zZ]` is the range 'A'..'z'. */
  datatype CharClass = Lower | Digit | KeywordChar | NotLineEnd

  predicate InClass(c: char, cls: CharClass) {
    match cls
    case Lower => 'a' <= c <= 'z'
    case Digit => '0' <= c <= '9'
    case KeywordChar => 'A' <= c <= 'z'
    case NotLineEnd => !IsLineTerminator(c)
  }

  /** Every character of `s[lo..hi]` is in `cls`. */
  predicate AllIn(s: string, lo: int, hi: int, cls: CharClass) {
    0 <= lo <= hi <= |s| && forall k :: lo <= k < hi ==> InClass(s[k], cls)
  }

  /** The end of the longest run of `cls` characters starting at `from`. */
  function RunEnd(s: string, from: nat, cls: CharClass): (e: nat)
    requires from <= |s|
    decreases |s| - from
    ensures from <= e <= |s| && AllIn(s, from, e, cls)
    ensures e == |s| || !InClass(s[e], cls)
  {
    if from < |s| && InClass(s[from], cls) then RunEnd(s, from + 1, cls) else from
  }

  /** A run of `cls` that cannot be extended is the longest one. */
  lemma RunEndUnique(s: string, from: nat, cls: CharClass, e: int)
    requires from <= |s| && AllIn(s, from, e, cls) && (e == |s| || !InClass(s[e], cls))
    ensures e == RunEnd(s, from, cls)
  {
    var e' := RunEnd(s, from, cls);
  }

  /**
   * `([a-z]+)\s([0-9]+)\s(.*)` matches `s` from `p` with groups
   * `s[p..q]`, `s[q + 1..d]` and `s[d + 1..e]`.
   */
  predicate NumberedAt(s: string, p: int, q: int, d: int, e: int) {
    && 0 <= p < q && q + 1 < d && d + 1 <= e <= |s|
    && AllIn(s, p, q, Lower) && IsWhitespace(s[q])
    && AllIn(s, q + 1, d, Digit) && IsWhitespace(s[d])
    && AllIn(s, d + 1, e, NotLineEnd)
  }

  /** `([aA-zZ]+)\((.*)\)` matches `s` from `p` with groups `s[p..q]` and `s[q + 1..c]`. */
  predicate KeywordAt(s: string, p: int, q: int, c: int) {
    && 0 <= p < q < c < |s|
    && AllIn(s, p, q, KeywordChar) && s[q] == '('
    && AllIn(s, q + 1, c, NotLineEnd) && s[c] == ')'
  }

  /** The match the engine reports for the numbered pattern: leftmost start, longest tail. */
  ghost predicate FirstNumbered(s: string, p: int, q: int, d: int, e: int) {
    && NumberedAt(s, p, q, d, e)
    && (forall p', q', d', e' :: NumberedAt(s, p', q', d', e') ==> p <= p')
    && (e == |s| || IsLineTerminator(s[e]))
  }

  /** The match the engine reports for the keyword pattern: leftmost start, last closing parenthesis. */
  ghost predicate FirstKeyword(s: string, p: int, q: int, c: int) {
    && KeywordAt(s, p, q, c)
    && (forall p', q', c' :: KeywordAt(s, p', q', c') ==> p <= p')
    && (forall c' :: KeywordAt(s, p, q, c') ==> c' <= c)
  }

  ghost predicate NoNumbered(s: string) {
    forall p, q, d, e :: !NumberedAt(s, p, q, d, e)
  }

  ghost predicate NoKeyword(s: string) {
    forall p, q, c :: !KeywordAt(s, p, q, c)
  }

  datatype Numbered = Numbered(p: nat, q: nat, d: nat, e: nat)

  /** The numbered pattern tried at `p` alone. */
  function NumberedStartingAt(s: string, p: nat): (r: Option<Numbered>)
    requires p <= |s|
    ensures r.Some? ==> r.value.p == p && NumberedAt(s, p, r.value.q, r.value.d, r.value.e)
    ensures r.Some? ==> r.value.e == |s| || IsLineTerminator(s[r.value.e])
    ensures r.None? ==> forall q, d, e :: !NumberedAt(s, p, q, d, e)
  {
    var q := RunEnd(s, p, Lower);
    if q == p || q == |s| || !IsWhitespace(s[q]) then
      forall q', d, e | NumberedAt(s, p, q', d, e) ensures false {
        RunEndUnique(s, p, Lower, q');
      }
      None
    else
      var d := RunEnd(s, q + 1, Digit);
      if d == q + 1 || d == |s| || !IsWhitespace(s[d]) then
        forall q', d', e | NumberedAt(s, p, q', d', e) ensures false {
          RunEndUnique(s, p, Lower, q');
        }
        None
      else
        var e := RunEnd(s, d + 1, NotLineEnd);
        Some(Numbered(p, q, d, e))
  }

  lemma NumberedHasDigit(s: string, p: int, q: int, d: int, e: int)
    requires NumberedAt(s, p, q, d, e)
    ensures InClass(s[q + 1], Digit)
  {
  }

  /** At a fixed start the numbered pattern has one way to match, up to where its tail stops. */
  lemma NumberedDeterministic(s: string, p: nat, q: int, d: int, e: int, q': int, d': int, e': int)
    requires NumberedAt(s, p, q, d, e) && NumberedAt(s, p, q', d', e')
    requires e' == |s| || IsLineTerminator(s[e'])
    ensures q == q' && d == d' && e <= e'
  {
    RunEndUnique(s, p, Lower, q);
    RunEndUnique(s, p, Lower, q');
    RunEndUnique(s, q + 1, Digit, d);
    RunEndUnique(s, q + 1, Digit, d');
  }

  /** The match of the numbered pattern the scan from `from` stops at. */
  function NumberedFrom(s: string, from: nat): (r: Option<Numbered>)
    requires from <= |s|
    decreases |s| - from
    ensures r.Some? ==> from <= r.value.p < r.value.q < r.value.d < r.value.e <= |s|
  {
    if from == |s| then None
    else
      match NumberedStartingAt(s, from)
      case Some(m) => Some(m)
      case None => NumberedFrom(s, from + 1)
  }

  /**
   * The scan finds the leftmost match of the numbered pattern at or after
   * `from`, its tail running to the end of the line, and finds nothing only
   * when there is none.
   */
  lemma NumberedFromSpec(s: string, from: nat)
    requires from <= |s|
    ensures var r := NumberedFrom(s, from);
      && (r.Some? ==> NumberedAt(s, r.value.p, r.value.q, r.value.d, r.value.e))
      && (r.Some? ==> r.value.e == |s| || IsLineTerminator(s[r.value.e]))
      && (r.Some? ==> forall p, q, d, e :: from <= p && NumberedAt(s, p, q, d, e) ==> r.value.p <= p)
      && (r.None? ==> forall p, q, d, e :: from <= p ==> !NumberedAt(s, p, q, d, e))
  {
    NumberedFromMatches(s, from);
    NumberedFromLeftmost(s, from);
  }

  /** What the scan stops at is a match of the numbered pattern whose tail runs to the end of the line. */
  lemma {:induction false} NumberedFromMatches(s: string, from: nat)
    requires from <= |s|
    decreases |s| - from
    ensures var r := NumberedFrom(s, from);
      && (r.Some? ==> NumberedAt(s, r.value.p, r.value.q, r.value.d, r.value.e))
      && (r.Some? ==> r.value.e == |s| || IsLineTerminator(s[r.value.e]))
  {
    if from < |s| && NumberedStartingAt(s, from).None? {
      NumberedFromMatches(s, from + 1);
    }
  }

  /** The scan misses no earlier match, and finds nothing only when there is none. */
  lemma {:induction false} NumberedFromLeftmost(s: string, from: nat)
    requires from <= |s|
    decreases |s| - from
    ensures var r := NumberedFrom(s, from);
      && (r.Some? ==> forall p, q, d, e :: from <= p && NumberedAt(s, p, q, d, e) ==> r.value.p <= p)
      && (r.None? ==> forall p, q, d, e :: from <= p ==> !NumberedAt(s, p, q, d, e))
  {
    if from < |s| && NumberedStartingAt(s, from).None? {
      NumberedFromLeftmost(s, from + 1);
      assert NumberedFrom(s, from) == NumberedFrom(s, from + 1);
      assert forall p, q, d, e :: from <= p && NumberedAt(s, p, q, d, e) ==> from + 1 <= p;
    }
  }

  datatype Keyword = Keyword(p: nat, q: nat, c: nat)

  /** The last `)` in `s[lo..hi]`. */
  function LastParen(s: string, lo: nat, hi: nat): (r: Option<nat>)
    requires lo <= hi <= |s|
    decreases hi
    ensures r.Some? ==> lo <= r.value < hi && s[r.value] == ')'
    ensures r.Some? ==> forall k :: r.value < k < hi ==> s[k] != ')'
    ensures r.None? ==> forall k :: lo <= k < hi ==> s[k] != ')'
  {
    if hi == lo then None
    else if s[hi - 1] == ')' then Some(hi - 1)
    else LastParen(s, lo, hi - 1)
  }

  /** The keyword pattern tried at `p` alone. */
  function KeywordStartingAt(s: string, p: nat): (r: Option<Keyword>)
    requires p <= |s|
    ensures r.Some? ==> r.value.p == p && KeywordAt(s, p, r.value.q, r.value.c)
    ensures r.Some? ==> forall q, c :: KeywordAt(s, p, q, c) ==> c <= r.value.c
    ensures r.None? ==> forall q, c :: !KeywordAt(s, p, q, c)
  {
    var q := RunEnd(s, p, KeywordChar);
    if q == p || q == |s| || s[q] != '(' then
      forall q', c | KeywordAt(s, p, q', c) ensures false {
        RunEndUnique(s, p, KeywordChar, q');
      }
      None
    else
      var e := RunEnd(s, q + 1, NotLineEnd);
      assert forall q', c :: KeywordAt(s, p, q', c) ==> q' == q && c < e && s[c] == ')' by {
        forall q', c | KeywordAt(s, p, q', c) ensures q' == q && c < e {
          RunEndUnique(s, p, KeywordChar, q');
        }
      }
      match LastParen(s, q + 1, e)
      case None => None
      case Some(c) => Some(Keyword(p, q, c))
  }

  /** The match of the keyword pattern the scan from `from` stops at. */
  function KeywordFrom(s: string, from: nat): (r: Option<Keyword>)
    requires from <= |s|
    decreases |s| - from
    ensures r.Some? ==> from <= r.value.p < r.value.q < r.value.c < |s|
  {
    if from == |s| then None
    else
      match KeywordStartingAt(s, from)
      case Some(m) => Some(m)
      case None => KeywordFrom(s, from + 1)
  }

  /**
   * The scan finds the leftmost match of the keyword pattern at or after
   * `from`, closed at its last `)`, and finds nothing only when there is none.
   */
  lemma {:induction false} KeywordFromSpec(s: string, from: nat)
    requires from <= |s|
    decreases |s| - from
    ensures var r := KeywordFrom(s, from);
      && (r.Some? ==> KeywordAt(s, r.value.p, r.value.q, r.value.c))
      && (r.Some? ==> forall q, c :: KeywordAt(s, r.value.p, q, c) ==> c <= r.value.c)
      && (r.Some? ==> forall p, q, c :: from <= p && KeywordAt(s, p, q, c) ==> r.value.p <= p)
      && (r.None? ==> forall p, q, c :: from <= p ==> !KeywordAt(s, p, q, c))
  {
    if from < |s| {
      match KeywordStartingAt(s, from)
      case Some(m) =>
        assert KeywordFrom(s, from) == Some(m);
      case None =>
        KeywordFromSpec(s, from + 1);
        assert KeywordFrom(s, from) == KeywordFrom(s, from + 1);
    }
  }

  /** `Number.parseInt` on a string of decimal digits. */
  function DigitsValue(ds: string): nat {
    if ds == [] then 0
    else DigitsValue(ds[..|ds| - 1]) * 10 + (ds[|ds| - 1] as int - '0' as int) % 10
  }

  /** The decimal numeral of `n`, without leading zeros. */
  function Numeral(n: nat): (ds: string)
    ensures |ds| > 0 && AllIn(ds, 0, |ds|, Digit)
  {
    var last := ['0' + (n % 10) as char];
    if n < 10 then last else Numeral(n / 10) + last
  }

  /** Reading the numeral of `n` gives back `n`. */
  lemma {:induction false} NumeralValue(n: nat)
    ensures DigitsValue(Numeral(n)) == n
  {
    var ds := Numeral(n);
    if n >= 10 {
      NumeralValue(n / 10);
      assert ds[..|ds| - 1] == Numeral(n / 10);
    }
  }

  /** What `processRegion` returns. */
  datatype Header = Header(region: string, name: string, objType: string, id: nat)

  /** A group's text with every `"` removed, then trimmed. */
  function Unquote(s: string): (r: string)
    ensures '"' !in r && IsTrimmed(r)
  {
    TrimKeepsAbsent(RemoveAll(s, '"'), '"');
    Trim(RemoveAll(s, '"'))
  }

  /**
   * `processRegion(line)`: the trimmed line's numbered match, else its keyword
   * match, else the line itself.
   */
  function Classify(line: string): Header {
    ClassifyTrimmed(Trim(line))
  }

  /** `processRegion` after its `trim()`. */
  function ClassifyTrimmed(t: string): Header {
    match NumberedFrom(t, 0)
    case Some(m) =>
      Header(t[m.p..m.q], Unquote(t[m.d + 1..m.e]), t[m.p..m.q], DigitsValue(t[m.q + 1..m.d]))
    case None =>
      match KeywordFrom(t, 0)
      case Some(k) => Header(t[k.p..k.q], Unquote(t[k.q + 1..k.c]), "", 0)
      case None => Header(t, "", "", 0)
  }

  /** The scan finds exactly the match the engine reports for the numbered pattern. */
  lemma NumberedFromFirst(t: string, p: int, q: int, d: int, e: int)
    requires FirstNumbered(t, p, q, d, e)
    ensures NumberedFrom(t, 0) == Some(Numbered(p, q, d, e))
  {
    NumberedFromSpec(t, 0);
    var m := NumberedFrom(t, 0).value;
    NumberedDeterministic(t, p, q, d, e, m.q, m.d, m.e);
    NumberedDeterministic(t, p, m.q, m.d, m.e, q, d, e);
  }

  /** The scan finds exactly the match the engine reports for the keyword pattern. */
  lemma KeywordFromFirst(t: string, p: int, q: int, c: int)
    requires FirstKeyword(t, p, q, c)
    ensures KeywordFrom(t, 0) == Some(Keyword(p, q, c))
  {
    KeywordFromSpec(t, 0);
    var k := KeywordFrom(t, 0).value;
    RunEndUnique(t, p, KeywordChar, q);
    RunEndUnique(t, p, KeywordChar, k.q);
  }

  /** A line the numbered pattern matches gives its three groups: keyword, number, unquoted name. */
  lemma ClassifyNumbered(line: string, p: int, q: int, d: int, e: int)
    requires FirstNumbered(Trim(line), p, q, d, e)
    ensures var t := Trim(line);
      Classify(line) == Header(t[p..q], Unquote(t[d + 1..e]), t[p..q], DigitsValue(t[q + 1..d]))
  {
    ClassifyTrimmedNumbered(Trim(line), p, q, d, e);
  }

  lemma ClassifyTrimmedNumbered(t: string, p: int, q: int, d: int, e: int)
    requires FirstNumbered(t, p, q, d, e)
    ensures ClassifyTrimmed(t) == Header(t[p..q], Unquote(t[d + 1..e]), t[p..q], DigitsValue(t[q + 1..d]))
  {
    NumberedFromFirst(t, p, q, d, e);
  }

  /** A line only the keyword pattern matches gives the keyword and the unquoted parenthesised text. */
  lemma ClassifyKeyword(line: string, p: int, q: int, c: int)
    requires NoNumbered(Trim(line)) && FirstKeyword(Trim(line), p, q, c)
    ensures var t := Trim(line);
      Classify(line) == Header(t[p..q], Unquote(t[q + 1..c]), "", 0)
  {
    ClassifyTrimmedKeyword(Trim(line), p, q, c);
  }

  lemma ClassifyTrimmedKeyword(t: string, p: int, q: int, c: int)
    requires NoNumbered(t) && FirstKeyword(t, p, q, c)
    ensures ClassifyTrimmed(t) == Header(t[p..q], Unquote(t[q + 1..c]), "", 0)
  {
    NoNumberedFrom(t);
    KeywordFromFirst(t, p, q, c);
    var k := KeywordFrom(t, 0).value;
    assert k.p == p && k.q == q && k.c == c;
  }

  lemma NoNumberedFrom(t: string)
    requires NoNumbered(t)
    ensures NumberedFrom(t, 0).None?
  {
    NumberedFromSpec(t, 0);
  }

  /** Only a line the numbered pattern matches gets a type. */
  lemma ClassifyTyped(line: string)
    ensures Classify(line).objType != "" <==> !NoNumbered(Trim(line))
  {
    NumberedFromSpec(Trim(line), 0);
  }

  /** A line neither pattern matches is its own region, trimmed. */
  lemma ClassifyVerbatim(line: string)
    requires NoNumbered(Trim(line)) && NoKeyword(Trim(line))
    ensures Classify(line) == Header(Trim(line), "", "", 0)
  {
    NumberedFromSpec(Trim(line), 0);
    KeywordFromSpec(Trim(line), 0);
  }

  /**
   * An object declaration `kw id "name"` classifies back into its keyword
   * (as both region and type), its id and its unquoted name.
   */
  lemma ClassifyObjectDeclaration(kw: string, id: nat, name: string)
    requires |kw| > 0 && AllIn(kw, 0, |kw|, Lower)
    requires '"' !in name && AllIn(name, 0, |name|, NotLineEnd) && IsTrimmed(name)
    ensures Classify(kw + " " + Numeral(id) + " \"" + name + "\"") == Header(kw, name, kw, id)
  {
    var ds := Numeral(id);
    var s := kw + " " + ds + " \"" + name + "\"";
    var q, d := |kw|, |kw| + 1 + |ds|;
    DeclarationShape(kw, ds, name);
    TrimmedFixed(s);
    DeclarationMatches(kw, ds, name);
    ClassifyTrimmedNumbered(s, 0, q, d, |s|);
    UnquoteQuoted(name);
    NumeralValue(id);
  }

  /** A declaration line is already trimmed, and its three groups sit where they were put. */
  lemma DeclarationShape(kw: string, ds: string, name: string)
    requires |kw| > 0 && AllIn(kw, 0, |kw|, Lower)
    ensures var s := kw + " " + ds + " \"" + name + "\"";
      var q, d := |kw|, |kw| + 1 + |ds|;
      && IsTrimmed(s)
      && s[0..q] == kw && s[q + 1..d] == ds && s[d + 1..|s|] == "\"" + name + "\""
  {
    var s := kw + " " + ds + " \"" + name + "\"";
    assert s[0] == kw[0];
  }

  /** The numbered pattern matches a declaration line from its first character to its end. */
  lemma DeclarationMatches(kw: string, ds: string, name: string)
    requires |kw| > 0 && AllIn(kw, 0, |kw|, Lower)
    requires |ds| > 0 && AllIn(ds, 0, |ds|, Digit)
    requires AllIn(name, 0, |name|, NotLineEnd)
    ensures var s := kw + " " + ds + " \"" + name + "\"";
      FirstNumbered(s, 0, |kw|, |kw| + 1 + |ds|, |s|)
  {
    var s := kw + " " + ds + " \"" + name + "\"";
    var q, d := |kw|, |kw| + 1 + |ds|;
    forall k | q + 1 <= k < d ensures InClass(s[k], Digit) {
      assert s[k] == ds[k - q - 1];
    }
    forall k | 0 <= k < q ensures InClass(s[k], Lower) {
      assert s[k] == kw[k];
    }
    forall k | d + 1 <= k < |s| ensures InClass(s[k], NotLineEnd) {
      if d + 1 < k < |s| - 1 {
        assert s[k] == name[k - d - 2];
      }
    }
    assert NumberedAt(s, 0, q, d, |s|);
  }

  /** Quoting a trimmed, quote-free name and unquoting it gives the name back. */
  lemma UnquoteQuoted(name: string)
    requires '"' !in name && IsTrimmed(name)
    ensures Unquote("\"" + name + "\"") == name
  {
    RemoveAllConcat("\"" + name, "\"", '"');
    RemoveAllConcat("\"", name, '"');
    assert RemoveAll("\"", '"') == "" by {
      assert "\""[1..] == "";
    }
    TrimmedFixed(name);
  }

  /**
   * A block opener `kw(args)` with no digits in it classifies into region
   * `kw`, name `args` unquoted, no type and id 0.
   */
  lemma ClassifyBlockOpener(kw: string, args: string)
    requires |kw| > 0 && AllIn(kw, 0, |kw|, KeywordChar)
    requires '"' !in args && AllIn(args, 0, |args|, NotLineEnd) && IsTrimmed(args)
    requires forall k :: 0 <= k < |args| ==> !InClass(args[k], Digit)
    ensures Classify(kw + "(" + args + ")") == Header(kw, args, "", 0)
  {
    var s := kw + "(" + args + ")";
    assert s[0] == kw[0];
    TrimmedFixed(s);
    var q, c := |kw|, |s| - 1;
    assert s[..q] == kw && s[q + 1..c] == args;
    forall k | 0 <= k < |s| ensures !InClass(s[k], Digit) {
      if k < q {
        assert s[k] == kw[k];
      } else if q < k < c {
        assert s[k] == args[k - q - 1];
      }
    }
    assert NoNumbered(s) by {
      forall p, q', d, e | NumberedAt(s, p, q', d, e) ensures false {
        NumberedHasDigit(s, p, q', d, e);
      }
    }
    assert KeywordAt(s, 0, q, c) by {
      forall k | 0 <= k < q ensures InClass(s[k], KeywordChar) {
        assert s[k] == kw[k];
      }
      forall k | q + 1 <= k < c ensures InClass(s[k], NotLineEnd) {
        assert s[k] == args[k - q - 1];
      }
    }
    assert FirstKeyword(s, 0, q, c);
    ClassifyTrimmedKeyword(s, 0, q, c);
    assert RemoveAll(args, '"') == args;
    TrimmedFixed(args);
  }
}
