/**
 * The `balanced-match` library as the region matcher calls it:
 * `balanced('{', '}', text)` returns the first depth-balanced `{ ... }` pair
 * of `text`, cut into the text before it, its interior and the text after it,
 * or nothing when no opening brace has a balancing close.
 */
module Braces {
  import opened Options

  /** Opening braces minus closing braces. */
  function Depth(t: string): int {
    multiset(t)['{'] as int - multiset(t)['}'] as int
  }

  /** No prefix closes more braces than it opened, and the whole closes them all. */
  predicate Balanced(t: string) {
    Depth(t) == 0 && forall p :: 0 <= p <= |t| ==> Depth(t[..p]) >= 0
  }

  /** The brace at `i` is closed by the brace at `j`: the text between them is balanced. */
  predicate ClosesAt(s: string, i: int, j: int) {
    0 <= i < j < |s| && s[i] == '{' && s[j] == '}' && Balanced(s[i + 1..j])
  }

  /** The depth of the text after the brace at `i`, up to `p`. */
  function DepthAfter(s: string, i: nat, p: nat): int
    requires i < p <= |s|
  {
    Depth(s[i + 1..p])
  }

  /** What the library returns: `pre`, `body` and `post` around the pair. */
  datatype Match = Match(pre: string, body: string, post: string)

  lemma DepthStep(s: string, lo: nat, k: nat)
    requires lo <= k < |s|
    ensures Depth(s[lo..k + 1]) == Depth(s[lo..k]) + (if s[k] == '{' then 1 else if s[k] == '}' then -1 else 0)
  {
    assert s[lo..k + 1] == s[lo..k] + [s[k]];
  }

  lemma DepthAfterStep(s: string, i: nat, k: nat)
    requires i < k < |s|
    ensures DepthAfter(s, i, k + 1) == DepthAfter(s, i, k) + (if s[k] == '{' then 1 else if s[k] == '}' then -1 else 0)
  {
    DepthStep(s, i + 1, k);
  }

  /** Scans from `k` for the brace closing the one at `i`; `d` is the depth reached so far. */
  function CloseOf(s: string, i: nat, k: nat, d: nat): (r: Option<nat>)
    requires i < k <= |s| && s[i] == '{'
    requires d == Depth(s[i + 1..k]) + 1 && d >= 1
    requires forall p :: i < p <= k ==> DepthAfter(s, i, p) >= 0
    decreases |s| - k
    ensures r.Some? ==> ClosesAt(s, i, r.value)
    ensures r.None? ==> forall j :: !ClosesAt(s, i, j)
  {
    if k == |s| then
      NoCloseBefore(s, i, k);
      None
    else
      DepthStep(s, i + 1, k);
      if s[k] == '}' && d == 1 then
        assert Balanced(s[i + 1..k]) by {
          var t := s[i + 1..k];
          forall p | 0 <= p <= |t| ensures Depth(t[..p]) >= 0 {
            assert t[..p] == s[i + 1..i + 1 + p];
            assert DepthAfter(s, i, i + 1 + p) >= 0;
          }
        }
        Some(k)
      else
        CloseOf(s, i, k + 1, if s[k] == '{' then d + 1 else if s[k] == '}' then d - 1 else d)
  }

  /** While every prefix after `i` up to `k` stays at depth zero or more, nothing before `k` closes `i`. */
  lemma NoCloseBefore(s: string, i: nat, k: nat)
    requires i < k <= |s|
    requires forall p :: i < p <= k ==> DepthAfter(s, i, p) >= 0
    ensures forall j :: j < k ==> !ClosesAt(s, i, j)
  {
    forall j | j < k && ClosesAt(s, i, j) ensures false {
      DepthAfterStep(s, i, j);
    }
  }

  /** The first opening brace at or after `from` that has a balancing close, with that close. */
  function FindPair(s: string, from: nat): (r: Option<(nat, nat)>)
    requires from <= |s|
    decreases |s| - from
    ensures r.Some? ==> from <= r.value.0 && ClosesAt(s, r.value.0, r.value.1)
    ensures r.Some? ==> forall i, j :: from <= i < r.value.0 ==> !ClosesAt(s, i, j)
    ensures r.None? ==> forall i, j :: from <= i ==> !ClosesAt(s, i, j)
  {
    if from == |s| then None
    else if s[from] == '{' then
      assert s[from + 1..from + 1] == [];
      match CloseOf(s, from, from + 1, 1)
      case Some(j) => Some((from, j))
      case None => FindPair(s, from + 1)
    else
      FindPair(s, from + 1)
  }

  /** `balanced('{', '}', s)`. */
  function Balance(s: string): (r: Option<Match>)
    ensures r.Some? ==> s == r.value.pre + "{" + r.value.body + "}" + r.value.post
    ensures r.Some? ==> Balanced(r.value.body)
    ensures r.Some? ==> ClosesAt(s, |r.value.pre|, |r.value.pre| + |r.value.body| + 1)
    ensures r.Some? ==> forall i, j :: 0 <= i < |r.value.pre| ==> !ClosesAt(s, i, j)
    ensures r.None? <==> forall i, j :: !ClosesAt(s, i, j)
  {
    match FindPair(s, 0)
    case None => None
    case Some((i, j)) =>
      var m := Match(s[..i], s[i + 1..j], s[j + 1..]);
      MatchCuts(s, i, j);
      Some(m)
  }

  lemma MatchCuts(s: string, i: nat, j: nat)
    requires ClosesAt(s, i, j)
    ensures s == s[..i] + "{" + s[i + 1..j] + "}" + s[j + 1..]
    ensures |s[..i]| == i && |s[i + 1..j]| == j - i - 1
  {
    assert s == s[..i] + [s[i]] + s[i + 1..j] + [s[j]] + s[j + 1..];
  }

  /** A brace has at most one balancing close. */
  lemma CloseUnique(s: string, i: int, j1: int, i2: int, j2: int)
    requires ClosesAt(s, i, j1) && ClosesAt(s, i2, j2) && i == i2
    ensures j1 == j2
  {
    if j1 != j2 {
      var lo, hi := if j1 < j2 then j1 else j2, if j1 < j2 then j2 else j1;
      assert s[i + 1..hi][..lo - i] == s[i + 1..lo + 1];
      DepthStep(s, i + 1, lo);
      assert false;
    }
  }

  /** Balanced text concatenated stays balanced. */
  lemma BalancedConcat(a: string, b: string)
    requires Balanced(a) && Balanced(b)
    ensures Balanced(a + b)
  {
    var t := a + b;
    assert multiset(t) == multiset(a) + multiset(b);
    forall p | 0 <= p <= |t| ensures Depth(t[..p]) >= 0 {
      if p <= |a| {
        assert t[..p] == a[..p];
      } else {
        assert t[..p] == a + b[..p - |a|];
        assert multiset(t[..p]) == multiset(a) + multiset(b[..p - |a|]);
      }
    }
  }

  /** Wrapping balanced text in a brace pair keeps it balanced. */
  lemma BalancedWrap(b: string)
    requires Balanced(b)
    ensures Balanced("{" + b + "}")
  {
    var t := "{" + b + "}";
    assert multiset(t) == multiset{'{'} + multiset(b) + multiset{'}'};
    forall p | 0 <= p <= |t| ensures Depth(t[..p]) >= 0 {
      if p == 0 {
        assert t[..p] == [];
      } else if p <= |b| + 1 {
        assert t[..p] == "{" + b[..p - 1];
        assert multiset(t[..p]) == multiset{'{'} + multiset(b[..p - 1]);
      } else {
        assert t[..p] == t;
      }
    }
  }

  /** Text without braces is balanced. */
  lemma BraceFreeBalanced(t: string)
    requires '{' !in t && '}' !in t
    ensures Balanced(t)
  {
    forall p | 0 <= p <= |t| ensures Depth(t[..p]) >= 0 {
      assert '{' !in t[..p] && '}' !in t[..p];
    }
  }

  /** A brace-free header followed by a balanced block is balanced. */
  lemma BalancedBlock(h: string, b: string)
    requires '{' !in h && '}' !in h && Balanced(b)
    ensures Balanced(h + "{" + b + "}")
  {
    BraceFreeBalanced(h);
    BalancedWrap(b);
    BalancedConcat(h, "{" + b + "}");
    assert h + ("{" + b + "}") == h + "{" + b + "}";
  }

  /** When no brace opens before a closed pair, that pair is the one the library returns. */
  lemma BalanceFirst(s: string, i: nat, j: nat)
    requires ClosesAt(s, i, j)
    requires forall k :: 0 <= k < i ==> s[k] != '{'
    ensures Balance(s) == Some(Match(s[..i], s[i + 1..j], s[j + 1..]))
  {
    var m := Balance(s).value;
    var i', j' := |m.pre|, |m.pre| + |m.body| + 1;
    MatchParts(s, m);
    assert i' == i by {
      assert i' <= i;
      assert s[i'] == '{';
    }
    CloseUnique(s, i, j, i', j');
  }

  /** Where the three parts of a match sit in the text they were cut from. */
  lemma MatchParts(s: string, m: Match)
    requires s == m.pre + "{" + m.body + "}" + m.post
    ensures var i, j := |m.pre|, |m.pre| + |m.body| + 1;
      && m.pre == s[..i] && m.body == s[i + 1..j] && m.post == s[j + 1..]
  {
  }

  /**
   * The library's answer on a text made of a brace-free header, a balanced
   * block and anything after it: the block is the pair it finds.
   */
  lemma BalanceAfterHeader(h: string, b: string, t: string)
    requires '{' !in h && Balanced(b)
    ensures Balance(h + "{" + b + "}" + t) == Some(Match(h, b, t))
  {
    var s := h + "{" + b + "}" + t;
    var i, j := |h|, |h| + |b| + 1;
    assert s[i + 1..j] == b;
    assert s[..i] == h && s[j + 1..] == t;
    forall k | 0 <= k < i ensures s[k] != '{' {
      assert s[k] == h[k];
    }
    BalanceFirst(s, i, j);
  }
}
