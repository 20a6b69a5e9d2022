/**
 * The region tree of an AL object (`recursiveMatch`): every balanced
 * `{ ... }` block of the source text becomes an `ObjectRegion` named by the
 * line in front of its opening brace, holding the property lines of its body
 * and the regions nested in it.
 */
module Regions {
  import opened Options
  import opened Strings
  import opened Braces
  import opened Headers

  /** An `ObjectProperty`: one `Name = Value;` line of a block. */
  datatype Property = Property(name: string, value: string)

  /** An `ObjectRegion`. `source` is the header line the block was classified from. */
  datatype Region = Region(
    region: string, id: nat, name: string, objType: string, source: string,
    properties: seq<Property>, children: seq<Region>)

  /**
   * One line of a block mapped to a property: `l.split('=')`; fewer than two
   * parts is not a property; otherwise the trimmed first part is the name and
   * the trimmed second part, with its first `;` removed, the value.
   */
  function ParseProperty(line: string): (r: Option<Property>)
    ensures r.None? <==> '=' !in line
    ensures r.Some? ==> '=' !in r.value.name && '=' !in r.value.value && IsTrimmed(r.value.name)
  {
    var parts := Split(line, "=");
    SplitParts(line, "=");
    SplitCount(line, "=");
    ContainsChar(line, '=');
    if |parts| < 2 then None
    else
      ContainsChar(parts[0], '=');
      ContainsChar(parts[1], '=');
      TrimKeepsAbsent(parts[0], '=');
      TrimKeepsAbsent(parts[1], '=');
      Some(Property(Trim(parts[0]), DeleteFirst(Trim(parts[1]), ';')))
  }

  /**
   * A line made of two or more `=`-free parts joined by `=` reads as the
   * first part named with the second part as value.
   */
  lemma ParsePropertyParts(parts: seq<string>)
    requires |parts| >= 2
    requires forall i :: 0 <= i < |parts| ==> '=' !in parts[i]
    ensures ParseProperty(Join(parts, "=")) == Some(Property(Trim(parts[0]), DeleteFirst(Trim(parts[1]), ';')))
  {
    forall i | 0 <= i < |parts| ensures !Contains(parts[i] + "="[..0], "=") {
      assert parts[i] + "="[..0] == parts[i];
      ContainsChar(parts[i], '=');
    }
    SplitJoin(parts, "=");
  }

  /** The `map`/`filter` pair over the lines of a block. */
  function Collect(lines: seq<string>): (ps: seq<Property>)
    ensures |ps| <= |lines|
    ensures forall i :: 0 <= i < |ps| ==> '=' !in ps[i].name && IsTrimmed(ps[i].name)
  {
    if lines == [] then []
    else
      match ParseProperty(lines[0])
      case None => Collect(lines[1..])
      case Some(p) =>
        var rest := Collect(lines[1..]);
        [p] + rest
  }

  /** The lines are read one by one, in order. */
  lemma {:induction false} CollectConcat(a: seq<string>, b: seq<string>)
    ensures Collect(a + b) == Collect(a) + Collect(b)
  {
    if a == [] {
      assert a + b == b;
    } else {
      assert (a + b)[0] == a[0];
      assert (a + b)[1..] == a[1..] + b;
      CollectConcat(a[1..], b);
    }
  }

  /** The properties written in `text`: its lines, trimmed as a whole and split at `\r\n`. */
  function ParseProperties(text: string): (ps: seq<Property>)
    ensures forall i :: 0 <= i < |ps| ==> '=' !in ps[i].name && IsTrimmed(ps[i].name)
    ensures '=' !in text ==> ps == []
  {
    var lines := Split(Trim(text), CRLF);
    assert '=' !in text ==> Collect(lines) == [] by {
      if '=' !in text {
        TrimKeepsAbsent(text, '=');
        SplitParts(Trim(text), CRLF);
        NoSignNoProperties(Trim(text), lines);
      }
    }
    Collect(lines)
  }

  lemma ParsePropertiesOf(text: string, lines: seq<string>)
    requires Split(Trim(text), CRLF) == lines
    ensures ParseProperties(text) == Collect(lines)
  {
  }

  lemma NoSignNoProperties(text: string, lines: seq<string>)
    requires '=' !in text && |lines| >= 1 && Join(lines, CRLF) == text
    decreases lines
    ensures Collect(lines) == []
  {
    if |lines| > 1 {
      JoinCons(lines[0], lines[1..], CRLF);
      assert [lines[0]] + lines[1..] == lines;
      NoSignNoProperties(Join(lines[1..], CRLF), lines[1..]);
    }
  }

  /**
   * The properties of a block whose header classified as `region`: a region
   * whose name contains `field` reads its whole body; any other region reads
   * the text in front of its first nested block, and has none without one.
   */
  function BlockProperties(region: string, body: string): seq<Property> {
    if Contains(region, "field") then ParseProperties(body)
    else
      match Balance(body)
      case Some(inner) => ParseProperties(inner.pre)
      case None => []
  }

  /** The number of regions in a forest, nested ones included. */
  function Count(rs: seq<Region>): nat {
    if rs == [] then 0 else 1 + Count(rs[0].children) + Count(rs[1..])
  }

  lemma CountCons(r: Region, rs: seq<Region>)
    ensures Count([r] + rs) == 1 + Count(r.children) + Count(rs)
  {
    assert ([r] + rs)[1..] == rs;
  }

  /** Every region is one pair of braces of the text, so there are no more regions than opening braces. */
  lemma BracesCut(m: Match, s: string)
    requires s == m.pre + "{" + m.body + "}" + m.post
    ensures multiset(s)['{'] == multiset(m.pre)['{'] + 1 + multiset(m.body)['{'] + multiset(m.post)['{']
  {
  }

  /**
   * `recursiveMatch`: the first balanced block of `s` as a region, its
   * children being the regions of its body, followed by the regions of the
   * text after it.
   */
  function RecursiveMatch(s: string): (rs: seq<Region>)
    decreases |s|
    ensures rs == [] <==> forall i, j :: !ClosesAt(s, i, j)
  {
    match Balance(s)
    case None => []
    case Some(m) =>
      var line := LastLine(Trim(m.pre));
      var info := Classify(line);
      var node := Region(info.region, info.id, info.name, info.objType, line,
                         BlockProperties(info.region, m.body), RecursiveMatch(m.body));
      [node] + (if m.post == "" then [] else RecursiveMatch(m.post))
  }

  /** The first region of a text with a balanced block, in terms of the block the library finds. */
  lemma RecursiveMatchHead(s: string, m: Match)
    requires Balance(s) == Some(m)
    ensures var rs, line := RecursiveMatch(s), LastLine(Trim(m.pre));
      var info := Classify(line);
      && |rs| >= 1
      && rs[0] == Region(info.region, info.id, info.name, info.objType, line,
                         BlockProperties(info.region, m.body), RecursiveMatch(m.body))
      && rs[1..] == (if m.post == "" then [] else RecursiveMatch(m.post))
  {
  }

  /** Every region is one pair of braces of the text, so there are no more regions than opening braces. */
  lemma {:induction false} CountBound(s: string)
    decreases |s|
    ensures Count(RecursiveMatch(s)) <= multiset(s)['{']
  {
    match Balance(s)
    case None =>
    case Some(m) =>
      var rs := RecursiveMatch(s);
      RecursiveMatchHead(s, m);
      BracesCut(m, s);
      CountBound(m.body);
      if m.post != "" {
        CountBound(m.post);
      }
      assert [rs[0]] + rs[1..] == rs;
      CountCons(rs[0], rs[1..]);
  }

  /** Every region of a forest, at any depth, has a source holding no line break. */
  predicate SingleLineSources(rs: seq<Region>) {
    forall k :: 0 <= k < |rs| ==> !Contains(rs[k].source, CRLF) && SingleLineSources(rs[k].children)
  }

  /** Each region's source, nested regions included, is a single line of the text. */
  lemma {:induction false} SourcesAreLines(s: string)
    decreases |s|
    ensures SingleLineSources(RecursiveMatch(s))
  {
    match Balance(s)
    case None =>
    case Some(m) =>
      var rs := RecursiveMatch(s);
      RecursiveMatchHead(s, m);
      SourcesAreLines(m.body);
      if m.post != "" {
        SourcesAreLines(m.post);
      }
      forall k | 0 <= k < |rs| ensures !Contains(rs[k].source, CRLF) && SingleLineSources(rs[k].children) {
        if k > 0 {
          assert rs[k] == rs[1..][k - 1];
        }
      }
  }
}
