/**
 * The inverse direction of `recursiveMatch`: an outline of an AL object
 * (header lines, property lines and nested blocks) rendered as source text,
 * and the proof that the region matcher reads back exactly the regions the
 * outline describes.
 */
module Outlines {
  import opened Options
  import opened Strings
  import opened Braces
  import opened Headers
  import opened Regions

  /** A property as AL source writes it. */
  function PropertyLine(p: Property): string {
    p.name + " = " + p.value + ";"
  }

  /** A property that reads back exactly from its line: no `=`, `;`, braces or line breaks inside. */
  predicate Writable(p: Property) {
    && |p.name| > 0 && IsTrimmed(p.name) && IsTrimmed(p.value)
    && '=' !in p.name && '=' !in p.value && ';' !in p.value
    && '\r' !in p.name && '\r' !in p.value
    && '{' !in p.name && '{' !in p.value && '}' !in p.name && '}' !in p.value
  }

  predicate AllWritable(ps: seq<Property>) {
    forall i :: 0 <= i < |ps| ==> Writable(ps[i])
  }

  function PropertyLines(ps: seq<Property>): (ls: seq<string>)
    ensures |ls| == |ps|
    ensures forall i :: 0 <= i < |ps| ==> ls[i] == PropertyLine(ps[i])
  {
    if ps == [] then [] else [PropertyLine(ps[0])] + PropertyLines(ps[1..])
  }

  /** The property lines of a block, each ended by `\r\n`. */
  function PropsText(ps: seq<Property>): string {
    if ps == [] then "" else PropertyLine(ps[0]) + CRLF + PropsText(ps[1..])
  }

  /** A block of AL source: the line in front of its brace, its property lines and its nested blocks. */
  datatype Outline = Outline(header: string, properties: seq<Property>, children: seq<Outline>)

  function Render(o: Outline): string
    decreases o
  {
    o.header + "{" + Inside(o) + "}"
  }

  /** The text between a block's braces. */
  function Inside(o: Outline): string
    decreases o, 0
  {
    PropsText(o.properties) + RenderAll(o.children)
  }

  function RenderAll(os: seq<Outline>): string
    decreases os
  {
    if os == [] then "" else Render(os[0]) + RenderAll(os[1..])
  }

  /**
   * An outline the matcher can read back: single-line, trimmed, brace-free
   * headers without `=`; writable properties; and properties only where
   * `recursiveMatch` looks for them (a `field` region, which then has no
   * nested blocks, or a region with nested blocks).
   */
  predicate WellFormed(o: Outline)
    decreases o
  {
    && |o.header| > 0 && IsTrimmed(o.header)
    && '{' !in o.header && '}' !in o.header && '\r' !in o.header && '=' !in o.header
    && AllWritable(o.properties)
    && (Contains(Classify(o.header).region, "field") ==> o.children == [])
    && (o.properties == [] || o.children != [] || Contains(Classify(o.header).region, "field"))
    && (forall i :: 0 <= i < |o.children| ==> WellFormed(o.children[i]))
  }

  /** The region an outline block stands for, built directly from the outline. */
  function Expected(o: Outline): Region
    decreases o
  {
    var info := Classify(o.header);
    Region(info.region, info.id, info.name, info.objType, o.header, o.properties, ExpectedAll(o.children))
  }

  function ExpectedAll(os: seq<Outline>): (rs: seq<Region>)
    decreases os
    ensures |rs| == |os|
  {
    if os == [] then [] else [Expected(os[0])] + ExpectedAll(os[1..])
  }

  lemma PropertyLineClean(p: Property)
    requires Writable(p)
    ensures '\r' !in PropertyLine(p) && '{' !in PropertyLine(p) && '}' !in PropertyLine(p)
  {
  }

  lemma {:induction false} PropsTextBraceFree(ps: seq<Property>)
    requires AllWritable(ps)
    ensures '{' !in PropsText(ps) && '}' !in PropsText(ps)
  {
    if ps != [] {
      PropertyLineClean(ps[0]);
      PropsTextBraceFree(ps[1..]);
    }
  }

  lemma {:induction false} InsideBalanced(o: Outline)
    requires WellFormed(o)
    decreases o
    ensures Balanced(Inside(o))
  {
    PropsTextBraceFree(o.properties);
    BraceFreeBalanced(PropsText(o.properties));
    RenderAllBalanced(o.children);
    BalancedConcat(PropsText(o.properties), RenderAll(o.children));
  }

  lemma {:induction false} RenderAllBalanced(os: seq<Outline>)
    requires forall i :: 0 <= i < |os| ==> WellFormed(os[i])
    decreases os
    ensures Balanced(RenderAll(os))
  {
    if os == [] {
      BraceFreeBalanced("");
    } else {
      InsideBalanced(os[0]);
      BalancedBlock(os[0].header, Inside(os[0]));
      RenderAllBalanced(os[1..]);
      BalancedConcat(Render(os[0]), RenderAll(os[1..]));
    }
  }

  /** The property lines followed by a last line are the lines joined at `\r\n`. */
  lemma {:induction false} PropsTextJoin(ps: seq<Property>, h: string)
    ensures PropsText(ps) + h == Join(PropertyLines(ps) + [h], CRLF)
  {
    if ps != [] {
      PropsTextJoin(ps[1..], h);
      var ls := PropertyLines(ps[1..]) + [h];
      JoinCons(PropertyLine(ps[0]), ls, CRLF);
      assert PropertyLines(ps) + [h] == [PropertyLine(ps[0])] + ls;
    }
  }

  /** Reading a written property line gives the property back. */
  lemma ParsePropertyLine(p: Property)
    requires Writable(p)
    ensures ParseProperty(PropertyLine(p)) == Some(p)
  {
    var a, b := p.name + " ", " " + p.value + ";";
    PropertyLineParts(p);
    ParsePropertyParts([a, b]);
    TrimParts(p);
  }

  lemma PropertyLineParts(p: Property)
    requires Writable(p)
    ensures var a, b := p.name + " ", " " + p.value + ";";
      PropertyLine(p) == Join([a, b], "=") && '=' !in a && '=' !in b
  {
    var a, b := p.name + " ", " " + p.value + ";";
    JoinCons(a, [b], "=");
    assert [a] + [b] == [a, b];
  }

  lemma TrimParts(p: Property)
    requires Writable(p)
    ensures Trim(p.name + " ") == p.name
    ensures DeleteFirst(Trim(" " + p.value + ";"), ';') == p.value
  {
    TrimPadded("", p.name, " ");
    assert "" + p.name + " " == p.name + " ";
    TrimPadded(" ", p.value + ";", "");
    assert " " + (p.value + ";") + "" == " " + p.value + ";";
    DeleteFirstLast(p.value, ';');
  }

  lemma {:induction false} CollectLines(ps: seq<Property>)
    requires AllWritable(ps)
    ensures Collect(PropertyLines(ps)) == ps
  {
    if ps != [] {
      var ls := PropertyLines(ps);
      ParsePropertyLine(ps[0]);
      CollectLines(ps[1..]);
      assert ls[1..] == PropertyLines(ps[1..]);
    }
  }

  /**
   * Property lines followed by a trimmed last line read back as those lines:
   * trimming leaves the text alone and splitting at `\r\n` finds the lines.
   */
  lemma ReadLines(ps: seq<Property>, h: string)
    requires AllWritable(ps) && |h| > 0 && IsTrimmed(h) && '\r' !in h
    ensures Trim(PropsText(ps) + h) == PropsText(ps) + h
    ensures Split(PropsText(ps) + h, CRLF) == PropertyLines(ps) + [h]
  {
    var t := PropsText(ps) + h;
    var ls := PropertyLines(ps) + [h];
    PropsTextJoin(ps, h);
    if ps != [] {
      assert t[0] == ps[0].name[0];
    }
    assert t[|t| - 1] == h[|h| - 1];
    TrimmedFixed(t);
    forall i | 0 <= i < |ls| ensures !Contains(ls[i] + CRLF[..|CRLF| - 1], CRLF) {
      assert CRLF[..|CRLF| - 1] == "\r";
      if i < |ps| {
        assert ls[i] == PropertyLine(ps[i]);
        PropertyLineClean(ps[i]);
      } else {
        assert ls[i] == h;
      }
      NoCrlfAcross(ls[i]);
    }
    SplitJoin(ls, CRLF);
  }

  /** The text in front of a first nested block reads as the block's properties, and its last line as the header. */
  lemma ReadPropsThenHeader(ps: seq<Property>, h: string)
    requires AllWritable(ps) && |h| > 0 && IsTrimmed(h) && '\r' !in h && '=' !in h
    ensures ParseProperties(PropsText(ps) + h) == ps
    ensures LastLine(Trim(PropsText(ps) + h)) == h
  {
    ReadLines(ps, h);
    CollectConcat(PropertyLines(ps), [h]);
    CollectLines(ps);
    assert [h][1..] == [];
  }

  lemma {:induction false} PropsTextSnoc(ps: seq<Property>, p: Property)
    ensures PropsText(ps + [p]) == PropsText(ps) + PropertyLine(p) + CRLF
  {
    if ps == [] {
      assert [] + [p] == [p];
    } else {
      var l0, tail, x := PropertyLine(ps[0]) + CRLF, PropsText(ps[1..]), PropertyLine(p) + CRLF;
      assert PropsText(ps + [p]) == l0 + PropsText(ps[1..] + [p]) by {
        assert (ps + [p])[0] == ps[0];
        assert (ps + [p])[1..] == ps[1..] + [p];
      }
      PropsTextSnoc(ps[1..], p);
      assert l0 + (tail + x) == (l0 + tail) + x;
    }
  }

  /** The body of a `field` block reads as its properties. */
  lemma ReadPropsText(ps: seq<Property>)
    requires AllWritable(ps)
    ensures ParseProperties(PropsText(ps)) == ps
  {
    if ps != [] {
      var init, p := ps[..|ps| - 1], ps[|ps| - 1];
      var line := PropertyLine(p);
      assert ps == init + [p];
      PropsTextTrim(init, p);
      ReadLines(init, line);
      ParsePropertiesOf(PropsText(ps), PropertyLines(init) + [line]);
      CollectLast(init, p);
    }
  }

  lemma PropsTextTrim(init: seq<Property>, p: Property)
    requires AllWritable(init + [p])
    ensures AllWritable(init) && Writable(p)
    ensures IsTrimmed(PropertyLine(p)) && |PropertyLine(p)| > 0 && '\r' !in PropertyLine(p)
    ensures Trim(PropsText(init + [p])) == PropsText(init) + PropertyLine(p)
  {
    WritableSnoc(init, p);
    PropertyLineTrimmed(p);
    var u := PropsText(init) + PropertyLine(p);
    assert IsTrimmed(u) by {
      ReadLines(init, PropertyLine(p));
    }
    assert "" + u + CRLF == PropsText(init + [p]) by {
      PropsTextSnoc(init, p);
    }
    TrimPadded("", u, CRLF);
  }

  lemma WritableSnoc(init: seq<Property>, p: Property)
    requires AllWritable(init + [p])
    ensures AllWritable(init) && Writable(p)
  {
    assert forall i :: 0 <= i < |init| ==> init[i] == (init + [p])[i];
    assert p == (init + [p])[|init|];
  }

  /** A writable property's line is a non-empty, trimmed single line. */
  lemma PropertyLineTrimmed(p: Property)
    requires Writable(p)
    ensures IsTrimmed(PropertyLine(p)) && |PropertyLine(p)| > 0 && '\r' !in PropertyLine(p)
  {
    PropertyLineClean(p);
    assert PropertyLine(p)[0] == p.name[0];
  }

  lemma CollectLast(init: seq<Property>, p: Property)
    requires AllWritable(init) && Writable(p)
    ensures Collect(PropertyLines(init) + [PropertyLine(p)]) == init + [p]
  {
    CollectConcat(PropertyLines(init), [PropertyLine(p)]);
    CollectLines(init);
    ParsePropertyLine(p);
    assert [PropertyLine(p)][1..] == [];
  }

  /** Text in front of rendered outlines, cut at the first block's braces. */
  lemma RenderCut(lead: string, os: seq<Outline>)
    requires os != []
    ensures lead + RenderAll(os) == (lead + os[0].header) + "{" + Inside(os[0]) + "}" + RenderAll(os[1..])
  {
  }

  /** The properties `recursiveMatch` reads for a block are the outline's. */
  lemma BlockPropertiesOf(o: Outline)
    requires WellFormed(o)
    ensures BlockProperties(Classify(o.header).region, Inside(o)) == o.properties
  {
    var region := Classify(o.header).region;
    if Contains(region, "field") {
      assert Inside(o) == PropsText(o.properties);
      ReadPropsText(o.properties);
    } else if o.children == [] {
      assert Inside(o) == "";
      assert Balance("") == None;
    } else {
      var c, rest := o.children[0], o.children[1..];
      var h := PropsText(o.properties) + c.header;
      assert WellFormed(c);
      InsideBalanced(c);
      PropsTextBraceFree(o.properties);
      RenderCut(PropsText(o.properties), o.children);
      BalanceAfterHeader(h, Inside(c), RenderAll(rest));
      ReadPropsThenHeader(o.properties, c.header);
    }
  }

  /**
   * `recursiveMatch` reads rendered outlines back: the regions of the text
   * are exactly the regions the outlines describe, nested the same way, with
   * the same properties, each named by its own header line.
   */
  lemma {:induction false} ReadBack(ps: seq<Property>, os: seq<Outline>)
    requires AllWritable(ps)
    requires forall i :: 0 <= i < |os| ==> WellFormed(os[i])
    decreases os
    ensures RecursiveMatch(PropsText(ps) + RenderAll(os)) == ExpectedAll(os)
  {
    if os == [] {
      var s := PropsText(ps) + RenderAll(os);
      PropsTextBraceFree(ps);
      assert s == PropsText(ps);
      assert forall i, j :: !ClosesAt(s, i, j);
    } else {
      ReadBack(os[0].properties, os[0].children);
      ReadBack([], os[1..]);
      NoLead(RenderAll(os[1..]));
      ReadBackStep(ps, os);
    }
  }

  lemma NoLead(t: string)
    ensures PropsText([]) + t == t
  {
  }

  /** One step of the read-back: the first block, given that its body and the text after it read back. */
  lemma ReadBackStep(ps: seq<Property>, os: seq<Outline>)
    requires AllWritable(ps) && os != []
    requires forall i :: 0 <= i < |os| ==> WellFormed(os[i])
    requires RecursiveMatch(Inside(os[0])) == ExpectedAll(os[0].children)
    requires RecursiveMatch(RenderAll(os[1..])) == ExpectedAll(os[1..])
    ensures RecursiveMatch(PropsText(ps) + RenderAll(os)) == ExpectedAll(os)
  {
    var lead := PropsText(ps);
    var s := lead + RenderAll(os);
    var o, rest := os[0], os[1..];
    var h := lead + o.header;
    assert WellFormed(o);
    PropsTextBraceFree(ps);
    InsideBalanced(o);
    RenderCut(lead, os);
    BalanceAfterHeader(h, Inside(o), RenderAll(rest));
    RecursiveMatchHead(s, Match(h, Inside(o), RenderAll(rest)));
    ReadPropsThenHeader(ps, o.header);
    BlockPropertiesOf(o);
    assert RecursiveMatch("") == [];
    var rs := RecursiveMatch(s);
    assert rs[0] == Expected(o);
    assert rs == [rs[0]] + rs[1..];
  }

  /** Reading back the rendering of well-formed outlines. */
  lemma RoundTrip(os: seq<Outline>)
    requires forall i :: 0 <= i < |os| ==> WellFormed(os[i])
    ensures RecursiveMatch(RenderAll(os)) == ExpectedAll(os)
  {
    ReadBack([], os);
    assert PropsText([]) + RenderAll(os) == RenderAll(os);
  }
}
