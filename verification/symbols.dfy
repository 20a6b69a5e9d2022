/**
 * The symbol of an AL object built from its region tree (`generateSymbol`
 * and `processSymbol`): a page's controls and actions, a table's fields and
 * keys, each control carrying its region keyword, name, caption and
 * properties, and the controls of the regions nested in it.
 */
module Symbols {
  import opened Options
  import opened Strings
  import opened Headers
  import opened Regions
  import opened Outlines

  /** The two object types whose regions become controls. */
  datatype ObjectKind = Page | Table

  /** The member of the object, or of the enclosing control, a control list is stored under. */
  datatype Container = Controls | Actions | Fields | Keys

  /**
   * A page control's `Parent`: a copy of the enclosing control without its
   * own `Parent` and without its nested `Controls` and `Actions`.
   */
  datatype Snapshot = Snapshot(
    separator: bool, controlType: string, sourceCodeAnchor: string,
    sourceExpression: string, name: string, properties: seq<Property>, caption: string)

  /**
   * The members a control has besides the shared ones. A top-level page
   * control's `Parent` is the empty object, written `None`.
   */
  datatype Detail =
    | PageControl(parent: Option<Snapshot>, separator: bool)
    | TableField(id: string)
    | TableKey(fieldNames: seq<string>)
    | TableOther

  /** A control; `nested` is the list it holds under the name `container`. */
  datatype Control = Control(
    controlType: string, sourceCodeAnchor: string, sourceExpression: string,
    name: string, caption: string, properties: seq<Property>,
    detail: Detail, container: Container, nested: seq<Control>)

  /** The object a page or table symbol adds to the header members. */
  datatype Members =
    | PageMembers(controls: seq<Control>, actions: seq<Control>)
    | TableMembers(fields: seq<Control>, keys: seq<Control>, fieldGroups: seq<Control>)
    | NoMembers

  /** An `ALObject`. */
  datatype Symbol = Symbol(id: nat, name: string, objType: string, properties: seq<Property>, members: Members)

  // ---------------------------------------------------------------------------
  // The two-column layout of page controls

  /** `Math.ceil(count / 2)`, replaced by `count` when it is zero. */
  function Midpoint(count: nat): (m: nat)
    ensures count <= 2 * m <= count + 1
  {
    var half := (count + 1) / 2;
    if half == 0 then count else half
  }

  /** The 1-based sibling `i` of `count` is flagged as being in the second column. */
  predicate SecondColumn(i: nat, count: nat) {
    var sep := Midpoint(count);
    (count % 2 == 0 && i >= sep) || (count % 2 != 0 && i >= sep + 1)
  }

  /** How many leading siblings of `count` the layout rule leaves in the first column. */
  function FirstColumn(count: nat): nat {
    if count == 0 then 0
    else if count % 2 == 0 then count / 2 - 1
    else (count + 1) / 2
  }

  /**
   * The flagged siblings are exactly those after the first column: one less
   * than half for an even count, the larger half for an odd one.
   */
  lemma SecondColumnSplit(i: nat, count: nat)
    requires 1 <= i <= count
    ensures SecondColumn(i, count) <==> i > FirstColumn(count)
  {
  }

  // ---------------------------------------------------------------------------
  // Captions

  /** The position of the first property named exactly `Caption`. */
  function FirstCaption(ps: seq<Property>): (k: Option<nat>)
    ensures k.Some? ==> k.value < |ps| && ps[k.value].name == "Caption"
    ensures k.Some? ==> forall j :: 0 <= j < k.value ==> ps[j].name != "Caption"
    ensures k.None? ==> forall j :: 0 <= j < |ps| ==> ps[j].name != "Caption"
  {
    if ps == [] then None
    else if ps[0].name == "Caption" then Some(0)
    else
      match FirstCaption(ps[1..])
      case None => None
      case Some(k) => Some(k + 1)
  }

  /**
   * A control's caption: the first `Caption` property's value without its
   * apostrophes, or else the control's name without its double quotes,
   * trimmed either way.
   */
  function CaptionOf(ps: seq<Property>, name: string): (c: string)
    ensures IsTrimmed(c)
  {
    match FirstCaption(ps)
    case Some(k) => Trim(RemoveAll(ps[k].value, '\''))
    case None => Trim(RemoveAll(name, '"'))
  }

  /** With a `Caption` property, the caption is the first one's value, apostrophes dropped. */
  lemma CaptionFromProperty(ps: seq<Property>, name: string, k: nat)
    requires k < |ps| && ps[k].name == "Caption"
    requires forall j :: 0 <= j < k ==> ps[j].name != "Caption"
    ensures CaptionOf(ps, name) == Trim(RemoveAll(ps[k].value, '\''))
    ensures '\'' !in CaptionOf(ps, name)
  {
    TrimKeepsAbsent(RemoveAll(ps[k].value, '\''), '\'');
  }

  /** Without a `Caption` property, the caption is the name, double quotes dropped. */
  lemma CaptionFromName(ps: seq<Property>, name: string)
    requires forall j :: 0 <= j < |ps| ==> ps[j].name != "Caption"
    ensures CaptionOf(ps, name) == Trim(RemoveAll(name, '"'))
    ensures '"' !in CaptionOf(ps, name)
  {
    TrimKeepsAbsent(RemoveAll(name, '"'), '"');
  }

  // ---------------------------------------------------------------------------
  // Names

  /** The keywords whose region name holds two `;`-separated parts. */
  predicate SplitsName(kind: ObjectKind, region: string) {
    region == "field" || (if kind == Page then region == "part" else region == "key")
  }

  /** `name.split(';')` for a name that has a `;`. */
  function NameParts(name: string): (parts: seq<string>)
    requires ';' in name
    ensures |parts| >= 2
  {
    ContainsChar(name, ';');
    SplitCount(name, ";");
    Split(name, ";")
  }

  /** `s.trim().split(',').map(m => m.trim())`: a key's field list. */
  function FieldList(s: string): (names: seq<string>)
    ensures |names| >= 1
    ensures forall k :: 0 <= k < |names| ==> IsTrimmed(names[k])
  {
    var parts := Split(Trim(s), ",");
    seq(|parts|, k requires 0 <= k < |parts| => Trim(parts[k]))
  }

  /** A field list written as trimmed names joined by commas reads back as those names. */
  lemma FieldListOf(names: seq<string>)
    requires |names| >= 1 && IsTrimmed(Join(names, ","))
    requires forall k :: 0 <= k < |names| ==> IsTrimmed(names[k]) && ',' !in names[k]
    ensures FieldList(Join(names, ",")) == names
  {
    var s := Join(names, ",");
    TrimmedFixed(s);
    SplitCommaJoin(names);
    var parts := Split(Trim(s), ",");
    assert parts == names;
    forall k | 0 <= k < |names| ensures FieldList(s)[k] == names[k] {
      TrimmedFixed(names[k]);
    }
  }

  lemma SplitCommaJoin(names: seq<string>)
    requires |names| >= 1
    requires forall k :: 0 <= k < |names| ==> ',' !in names[k]
    ensures Split(Join(names, ","), ",") == names
  {
    forall k | 0 <= k < |names| ensures !Contains(names[k] + ","[..0], ",") {
      assert names[k] + ","[..0] == names[k];
      ContainsChar(names[k], ',');
    }
    SplitJoin(names, ",");
  }

  /** Every region below `r` whose name is split at `;` has one; `split` gives no second part otherwise. */
  predicate Splittable(kind: ObjectKind, r: Region)
    decreases r
  {
    forall i :: 0 <= i < |r.children| ==>
      && (SplitsName(kind, r.children[i].region) ==> ';' in r.children[i].name)
      && Splittable(kind, r.children[i])
  }

  // ---------------------------------------------------------------------------
  // processSymbol

  /** What a nested call receives as `Parent`: the control less its `Parent` and nested lists. */
  function SnapshotOf(c: Control): Snapshot
    requires c.detail.PageControl?
  {
    Snapshot(c.detail.separator, c.controlType, c.sourceCodeAnchor, c.sourceExpression,
             c.name, c.properties, c.caption)
  }

  /** What the nested call for control `c` receives as parent: its snapshot on a page, nothing on a table. */
  function ChildParent(kind: ObjectKind, c: Control): Option<Snapshot> {
    if kind == Page && c.detail.PageControl? then Some(SnapshotOf(c)) else None
  }

  /** The controls of the regions directly inside `r`, one per child region, in order. */
  function ProcessSymbol(kind: ObjectKind, container: Container, r: Region, parent: Option<Snapshot>): (cs: seq<Control>)
    requires Splittable(kind, r)
    decreases r, 0
    ensures |cs| == |r.children|
  {
    var count := |r.children|;
    seq(count, i requires 0 <= i < count =>
      Attach(kind, container, r.children[i], Face(kind, container, r.children[i], i + 1, count, parent)))
  }

  /** `control[container] = processSymbol(..., child, control)`: the controls of the region's children nested in. */
  function Attach(kind: ObjectKind, container: Container, child: Region, face: Control): (c: Control)
    requires Splittable(kind, child)
    decreases child, 1
  {
    face.(nested := ProcessSymbol(kind, container, child, ChildParent(kind, face)))
  }

  /** The control of `child`, the `i`-th (from 1) of `count` siblings, before anything is nested in it. */
  function Face(kind: ObjectKind, container: Container, child: Region, i: nat, count: nat,
                parent: Option<Snapshot>): Control
    requires SplitsName(kind, child.region) ==> ';' in child.name
  {
    match kind
    case Page =>
      var separator := SecondColumn(i, count) || (parent.Some? && parent.value.separator);
      PageFace(container, child, parent, separator)
    case Table =>
      TableFace(container, child)
  }

  /** A page control: `field` and `part` split their name into name and source expression. */
  function PageFace(container: Container, child: Region, parent: Option<Snapshot>, separator: bool): Control
    requires SplitsName(Page, child.region) ==> ';' in child.name
  {
    var split := SplitsName(Page, child.region);
    var name := if split then Trim(NameParts(child.name)[0]) else UpperFirst(child.name);
    var expr := if split then Trim(NameParts(child.name)[1]) else "";
    Control(child.region, child.source, expr, name, CaptionOf(child.properties, name), child.properties,
            PageControl(parent, separator), container, [])
  }

  /** A table control: `field` splits its name into id and name, `key` into name and field list. */
  function TableFace(container: Container, child: Region): Control
    requires SplitsName(Table, child.region) ==> ';' in child.name
  {
    var ty := child.region;
    var name := if ty == "field" then Trim(NameParts(child.name)[1])
                else if ty == "key" then Trim(NameParts(child.name)[0])
                else UpperFirst(child.name);
    var detail := if ty == "field" then TableField(Trim(NameParts(child.name)[0]))
                  else if ty == "key" then TableKey(FieldList(NameParts(child.name)[1]))
                  else TableOther;
    Control(ty, child.source, "", name, CaptionOf(child.properties, name), child.properties, detail, container, [])
  }

  // ---------------------------------------------------------------------------
  // generateSymbol

  /** `processSymbol` can be called on every region `generateSymbol` hands it. */
  predicate Buildable(root: Region) {
    && (root.objType == "page" ==> forall i :: 0 <= i < |root.children| ==> Splittable(Page, root.children[i]))
    && (root.objType == "table" ==>
          forall i :: 0 <= i < |root.children| ==>
            (root.children[i].region == "fields" || root.children[i].region == "keys") ==> Splittable(Table, root.children[i]))
  }

  /** The loop over a page's top-level regions: each replaces the action list or the control list. */
  function PageLists(children: seq<Region>, controls: seq<Control>, actions: seq<Control>): (m: Members)
    requires forall i :: 0 <= i < |children| ==> Splittable(Page, children[i])
    ensures m.PageMembers?
  {
    if children == [] then PageMembers(controls, actions)
    else
      var child := children[0];
      if child.region == "actions" then PageLists(children[1..], controls, ProcessSymbol(Page, Actions, child, None))
      else PageLists(children[1..], ProcessSymbol(Page, Controls, child, None), actions)
  }

  /** The loop over a table's top-level regions: `fields` and `keys` replace their lists, others are skipped. */
  function TableLists(children: seq<Region>, fields: seq<Control>, keys: seq<Control>): (m: Members)
    requires forall i :: 0 <= i < |children| ==>
      (children[i].region == "fields" || children[i].region == "keys") ==> Splittable(Table, children[i])
    ensures m.TableMembers? && m.fieldGroups == []
  {
    if children == [] then TableMembers(fields, keys, [])
    else
      var child := children[0];
      if child.region == "fields" then TableLists(children[1..], ProcessSymbol(Table, Fields, child, None), keys)
      else if child.region == "keys" then TableLists(children[1..], fields, ProcessSymbol(Table, Keys, child, None))
      else TableLists(children[1..], fields, keys)
  }

  /** `generateSymbol`: the object region's header members, and controls for pages and tables. */
  function GenerateSymbol(root: Region): (s: Symbol)
    requires Buildable(root)
    ensures s.id == root.id && s.name == root.name && s.objType == root.objType && s.properties == root.properties
    ensures s.members.PageMembers? <==> root.objType == "page"
    ensures s.members.TableMembers? <==> root.objType == "table"
    ensures s.members.TableMembers? ==> s.members.fieldGroups == []
  {
    var members :=
      if root.objType == "page" then PageLists(root.children, [], [])
      else if root.objType == "table" then TableLists(root.children, [], [])
      else NoMembers;
    Symbol(root.id, root.name, root.objType, root.properties, members)
  }

  // ---------------------------------------------------------------------------
  // What processSymbol builds

  /** The members every control copies from its region, and the page members it takes from the loop. */
  lemma FaceFacts(kind: ObjectKind, container: Container, child: Region, i: nat, count: nat, parent: Option<Snapshot>)
    requires SplitsName(kind, child.region) ==> ';' in child.name
    ensures var c := Face(kind, container, child, i, count, parent);
      && c.controlType == child.region && c.sourceCodeAnchor == child.source
      && c.properties == child.properties && c.caption == CaptionOf(child.properties, c.name)
      && c.container == container && c.nested == []
      && (c.detail.PageControl? <==> kind == Page)
      && (kind == Page ==>
            && c.detail.parent == parent
            && (c.detail.separator <==> SecondColumn(i, count) || (parent.Some? && parent.value.separator)))
  {
  }

  /** The `i`-th control of a list: its face, with the controls of its own region's children nested in it. */
  lemma ControlAt(kind: ObjectKind, container: Container, r: Region, parent: Option<Snapshot>, i: nat)
    requires Splittable(kind, r) && i < |r.children|
    ensures Splittable(kind, r.children[i])
    ensures SplitsName(kind, r.children[i].region) ==> ';' in r.children[i].name
    ensures var c := ProcessSymbol(kind, container, r, parent)[i];
      && c.(nested := []) == Face(kind, container, r.children[i], i + 1, |r.children|, parent)
      && c.nested == ProcessSymbol(kind, container, r.children[i], ChildParent(kind, c))
  {
    var child := r.children[i];
    var face := Face(kind, container, child, i + 1, |r.children|, parent);
    ElementAt(kind, container, r, parent, i);
    FaceFacts(kind, container, child, i + 1, |r.children|, parent);
    AttachFacts(kind, container, child, face);
  }

  lemma ElementAt(kind: ObjectKind, container: Container, r: Region, parent: Option<Snapshot>, i: nat)
    requires Splittable(kind, r) && i < |r.children|
    ensures Splittable(kind, r.children[i])
    ensures SplitsName(kind, r.children[i].region) ==> ';' in r.children[i].name
    ensures ProcessSymbol(kind, container, r, parent)[i] ==
      Attach(kind, container, r.children[i], Face(kind, container, r.children[i], i + 1, |r.children|, parent))
  {
  }

  lemma AttachFacts(kind: ObjectKind, container: Container, child: Region, face: Control)
    requires Splittable(kind, child) && face.nested == []
    ensures var c := Attach(kind, container, child, face);
      c.(nested := []) == face && c.nested == ProcessSymbol(kind, container, child, ChildParent(kind, c))
  {
  }

  /** One control per child region, in order, copying its keyword, header line and properties. */
  lemma ControlsFollowChildren(kind: ObjectKind, container: Container, r: Region, parent: Option<Snapshot>)
    requires Splittable(kind, r)
    ensures var cs := ProcessSymbol(kind, container, r, parent);
      && |cs| == |r.children|
      && forall i :: 0 <= i < |cs| ==>
        && cs[i].controlType == r.children[i].region
        && cs[i].sourceCodeAnchor == r.children[i].source
        && cs[i].properties == r.children[i].properties
        && cs[i].caption == CaptionOf(r.children[i].properties, cs[i].name)
        && cs[i].container == container
        && |cs[i].nested| == |r.children[i].children|
  {
    var cs := ProcessSymbol(kind, container, r, parent);
    forall i | 0 <= i < |cs|
      ensures && cs[i].controlType == r.children[i].region
              && cs[i].sourceCodeAnchor == r.children[i].source
              && cs[i].properties == r.children[i].properties
              && cs[i].caption == CaptionOf(r.children[i].properties, cs[i].name)
              && cs[i].container == container
              && |cs[i].nested| == |r.children[i].children|
    {
      ControlAt(kind, container, r, parent, i);
      FaceFacts(kind, container, r.children[i], i + 1, |r.children|, parent);
    }
  }

  /** The number of controls in a forest, nested ones included. */
  function ControlCount(cs: seq<Control>): nat {
    if cs == [] then 0 else 1 + ControlCount(cs[0].nested) + ControlCount(cs[1..])
  }

  lemma {:induction false} ListCount(rs: seq<Region>, cs: seq<Control>)
    requires |rs| == |cs|
    requires forall i :: 0 <= i < |cs| ==> ControlCount(cs[i].nested) == Count(rs[i].children)
    ensures ControlCount(cs) == Count(rs)
  {
    if cs != [] {
      ListCount(rs[1..], cs[1..]);
    }
  }

  /** Every region below `r`, at any depth, becomes exactly one control. */
  lemma {:induction false} ControlCountMatches(kind: ObjectKind, container: Container, r: Region, parent: Option<Snapshot>)
    requires Splittable(kind, r)
    decreases r
    ensures ControlCount(ProcessSymbol(kind, container, r, parent)) == Count(r.children)
  {
    var cs := ProcessSymbol(kind, container, r, parent);
    forall i | 0 <= i < |cs| ensures ControlCount(cs[i].nested) == Count(r.children[i].children) {
      ControlAt(kind, container, r, parent, i);
      ControlCountMatches(kind, container, r.children[i], ChildParent(kind, cs[i]));
    }
    ListCount(r.children, cs);
  }

  /** The page members of the `i`-th control of a page list. */
  lemma PageControlAt(container: Container, r: Region, parent: Option<Snapshot>, i: nat)
    requires Splittable(Page, r) && i < |r.children|
    ensures var c := ProcessSymbol(Page, container, r, parent)[i];
      && c.detail.PageControl? && c.detail.parent == parent
      && (c.detail.separator <==> i >= FirstColumn(|r.children|) || (parent.Some? && parent.value.separator))
      && c.nested == ProcessSymbol(Page, container, r.children[i], Some(SnapshotOf(c)))
  {
    ControlAt(Page, container, r, parent, i);
    FaceFacts(Page, container, r.children[i], i + 1, |r.children|, parent);
    SecondColumnSplit(i + 1, |r.children|);
  }

  /**
   * A page control's `Parent` is a copy of its enclosing control: the same
   * separator flag, keyword, anchor, expression, name, properties and caption.
   */
  lemma PageParents(container: Container, r: Region, parent: Option<Snapshot>)
    requires Splittable(Page, r)
    ensures var cs := ProcessSymbol(Page, container, r, parent);
      forall i :: 0 <= i < |cs| ==>
        && cs[i].detail.PageControl? && cs[i].detail.parent == parent
        && forall j :: 0 <= j < |cs[i].nested| ==>
             cs[i].nested[j].detail.PageControl? && cs[i].nested[j].detail.parent == Some(SnapshotOf(cs[i]))
  {
    var cs := ProcessSymbol(Page, container, r, parent);
    forall i | 0 <= i < |cs|
      ensures cs[i].detail.PageControl? && cs[i].detail.parent == parent
      ensures forall j :: 0 <= j < |cs[i].nested| ==>
        cs[i].nested[j].detail.PageControl? && cs[i].nested[j].detail.parent == Some(SnapshotOf(cs[i]))
    {
      PageControlAt(container, r, parent, i);
      forall j | 0 <= j < |cs[i].nested|
        ensures cs[i].nested[j].detail.PageControl? && cs[i].nested[j].detail.parent == Some(SnapshotOf(cs[i]))
      {
        PageControlAt(container, r.children[i], Some(SnapshotOf(cs[i])), j);
      }
    }
  }

  /**
   * The separator flag of the `i`-th (from 0) of a page's sibling controls:
   * set past the first column, inherited from the parent before it; so the
   * flagged siblings are a tail of the list.
   */
  lemma SeparatorRule(container: Container, r: Region, parent: Option<Snapshot>)
    requires Splittable(Page, r)
    ensures var cs := ProcessSymbol(Page, container, r, parent);
      && (forall i :: 0 <= i < |cs| ==>
            && cs[i].detail.PageControl?
            && (cs[i].detail.separator <==> i >= FirstColumn(|cs|) || (parent.Some? && parent.value.separator)))
      && (forall i, j :: 0 <= i <= j < |cs| && cs[i].detail.separator ==> cs[j].detail.separator)
  {
    var cs := ProcessSymbol(Page, container, r, parent);
    forall i | 0 <= i < |cs|
      ensures cs[i].detail.PageControl?
      ensures cs[i].detail.separator <==> i >= FirstColumn(|cs|) || (parent.Some? && parent.value.separator)
    {
      PageControlAt(container, r, parent, i);
    }
  }

  /** Every control of the forest is a page control with the separator flag set. */
  predicate AllFlagged(cs: seq<Control>) {
    forall i :: 0 <= i < |cs| ==> cs[i].detail.PageControl? && cs[i].detail.separator && AllFlagged(cs[i].nested)
  }

  /** Below a flagged parent every page control, at any depth, is flagged. */
  lemma {:induction false} SeparatorInherited(container: Container, r: Region, parent: Option<Snapshot>)
    requires Splittable(Page, r)
    requires parent.Some? && parent.value.separator
    decreases r
    ensures AllFlagged(ProcessSymbol(Page, container, r, parent))
  {
    var cs := ProcessSymbol(Page, container, r, parent);
    forall i | 0 <= i < |cs| ensures cs[i].detail.PageControl? && cs[i].detail.separator && AllFlagged(cs[i].nested) {
      PageControlAt(container, r, parent, i);
      SeparatorInherited(container, r.children[i], Some(SnapshotOf(cs[i])));
    }
  }

  /** A character absent from the parts and the separator is absent from their join. */
  lemma {:induction false} JoinKeepsAbsent(parts: seq<string>, sep: string, c: char)
    requires c !in sep && forall k :: 0 <= k < |parts| ==> c !in parts[k]
    ensures c !in Join(parts, sep)
  {
    if |parts| > 1 {
      JoinKeepsAbsent(parts[1..], sep, c);
    }
  }

  /** A name made of `;`-free parts joined by `;` splits back into them. */
  lemma NamePartsOf(parts: seq<string>)
    requires |parts| >= 2 && forall k :: 0 <= k < |parts| ==> ';' !in parts[k]
    ensures ';' in Join(parts, ";") && NameParts(Join(parts, ";")) == parts
  {
    JoinCons(parts[0], parts[1..], ";");
    assert [parts[0]] + parts[1..] == parts;
    assert Join(parts, ";")[|parts[0]|] == ';';
    forall k | 0 <= k < |parts| ensures !Contains(parts[k] + ";"[..0], ";") {
      assert parts[k] + ";"[..0] == parts[k];
      ContainsChar(parts[k], ';');
    }
    SplitJoin(parts, ";");
  }

  /** A page `field` or `part` named `Name; Expression` shows the trimmed name and source expression. */
  lemma PageFieldName(container: Container, r: Region, parent: Option<Snapshot>, i: nat, parts: seq<string>)
    requires Splittable(Page, r) && i < |r.children|
    requires r.children[i].region == "field" || r.children[i].region == "part"
    requires |parts| >= 2 && forall k :: 0 <= k < |parts| ==> ';' !in parts[k]
    requires r.children[i].name == Join(parts, ";")
    ensures var c := ProcessSymbol(Page, container, r, parent)[i];
      c.name == Trim(parts[0]) && c.sourceExpression == Trim(parts[1])
  {
    ControlAt(Page, container, r, parent, i);
    NamePartsOf(parts);
  }

  /** Any other page region's name is shown capitalised, with no source expression. */
  lemma PageOtherName(container: Container, r: Region, parent: Option<Snapshot>, i: nat)
    requires Splittable(Page, r) && i < |r.children|
    requires r.children[i].region != "field" && r.children[i].region != "part"
    ensures var c := ProcessSymbol(Page, container, r, parent)[i];
      c.name == UpperFirst(r.children[i].name) && c.sourceExpression == ""
  {
    ControlAt(Page, container, r, parent, i);
  }

  /** A table `field` named `Id; Name; Type` has the trimmed id and name. */
  lemma TableFieldName(container: Container, r: Region, i: nat, parts: seq<string>)
    requires Splittable(Table, r) && i < |r.children|
    requires r.children[i].region == "field"
    requires |parts| >= 2 && forall k :: 0 <= k < |parts| ==> ';' !in parts[k]
    requires r.children[i].name == Join(parts, ";")
    ensures var c := ProcessSymbol(Table, container, r, None)[i];
      c.detail == TableField(Trim(parts[0])) && c.name == Trim(parts[1])
  {
    ControlAt(Table, container, r, None, i);
    NamePartsOf(parts);
  }

  /** A table `key` named `Name; F1,F2,...` has the trimmed name and the listed fields. */
  lemma TableKeyName(container: Container, r: Region, i: nat, keyName: string, fields: seq<string>)
    requires Splittable(Table, r) && i < |r.children|
    requires r.children[i].region == "key"
    requires ';' !in keyName && |fields| >= 1 && IsTrimmed(Join(fields, ","))
    requires forall k :: 0 <= k < |fields| ==> IsTrimmed(fields[k]) && ',' !in fields[k] && ';' !in fields[k]
    requires r.children[i].name == keyName + ";" + Join(fields, ",")
    ensures var c := ProcessSymbol(Table, container, r, None)[i];
      c.detail == TableKey(fields) && c.name == Trim(keyName)
  {
    ControlAt(Table, container, r, None, i);
    KeyNameParts(keyName, fields);
    FieldListOf(fields);
  }

  lemma KeyNameParts(keyName: string, fields: seq<string>)
    requires ';' !in keyName && forall k :: 0 <= k < |fields| ==> ';' !in fields[k]
    ensures var name := keyName + ";" + Join(fields, ",");
      ';' in name && NameParts(name) == [keyName, Join(fields, ",")]
  {
    JoinKeepsAbsent(fields, ",", ';');
    var parts := [keyName, Join(fields, ",")];
    JoinCons(keyName, [Join(fields, ",")], ";");
    NamePartsOf(parts);
  }

  // ---------------------------------------------------------------------------
  // What generateSymbol builds

  /** The last position whose region is (`want`) or is not (`!want`) named `region`. */
  function LastIndex(rs: seq<Region>, region: string, want: bool): (k: Option<nat>)
    ensures k.Some? ==> k.value < |rs| && (rs[k.value].region == region) == want
    ensures k.Some? ==> forall j :: k.value < j < |rs| ==> (rs[j].region == region) != want
    ensures k.None? ==> forall j :: 0 <= j < |rs| ==> (rs[j].region == region) != want
  {
    if rs == [] then None
    else
      match LastIndex(rs[1..], region, want)
      case Some(k) => Some(k + 1)
      case None => if (rs[0].region == region) == want then Some(0) else None
  }

  /** The controls of the last region selected by `region` and `want`, or `init` when there is none. */
  function LastList(kind: ObjectKind, container: Container, rs: seq<Region>, region: string, want: bool,
                    init: seq<Control>): seq<Control>
    requires forall i :: 0 <= i < |rs| ==> (rs[i].region == region) == want ==> Splittable(kind, rs[i])
  {
    match LastIndex(rs, region, want)
    case None => init
    case Some(k) => ProcessSymbol(kind, container, rs[k], None)
  }

  lemma LastListCons(kind: ObjectKind, container: Container, rs: seq<Region>, region: string, want: bool,
                     init: seq<Control>)
    requires rs != []
    requires forall i :: 0 <= i < |rs| ==> (rs[i].region == region) == want ==> Splittable(kind, rs[i])
    ensures var first := if (rs[0].region == region) == want then ProcessSymbol(kind, container, rs[0], None) else init;
      LastList(kind, container, rs, region, want, init) == LastList(kind, container, rs[1..], region, want, first)
  {
    match LastIndex(rs[1..], region, want)
    case Some(k) =>
      assert rs[1..][k] == rs[k + 1];
    case None =>
  }

  /** On a page, the last `actions` region gives the actions, the last other region the controls. */
  lemma {:induction false} PageLastWins(children: seq<Region>, controls: seq<Control>, actions: seq<Control>)
    requires forall i :: 0 <= i < |children| ==> Splittable(Page, children[i])
    ensures PageLists(children, controls, actions) ==
      PageMembers(LastList(Page, Controls, children, "actions", false, controls),
                  LastList(Page, Actions, children, "actions", true, actions))
  {
    if children != [] {
      LastListCons(Page, Controls, children, "actions", false, controls);
      LastListCons(Page, Actions, children, "actions", true, actions);
      var child := children[0];
      if child.region == "actions" {
        PageLastWins(children[1..], controls, ProcessSymbol(Page, Actions, child, None));
      } else {
        PageLastWins(children[1..], ProcessSymbol(Page, Controls, child, None), actions);
      }
    }
  }

  /** On a table, the last `fields` region gives the fields and the last `keys` region the keys. */
  lemma {:induction false} TableLastWins(children: seq<Region>, fields: seq<Control>, keys: seq<Control>)
    requires forall i :: 0 <= i < |children| ==>
      (children[i].region == "fields" || children[i].region == "keys") ==> Splittable(Table, children[i])
    ensures TableLists(children, fields, keys) ==
      TableMembers(LastList(Table, Fields, children, "fields", true, fields),
                   LastList(Table, Keys, children, "keys", true, keys), [])
  {
    if children != [] {
      LastListCons(Table, Fields, children, "fields", true, fields);
      LastListCons(Table, Keys, children, "keys", true, keys);
      var child := children[0];
      if child.region == "fields" {
        TableLastWins(children[1..], ProcessSymbol(Table, Fields, child, None), keys);
      } else if child.region == "keys" {
        TableLastWins(children[1..], fields, ProcessSymbol(Table, Keys, child, None));
      } else {
        TableLastWins(children[1..], fields, keys);
      }
    }
  }

  /** A page symbol's lists come from its last `actions` region and its last other region. */
  lemma PageSymbol(root: Region)
    requires Buildable(root) && root.objType == "page"
    ensures GenerateSymbol(root).members ==
      PageMembers(LastList(Page, Controls, root.children, "actions", false, []),
                  LastList(Page, Actions, root.children, "actions", true, []))
  {
    PageLastWins(root.children, [], []);
  }

  /** A table symbol's lists come from its last `fields` and last `keys` regions; field groups stay empty. */
  lemma TableSymbol(root: Region)
    requires Buildable(root) && root.objType == "table"
    ensures GenerateSymbol(root).members ==
      TableMembers(LastList(Table, Fields, root.children, "fields", true, []),
                   LastList(Table, Keys, root.children, "keys", true, []), [])
  {
    TableLastWins(root.children, [], []);
  }

  /**
   * From source text to symbol: the single object block of a well-formed
   * outline is read as its region, and the symbol carries the id, name and
   * type its header declares.
   */
  lemma SymbolOfSource(o: Outline)
    requires WellFormed(o) && Buildable(Expected(o))
    ensures RecursiveMatch(Render(o)) == [Expected(o)]
    ensures var s, h := GenerateSymbol(RecursiveMatch(Render(o))[0]), Classify(o.header);
      s.id == h.id && s.name == h.name && s.objType == h.objType && s.properties == o.properties
  {
    SingleBlock(o);
  }

  /**
   * `parseText` of a rendered object `kw id "name" { ... }`: the symbol has
   * the declared id, the unquoted name, the keyword as type, and the
   * properties written in the block.
   */
  lemma ObjectDeclarationSymbol(o: Outline, kw: string, id: nat, name: string)
    requires |kw| > 0 && AllIn(kw, 0, |kw|, Lower)
    requires '"' !in name && AllIn(name, 0, |name|, NotLineEnd) && IsTrimmed(name)
    requires o.header == kw + " " + Numeral(id) + " \"" + name + "\""
    requires WellFormed(o) && Buildable(Expected(o))
    ensures RecursiveMatch(Render(o)) == [Expected(o)]
    ensures var s := GenerateSymbol(RecursiveMatch(Render(o))[0]);
      s.id == id && s.name == name && s.objType == kw && s.properties == o.properties
  {
    SymbolOfSource(o);
    ClassifyObjectDeclaration(kw, id, name);
  }

  lemma SingleBlock(o: Outline)
    requires WellFormed(o)
    ensures RecursiveMatch(Render(o)) == [Expected(o)]
  {
    var os := [o];
    assert os[0] == o && os[1..] == [];
    RoundTrip(os);
    OneBlock(o);
  }

  lemma OneBlock(o: Outline)
    ensures RenderAll([o]) == Render(o) && ExpectedAll([o]) == [Expected(o)]
  {
    assert [o][1..] == [];
  }
}
