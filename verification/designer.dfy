/**
 * The embedded designer's view of a control (`DesignElement`): which kind
 * of control to draw (`getControlType`) and what text to label it with
 * (`getCaption`), for controls built by the parser and for controls of
 * symbol packages that carry a numeric `Kind` instead of a `ControlType`.
 */
module Designer {
  import opened Options
  import opened Strings
  import opened Regions
  import opened Symbols

  /** The designer's `ControlKind` enumeration, in declaration order. */
  datatype ControlKind =
    | Area | Group | CueGroup | Repeater | Fixed | Grid
    | Part | SystemPart | Field | Label | UserControl | ChartPart

  /** The number TypeScript gives each member: its position in the declaration. */
  function Ordinal(k: ControlKind): (n: nat)
    ensures n < 12
  {
    match k
    case Area => 0 case Group => 1 case CueGroup => 2 case Repeater => 3
    case Fixed => 4 case Grid => 5 case Part => 6 case SystemPart => 7
    case Field => 8 case Label => 9 case UserControl => 10 case ChartPart => 11
  }

  /** `ControlKind[n]` read as a member: the member numbered `n`, if any. */
  function KindOf(n: int): (k: Option<ControlKind>)
    ensures k.Some? <==> 0 <= n < 12
  {
    if n == 0 then Some(Area) else if n == 1 then Some(Group) else if n == 2 then Some(CueGroup)
    else if n == 3 then Some(Repeater) else if n == 4 then Some(Fixed) else if n == 5 then Some(Grid)
    else if n == 6 then Some(Part) else if n == 7 then Some(SystemPart) else if n == 8 then Some(Field)
    else if n == 9 then Some(Label) else if n == 10 then Some(UserControl) else if n == 11 then Some(ChartPart)
    else None
  }

  /** The reverse mapping and the numbering undo each other. */
  lemma KindNumbering(k: ControlKind, n: int)
    ensures KindOf(Ordinal(k)) == Some(k)
    ensures KindOf(n).Some? ==> Ordinal(KindOf(n).value) == n
  {
  }

  /** `ControlKind[n]` read as a name: the member's identifier. */
  function KindName(k: ControlKind): string {
    match k
    case Area => "Area" case Group => "Group" case CueGroup => "CueGroup" case Repeater => "Repeater"
    case Fixed => "Fixed" case Grid => "Grid" case Part => "Part" case SystemPart => "SystemPart"
    case Field => "Field" case Label => "Label" case UserControl => "UserControl" case ChartPart => "ChartPart"
  }

  /** The control type keyword of each kind, as AL writes it in page source. */
  function Keyword(k: ControlKind): string {
    match k
    case Area => "area" case Group => "group" case CueGroup => "cuegroup" case Repeater => "repeater"
    case Fixed => "fixed" case Grid => "grid" case Part => "part" case SystemPart => "systempart"
    case Field => "field" case Label => "label" case UserControl => "usercontrol" case ChartPart => "chartpart"
  }

  /** Lower-casing a member's name gives its AL keyword. */
  lemma LowerKindName(k: ControlKind)
    ensures Lower(KindName(k)) == Keyword(k)
  {
    if IsContainer(k) {
      LowerContainerName(k);
    } else {
      LowerContentName(k);
    }
  }

  /** The kinds that hold other controls. */
  predicate IsContainer(k: ControlKind) {
    k.Area? || k.Group? || k.CueGroup? || k.Repeater? || k.Fixed? || k.Grid?
  }

  lemma LowerContainerName(k: ControlKind)
    requires IsContainer(k)
    ensures Lower(KindName(k)) == Keyword(k)
  {
    match k
    case Area => LowerWord("Area", "area");
    case Group => LowerWord("Group", "group");
    case CueGroup => LowerWord("CueGroup", "cuegroup");
    case Repeater => LowerWord("Repeater", "repeater");
    case Fixed => LowerWord("Fixed", "fixed");
    case Grid => LowerWord("Grid", "grid");
  }

  lemma LowerContentName(k: ControlKind)
    requires !IsContainer(k)
    ensures Lower(KindName(k)) == Keyword(k)
  {
    match k
    case Part => LowerWord("Part", "part");
    case SystemPart => LowerWord("SystemPart", "systempart");
    case Field => LowerWord("Field", "field");
    case Label => LowerWord("Label", "label");
    case UserControl => LowerWord("UserControl", "usercontrol");
    case ChartPart => LowerWord("ChartPart", "chartpart");
  }

  /** A word lower-cases to `w` when each of its characters lower-cases to the one of `w` in its place. */
  lemma LowerWord(s: string, w: string)
    requires |s| == |w| && forall j :: 0 <= j < |s| ==> LowerChar(s[j]) == w[j]
    ensures Lower(s) == w
  {
    LowerEach(s);
  }

  /** `Lower` works character by character. */
  lemma {:induction false} LowerEach(s: string)
    ensures |Lower(s)| == |s|
    ensures forall j :: 0 <= j < |s| ==> Lower(s)[j] == LowerChar(s[j])
  {
    if s != [] {
      LowerEach(s[1..]);
      assert Lower(s) == [LowerChar(s[0])] + Lower(s[1..]);
    }
  }

  /** Distinct kinds have distinct keywords. */
  lemma KeywordsDistinct(a: ControlKind, b: ControlKind)
    requires Keyword(a) == Keyword(b)
    ensures a == b
  {
  }

  /**
   * The members of a control the designer reads. A missing member is `None`.
   * `Kind` is modelled as a number only; a `Kind` of 0 is consulted as
   * missing, as JavaScript treats it as false. `Properties` is always present.
   */
  datatype Item = Item(
    controlType: Option<string>, kind: Option<int>, caption: Option<string>,
    properties: seq<Property>, name: Option<string>)

  /** A member JavaScript treats as true: present and not the empty string. */
  predicate Truthy(s: Option<string>) {
    s.Some? && s.value != ""
  }

  /** `Kind` is consulted, and is a number other than 0. */
  predicate UsesKind(item: Item) {
    !Truthy(item.controlType) && item.kind.Some? && item.kind.value != 0
  }

  /**
   * `getControlType`: nothing for no item; the item's own control type when
   * it has one; otherwise the lower-cased name of its `Kind`. A `Kind` outside
   * the enumeration makes `toLowerCase` fail on `undefined`, so it is excluded.
   */
  function GetControlType(item: Option<Item>): (r: Option<string>)
    requires item.Some? && UsesKind(item.value) ==> KindOf(item.value.kind.value).Some?
    ensures item.None? ==> r.None?
    ensures item.Some? && Truthy(item.value.controlType) ==> r == item.value.controlType
    ensures item.Some? && UsesKind(item.value) ==> r == Some(Keyword(KindOf(item.value.kind.value).value))
    ensures r.Some? <==> item.Some? && (Truthy(item.value.controlType) || UsesKind(item.value))
  {
    if item.None? then None
    else
      var it := item.value;
      if Truthy(it.controlType) then it.controlType
      else if it.kind.Some? && it.kind.value != 0 then
        var k := KindOf(it.kind.value).value;
        LowerKindName(k);
        Some(Lower(KindName(k)))
      else None
  }

  /** The designer item for a control built by the parser: it has a control type and no `Kind`. */
  function ItemOf(c: Control): Item {
    Item(Some(c.controlType), None, Some(c.caption), c.properties, Some(c.name))
  }

  /**
   * A parsed control whose keyword is a kind's keyword is drawn as that kind,
   * exactly as a symbol-package control carrying that kind's number would be.
   */
  lemma ParsedAgreesWithKind(c: Control, k: ControlKind)
    requires c.controlType == Keyword(k)
    ensures GetControlType(Some(ItemOf(c))) == Some(c.controlType)
    ensures k != Area ==>
      GetControlType(Some(ItemOf(c))) == GetControlType(Some(Item(None, Some(Ordinal(k)), None, [], None)))
    ensures GetControlType(Some(Item(None, Some(Ordinal(Area)), None, [], None))) == None
  {
    KindNumbering(k, Ordinal(k));
  }

  /** The position of the first property named `CaptionML` or `Caption`. */
  function FirstLabel(ps: seq<Property>): (k: Option<nat>)
    ensures k.Some? ==> k.value < |ps| && (ps[k.value].name == "CaptionML" || ps[k.value].name == "Caption")
    ensures k.Some? ==> forall j :: 0 <= j < k.value ==> ps[j].name != "CaptionML" && ps[j].name != "Caption"
    ensures k.None? ==> forall j :: 0 <= j < |ps| ==> ps[j].name != "CaptionML" && ps[j].name != "Caption"
  {
    if ps == [] then None
    else if ps[0].name == "CaptionML" || ps[0].name == "Caption" then Some(0)
    else
      match FirstLabel(ps[1..])
      case None => None
      case Some(k) => Some(k + 1)
  }

  /** `s.substr(4)`: everything after the fourth character, empty when there is nothing after it. */
  function DropFour(s: string): (r: string)
    ensures |r| == if |s| <= 4 then 0 else |s| - 4
    ensures |s| >= 4 ==> s == s[..4] + r
  {
    if |s| <= 4 then "" else s[4..]
  }

  /**
   * `getCaption`: nothing for no item; its caption when it has a non-empty
   * one; otherwise the value of its first `CaptionML` or `Caption` property
   * less its four-character language prefix (`ENU=`); otherwise its name.
   */
  function GetCaption(item: Option<Item>): (r: Option<string>)
    ensures item.None? ==> r.None?
    ensures item.Some? && Truthy(item.value.caption) ==> r == item.value.caption
    ensures item.Some? && !Truthy(item.value.caption) && FirstLabel(item.value.properties).None? ==> r == item.value.name
    ensures item.Some? && !Truthy(item.value.caption) && FirstLabel(item.value.properties).Some? ==>
      r == Some(DropFour(item.value.properties[FirstLabel(item.value.properties).value].value))
  {
    if item.None? then None
    else
      var it := item.value;
      if Truthy(it.caption) then it.caption
      else
        match FirstLabel(it.properties)
        case Some(k) => Some(DropFour(it.properties[k].value))
        case None => it.name
  }

  /** A language-tagged caption value `ENU=Text` shows as `Text`. */
  lemma CaptionDropsLanguage(item: Item, k: nat, tag: string, text: string)
    requires !Truthy(item.caption) && k < |item.properties|
    requires item.properties[k].name == "CaptionML" || item.properties[k].name == "Caption"
    requires forall j :: 0 <= j < k ==> item.properties[j].name != "CaptionML" && item.properties[j].name != "Caption"
    requires |tag| == 4 && item.properties[k].value == tag + text
    ensures GetCaption(Some(item)) == Some(text)
  {
    var v := item.properties[k].value;
    assert FirstLabel(item.properties) == Some(k);
    if |v| > 4 {
      assert v[4..] == text;
    }
  }

  /** A parsed control with a non-empty caption is labelled with the caption the parser gave it. */
  lemma ParsedCaption(c: Control)
    requires c.caption != ""
    ensures GetCaption(Some(ItemOf(c))) == Some(c.caption)
  {
  }

  /**
   * Every control the parser builds for a page is drawn as its region
   * keyword when that keyword is not empty, and labelled with its caption
   * when that is not empty.
   */
  lemma PageControlsInDesigner(container: Container, r: Region, parent: Option<Snapshot>, i: nat)
    requires Splittable(Page, r) && i < |r.children|
    ensures var c := ProcessSymbol(Page, container, r, parent)[i];
      && (r.children[i].region != "" ==> GetControlType(Some(ItemOf(c))) == Some(r.children[i].region))
      && (r.children[i].region == "" ==> GetControlType(Some(ItemOf(c))) == None)
      && (c.caption != "" ==> GetCaption(Some(ItemOf(c))) == Some(c.caption))
  {
    ControlsFollowChildren(Page, container, r, parent);
  }
}
