# AL Object Designer: region parser and designer element, in Dafny

This project models the core of the AL Object Designer.

- **Region parser** (`ALObjectParser`). It turns the source text of an AL object (a Business Central page, table, codeunit, ...) into a tree of regions. Each region is one balanced `{ ... }` block, named by the line in front of its opening brace. The parser then turns a page's or table's region tree into a symbol: controls and actions for a page, fields and keys for a table.
- **Designer element** (`DesignElement`). It decides which kind of control the embedded designer draws for an item, and what caption it shows.

Modules, in dependency order:

| module | file | models |
|---|---|---|
| `Options` | options.dfy | `Option<T>` for JavaScript's `null`/`undefined` results |
| `Strings` | strings.dfy | the JavaScript string primitives the parser uses: `trim()` with JavaScript's white-space set, `indexOf`, `split(sep)`, `replace(/c/g, '')`, `replace(';', '')`, `toLowerCase()`, and the `toUpperCaseFirst` helper |
| `Braces` | braces.dfy | the `balanced-match` library call `balanced('{', '}', text)`, as a contract and as a scanner meeting it |
| `Headers` | headers.dfy | `processRegion`: the two regular expressions, their leftmost and greedy match, and the header each gives |
| `Regions` | regions.dfy | the property-line mapping and `recursiveMatch` |
| `Outlines` | outlines.dfy | a renderer from outlines (header, properties, nested blocks) to AL text, and the proof that `recursiveMatch` reads the rendering back exactly |
| `Symbols` | symbols.dfy | `generateSymbol` and `processSymbol` |
| `Designer` | designer.dfy | `getControlType`, `getCaption` and `enum ControlKind` |

Three behaviours of the code a reader might not expect:

- **Children.** `recursiveMatch` takes a region's children from its whole body, not only from the text in front of its first nested block.
- **Properties.** A region gets properties only in two cases: its body has a nested block (the lines before that block are read), or its keyword contains `field` (the whole body is read). A leaf region whose keyword is not a `field` variant gets none. The container region `fields` contains `field`, so it takes this path too.
- **Separator flag.** The code flags every sibling from index `count/2 - 1` (0-based) on for an even count, and from `(count+1)/2` on for an odd count. So both siblings of a pair are flagged. `Symbols.SecondColumnSplit` and `Symbols.SeparatorRule` state the rule as written.

## Model

| member | source | states |
|---|---|---|
| Braces.Balance | extension-al-object-designer/src/ALObjectParser.ts:99 | `balanced` returns nothing exactly when no `{` of the text has a balancing `}`. Otherwise the text is `pre + "{" + body + "}" + post`, the body is balanced, and no brace before the one found has a balancing close |
| Braces.BalanceFirst | extension-al-object-designer/src/ALObjectParser.ts:99 | when no `{` comes before a balanced pair, that pair is the one returned, cut at its braces |
| Braces.BalanceAfterHeader | extension-al-object-designer/src/ALObjectParser.ts:99-104 | a brace-free header, a balanced block and any tail are cut into exactly that header, block body and tail |
| Headers.NumberedFromSpec | extension-al-object-designer/src/ALObjectParser.ts:151-153 | the scan for `([a-z]+)\s([0-9]+)\s(.*)` finds the leftmost match, with a tail that runs to the end of the line, and finds nothing only when no start matches |
| Headers.KeywordFromSpec | extension-al-object-designer/src/ALObjectParser.ts:150 | the scan for `([aA-zZ]+)\((.*)\)` finds the leftmost match, closed at the last `)` of the line, and finds nothing only when no start matches |
| Headers.NumberedDeterministic | extension-al-object-designer/src/ALObjectParser.ts:151 | at a fixed start the numbered pattern has one keyword group and one number group; only the tail can vary |
| Headers.ClassifyNumbered | extension-al-object-designer/src/ALObjectParser.ts:149-161 | a trimmed line the numbered pattern matches gives: region = type = the keyword group, id = the number group's value, name = the third group unquoted |
| Headers.ClassifyKeyword | extension-al-object-designer/src/ALObjectParser.ts:162-173 | a line only the keyword pattern matches gives the keyword as region, the parenthesised text unquoted as name, no type and id 0 |
| Headers.ClassifyVerbatim | extension-al-object-designer/src/ALObjectParser.ts:176-181 | a line neither pattern matches is its own region, trimmed, with no name, no type and id 0 |
| Headers.ClassifyTyped | extension-al-object-designer/src/ALObjectParser.ts:148-182 | a header has a type exactly when the numbered pattern matches the trimmed line |
| Headers.ClassifyObjectDeclaration | extension-al-object-designer/src/ALObjectParser.ts:151-161 | the object declaration `kw id "name"` classifies back to keyword `kw` (as region and type), id `id` and name `name` |
| Headers.ClassifyBlockOpener | extension-al-object-designer/src/ALObjectParser.ts:150-172 | a digit-free opener `kw(args)` classifies to region `kw`, name `args`, no type and id 0 |
| Headers.NumeralValue | extension-al-object-designer/src/ALObjectParser.ts:160 | `parseInt` of the decimal numeral of `n` is `n` |
| Headers.Unquote | extension-al-object-designer/src/ALObjectParser.ts:158 | a name group with its `"` removed and trimmed has no `"` and no surrounding white space |
| Headers.UnquoteQuoted | extension-al-object-designer/src/ALObjectParser.ts:158 | unquoting `"name"` gives back a trimmed, quote-free name |
| Regions.ParseProperty | extension-al-object-designer/src/ALObjectParser.ts:119-130 | a line is a property exactly when it contains `=`; the property's name is trimmed and neither name nor value holds `=` |
| Regions.ParsePropertyParts | extension-al-object-designer/src/ALObjectParser.ts:119-130 | a line of `=`-free parts joined by `=` gives name = trimmed first part and value = trimmed second part less its first `;`; later parts are dropped |
| Regions.CollectConcat | extension-al-object-designer/src/ALObjectParser.ts:118-133 | the map and filter read lines one by one: the properties of two runs of lines are those of the first run followed by those of the second |
| Regions.ParseProperties | extension-al-object-designer/src/ALObjectParser.ts:117-133 | text without `=` has no properties; every name read is trimmed and `=`-free |
| Regions.RecursiveMatch | extension-al-object-designer/src/ALObjectParser.ts:96-146 | the region list is empty exactly when no brace of the text has a balancing close |
| Regions.CountBound | extension-al-object-designer/src/ALObjectParser.ts:96-146 | there are no more regions, nested ones included, than opening braces in the text |
| Regions.SourcesAreLines | extension-al-object-designer/src/ALObjectParser.ts:103-112 | every region's `Source`, at every depth of nesting, is a single line: it holds no `\r\n` |
| Strings.SplitParts | extension-al-object-designer/src/ALObjectParser.ts:103 | `split` loses nothing: joining the parts with the separator gives the string back, and no part holds the separator |
| Strings.SplitJoin | extension-al-object-designer/src/ALObjectParser.ts:117 | splitting parts joined by a separator none of them can form gives back the parts |
| Strings.SplitCount | extension-al-object-designer/src/ALObjectParser.ts:120-124 | `split` gives a single part exactly when the separator does not occur |
| Strings.LastLine | extension-al-object-designer/src/ALObjectParser.ts:103-104 | `lines.pop()` is the text after the last `\r\n`: a suffix holding no `\r\n`, directly preceded by `\r\n` when the text has a line break, and the whole text when it has none |
| Strings.TrimPads | extension-al-object-designer/src/ALObjectParser.ts:149 | `trim()` returns the string itself less only white space before and after |
| Strings.TrimUnique | extension-al-object-designer/src/ALObjectParser.ts:149 | a string that is a trimmed core padded with white space trims to exactly that core |
| Strings.RemoveAllCounts | extension-al-object-designer/src/ALObjectParser.ts:158 | `replace(/"/g, '')` deletes every `"` and keeps every other character as often as before |
| Strings.RemoveAllConcat | extension-al-object-designer/src/ALObjectParser.ts:158 | deleting a character commutes with concatenation, so the other characters keep their order |
| Strings.DeleteFirst | extension-al-object-designer/src/ALObjectParser.ts:128 | `replace(';', '')` deletes only the first `;`, and leaves a `;`-free string alone |
| Strings.UpperFirst | extension-al-object-designer/src/ALObjectParser.ts:259 | capitalising keeps the length and every character after the first; the first character is the same letter up to case and is not lower case |
| Outlines.ParsePropertyLine | extension-al-object-designer/src/ALObjectParser.ts:119-130 | a writable property's line `Name = Value;` reads back as that property |
| Outlines.ReadPropsText | extension-al-object-designer/src/ALObjectParser.ts:117-133 | the body of a `field` block, made of property lines, reads back as exactly those properties |
| Outlines.BlockPropertiesOf | extension-al-object-designer/src/ALObjectParser.ts:114-134 | the properties `recursiveMatch` reads for a rendered block are the outline's properties |
| Outlines.ReadBack | extension-al-object-designer/src/ALObjectParser.ts:96-146 | property lines followed by rendered blocks read back as the regions the outlines describe |
| Outlines.RoundTrip | extension-al-object-designer/src/ALObjectParser.ts:96-146 | `recursiveMatch` of rendered well-formed outlines is exactly the regions they describe: headers, classification, properties and nesting |
| Symbols.GenerateSymbol | extension-al-object-designer/src/ALObjectParser.ts:184-222 | the symbol keeps the region's id, name, type and properties. It has page lists exactly for a `page`, table lists exactly for a `table`, and a table's field groups are empty |
| Symbols.PageSymbol | extension-al-object-designer/src/ALObjectParser.ts:191-203 | a page's actions come from its last `actions` region and its controls from its last other region, each processed with no parent |
| Symbols.TableSymbol | extension-al-object-designer/src/ALObjectParser.ts:204-218 | a table's fields come from its last `fields` region and its keys from its last `keys` region; other regions are skipped and field groups stay empty |
| Symbols.PageLastWins | extension-al-object-designer/src/ALObjectParser.ts:196-200 | each top-level page region replaces its list, so the last one of each kind wins |
| Symbols.TableLastWins | extension-al-object-designer/src/ALObjectParser.ts:209-215 | each `fields` or `keys` region replaces its list, so the last one of each wins |
| Symbols.SymbolOfSource | extension-al-object-designer/src/ALObjectParser.ts:184-190 | for a rendered object block, the text parses to exactly its one region, and the symbol built from it carries the id, name and type its header classifies to, and the block's properties |
| Symbols.ObjectDeclarationSymbol | extension-al-object-designer/src/ALObjectParser.ts:70-76 | `parseText` of a rendered object `kw id "name" { ... }` gives a symbol with id `id`, name `name`, type `kw` and the block's properties |
| Symbols.ProcessSymbol | extension-al-object-designer/src/ALObjectParser.ts:224-306 | one control per child region |
| Symbols.ControlsFollowChildren | extension-al-object-designer/src/ALObjectParser.ts:233-302 | the controls follow the child regions in order. Each copies its region's keyword, header line and properties, and is captioned from its properties and name |
| Symbols.ControlCountMatches | extension-al-object-designer/src/ALObjectParser.ts:224-306 | every region below the given one, at any depth, becomes exactly one control |
| Symbols.Midpoint | extension-al-object-designer/src/ALObjectParser.ts:227-231 | `Math.ceil(count / 2)` (replaced by `count` when zero) is the smallest `m` with `count <= 2m` |
| Symbols.SecondColumnSplit | extension-al-object-designer/src/ALObjectParser.ts:244-245 | the 1-based sibling `i` passes the layout test exactly when it comes after the first `FirstColumn(count)` siblings |
| Symbols.SeparatorRule | extension-al-object-designer/src/ALObjectParser.ts:237-249 | a page control is flagged exactly when its 0-based index is at least `FirstColumn(count)` or its parent is flagged |
| Symbols.SeparatorInherited | extension-al-object-designer/src/ALObjectParser.ts:239-249 | below a flagged parent, every page control at any depth is flagged |
| Symbols.PageParents | extension-al-object-designer/src/ALObjectParser.ts:239-242 | a page list's controls have the given parent. Their nested controls have as parent a copy of their own control without its parent and nested lists |
| Symbols.PageControlAt | extension-al-object-designer/src/ALObjectParser.ts:236-260 | a page control's page members: its parent and its separator flag as the layout rule sets it |
| Symbols.PageFieldName | extension-al-object-designer/src/ALObjectParser.ts:254-257 | a page `field` or `part` named `Name;Expression` shows the trimmed name and source expression |
| Symbols.PageOtherName | extension-al-object-designer/src/ALObjectParser.ts:258-260 | any other page region shows its name capitalised, with an empty source expression |
| Symbols.TableFieldName | extension-al-object-designer/src/ALObjectParser.ts:274-281 | a table `field` named `Id;Name;...` has the trimmed id and the trimmed name |
| Symbols.TableKeyName | extension-al-object-designer/src/ALObjectParser.ts:282-285 | a table `key` named `Name;F1,F2,...` has the trimmed name and the field names listed |
| Symbols.FieldListOf | extension-al-object-designer/src/ALObjectParser.ts:284 | a key's field list written as trimmed names joined by commas reads back as those names |
| Symbols.NamePartsOf | extension-al-object-designer/src/ALObjectParser.ts:255 | a name made of `;`-free parts joined by `;` splits back into those parts |
| Symbols.FirstCaption | extension-al-object-designer/src/ALObjectParser.ts:295 | the first property named exactly `Caption`, if any: every property before it is named otherwise |
| Symbols.CaptionFromProperty | extension-al-object-designer/src/ALObjectParser.ts:294-297 | with a `Caption` property, the caption is the first one's value without apostrophes, trimmed |
| Symbols.CaptionFromName | extension-al-object-designer/src/ALObjectParser.ts:298-300 | without a `Caption` property, the caption is the control's name without double quotes, trimmed |
| Designer.Ordinal | embedded-designer/src/resources/elements/design-element.ts:72-85 | each enumeration member's number is below 12 |
| Designer.KindOf | embedded-designer/src/resources/elements/design-element.ts:45 | `ControlKind[n]` names a member exactly when `0 <= n < 12` |
| Designer.KindNumbering | embedded-designer/src/resources/elements/design-element.ts:72-85 | the numbering and the reverse mapping undo each other |
| Designer.LowerKindName | embedded-designer/src/resources/elements/design-element.ts:45-46 | each member's name lower-cased is the AL keyword of that control type |
| Designer.KeywordsDistinct | embedded-designer/src/resources/elements/design-element.ts:46 | distinct kinds are drawn as distinct control types |
| Designer.GetControlType | embedded-designer/src/resources/elements/design-element.ts:35-48 | no item gives nothing; a non-empty `ControlType` is returned; otherwise a non-zero `Kind` gives its member's name lower-cased; there is a result exactly in those two cases |
| Designer.ParsedAgreesWithKind | embedded-designer/src/resources/elements/design-element.ts:40-47 | a parsed control is drawn as its own keyword, the same as an item carrying that kind's number; kind 0 (`Area`) counts as no kind |
| Designer.FirstLabel | embedded-designer/src/resources/elements/design-element.ts:59-61 | the first property named `CaptionML` or `Caption`: every property before it is named otherwise |
| Designer.DropFour | embedded-designer/src/resources/elements/design-element.ts:64 | `substr(4)` drops the first four characters, and is empty for a string of four or fewer |
| Designer.GetCaption | embedded-designer/src/resources/elements/design-element.ts:50-68 | no item gives nothing; a non-empty `Caption` is returned; otherwise the first `CaptionML` or `Caption` property's value less its first four characters (empty when the value has four or fewer); with no caption property the item's name is returned |
| Designer.CaptionDropsLanguage | embedded-designer/src/resources/elements/design-element.ts:59-64 | a caption property `ENU=Text` shows as `Text` |
| Designer.ParsedCaption | embedded-designer/src/resources/elements/design-element.ts:55-56 | a parsed control with a non-empty caption is labelled with it |
| Designer.PageControlsInDesigner | embedded-designer/src/resources/elements/design-element.ts:35-56 | every parsed page control is drawn as its region keyword (nothing for an empty one) and labelled with its non-empty caption |

## Left out

- **Entry points.** `parse`, `parseFile`, `parseSymbol` and `parseSourceObject` read files and dispatch (ALObjectParser.ts:36-68, 78-95 and 308-338). The model starts from the object's text.
- **`parseText`.** `parseText` (ALObjectParser.ts:70-76) composes `recursiveMatch` with `generateSymbol(matches[0])`. `Symbols.SymbolOfSource` and `Symbols.ObjectDeclarationSymbol` state that composition for rendered object blocks only. Text with no balanced block gives no regions; `generateSymbol(undefined)` then throws, and the model has no member for that crash.
- **`utils`.** `utils.getAllMatches`, `utils.toUpperCaseFirst` and `utils.read` are not part of this model.
  - The first match of `getAllMatches` is taken to be the leftmost match of the pattern.
  - `toUpperCaseFirst` is taken to capitalise an ASCII first letter.
- **Case mapping.** `toLowerCase` and `toUpperCaseFirst` are modelled for ASCII letters only. Unicode case mapping is left out.
- **String representation.** A Dafny `string` counts Unicode characters, while JavaScript's `length`, indices and `substr` count UTF-16 code units. The two agree only on text inside the Basic Multilingual Plane. For example, `Designer.DropFour` cuts a caption value whose first four characters include one outside that plane at a different place than `substr(4)`.
- **Number precision.** `Number.parseInt` is modelled on unbounded naturals. JavaScript's loss of precision above 2^53 is left out.
- **Default properties.** The default `Properties` of an `ObjectRegion` (the class is not part of this model) is taken to be the empty list.
- **Crashes as preconditions.** Where the code would throw, the model states a precondition instead:
  - `Symbols.ProcessSymbol` requires (`Symbols.Splittable`) that every `field`/`part` (page) or `field`/`key` (table) region has a `;` in its name; otherwise `fieldData[1].trim()` fails on `undefined`.
  - `Designer.GetControlType` requires a consulted `Kind` to be below 12; otherwise `ControlKind[kind]` is `undefined` and `toLowerCase` fails.
  - `Designer.Item` holds `Kind` as a number only. A string `Kind` takes the same truthiness test in `getControlType` (design-element.ts:44-46): a numeric string such as `"8"` gives `"field"`, and a member name such as `"Field"` gives the number 8, on which `toLowerCase` throws. Neither case is modelled.
  - `Designer.Item` always has a property list. An item with no `Properties` and no caption makes `getCaption` throw at `item.Properties.filter` (design-element.ts:59); that case is not modelled.
- **Dead code.** The `Kind` lookup after `break` in the page case (ALObjectParser.ts:263-268) is unreachable, so it is not modelled.
- **Object identity.** `Object.assign({}, parent)` followed by `delete` is modelled as a value (`Symbols.Snapshot`). Aliasing between a control and its parent's copy is not modelled.
- **Designer plumbing.** In the designer element, `clickOnField`, `dispatch`, the drag options and Aurelia binding are UI plumbing and are left out.
- **`balanced-match` library.** The library's own source is not part of this model. `Braces.Balance` states its documented contract and meets it with a scanner.
- Symbols.TableKeyName: states the field list only for a key whose field names hold no `;` and are joined by a bare `,`. A key whose name holds more than one `;` keeps only the second part, and that case has no lemma.
- Outlines.RoundTrip: covers outlines whose headers are single trimmed lines without braces or `=`, and whose properties contain no `=`, `;`, braces or line breaks. The rendering puts each header, `{` and `}` directly next to each other, with no line breaks or indentation. So the usual AL layout, with an indented header on its own line and `{` on the next, is not covered. In that layout the code keeps the header line's indentation in `Source`, because `pre.trim()` trims the whole text in front of the block and not the popped line; the model does the same, but no lemma states it. Other texts are covered only by the general statements in `Regions`.
