# devsite-runtime-connector: the Markdown-to-HTML pipeline, modelled in Dafny

The connector turns a documentation page written in Markdown/MDX into an HTML
page. It parses the page into a Markdown tree, then runs its own passes over
that tree:

- fix the `slots` of `InlineAlert` blocks;
- drop `import` statements and turn `<Vars.x>` into `{{Vars.x}}` text;
- put a `Table` header row in front of every table;
- expand each top-level JSX block, together with the siblings it takes, into one grid table;
- cut the document into sections at its thematic breaks.

It then converts the tree into a render (HTML) tree. Its own handlers cover
fenced code and sections. After that it:

- turns tables inside `div`s into page blocks of `div`s;
- rewrites the targets of links and images;
- serialises the page into a template whose head carries meta tags read from
  the page's front matter.

This project models those passes and the string work they do. Each pass gets
the form it has in the source:

- **Tree walks** (`unist-util-visit`) become recursive functions over the node
  datatypes. Each step that assigns the document's tree becomes a method on
  the `Context.Content` class: its `mdast`, `hast` and `html` fields are what
  the steps reassign.
- **Loops.** `mdxToBlocks` and `tableToDivs` are loops in the source, so they
  are methods with loop invariants. Each is proved against a specification
  function.
- **JavaScript's string and array built-ins** are written out with the
  semantics the code relies on: `substring` clamping and swapping, `indexOf`
  from an index, `slice` with negative ends, `split`, `trim`, `replace` of the
  first match, `parseInt`. They live in `JsStrings`.
- **Node's `path.resolve`/`path.relative`** are written out as lexical
  segment normalisation, in `NodePath`.

Modules, one per source file plus three shared ones:

- `Mdast` and `Hast`: the two tree datatypes.
- `Context`: the document (`Site`) and the `Content` class.
- `JsStrings`, `NodePath`: the JavaScript and Node built-ins.
- `InlineAlert`, `MdxVars`, `TableBlocks`, `GridTables`, `Markup`, `ToHast`,
  `PageBlocks`, `Links`, `Stringify`: the passes.

Where the repository's tests and its code disagree, the model follows the
code:

- `src/steps/rewrite-links.ts:33-35` returns bare relative paths unchanged.
- `src/steps/rewrite-links.ts:42-43` resolves root-relative paths under the
  document's directory.
- There is no local mode.

The tests at `test/rewrite-links.test.ts:50-58`, `:70-121` and `:138-156`
expect otherwise.

## Model

| member | source | states |
|---|---|---|
| Context.Content.constructor | src/bindings.d.ts:16-27 | a fresh document holds the given Markdown, site coordinates and tree, an empty render tree and no HTML yet |
| Mdast.TextNode | src/steps/wrap-table-blocks.ts:32-35 | a text node carrying the given value and no children |
| Hast.EmptyElement | src/steps/create-page-blocks.js:74 | `h(tag)` is an element of that tag with no properties and no children |
| InlineAlert.FixSlots | src/steps/fix-inline-alert.ts:22-26 | every `slots` attribute becomes `slots="paragraph"`, every other attribute is kept, and no attribute is added or removed |
| InlineAlert.FixNode | src/steps/fix-inline-alert.ts:19-30 | the visit changes at most a node's attributes and children; a matched `InlineAlert` keeps its children as they are (SKIP) |
| InlineAlert.FixList | src/steps/fix-inline-alert.ts:19-30 | the walk keeps the number of children of every list |
| InlineAlert.FixNodeFixes | src/steps/fix-inline-alert.ts:21-26 | after the pass, every `slots` attribute of every `InlineAlert` element the walk reaches has the value `paragraph` |
| InlineAlert.FixListFixes | src/steps/fix-inline-alert.ts:21-26 | the same for every node of a child list |
| InlineAlert.FixNodeOnlySlots | src/steps/fix-inline-alert.ts:19-30 | the result differs from the input only in the values of `slots` attributes: same kinds, names, values, attribute names and counts, same tree shape |
| InlineAlert.FixListOnlySlots | src/steps/fix-inline-alert.ts:19-30 | the same, position by position, for a child list |
| InlineAlert.FixNodeNoAlert | src/steps/fix-inline-alert.ts:21-29 | a subtree in which the walk meets no `InlineAlert` comes back identical |
| InlineAlert.FixListNoAlert | src/steps/fix-inline-alert.ts:21-29 | the same for a child list |
| InlineAlert.FixNodeIdempotent | src/steps/fix-inline-alert.ts:23-25 | running the pass twice gives the tree running it once gives |
| InlineAlert.FixListIdempotent | src/steps/fix-inline-alert.ts:23-25 | the same for a child list |
| InlineAlert.FixSlotsIdempotent | src/steps/fix-inline-alert.ts:22-26 | rewriting the attributes twice gives the same attributes as once |
| InlineAlert.FixInlineAlert | src/steps/fix-inline-alert.ts:16-31 | the step replaces the document's Markdown tree by the walk's result and changes nothing else |
| MdxVars.VarsText | src/steps/remove-mdx-vars.ts:28 | the replacement of a `Vars.` element is a text node with value `{{` + name + `}}` and no children |
| MdxVars.RemoveNode | src/steps/remove-mdx-vars.ts:19-32 | a node the visitor continues into keeps everything but its children |
| MdxVars.RemoveList | src/steps/remove-mdx-vars.ts:21-30 | a child list only ever shrinks: removal is the only change of length |
| MdxVars.CanonListCons | src/steps/remove-mdx-vars.ts:21-29 | the reference rewrite of a list drops a leading import and rewrites any other head node |
| MdxVars.RemoveNodeSound | src/steps/remove-mdx-vars.ts:19-32 | the pass only makes the reference rewrite's changes: once that rewrite is finished, the pass's result and its input agree |
| MdxVars.RemoveListSound | src/steps/remove-mdx-vars.ts:19-32 | the same for a child list: the pass removes only `import` ESM nodes and replaces only `Vars.` elements, and all other nodes keep their order |
| MdxVars.VarsReplacedInPlace | src/steps/remove-mdx-vars.ts:27-29 | in a list without imports, the length is kept and each `Vars.` element is replaced at its own index by its text node |
| MdxVars.AdjacentImportKept | src/steps/remove-mdx-vars.ts:21-23 | of two adjacent imports only the first is removed: after the splice the walk resumes past the second |
| MdxVars.RemoveMdxVars | src/steps/remove-mdx-vars.ts:16-33 | the step replaces the Markdown tree by the walk's result and changes nothing else |
| TableBlocks.HeaderRow | src/steps/wrap-table-blocks.ts:28-37 | the new row is a `tableRow` with exactly one `tableCell`, which holds the single text `Table` |
| TableBlocks.WrapNode | src/steps/wrap-table-blocks.ts:19-39 | a table with rows gets the header row in front of its unchanged rows; only children ever change |
| TableBlocks.WrapList | src/steps/wrap-table-blocks.ts:19-39 | the walk keeps the number of children of every list |
| TableBlocks.WrapNodeRoundTrip | src/steps/wrap-table-blocks.ts:23-39 | taking the first row off each reached table gives back the input: exactly one row is added to each non-empty table and nothing else changes |
| TableBlocks.WrapListRoundTrip | src/steps/wrap-table-blocks.ts:23-39 | the same for a child list |
| TableBlocks.WrapNodeHeaded | src/steps/wrap-table-blocks.ts:23-28 | after the pass, every table the walk reaches is empty or starts with the header row |
| TableBlocks.WrapListHeaded | src/steps/wrap-table-blocks.ts:23-28 | the same for every node of a child list |
| TableBlocks.WrapNodeNoTable | src/steps/wrap-table-blocks.ts:20-22 | a subtree without a table is left as it is |
| TableBlocks.WrapListNoTable | src/steps/wrap-table-blocks.ts:20-22 | the same for a child list |
| TableBlocks.WrapTableBlocks | src/steps/wrap-table-blocks.ts:16-41 | the step replaces the Markdown tree by the walk's result and changes nothing else |
| GridTables.GetAttributeFirst | src/steps/mdx-to-gridtables.ts:29-31 | `getAttribute` finds nothing exactly when no attribute has the name; otherwise it returns the first one that has it |
| GridTables.GetAttributeValue | src/steps/mdx-to-gridtables.ts:33-35 | the fallback when the attribute is missing or its value is not a non-empty string; the string otherwise |
| GridTables.Slots | src/steps/mdx-to-gridtables.ts:49-55 | without a `slots` attribute the block has one slot, the empty string |
| GridTables.TotalRows | src/steps/mdx-to-gridtables.ts:58-59 | the row count is `repeat × slotCount`, and NaN exactly when `repeat` does not parse |
| GridTables.DefaultTotalRows | src/steps/mdx-to-gridtables.ts:50-59 | a block with neither `slots` nor `repeat` wants one row |
| GridTables.MakeGridTableRow | src/steps/mdx-to-gridtables.ts:17-27 | a `gtRow` with exactly one `gtCell` holding exactly the given node |
| GridTables.MakeRows | src/steps/mdx-to-gridtables.ts:107 | one row per node, in order |
| GridTables.GridTable | src/steps/mdx-to-gridtables.ts:84-109 | a `gridTable` with one `gtBody` of 1 + (number of inserted nodes) rows |
| GridTables.CellNodesMakeRows | src/steps/mdx-to-gridtables.ts:17-27 | reading the single cell of each row gives back the nodes the rows were made from |
| GridTables.GridTableCells | src/steps/mdx-to-gridtables.ts:86-107 | the cells of a grid table hold the header, then the inserted nodes in their order |
| GridTables.RedoclyRow | src/steps/mdx-to-gridtables.ts:72-74 | a `code` node whose value is `data-{name}={value}` for a literal attribute |
| GridTables.RedoclyRows | src/steps/mdx-to-gridtables.ts:70-75 | one code row per attribute, in attribute order |
| GridTables.Consumed | src/steps/mdx-to-gridtables.ts:77-78 | `min(max(0, total), remaining)` siblings, none for NaN |
| GridTables.Consumes | src/steps/mdx-to-gridtables.ts:69-82 | a block never takes more siblings than follow it, and a `RedoclyAPIBlock` takes none |
| GridTables.BlockRows | src/steps/mdx-to-gridtables.ts:68-82 | the rows of a `RedoclyAPIBlock` are its attribute rows; those of any other block are the siblings it takes, in order |
| GridTables.Expand | src/steps/mdx-to-gridtables.ts:84-109 | one turn of the loop: the nodes before the block are kept, the grid table takes the block's place, the taken siblings are gone and the rest follows unchanged |
| GridTables.ExpandFromPrefix | src/steps/mdx-to-gridtables.ts:41-47 | the loop never changes a child before its index |
| GridTables.ExpandFromNoFlow | src/steps/mdx-to-gridtables.ts:41-47 | after the loop from `i` on, no top-level child is a JSX flow element |
| GridTables.ExpandedNoFlow | src/steps/mdx-to-gridtables.ts:41-110 | after the whole loop, no top-level child is a JSX flow element: each became a grid table or a row of one |
| GridTables.ExpandFromFrom | src/steps/mdx-to-gridtables.ts:41-110 | every top-level child of the result is an input child or a grid table |
| GridTables.ExpandFromNoBlocks | src/steps/mdx-to-gridtables.ts:43-46 | a child list without a JSX flow element is left as it is |
| GridTables.BlockTableRows | src/steps/mdx-to-gridtables.ts:78-106 | the table's cells are the header, then the taken siblings in their original order; the splice removes exactly the taken siblings |
| GridTables.ConsumesCount | src/steps/mdx-to-gridtables.ts:77-78 | a block takes `min(max(0, repeat × slotCount), siblings remaining)` siblings |
| GridTables.SliceRowsAgree | src/steps/mdx-to-gridtables.ts:78 | while the slice end is not negative, `slice` takes exactly the clamped count |
| GridTables.ExpandAsWrittenAgrees | src/steps/mdx-to-gridtables.ts:77-84 | for a block that is not a `RedoclyAPIBlock` and whose slice end is not negative, the code as written does what the model does |
| GridTables.SpliceSameRows | src/steps/mdx-to-gridtables.ts:84 | when the code as written takes the model's rows, its splice removes exactly what the model removes |
| GridTables.NegativeRepeatTakesSiblings | src/steps/mdx-to-gridtables.ts:77-78 | a negative `repeat × slotCount` below `-(i + 1)` makes `slice` count its end from the end of the list, so siblings are taken where none should be |
| GridTables.NegativeRepeatExample | src/steps/mdx-to-gridtables.ts:59-78 | `<X repeat="-5" />` at the head of ten children: the code as written puts five of them into its table |
| GridTables.RedoclyRemovesSiblings | src/steps/mdx-to-gridtables.ts:69-84 | the code as written deletes as many following siblings as a `RedoclyAPIBlock` has attributes; the model keeps them |
| GridTables.MdxToBlocks | src/steps/mdx-to-gridtables.ts:37-111 | the loop's final child list is the expansion of the original list, and nothing else changes |
| GridTables.ExpandTurn | src/steps/mdx-to-gridtables.ts:84-109 | the splice of a turn of the loop is `Expand` at `i`, one step of the loop function |
| GridTables.SiblingRows | src/steps/mdx-to-gridtables.ts:76-79 | the slice the loop takes for a block other than `RedoclyAPIBlock` holds exactly `Consumes` siblings, its `BlockRows` |
| Markup.NormalizeLineEndings | src/steps/to-mdast.ts:27 | no carriage return is left, and the text never grows |
| Markup.NormalizeWithoutCR | src/steps/to-mdast.ts:27 | text without a carriage return is left as it is |
| Markup.NormalizeIdempotent | src/steps/to-mdast.ts:27 | normalising twice is normalising once |
| Markup.BreaksFrom | src/md2markup.ts:46-48 | every divider is the index of a thematic break |
| Markup.Zip | src/md2markup.ts:56 | one span per start |
| Markup.ZipAt | src/md2markup.ts:52-56 | the `j`-th span pairs the `j`-th start with the `j`-th end |
| Markup.NonEmptyKeeps | src/md2markup.ts:58 | the filter keeps exactly the non-empty spans, in their order |
| Markup.SectionFor | src/md2markup.ts:60-66 | each kept span becomes a `section` node |
| Markup.MapSections | src/md2markup.ts:60-67 | one `section` per kept span |
| Markup.SpansValid | src/md2markup.ts:52-58 | every kept span starts at a child, so `mdast.children[start]` is defined |
| Markup.Sections | src/md2markup.ts:46-67 | the sections the code builds are all `section` nodes |
| Markup.Pieces | src/md2markup.ts:52-53 | the reference runs between breaks: there is at least one |
| Markup.SectionNodes | src/md2markup.ts:63-66 | each run wrapped as a `section` |
| Markup.PiecesNoBreak | src/md2markup.ts:56-67 | no run contains a break |
| Markup.PiecesFlatten | src/md2markup.ts:52-66 | the runs, concatenated, are the children without their breaks, in order |
| Markup.PiecesCount | src/md2markup.ts:52-53 | there is one more run than there are breaks |
| Markup.PiecesAt | src/md2markup.ts:52-53 | cutting at a break gives the runs of the left part, then those of the right part |
| Markup.BreaksFromList | src/md2markup.ts:46-48 | the collected dividers are, in order, exactly the breaks from `k` on |
| Markup.SectionAt | src/md2markup.ts:62-65 | the section of a span that starts at a break holds the nodes after that break |
| Markup.SectionsAfter | src/md2markup.ts:56-67 | from a break at `d` on, the sections the code builds are the runs after `d` |
| Markup.SectionsStep | src/md2markup.ts:56-67 | one section between consecutive breaks, then the sections after the second |
| Markup.SectionsFirst | src/md2markup.ts:56-67 | the section before a first break that is not at index 0, then the rest |
| Markup.SectionsNoBreak | src/md2markup.ts:52-67 | children without a break form exactly one section |
| Markup.SectionsWithBreak | src/md2markup.ts:52-67 | children with breaks: the section before the first break, if any, then those after it |
| Markup.SectionsRef | src/md2markup.ts:46-67 | the code's dividers/zip/filter/map computation builds exactly the reference runs, each wrapped as a `section` |
| Markup.RefSectionsFacts | src/md2markup.ts:52-66 | no run that becomes a section holds a break; together they are the children without breaks; there are breaks + 1 of them, less one when the first child is a break |
| Markup.SectionChildrenNodes | src/md2markup.ts:63-66 | the children of the sections, concatenated, are the runs concatenated |
| Markup.SectionsFacts | src/md2markup.ts:52-66 | the number of sections is breaks + 1, less one when the first child is a break (none for an empty root); no section holds a top-level break; their children, concatenated, are the original children without breaks, in order |
| Markup.SplitChildrenFacts | src/md2markup.ts:69-72 | after unwrapping, the root has no top-level break; it unwraps exactly when one section results, and then holds the children without breaks |
| Markup.SplitWithoutBreaks | src/md2markup.ts:46-72 | a root without a break keeps its children unchanged |
| Markup.AdjacentBreaks | src/md2markup.ts:58-66 | two adjacent breaks produce an empty section |
| Markup.SplitSections | src/md2markup.ts:42-73 | the step sets the root's children to the sections, or to the one section's children, and changes nothing else |
| Markup.KeptEnd | src/md2markup.ts:116 | where the kept lines end lies within the lines |
| Markup.KeepFromTail | src/md2markup.ts:116 | from index 1 on, the filter keeps a contiguous run that ends before a blank last line |
| Markup.KeepLinesDropsBlankEnds | src/md2markup.ts:116 | the filter drops only a blank first line and a blank last line, and keeps every other line in order |
| Markup.Indent | src/md2markup.ts:117 | every kept line is prefixed by eight spaces |
| Markup.Dedent | src/md2markup.ts:117 | taking off the eight spaces where a line starts with them |
| Markup.DedentIndent | src/md2markup.ts:117 | removing the indentation gives back the kept lines |
| Markup.TemplateNoNewline | src/md2markup.ts:101-121 | no template line holds a line break |
| Markup.BodyLinesNoNewline | src/md2markup.ts:114-117 | no indented kept line holds a line break |
| Markup.WrapHtmlLines | src/md2markup.ts:100-122 | the page's lines are the template head, the indented kept lines of the content (an empty line when none is kept), then the template foot |
| Markup.MainBodyRoundTrip | src/md2markup.ts:114-117 | content whose first and last lines are not blank is read back whole from the page body by removing the indentation |
| Markup.Stringify | src/md2markup.ts:124-132 | the step stores the formatted render tree and the page built around the rendered HTML |
| ToHast.BraceIndex | src/steps/to-hast.ts:25 | the index of the first `{`, or the length when there is none |
| ToHast.LangMatch | src/steps/to-hast.ts:25 | a match of `^([^{]*)(.*)$` splits `lang` into a brace-free part and a rest without line terminators |
| ToHast.RemoveBraces | src/steps/to-hast.ts:26 | no brace is left |
| ToHast.SplitWhitespace | src/steps/to-hast.ts:27 | splitting at white space gives at least one piece |
| ToHast.NonEmptyStrings | src/steps/to-hast.ts:27 | `filter(Boolean)` keeps only non-empty pieces, each one of the input |
| ToHast.SplitWhitespacePieces | src/steps/to-hast.ts:27 | every piece is free of white space and made of the text's characters |
| ToHast.SplitWhitespaceConcat | src/steps/to-hast.ts:27 | the pieces, put back together, are the text without its white space |
| ToHast.NonEmptyConcat | src/steps/to-hast.ts:27 | dropping empty pieces loses no character |
| ToHast.WordsFacts | src/steps/to-hast.ts:27 | every word is non-empty and free of white space, and the words together are the text without its white space |
| ToHast.Groups | src/steps/to-hast.ts:25 | the two groups of the match, or two empty strings when `lang` is null or does not match |
| ToHast.GetCodeClasses | src/steps/to-hast.ts:24-28 | a non-empty language part gives a first class `language-` + language |
| ToHast.CodeClassesWords | src/steps/to-hast.ts:26-27 | the classes after the language one are the words of the brace-free meta text; none is empty or holds white space or a brace |
| ToHast.LanguageFacts | src/steps/to-hast.ts:25 | the language is empty or is `lang` before its first `{` (always so when no line terminator follows), and never holds a `{` |
| ToHast.CodeClassesNoLang | src/steps/to-hast.ts:25-27 | without a language there is no `language-` class: the classes are the words of the meta text |
| ToHast.CodeClassesNone | src/steps/to-hast.ts:25-27 | with neither language nor meta there is no class |
| ToHast.SplitWhitespaceJoin | src/steps/to-hast.ts:27 | words joined by single spaces split back into the same words |
| ToHast.WordsJoin | src/steps/to-hast.ts:27 | splitting and filtering undo joining words with spaces |
| ToHast.CodeClassesInfo | src/steps/to-hast.ts:24-28 | an info string `L{w1 w2 …}` gives `language-L`, then the words in order |
| ToHast.CodeClassesExample | src/steps/to-hast.ts:23-27 | `js{try id=foo}` gives `language-js`, `try`, `id=foo` |
| ToHast.CodeHandler | src/steps/to-hast.ts:40-52 | `pre` with exactly one `code` child holding one text child equal to the node's value; `className` present exactly when the class list is non-empty |
| ToHast.CodeHandlerRoundTrip | src/steps/to-hast.ts:40-52 | the code text and the class list can both be read back from the block |
| ToHast.SectionHandler | src/steps/to-hast.ts:35-39 | a section becomes a `div` whose children are its converted children |
| ToHast.SectionHandlerText | src/steps/to-hast.ts:35-39 | the `div` carries exactly the text of the section's converted children |
| PageBlocks.SkipNonName | src/steps/create-page-blocks.js:62 | what is left starts with a name character, or is empty |
| PageBlocks.DasherizeShape | src/steps/create-page-blocks.js:62 | each run outside `[0-9a-z]` becomes one dash: the result is empty only for empty input, starts with a dash exactly when the input does not start with a name character, and has no double dash |
| PageBlocks.TrimLeadingDashes | src/steps/create-page-blocks.js:63 | a suffix of the input that does not start with a dash |
| PageBlocks.TrimTrailingDashes | src/steps/create-page-blocks.js:64 | a prefix of the input that does not end with a dash |
| PageBlocks.ClassNames | src/steps/create-page-blocks.js:60-65 | at most one name per raw name, none of them empty |
| PageBlocks.RawNames | src/steps/create-page-blocks.js:51-58 | there is always at least one raw name |
| PageBlocks.ToBlockCSSClassNames | src/steps/create-page-blocks.js:47-50 | empty text gives no class name |
| PageBlocks.SubstringsKeepShape | src/steps/create-page-blocks.js:63-64 | trimming dashes keeps the allowed characters and the single dashes |
| PageBlocks.ClassNameShape | src/steps/create-page-blocks.js:60-65 | a non-empty normalised name uses only `[0-9a-z]` and `-`, has no dash at either end and no `--` |
| PageBlocks.ClassNamesShape | src/steps/create-page-blocks.js:60-65 | every returned name is well formed |
| PageBlocks.BlockClassNamesFacts | src/steps/create-page-blocks.js:47-65 | every name is well formed; there are at most 2 + (commas after the last `(`) names, or at most one without a `(` |
| PageBlocks.RawNamesCount | src/steps/create-page-blocks.js:52-58 | exactly 2 + (commas after the last `(`) raw names, or one without a `(` |
| PageBlocks.BlockClassNamesExample | src/steps/create-page-blocks.js:52-65 | `Cards(card-a, card-b)` gives `cards`, `card-a`, `card-b` |
| PageBlocks.LastAt | src/steps/create-page-blocks.js:52 | `lastIndexOf` finds an occurrence with none after it |
| PageBlocks.DasherizeKeeps | src/steps/create-page-blocks.js:62 | a run of name characters passes through unchanged |
| PageBlocks.LowerKeeps | src/steps/create-page-blocks.js:61 | lower-casing leaves text without upper-case letters as it is |
| PageBlocks.ChildElements | src/steps/create-page-blocks.js:43-45 | only element children, each one of the node's children |
| PageBlocks.ChildElementsAll | src/steps/create-page-blocks.js:43-45 | every element child is kept |
| PageBlocks.FirstTable | src/steps/create-page-blocks.js:92 | what `select(':scope table', …)` returns is a table |
| PageBlocks.FirstTableFinds | src/steps/create-page-blocks.js:92-95 | the search finds a table exactly when one lies below the cell |
| PageBlocks.BodyRows | src/steps/create-page-blocks.js:76-80 | the rows collected from `thead`/`tbody` are elements |
| PageBlocks.CellProps | src/steps/create-page-blocks.js:118-121 | `data-align`/`data-valign` are present exactly when the cell has `align`/`vAlign`, and carry their values; no other property |
| PageBlocks.CellDiv | src/steps/create-page-blocks.js:118-121 | each cell becomes a `div` holding the cell's own children |
| PageBlocks.CellDivs | src/steps/create-page-blocks.js:116-122 | one `div` per cell, in order |
| PageBlocks.Cards | src/steps/create-page-blocks.js:114-124 | one card per row, in order |
| PageBlocks.BlockProps | src/steps/create-page-blocks.js:99-102 | `className` present exactly when the derived list is non-empty, and then holding it |
| PageBlocks.TableDivsEmpty | src/steps/create-page-blocks.js:82-88 | no element row, or a header row without element cells: an empty `div` |
| PageBlocks.TableDivsNested | src/steps/create-page-blocks.js:90-96 | one header row with one cell holding a table: that nested table, as it is |
| PageBlocks.TableDivsCards | src/steps/create-page-blocks.js:98-125 | otherwise a `div` with `className` exactly when the list is non-empty, one card per non-header row in order, each with one `div` per element cell that carries the cell's alignment and original children |
| PageBlocks.CollectRows | src/steps/create-page-blocks.js:75-80 | the loop collects exactly the `thead`/`tbody` rows in order |
| PageBlocks.RowToCard | src/steps/create-page-blocks.js:115-122 | the inner loop builds the row's card |
| PageBlocks.RowsToCards | src/steps/create-page-blocks.js:114-124 | the outer loop builds one card per row |
| PageBlocks.TableToDivs | src/steps/create-page-blocks.js:73-126 | the imperative conversion computes the specified block |
| PageBlocks.BlocksNode | src/steps/create-page-blocks.js:138-144 | the visit keeps each node's kind, tag, properties and child count |
| PageBlocks.BlocksList | src/steps/create-page-blocks.js:138-144 | the child count is kept |
| PageBlocks.BlocksListAt | src/steps/create-page-blocks.js:139-141 | a table directly inside a `div` is replaced at the same index by its block, without descending into it; every other child is visited |
| PageBlocks.BlocksNodeChildren | src/steps/create-page-blocks.js:139-143 | each child of the result sits where its source child sat: replaced when a table inside a `div`, visited otherwise |
| PageBlocks.BlocksNodeUnchanged | src/steps/create-page-blocks.js:139 | a tree with no table directly inside a `div` comes out unchanged |
| PageBlocks.BlocksListUnchanged | src/steps/create-page-blocks.js:139 | the same for a child list |
| PageBlocks.CreatePageBlocks | src/steps/create-page-blocks.js:132-145 | the step replaces the render tree by the visit's result and changes nothing else |
| Links.ResolveKeeps | src/steps/rewrite-links.ts:33-39 | a target that does not start with `./`, `../` or `/`, or that starts with the path prefix, comes back unchanged |
| Links.NormalizedUnderDocDir | src/steps/rewrite-links.ts:42-43 | a local target is resolved against the document's directory, a leading `/` read as `./` |
| Links.MarkdownTarget | src/steps/rewrite-links.ts:45-50 | a Markdown target becomes prefix + `/` + the path relative to `/src/pages/`, and that path leads back to the resolved target |
| Links.ImageTarget | src/steps/rewrite-links.ts:51-56 | any other image becomes `https://raw.githubusercontent.com/{owner}/{repo}/{branch}/src/pages/{rel}` |
| Links.AnchorTarget | src/steps/rewrite-links.ts:42-62 | any other link target stays the resolved absolute path |
| Links.RebaseKeepsPrefix | src/steps/rewrite-links.ts:67-71 | a target that starts with the prefix still does after the root is handled |
| Links.ResolveMarkdownAgain | src/steps/rewrite-links.ts:37-50 | resolving a resolved Markdown link again changes nothing, unless the first pass stripped the site root from it |
| Links.NewValue | src/steps/rewrite-links.ts:95-113 | external links, protocol-relative ones included, are left as they are |
| Links.NewValueAgrees | src/steps/rewrite-links.ts:95-113 | the corrected rewrite agrees with the code as written on every link that is not protocol-relative |
| Links.AnchorValue | src/steps/rewrite-links.ts:97-113 | a local anchor target is resolved, cleaned up according to its original value, and resolved once more |
| Links.ImageValue | src/steps/rewrite-links.ts:113 | an image target is resolved once, as an image |
| Links.MarkdownLinkValue | src/steps/rewrite-links.ts:102-113 | a local `.md` link, not an `index.md` one, whose target is not under the site root ends as the prefixed project path less its last three characters |
| Links.CleanupMarkdown | src/steps/rewrite-links.ts:102-103 | the clean-up of a `.md` link slices off the last three characters |
| Links.ProtocolRelativeRewritten | src/steps/rewrite-links.ts:95-113 | `//h` counts as external, yet the code as written turns it into `h`; the corrected rewrite keeps it |
| Links.RewriteList | src/steps/rewrite-links.ts:86-118 | the walk keeps the number of children |
| Links.RewriteNodeCompletes | src/steps/rewrite-links.ts:90-94 | the walk completes exactly when no `a`/`img` element lacks a string target; otherwise the source throws |
| Links.RewriteListCompletes | src/steps/rewrite-links.ts:90-94 | the same for a child list |
| Links.RewriteNodeOnlyLinks | src/steps/rewrite-links.ts:86-118 | completed or not, the walk changes only `href` of `a` and `src` of `img`: tree shape, tags and every other property stay the same |
| Links.RewriteListOnlyLinks | src/steps/rewrite-links.ts:86-118 | the same for a child list |
| Links.RewriteNodeRewrites | src/steps/rewrite-links.ts:90-113 | a completed walk gives every link in the tree its new target at the same place |
| Links.RewriteListRewrites | src/steps/rewrite-links.ts:90-113 | the same for a child list |
| Links.RewriteLinks | src/steps/rewrite-links.ts:77-119 | the step stores the walk's result and reports whether it completed |
| Stringify.FenceAtStart | src/steps/stringify.ts:65 | a fence at the very start is the first one found |
| Stringify.FrontMatterFenced | src/steps/stringify.ts:63-67 | for Markdown starting with `---` and a line break that has a later `---`, the text from index 4 up to the character before the closing fence |
| Stringify.FrontMatterUnclosed | src/steps/stringify.ts:63-67 | with no closing fence, `substring` swaps its bounds and yields the opening `---` and line break |
| Stringify.FrontMatterRoundTrip | src/steps/stringify.ts:63-67 | front matter without a fence inside, fenced as usual, is read back whole |
| Stringify.FindFrom | src/steps/stringify.ts:73 | `find` returns the first line whose trimmed text starts with the key, and nothing when none does |
| Stringify.IndexOfLine | src/steps/stringify.ts:84 | `indexOf` returns the first index holding the line, or -1 exactly when it is absent |
| Stringify.FindLineFirst | src/steps/stringify.ts:73 | the first matching line is the one found |
| Stringify.FoundLineIndex | src/steps/stringify.ts:73-84 | the found line's `indexOf` is its own index |
| Stringify.KeywordItems | src/steps/stringify.ts:85-90 | never more items than lines |
| Stringify.KeywordItemsFacts | src/steps/stringify.ts:85-90 | every list item is non-empty, has no white space at either end, and comes from a line starting with a dash |
| Stringify.ParseVariableMissing | src/steps/stringify.ts:73-77 | no line starting with the key, after trimming: the empty string |
| Stringify.ParseVariableTokens | src/steps/stringify.ts:78-79 | a matching line that does not split into exactly two `:` tokens: the empty string |
| Stringify.ParseVariableValue | src/steps/stringify.ts:80-97 | otherwise the trimmed text after the `:` |
| Stringify.ParseVariableKeywordList | src/steps/stringify.ts:83-94 | `keywords:` with an empty value: the dash items of the later lines joined by `, `, or the empty string when there are none |
| Stringify.KeywordLineNotEmpty | src/steps/stringify.ts:73-77 | a line found for `keywords:` is never empty |
| Stringify.ParseVariableOneLine | src/steps/stringify.ts:70-103 | a value never spans lines |
| Stringify.FrontMatterLinesOf | src/steps/stringify.ts:63-72 | lines joined and fenced as front matter are the lines searched |
| Stringify.ParseVariableRoundTrip | src/steps/stringify.ts:70-103 | a `key: value` line written into front matter reads back as its value |
| Stringify.MetaTag | src/steps/stringify.ts:37-48 | a meta tag is never empty |
| Stringify.OptionalLineHolds | src/steps/stringify.ts:37-48 | an optional meta line is the bare indentation exactly when its value is empty, and the tag otherwise |
| Stringify.MetaLinesFacts | src/steps/stringify.ts:37-48 | the twelve meta lines: each optional tag present exactly when its value is non-empty, the fixed ones always, the documentation template exactly in documentation mode |
| Stringify.PageLines | src/steps/stringify.ts:32-60 | the page's lines are the head lines, the kept lines of the content (an empty line when none is kept), then the template foot |
| Stringify.PageHeadLines | src/steps/stringify.ts:33-48 | the `<title>` line is always emitted; each optional tag's line holds the tag exactly when its value is non-empty; `pathprefix` and `githubblobpath` are always there |
| Stringify.PageBodyLines | src/steps/stringify.ts:53-56 | in `<main>`, only a blank first and a blank last line are dropped; all other lines are kept in order |
| Stringify.PageMetaOneLine | src/steps/stringify.ts:115-125 | values read from front matter and one-line site coordinates give one-line meta tags |
| Stringify.DocumentPage | src/steps/stringify.ts:115-117 | the documentation template is present exactly when the path is not `/src/pages/index.md`; `githubblobpath` is `https://github.com/{owner}/{repo}/blob/{branch}{path}` |
| Stringify.Stringify | src/steps/stringify.ts:105-129 | the step stores the formatted render tree and the page built from the rendered HTML and the metadata read from the document |
| JsStrings.Clamp | src/steps/stringify.ts:67 | a bound clamped into the range, unchanged when already inside |
| JsStrings.IndexOfFrom | src/steps/stringify.ts:65-66 | `indexOf(pat, from)`: the first occurrence at or after the clamped start, or -1 exactly when there is none |
| JsStrings.IncludesIff | src/steps/rewrite-links.ts:48 | `includes` holds exactly when the pattern occurs somewhere |
| JsStrings.LastIndexOfChar | src/steps/create-page-blocks.js:52 | the last occurrence of the character, or -1 exactly when there is none |
| JsStrings.Substring | src/steps/stringify.ts:67 | both bounds clamped to the string, swapped when reversed |
| JsStrings.SliceBound | src/steps/mdx-to-gridtables.ts:78 | a `slice` bound: non-negative ends are clamped to the length |
| JsStrings.SliceWithin | src/steps/mdx-to-gridtables.ts:78 | within bounds, `slice` is the plain subsequence |
| JsStrings.TrimStartSuffix | src/steps/stringify.ts:73 | trimming the start removes a prefix, and only white space |
| JsStrings.TrimEnd | src/steps/stringify.ts:80 | trimming the end removes only white space, and what is left does not end with it |
| JsStrings.Trim | src/steps/stringify.ts:80 | a trimmed string has no white space at either end |
| JsStrings.TrimChars | src/steps/stringify.ts:80 | trimming only removes characters |
| JsStrings.TrimTrimmed | src/steps/stringify.ts:80 | a string without white space at its ends is its own trim |
| JsStrings.BlankIffAllWhitespace | src/md2markup.ts:116 | `!line.trim()` holds exactly when the line is all white space |
| JsStrings.ToLowerAscii | src/steps/create-page-blocks.js:61 | each upper-case ASCII letter is lowered and every other character kept |
| JsStrings.Split | src/steps/mdx-to-gridtables.ts:55 | at least one piece, none holding the separator |
| JsStrings.SplitCount | src/steps/mdx-to-gridtables.ts:55 | one piece more than there are separators |
| JsStrings.JoinSplit | src/md2markup.ts:115-117 | joining the pieces of a split gives the text back |
| JsStrings.SplitJoin | src/md2markup.ts:115-117 | splitting a join of separator-free parts gives the parts back |
| JsStrings.SplitJoinNested | src/md2markup.ts:101-121 | splitting a template whose one line is a join of lines gives those lines back, flat |
| JsStrings.ReplaceFirst | src/steps/rewrite-links.ts:99 | `replace` with a string pattern replaces only the first occurrence and keeps the text around it |
| JsStrings.ReplaceAllChar | src/steps/rewrite-links.ts:46 | `replaceAll` of one character by another, everywhere, nothing else changed |
| JsStrings.DigitRun | src/steps/mdx-to-gridtables.ts:59 | the leading run of decimal digits |
| JsStrings.ParseSigned | src/steps/mdx-to-gridtables.ts:59 | `parseInt` is NaN exactly when no digit follows the optional sign |
| JsStrings.ParseIntTrims | src/steps/mdx-to-gridtables.ts:59 | `parseInt` skips leading white space first |
| JsStrings.ParseIntDigits | src/steps/mdx-to-gridtables.ts:59 | a run of digits, with or without a minus sign, parses to its value |
| NodePath.NormIsNormal | src/steps/rewrite-links.ts:43 | resolution leaves no empty, `.` or `..` segment |
| NodePath.NormAppend | src/steps/rewrite-links.ts:43 | resolving segment by segment: resolving a concatenation is resolving one part after the other |
| NodePath.NormPlain | src/steps/rewrite-links.ts:43 | plain segments are appended as they are |
| NodePath.NormPops | src/steps/rewrite-links.ts:46 | `n` times `..` climbs `n` directories |
| NodePath.SegsRender | src/steps/rewrite-links.ts:43 | a normal path renders and parses back to the same segments |
| NodePath.Resolve | src/steps/rewrite-links.ts:43 | `path.resolve` always gives an absolute path |
| NodePath.CommonPrefix | src/steps/rewrite-links.ts:46 | the length of the longest common leading run of segments |
| NodePath.ResolveIdempotent | src/steps/rewrite-links.ts:43 | a resolved path resolves to itself |
| NodePath.ResolveRelative | src/steps/rewrite-links.ts:43 | resolving a relative path against an absolute directory normalises their concatenation |
| NodePath.ResolveEmpty | src/steps/rewrite-links.ts:46 | resolving the empty path gives the directory itself |
| NodePath.RelativeRoundTrip | src/steps/rewrite-links.ts:46 | `path.resolve(from, path.relative(from, to))` is `path.resolve(to)` |

## Left out

- Parsing and rendering are not modelled: the remark/unified parsers, `dereference`, `removePosition`, the default `mdast-util-to-hast` handlers, the grid-table handler, `hast-util-raw`, `rehype-format` and `toHtml`. `Markup.Stringify` and `Stringify.Stringify` take the formatted tree and the rendered HTML as parameters.
- Of `toMdast` only the line-ending normalisation is modelled.
- `extractBlocks` is not modelled. It is regex-based, and its result is never used, because the code that would use it is commented out.
- Logging (`log.debug`, `console.log`) is not modelled. It has no effect on the result.
- `src/index.ts`, the build configuration, the dev server and the test harness are not part of this model.
- Node's `path` functions are lexical POSIX segment normalisation, and the process working directory is taken as `/`. Windows separators and symbolic links are not modelled.
- `toLowerCase` lowers ASCII letters only, with no Unicode case mapping. Strings are sequences of Unicode characters, while JavaScript indexes UTF-16 code units, so indices and lengths differ for characters outside the Basic Multilingual Plane.
- Tree identity is not modelled. Every node is its own object, so `mdast.children.indexOf(node)` in `splitSections` is modelled as the node's index.
- `remove-mdx-vars` is not claimed to remove every import. The walk resumes one past a removed node, so an import right after another one is not examined (`MdxVars.AdjacentImportKept`).
- GridTables.TotalRows: `repeat × slotCount` is exact. The floating-point rounding of products above 2^53 is not modelled.
- GridTables.RedoclyRow: its contract states the literal-value case only. An expression value reads as its source text and a missing value as `undefined`, as in the source, but the contract does not say so.
- Links.RewriteNode: a link property that holds a token list rather than a string ends the walk there, as a missing one does. This matches the source: the `toString()` at src/steps/rewrite-links.ts:93 feeds only the external test, each `resolve` at lines 98-113 gets the raw property, and `startsWith` at line 33 throws on a list. The `els` lookup for tags named like `Object.prototype` members (`constructor`, `toString`) is not modelled.
- InlineAlert.FixNode, MdxVars.RemoveNode, GridTables.GridTable: a JSX element's `name` is a string in `Mdast.Node`, so a JSX fragment (`<>…</>`, whose `name` is null) is not represented. The model therefore leaves out the TypeError the source throws on a flow fragment (src/steps/fix-inline-alert.ts:21) and on a text fragment (src/steps/remove-mdx-vars.ts:27), and the header text `null (…)` a fragment block gets (src/steps/mdx-to-gridtables.ts:66,98).
- PageBlocks.CellProps: property names are kept as written (`data-align`, `data-valign`). `hastscript` would store them as `dataAlign`/`dataValign`.
- PageBlocks.FirstTable is `hast-util-select` for `:scope table`: the first table strictly below the cell, in document order. `Hast.TextContent` is `hast-util-to-string`: the concatenated text below a node.
- Only the `code` and `section` handlers of `toHast` are modelled. The other handlers come from the library.

## Findings

| source | as written | input that shows it | evidently intended | confidence | as-written member | corrected member |
|---|---|---|---|---|---|---|
| src/steps/mdx-to-gridtables.ts:77-78 | `slice(i + 1, i + 1 + totalRows)` with a negative `totalRows` counts the end from the end of the list | `<X repeat="-5" />` followed by nine siblings: five of them become rows of its table | a non-positive count takes no sibling | not executed | GridTables.NegativeRepeatExample | GridTables.ConsumesCount |
| src/steps/mdx-to-gridtables.ts:69-84 | for a `RedoclyAPIBlock` the splice removes `1 + slotsToInsert.length` nodes, but its rows are attribute rows, not siblings | a `RedoclyAPIBlock` with two attributes followed by two paragraphs: both paragraphs are deleted | the block replaces only itself | not executed | GridTables.RedoclyRemovesSiblings | GridTables.Expand |
| src/steps/rewrite-links.ts:95-113 | the external test only skips the clean-up; the final `resolve` still rewrites protocol-relative links, which start with `/` | `href="//h"` on a site rooted at `/`: the link becomes `h` | external links, `//host` ones included, are left as they are | not executed | Links.ProtocolRelativeRewritten | Links.NewValue |

`GridTables.MdxToBlocks` and `Links.RewriteList` use the corrected definitions.
`GridTables.ExpandAsWrittenAgrees` and `Links.NewValueAgrees` prove that the
code as written agrees with them on every other input.
