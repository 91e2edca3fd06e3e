# Dashboard builder: a Dafny model

This project models the logic of the two dashboard components of the
repository. It leaves out their user interface.

- **components/DashboardBuilder.tsx** (`DashboardBuilder`):
  - the line-by-line markdown preview, with its three regular-expression
    substitutions (bold, then italic, then link);
  - the CSV upload handler, which turns the text into column names and rows
    of numbers and strings;
  - the block list and its handlers: add a text or chart block, toggle the
    edit flag, replace the content, delete by id, and the drag reorder done
    with two `splice` calls.
- **src/components/dashboard.tsx** (`Dashboard`):
  - the append-only card list with `card-<n>` ids, and the markdown draft;
  - the HTML page that `downloadDashboard` builds from the cards and the data.

The modules are:

- `Wrappers`: the `Option` type.
- `Text`: the string functions the components use: `split`, `trim` with
  JavaScript's set of white-space characters, digit strings and `card-<n>`
  numbers.
- `Markdown`: the preview renderer.
  - The three substitutions are written as recursive functions over the
    string. They follow the global, lazy, left-to-right regular-expression
    scan, and `.` does not match a line terminator.
  - The markup the component writes is a `Markup` value. `Tags` is the
    component's own instance, and `Preview` renders with it.
- `Csv`: `reader.onload`, both as the functions `Parse` and `RowOf` and as
  the methods `Ingest`, `BuildRows` and `BuildRow`, which repeat the
  source's loops.
- `Blocks`: the block datatype and the pure list operations the handlers
  apply: `map`, `filter`, `findIndex`, and the remove-then-insert reorder.
- `Builder`: the `DashboardBuilder` state (`data`, `columns`, `blocks`,
  `draggedBlock`) as a class whose methods are the event handlers.
  - `SpliceMove` performs the reorder in place on an array, as the two
    `splice` calls do on the copied list.
- `Cards`: the `Dashboard` state (`cards`, `markdownContent`, `columns`) as
  a class, and the exported page.
  - The page template is a `Layout` value cut at the places where the cards
    and the data are spliced in. `Page` holds the template's exact text.

Where the code and the repository's own description disagree, the model
follows the code. These are the places:

- **Dragging down.** The dragged block lands at the target's original
  index. Dragged downwards, it therefore ends up *after* the target, not
  before it (`Blocks.MovedDown`).
- **The file name.** The export is always named `dashboard.html`.
- **Falsy cells.** A CSV cell that is empty, blank or `"0"` stays a string,
  because `Number(v) || v` treats 0 as false (`Csv.CoerceFalsy`).
- **Toggling a chart.** `toggleEditMode` flips the editing flag of every
  block with the id, a chart block included (`Blocks.ToggleEdit`).
- **Exported charts.** A chart card's section holds only a placeholder
  `div` with the card's id; it names no axes and initialises no chart
  (`Cards.ChartPlaceholderId`).
- **Exported markdown.** Markdown cards are embedded in the export as raw
  text, not converted to HTML (`Cards.MarkdownVerbatim`).

Other behaviours of the code that the model keeps:

- The drag guard tests `!draggedBlock`, so a dragged id of `0` never
  reorders. The guard makes no other check that the ids are present.
- A string cell keeps its untrimmed text.
- A later duplicate header overwrites an earlier one.
- A header named `__proto__` creates no key in a row, because
  `row["__proto__"] = v` calls the prototype setter of `Object.prototype`,
  which ignores primitive values (`Csv.RowOfKeys`).

## Model

| member | source | states |
|---|---|---|
| Markdown.ClassifyLine | components/DashboardBuilder.tsx:37-55 | The cascade: `# `, `## ` and `### ` headings hold exactly the line minus its prefix (raw, not inline-processed), and the three prefixes exclude one another; `- ` gives a list item of the inline-processed rest; only the empty line is a break; every other line is an inline-processed paragraph |
| Markdown.Bold | components/DashboardBuilder.tsx:28 | The bold pass: every `**...**` pair found by the global lazy scan (`ReplacePairs`, trying a match at each position with `PairAt`) is wrapped in the bold tags; its behaviour is stated by `BoldSpan` and `BoldUnmatched` |
| Markdown.Italic | components/DashboardBuilder.tsx:29 | The italic pass: every `_..._` pair found by the same scan (`ReplacePairs` with `PairAt`) is wrapped in the em tags; its behaviour is stated by `ItalicSpan` and `ItalicUnmatched` |
| Markdown.Link | components/DashboardBuilder.tsx:30 | The link pass: every `[text](href)` found by the scan becomes an anchor; its behaviour is stated by `LinkSpan`, `LinkSkip`, `LinkUnmatched`, `LinkTailIsFirst` and `LinkBacktracks` |
| Markdown.Inline | components/DashboardBuilder.tsx:27-30 | `processInlineMarkdown`: bold, then italic, then link; its behaviour is stated by `InlinePlain`, `InlineBoldThenItalic` and `UnderscoreInLinkAddress` |
| Markdown.CloseAt | components/DashboardBuilder.tsx:28-30 | The lazy `(.*?)` scan for the closing delimiter: a result lies inside the string after the start; `CloseAtSound` and `CloseAtIsFirst` state that it is the first occurrence on the line |
| Markdown.LinkTail | components/DashboardBuilder.tsx:30 | The part after `[` of the link pattern: a result gives the positions of a `]`, the `(` right after it, and a later `)`; `LinkTailIsFirst` states that it is the first such place on the line |
| Markdown.LinkTailIsFirst | components/DashboardBuilder.tsx:30 | The lazy text group stops at the first `](` from which a `)` can be reached, crosses no line terminator, and the address group ends at the first `)`; no result means no such `](` can be reached on the line |
| Markdown.LinkBacktracks | components/DashboardBuilder.tsx:30 | The text group backtracks past a `]` with no `(` after it: `[a]b](c)` becomes an anchor with address `c` and text `a]b` |
| Markdown.RenderLines | components/DashboardBuilder.tsx:36-56 | `lines.map(...)`: one node per line |
| Markdown.Render | components/DashboardBuilder.tsx:35-56 | `content.split('\n')` then the per-line cascade; its shape is stated by `RenderPerLine` and `RenderAppend` |
| Markdown.Preview | components/DashboardBuilder.tsx:35-58 | The preview with the component's own tags |
| Markdown.RenderPerLine | components/DashboardBuilder.tsx:35-36 | The preview has one node per `\n`-separated line, and node i is the classification of line i |
| Markdown.RenderAppend | components/DashboardBuilder.tsx:35-56 | Rendering `a + "\n" + b` is rendering `a` followed by rendering `b` (lines are rendered independently, in order) |
| Markdown.RenderLinesAt | components/DashboardBuilder.tsx:36-56 | The node at each index is the classification of the line at that index |
| Markdown.RenderLinesAppend | components/DashboardBuilder.tsx:36-56 | Rendering a concatenation of line lists is the concatenation of the renderings |
| Markdown.CloseAtSound | components/DashboardBuilder.tsx:28-30 | The lazy `(.*?)` scan stops at an occurrence of the closing delimiter and crosses no line terminator |
| Markdown.CloseAtIsFirst | components/DashboardBuilder.tsx:28-30 | The lazy scan stops at the FIRST occurrence of the closing delimiter |
| Markdown.PairSpan | components/DashboardBuilder.tsx:28-29 | A delimited pair whose body has no delimiter character and no line break is replaced by open tag, body, close tag, and the scan continues after it; text before the first delimiter is copied |
| Markdown.BoldSpan | components/DashboardBuilder.tsx:28 | `a**b**c` becomes `a<strong ...>b</strong>` followed by the bold pass over `c` |
| Markdown.ItalicSpan | components/DashboardBuilder.tsx:29 | `a_b_c` becomes `a<em ...>b</em>` followed by the italic pass over `c` |
| Markdown.PairAtSpan | components/DashboardBuilder.tsx:28-29 | A pair `d b d` with a delimiter-free, single-line body closes right after `b` |
| Markdown.LinkSpan | components/DashboardBuilder.tsx:30 | `[text](href)c` becomes the anchor with address `href` and text `text`, followed by the link pass over `c` |
| Markdown.LinkWhole | components/DashboardBuilder.tsx:30 | A whole `[text](href)` becomes exactly the anchor |
| Markdown.LinkSkip | components/DashboardBuilder.tsx:30 | Text without `[` before the rest is copied unchanged |
| Markdown.LinkTailSpan | components/DashboardBuilder.tsx:30 | In `[text](href)...` the link groups end at the first `]` followed by `(` and at the first `)` after it |
| Markdown.PairNeedsTwoDelimiters | components/DashboardBuilder.tsx:28-29 | A bold or italic match needs at least two occurrences of the delimiter |
| Markdown.PairsUnmatched | components/DashboardBuilder.tsx:28-29 | With fewer than two delimiters the substitution leaves the text as it was (an unmatched delimiter stays literal) |
| Markdown.BoldUnmatched | components/DashboardBuilder.tsx:28 | Text with fewer than four `*` is unchanged by the bold pass |
| Markdown.ItalicUnmatched | components/DashboardBuilder.tsx:29 | Text with fewer than two `_` is unchanged by the italic pass |
| Markdown.LinkUnmatched | components/DashboardBuilder.tsx:30 | Text lacking one of `[`, `]`, `(`, `)` is unchanged by the link pass |
| Markdown.InlinePlain | components/DashboardBuilder.tsx:27-30 | Text without `*`, `_` and `[` passes through inline processing unchanged |
| Markdown.TagsInert | components/DashboardBuilder.tsx:28-29 | The component's strong and em tags contain no `*`, `_`, `[`, `)` or line terminator, so later passes leave them alone |
| Markdown.InlineBoldThenItalic | components/DashboardBuilder.tsx:27-30 | Bold is replaced first, then italic, in their original order, with the surrounding text copied |
| Markdown.BoldStage | components/DashboardBuilder.tsx:28 | The bold pass over one bold pair and delimiter-free surroundings wraps exactly that pair |
| Markdown.ItalicStage | components/DashboardBuilder.tsx:29 | The italic pass over one italic pair and underscore-free surroundings wraps exactly that pair |
| Markdown.UnderscoreInLinkAddress | components/DashboardBuilder.tsx:29-30 | Because italic runs before link, an underscore pair in a link address becomes em tags inside the `href` |
| Markdown.EmInsideHref | components/DashboardBuilder.tsx:29-30 | The same with the component's own tags: the `href` contains `<em class="italic">` |
| Markdown.ItalicInAddress | components/DashboardBuilder.tsx:29 | The italic pass rewrites an underscore pair inside a link's parentheses |
| Markdown.AddressWithItalic | components/DashboardBuilder.tsx:29-30 | An address with inserted em tags still has no `)` and no line terminator |
| Markdown.LinkAroundItalic | components/DashboardBuilder.tsx:30 | The link pass turns the rewritten text into one anchor whose address holds the em tags |
| Markdown.NearMissIsParagraph | components/DashboardBuilder.tsx:37-52 | `#Title` or `-item` (no space after the marker) is a paragraph of the inline-processed line |
| Markdown.WhitespaceLine | components/DashboardBuilder.tsx:51-55 | A non-empty line of white space is a paragraph holding the line, not a break |
| Markdown.RenderHeadingBreakParagraph | components/DashboardBuilder.tsx:35-55 | `title\n\ntext` renders as a heading with the raw title, a break, and a paragraph with bold then italic markup in order |
| Markdown.ThreeLines | components/DashboardBuilder.tsx:35 | `h\n\np` splits into the three lines `h`, `""`, `p` |
| Markdown.ParagraphLine | components/DashboardBuilder.tsx:51-52 | A line not starting with `#` or `-` and holding bold and italic pairs is a paragraph with both wrapped, in order |
| Csv.ToNumber | components/DashboardBuilder.tsx:82 | `Number(...)`, read here only on blank strings and signed decimal integers and NaN on every other string; stated by `ToNumberDigits` and `ToNumberMinusDigits` |
| Csv.RowOf | components/DashboardBuilder.tsx:80-84 | The row of one line: each header other than `__proto__` maps to the coerced cell at its last position; stated by `RowOfCell`, `RowOfKeys`, `RowOfShortLine` and `RowOfDropsExtra` |
| Csv.TrimAll | components/DashboardBuilder.tsx:74 | `.map(header => header.trim())`: one trimmed name per piece |
| Csv.NonBlank | components/DashboardBuilder.tsx:77 | `.filter(line => line.trim())`; stated by `NonBlankMember` and `NonBlankAppend` |
| Csv.RowsOf | components/DashboardBuilder.tsx:78-85 | One row per data line, in order |
| Csv.Parse | components/DashboardBuilder.tsx:72-88 | The columns (`Columns`, the trimmed pieces of the first line) and rows (`RowsOf` the non-blank later lines, `DataLines`) the handler stores; stated by `ParseEmpty`, `ParseLines` and `ColumnsOfFirstLine` |
| Csv.Ingest | components/DashboardBuilder.tsx:71-88 | The handler's loops compute exactly `Parse(text)` (columns and rows) |
| Csv.BuildRows | components/DashboardBuilder.tsx:78-85 | The `map` over the data lines gives one row per line, in order |
| Csv.BuildRow | components/DashboardBuilder.tsx:80-83 | The `forEach` over the headers builds `RowOf(headers, values)`: a later duplicate header overwrites an earlier one, and a `__proto__` header sets no key |
| Csv.Coerce | components/DashboardBuilder.tsx:82 | A cell is a number exactly when `Number(cell)` is a non-zero number; otherwise it is the original untrimmed text, or undefined when the line has no such field |
| Csv.LastIndex | components/DashboardBuilder.tsx:81-82 | The value stored under a header comes from the last position holding that header |
| Csv.ParseEmpty | components/DashboardBuilder.tsx:73-77 | Empty input gives the single column `""` and no rows |
| Csv.ParseLines | components/DashboardBuilder.tsx:73-77 | The columns are the trimmed pieces of the first line, and the data lines are the non-blank lines after it |
| Csv.HeaderOnly | components/DashboardBuilder.tsx:73-77 | A single line gives its columns and no rows |
| Csv.ColumnsOfFirstLine | components/DashboardBuilder.tsx:74 | One column per comma-separated piece of the first line, each the trimmed piece, so already trimmed |
| Csv.TrimAllAt | components/DashboardBuilder.tsx:74 | The `map(trim)` keeps positions |
| Csv.NonBlankMember | components/DashboardBuilder.tsx:77 | A line survives the filter exactly when it is not all white space |
| Csv.NonBlankAppend | components/DashboardBuilder.tsx:77 | The filter keeps the surviving lines in their order |
| Csv.NonBlankKeepsContent | components/DashboardBuilder.tsx:77 | Lines that are not blank all survive, unchanged |
| Csv.NonBlankDropsBlank | components/DashboardBuilder.tsx:77 | Blank lines all disappear |
| Csv.RowsOfStep | components/DashboardBuilder.tsx:78-85 | Extending the lines by one extends the rows by that line's row |
| Csv.RowOfSnoc | components/DashboardBuilder.tsx:81-83 | Adding a header at the end sets that key to the value at its position, overwriting an earlier equal header; a `__proto__` header leaves the row as it was |
| Csv.RowOfKeys | components/DashboardBuilder.tsx:80-83 | The keys of a row are exactly the headers other than `__proto__` |
| Csv.RowOfCell | components/DashboardBuilder.tsx:81-82 | A header that does not repeat later is a key exactly when it is not `__proto__`, and then maps to the coerced value at its own position |
| Csv.RowOfDropsExtra | components/DashboardBuilder.tsx:81-82 | Fields beyond the headers are dropped |
| Csv.RowOfShortLine | components/DashboardBuilder.tsx:81-82 | A header (other than `__proto__`) whose last position is past the end of the line maps to undefined |
| Csv.ToNumberDigits | components/DashboardBuilder.tsx:82 | A decimal digit string is read as its value |
| Csv.ToNumberMinusDigits | components/DashboardBuilder.tsx:82 | A minus sign followed by digits is read as the negative value |
| Csv.CoerceNumber | components/DashboardBuilder.tsx:82 | A positive integer with white space around it becomes that number |
| Csv.CoerceNegative | components/DashboardBuilder.tsx:82 | A negative integer with white space around it becomes that number |
| Csv.CoerceFalsy | components/DashboardBuilder.tsx:82 | Blank cells and `"0"` stay strings, because `Number` gives 0, which is falsy |
| Csv.CoerceText | components/DashboardBuilder.tsx:82 | A cell holding a character that no JavaScript numeral contains (not white space, a digit, a sign, `.`, an exponent, radix or hexadecimal letter, or a letter of `Infinity`) is NaN to `Number` and stays its original string |
| Blocks.NewBlock | components/DashboardBuilder.tsx:95-104 | A text block holds the placeholder text and starts in edit mode; a chart block is a line chart on `columns[0] \|\| ''` and `columns[1] \|\| ''` and does not start in edit mode; the id is the one given |
| Blocks.ToggleEdit | components/DashboardBuilder.tsx:160-164 | Same length; ids, kinds and contents kept; the edit flag flips exactly on the blocks with the id |
| Blocks.ToggleTwice | components/DashboardBuilder.tsx:159-165 | Toggling twice restores the list |
| Blocks.UpdateContent | components/DashboardBuilder.tsx:168-172 | Same length; only the content of the blocks with the id changes, to the new content |
| Blocks.UpdateTwice | components/DashboardBuilder.tsx:167-173 | Of two updates of the same id the later wins |
| Blocks.AbsentIdUnchanged | components/DashboardBuilder.tsx:159-173 | An id no block has leaves the list unchanged under toggle and update |
| Blocks.Delete | components/DashboardBuilder.tsx:246 | `blocks.filter(b => b.id !== id)`: never longer than the list; stated by `DeleteMember`, `DeleteAppend` and `DeleteAbsent` |
| Blocks.DeleteMember | components/DashboardBuilder.tsx:246 | A block survives the delete exactly when it was in the list and has a different id |
| Blocks.DeleteRemovesAll | components/DashboardBuilder.tsx:246 | No block with the id remains |
| Blocks.DeleteAppend | components/DashboardBuilder.tsx:246 | The survivors keep their order |
| Blocks.DeleteAbsent | components/DashboardBuilder.tsx:246 | Deleting an absent id leaves the list as it was |
| Blocks.DeletePresent | components/DashboardBuilder.tsx:246 | Deleting a present id shortens the list |
| Blocks.IndexOf | components/DashboardBuilder.tsx:117-118 | `findIndex`: the first block with the id, and none exactly when no block has it |
| Blocks.Remove | components/DashboardBuilder.tsx:120 | `splice(d, 1)`: the list without the element at `d`, one shorter |
| Blocks.Moved | components/DashboardBuilder.tsx:120-121 | The two splices: the element at `d` is taken out and put back at index `t`, the length is kept; stated by `MovedAt`, `MovedPermutes` and `MovedBack` |
| Blocks.MovedAt | components/DashboardBuilder.tsx:120-121 | After the two splices the dragged block is at the target's index, the blocks between shift one place towards the old index, the others stay |
| Blocks.MovedTarget | components/DashboardBuilder.tsx:120-121 | The dragged block ends at the target's original index |
| Blocks.MovedOthers | components/DashboardBuilder.tsx:120-121 | The other blocks keep their relative order |
| Blocks.MovedPermutes | components/DashboardBuilder.tsx:116-121 | The reorder is a permutation: no block is lost or duplicated |
| Blocks.MovedBack | components/DashboardBuilder.tsx:120-121 | Moving back from the target index to the old index restores the list |
| Blocks.MovedDown | components/DashboardBuilder.tsx:120-121 | Dragged downwards, the block lands after the target |
| Blocks.MovedUp | components/DashboardBuilder.tsx:120-121 | Dragged upwards, the block lands before the target |
| Blocks.InsertRemoved | components/DashboardBuilder.tsx:120-121 | Re-inserting at the old index undoes the removal |
| Builder.SpliceMove | components/DashboardBuilder.tsx:120-121 | The in-place shift on the copied array leaves it equal to `Moved` of its old contents |
| Builder.DashboardBuilder.constructor | components/DashboardBuilder.tsx:62-65 | Empty data, columns and blocks, nothing dragged |
| Builder.DashboardBuilder.Upload | components/DashboardBuilder.tsx:71-88 | Data and columns become those parsed from the text; blocks and the drag state are kept |
| Builder.DashboardBuilder.AddBlock | components/DashboardBuilder.tsx:94-106 | Exactly one new block, built by `NewBlock` from the current columns, is appended; nothing else changes |
| Builder.DashboardBuilder.DragStart | components/DashboardBuilder.tsx:108-110 | The dragged id is recorded; nothing else changes |
| Builder.DashboardBuilder.DragOver | components/DashboardBuilder.tsx:112-124 | With nothing dragged, the id 0 dragged, or the block dragged over itself (the guard `Reorders`) the list is unchanged; otherwise it becomes `Moved` from the dragged block's index to the target's index |
| Builder.DashboardBuilder.ToggleEditMode | components/DashboardBuilder.tsx:159-165 | The blocks become `ToggleEdit` of the old blocks; nothing else changes |
| Builder.DashboardBuilder.UpdateBlockContent | components/DashboardBuilder.tsx:167-173 | The blocks become `UpdateContent` of the old blocks; nothing else changes |
| Builder.DashboardBuilder.DeleteBlock | components/DashboardBuilder.tsx:246 | The blocks become `Delete` of the old blocks; nothing else changes |
| Cards.CardId | src/components/dashboard.tsx:33 | An id is `card-` followed by the decimal position |
| Cards.CardIdInjective | src/components/dashboard.tsx:33 | Different positions give different ids |
| Cards.IdsDistinct | src/components/dashboard.tsx:33 | Cards carrying the ids of their positions have pairwise distinct ids |
| Cards.Dashboard.constructor | src/components/dashboard.tsx:11-14 | No cards, empty draft, no columns |
| Cards.Dashboard.SetMarkdownContent | src/components/dashboard.tsx:114 | The draft becomes the typed text; nothing else changes |
| Cards.Dashboard.SetColumns | src/components/dashboard.tsx:23 | The columns become the names found by the parser |
| Cards.Dashboard.AddMarkdownCard | src/components/dashboard.tsx:29-36 | The draft is appended as a markdown card with id `card-<old length>`, the draft is reset to `''`, and ids stay positional |
| Cards.Dashboard.AddChartCard | src/components/dashboard.tsx:38-45 | A chart card with the given axes and id `card-<old length>` is appended; ids stay positional |
| Cards.Dashboard.ClickAddChart | src/components/dashboard.tsx:141 | The button appends a chart card on `columns[0]` and `columns[1]`, undefined where missing |
| Cards.Dashboard.DownloadDashboard | src/components/dashboard.tsx:47-93 | The downloaded file is named `dashboard.html`, typed `text/html`, and its body is the exported page |
| Cards.Section | src/components/dashboard.tsx:61-77 | The `cards.map` callback: a markdown card's text between the card `div`s, or a chart card's placeholder `div` with its id |
| Cards.SectionList | src/components/dashboard.tsx:61-77 | `cards.map(...)`: one section per card |
| Cards.Sections | src/components/dashboard.tsx:61-78 | `cards.map(...).join('')`; stated by `SectionsAppend` and `SectionOfCard` |
| Cards.Export | src/components/dashboard.tsx:48-87 | The page: the head, the sections, then `const data = ...` and the tail; stated by `MarkdownVerbatim`, `ChartPlaceholderId` and `DataAfterSections` |
| Cards.ExportHtml | src/components/dashboard.tsx:48-87 | `dashboardHTML` with the template's own text |
| Cards.SectionsAppend | src/components/dashboard.tsx:61-78 | The sections of concatenated card lists are concatenated, in order, with nothing between them |
| Cards.SectionOfCard | src/components/dashboard.tsx:61-78 | Card i's section lies between those of the cards before and after it: one section per card |
| Cards.InSection | src/components/dashboard.tsx:48-87 | Text inside card i's section is in the page at the section's start offset |
| Cards.InSections | src/components/dashboard.tsx:61-78 | Text inside card i's section is in the joined sections after the earlier cards' sections |
| Cards.MarkdownVerbatim | src/components/dashboard.tsx:62-67 | A markdown card's content appears in the page exactly as typed, right after its section's opening `div` |
| Cards.ChartPlaceholderId | src/components/dashboard.tsx:68-76 | A chart card's section holds `<div id="...">` with that card's own id |
| Cards.DataAfterSections | src/components/dashboard.tsx:81-82 | The serialised data appears right after all the sections, as the value of `const data` |
| Cards.ExportAfterAdd | src/components/dashboard.tsx:29-45 | Adding a card adds its section at the end of the card area and leaves the rest of the page unchanged |
| Text.Split | components/DashboardBuilder.tsx:73-79 | `split` on one character: never empty; `SplitPieces`, `JoinOfSplit`, `SplitAppend` and `SplitOfJoin` state its meaning |
| Text.SplitPieces | components/DashboardBuilder.tsx:73-79 | One piece more than there are separators, and no piece holds a separator |
| Text.JoinOfSplit | components/DashboardBuilder.tsx:73-79 | Joining the pieces with the separator gives the string back |
| Text.SplitAppend | components/DashboardBuilder.tsx:73-79 | The pieces of `a + sep + b` are the pieces of `a` followed by those of `b` |
| Text.SplitOfJoin | components/DashboardBuilder.tsx:73-79 | Splitting a join of separator-free pieces gives the pieces back |
| Text.Trim | components/DashboardBuilder.tsx:74-77 | `trim` with JavaScript's white-space and line-terminator characters; stated by `TrimEmpty`, `TrimIdempotent` and `TrimAround` |
| Text.TrimEmpty | components/DashboardBuilder.tsx:77 | A string trims to `""` exactly when it is all white space |
| Text.TrimIdempotent | components/DashboardBuilder.tsx:74 | Trimming twice is trimming once |
| Text.TrimAround | components/DashboardBuilder.tsx:74 | White space around a core that starts and ends with a non-space is removed, and the core is kept |
| Text.Concat | src/components/dashboard.tsx:78 | `join('')` |
| Text.ConcatAppend | src/components/dashboard.tsx:78 | Joining two lists one after the other joins each, with nothing between |
| Text.ConcatAt | src/components/dashboard.tsx:78 | Part i lies between the join of the parts before it and the join of the parts after it |
| Text.NatToStringInjective | src/components/dashboard.tsx:33 | Different numbers have different decimal notations |

## Left out

- JSX, the CSS classes, the `key` props and `useState`'s scheduling: the
  model keeps the state each handler produces, not the rendering.
- The preview returns node values (`Heading1` … `LineBreak`) carrying the
  raw text or the HTML string for `dangerouslySetInnerHTML`. The React
  elements around them are not modelled.
- The markup strings are a `Markup` parameter of the renderer. The
  component's own strings are `Markdown.Tags`. The general lemmas require
  only that the bold and italic tags contain no `*`, `_`, `[`, `)` or line
  terminator, and `Markdown.TagsInert` proves this of `Tags`.
- recharts and `renderChart`, including its `!data.length` guard: chart
  drawing is a library call.
- FileReader, papaparse, `Blob`, `URL.createObjectURL` and the download
  anchor: I/O and library calls.
  - The uploaded text is a parameter of `Builder.DashboardBuilder.Upload`.
  - The parser's column names are a parameter of
    `Cards.Dashboard.SetColumns`.
  - The `Download` value stands for the file handed to the browser.
- `JSON.stringify(data)` is a string parameter `dataJson` of the export.
  Serialisation is not modelled.
- Csv.ToNumber: covers `Number` only on blank strings and optionally signed
  decimal integers. Every other string is NaN here, whereas JavaScript also
  reads fractions, exponents, hexadecimal, `Infinity` and integers too large
  for a double.
  As a consequence, `Csv.Coerce` keeps a cell such as `1.5`, `2e3` or
  `0x1F` as a string where JavaScript stores a number. `Csv.CoerceText` is
  stated only for cells that no numeral can match.
- Builder.DashboardBuilder.AddBlock: `Date.now()` is the parameter `now`.
  Id uniqueness is not claimed, because two clicks in one millisecond give
  the same id.
- Builder.DashboardBuilder.DragOver: requires that the dragged id and the
  target are in the list whenever the guard lets the reorder through. With
  an absent id, `findIndex` gives -1 and `splice(-1, …)` works from the
  end of the list; that case is not modelled.
- Builder.DashboardBuilder.UpdateBlockContent: the chart type and axis
  `select` handlers are not modelled separately. They call this handler
  with the block's settings and one field replaced, so the new content is a
  parameter.
- Stale closures: each handler reads the state as it was when the handler
  ran (`toggleEditMode` and `addBlock` close over `blocks`), and the model
  applies handlers one at a time.
- The `MarkdownBlock` textarea's `onChange` is not modelled. It only
  forwards to `updateBlockContent`.
- The uniqueness of block ids in `DashboardBuilder` is not modelled.
  Delete, toggle and update act on every block with the id.
