# obsidian-timelines: the timeline core in Dafny

Obsidian Timelines renders a chronological timeline from the notes of an
Obsidian vault. Each note carries its dates and card fields in its YAML
frontmatter. This project models the part of the plugin that turns those
notes into a timeline:

- **The ordered index of note ids** (`src/bst.ts`). An unbalanced binary
  search tree with an iterative `insert` and a recursive in-order walk. It is
  modelled as `class BST` over a value tree. `Insert` walks a path from the
  root, which plays the part of the `current` pointer, and hangs the new node
  on the first empty link.
- **Frontmatter extraction** (`findMatchingFrontmatterKey`,
  `getFrontmatterData`). The first truthy candidate key wins. Each card field
  has its own default.
- **The note id.** A start date such as `-0044-03-15` is encoded as the
  integer formed by its dash-separated parts joined together, negated for a
  leading `-`. A date that does not give an integer is skipped.
- **`getTimelineData`.** Notes are grouped by id. A later note with the same
  id goes first when `sortDirection` is true and last otherwise. The ids are
  collected through the tree and come out in ascending order.
- **`parseArgs`.** A plain block's source becomes the tag list. A
  vis-timeline block's `key=value` lines override a record of defaults.
- **`sortDates`.** This is an in-place sort of the id array. It is modelled
  as an insertion sort that swaps neighbours under the comparator's order.
- **`buildHtmlTimeline`.** Only the computed layout is modelled: the header
  text (trailing `-0*` stripped three times), the era suffix, the alternation
  between left and right, and the cards under each date.
- **`insertTimelineYaml`.** The seven frontmatter key lines are inserted into
  the note's existing YAML header, or into a new header at the top. The
  editor is modelled as `class Editor` holding the note's lines.
- **The records of `src/types.ts` and the default settings** of
  `src/main.ts`.

Files:
- `js_builtins.dfy` holds the JavaScript built-ins the code relies on: `trim`, `split`/`join`, `indexOf`/`replace` with a string pattern, and unary `+` on digit strings.
- `bst.dfy` holds the BST.
- `types.dfy` holds the records and defaults.
- `frontmatter.dfy` holds the frontmatter extraction.
- `note_ids.dfy` holds the id encoding.
- `timeline.dfy` holds `getTimelineData`.
- `args.dfy` holds `parseArgs`.
- `html_timeline.dfy` holds `sortDates` and the timeline layout.
- `timeline_yaml.dfy` holds `insertTimelineYaml`.

Two behaviours of the code are modelled as written, although the code itself
suggests other intentions:
- **A note without a start date is kept.** `getFrontmatterData` returns `''`
  for it, `+''` is `0`, and `0` is an integer. The note is therefore kept
  under id 0, with an empty date and title
  (`Timeline.UndatedNoteKeptAtZero`). The "No date found" notice at
  src/block.ts:359 suggests that such a note was meant to be skipped.
- **The description comes from the misspelt field `desription`.** It falls
  back to `description` only when that field is missing. The
  `descriptionKey` setting declared at src/types.ts:5 is never consulted.

## Model

| member | source | states |
|---|---|---|
| Bst.BST.constructor | src/bst.ts:14-16 | A new index is empty and is a valid search tree. |
| Bst.BST.Insert | src/bst.ts:18-42 | The tree stays a search tree and holds the old values plus one more `value`. The new tree is the old one with a single previously empty link now holding a fresh leaf node for `value`. |
| Bst.BST.InOrder | src/bst.ts:44-56 | The walk leaves the tree unchanged. It returns every stored value exactly once (as a multiset), in non-decreasing order. |
| Bst.BST.Traverse | src/bst.ts:47-53 | The nested `traverse` appends the in-order walk of a subtree to the values already collected. |
| Bst.InsertedElements | src/bst.ts:18-41 | Insertion adds exactly one occurrence of the value and loses none. |
| Bst.InsertedSize | src/bst.ts:18-41 | Insertion adds exactly one node. |
| Bst.FirstInsertion | src/bst.ts:21-24 | In an empty tree the new node becomes the root, and the walk then lists just that value. |
| Bst.InsertedIsSearchTree | src/bst.ts:28-40 | Going left exactly on `value < current.value` keeps the search-tree order. Equal values go right. |
| Bst.InsertedFillsNullLink | src/bst.ts:26-41 | The descent ends at a null link, and insertion is hanging the new node there. |
| Bst.FlattenElements | src/bst.ts:44-56 | The in-order walk lists exactly the stored values, and as many as there are nodes. |
| Bst.FlattenSorted | src/bst.ts:44-56 | The in-order walk of a search tree is non-decreasing. |
| FrontmatterExtraction.FindMatchingFrontmatterKey | src/block.ts:372-379 | The result is `null` exactly when there is no frontmatter or no candidate key has a truthy value. Otherwise it is the non-empty value of the first key, in list order, whose value is truthy. |
| FrontmatterExtraction.FirstMatchWins | src/block.ts:372-379 | If key `k` is the first truthy one, its value is returned, whatever the later keys hold. |
| FrontmatterExtraction.GetFrontmatterData | src/block.ts:356-370 | Without a truthy start date, all eight fields are empty. Otherwise: the start date and title come from the first matching keys, and the title falls back to the file name minus its first ".md". The description is read from "desription" and the image from "image". `color` defaults to "" and `type` to "box" only when absent. The path is "/" + file path. The end date is the value of the first truthy end-date key, or `null` when none matches. |
| FrontmatterExtraction.TitleFromFileName | src/block.ts:362 | For a file `base.md` whose base has no ".md", the fallback title is `base`. |
| NoteIds.EncodeId | src/block.ts:323-330 | An id exists exactly for dates made only of digits and dashes. It is the number spelt by the digits, negated exactly when the date starts with '-'. |
| NoteIds.EncodeIdOrder | src/block.ts:323-328 | For dates with digit groups of equal width, CE ids follow the dictionary order of the digits and BCE ids the reverse order. Every BCE id is at most every CE id. |
| NoteIds.BceDaysRunBackwards | src/block.ts:324-325 | Within one BCE year and month, a later day gets a smaller id. The whole joined number is negated. |
| NoteIds.EncodeIdOfParts | src/block.ts:323-328 | `Y-M-D` gives the number spelt by the digits of Y, M and D side by side, and `-Y-M-D` gives its negation. |
| NoteIds.EmptyDateIsZero | src/block.ts:327-330 | The empty date gives id 0, which passes the integer test. |
| Timeline.GetTimelineData | src/block.ts:311-354 | The notes map equals the reference grouping of the files in order. The ids come out strictly increasing and are exactly the map's keys. Each id lists exactly the notes of the files with that id, in reverse file order when `sortDirection` is true and in file order otherwise. The notes listed under the returned ids number exactly the files whose date gives an integer. |
| Timeline.NoteFrom | src/block.ts:332-341 | The description is the extracted "desription" when present, and otherwise the frontmatter's "description". It is missing exactly when both are. The image is the host's resolution of the extracted image. Date, title, path, end date, event type and class are the extracted ones. |
| Timeline.NoteFromFrontmatter | src/block.ts:321-341 | For a dated file, every field of the note read straight from the frontmatter: the first matching start date, title and end date, the title's file-name fallback, "desription" or else "description", the resolved "image", "/" + path, and "color" and "type" with their defaults. |
| Timeline.AddToTimeline | src/block.ts:343-350 | A new id is inserted into the index once and gets a one-note list. A known id gets the note spliced in at index 0 (`sortDirection`) or at the end. The index keeps holding exactly the map's keys. |
| Timeline.GroupedAt | src/block.ts:318-351 | After any prefix of the files, an id is a key exactly when some file has it. Its list is those files' notes, reversed when `sortDirection` is true. |
| Timeline.TotalNotesCount | src/block.ts:343-350 | Over distinct ids, the notes listed equal the files carrying those ids: no note is lost or duplicated. |
| Timeline.CountCovered | src/block.ts:330-350 | When the ids cover every key, counting the files with those ids counts every file that has an id. |
| Timeline.DatesFromIndex | src/block.ts:343-353 | The in-order walk of the index built alongside the map is strictly increasing and lists exactly the map's keys. |
| Timeline.SortedDistinct | src/block.ts:343-353 | A sorted walk of an index holding each key once is strictly increasing and lists exactly those keys. |
| Timeline.UndatedNoteKeptAtZero | src/block.ts:321-335 | A file without a truthy start date still gives a note: id 0, empty date and empty title. |
| Timeline.MissingDescriptionHasFrontmatter | src/block.ts:335 | The fallback `frontmatter.description` is only read when the frontmatter exists. |
| TimelineArgs.ParseArgs | src/block.ts:98-123 | A plain block gives the defaults with `tags` set to the trimmed source. A vis-timeline block gives the result of applying the lines in order. Each key then has the value set by the last line that sets it, or else its default, and no other keys. `__proto__` is never an own key. |
| TimelineArgs.Setting | src/block.ts:110-114 | A line sets something exactly when its trimmed text reads `key=value`, followed by nothing or by a further '=', with a non-empty `value`. It then assigns the trimmed `value` to `key`. |
| TimelineArgs.ApplyLines | src/block.ts:109-117 | The per-line loop computes the reference fold of the lines' assignments over the defaults. |
| TimelineArgs.SetProperty | src/block.ts:114 | Assigning a key adds it with the given text and keeps every other key. Assigning `__proto__` leaves the record as it was, because that name reaches the inherited setter, which ignores a string. |
| TimelineArgs.ProtoLineIgnored | src/block.ts:110-114 | A line reading `__proto__=value` changes nothing, whatever came before it. |
| TimelineArgs.LastSettingIsLast | src/block.ts:109-117 | A key has a last setting exactly when some line sets it. The value comes from a line setting the key that no later line overrides. |
| TimelineArgs.AppliedAt | src/block.ts:109-117 | Later lines win. A key other than `__proto__` is present exactly when it has a default or some line sets it. Its value is the last line's value, or the default. `__proto__` is never present. |
| TimelineArgs.AppliedOverrides | src/block.ts:109-117 | The same for every key at once: the record the lines build holds exactly the defaults overridden by the last setting of each key, without `__proto__`. |
| TimelineArgs.SecondEqualsDropsRest | src/block.ts:112-114 | `key=value=rest` sets `key` to the trimmed `value`, and the rest is dropped. |
| TimelineArgs.NoEqualsSetsNothing | src/block.ts:110-113 | A blank line, or a line without '=', sets nothing. |
| TimelineArgs.EmptyValueSetsNothing | src/block.ts:112-113 | `key=` with nothing between its first two '=' sets nothing: an empty second segment is falsy. |
| HtmlTimeline.SortDates | src/block.ts:136-142 | Afterwards the same array is ordered ascending (`sortDirection`) or descending, and holds the same values with the same multiplicities. |
| HtmlTimeline.SortedUnique | src/block.ts:136-142 | Two ascending orderings of the same values are equal, so the sort's result is determined by its input. |
| HtmlTimeline.SortedDatesFromIndex | src/block.ts:262-263 | On the strictly increasing ids from `getTimelineData`, the ascending sort changes nothing and the descending sort reverses them. |
| HtmlTimeline.ReverseOrdered | src/block.ts:139-140 | A descending ordering read backwards is an ascending one of the same values. |
| HtmlTimeline.LastIndexOf | src/block.ts:148 | Gives the position of the last '-' of the header, or none when there is no '-'. |
| HtmlTimeline.StripDashZeros | src/block.ts:148 | One `replace(/-0*$/g, '')`: the result is a prefix of the text. When anything is removed, the removed part is a '-' followed only by zeros. |
| HtmlTimeline.HeaderText | src/block.ts:148 | The header text, with `-0*` stripped three times, is a prefix of the note's date. |
| HtmlTimeline.DateHeader | src/block.ts:148-151 | The header reads: header text, a space, then `era[0]` when the text starts with '-' and `era[1]` otherwise. |
| HtmlTimeline.StripDashZerosMatches | src/block.ts:148 | `replace(/-0*$/g, '')` removes exactly a final '-' followed only by zeros, or leaves the text unchanged when it has no such ending. |
| HtmlTimeline.HeaderTextIsPrefix | src/block.ts:148 | The header is a prefix of the date, and everything stripped is dashes and zeros. |
| HtmlTimeline.HeaderKeepsDate | src/block.ts:148 | A date without a `-0*` ending is its own header. |
| HtmlTimeline.HeaderDropsZeroDay | src/block.ts:148 | `year-month-00` has the header `year-month`. |
| HtmlTimeline.EraSuffix | src/block.ts:149 | The BCE suffix (`era[0]`) is chosen exactly for headers starting with '-', and the CE suffix (`era[1]`) otherwise. |
| HtmlTimeline.BceHeader | src/block.ts:148-151 | A negative date with a non-zero digit keeps its '-' in the header and is labelled with the BCE suffix. |
| HtmlTimeline.BuildHtmlTimeline | src/block.ts:144-191 | There is one container per date, in order. Container k is on the left for even k and on the right for odd k. Its header is the first note's date header, and its cards are all the notes of that date, in order. |
| HtmlTimeline.RenderDate | src/block.ts:147-166 | The container of one date is on the left for an even running count and on the right for an odd one. Its header is the first note's date header with the era suffix, and it lists all the notes. |
| HtmlTimeline.TimelineDataRenderable | src/block.ts:145-148 | Every id returned by `getTimelineData` has a non-empty note list, so reading its first note's date never fails. |
| TimelineYaml.Editor.InsertLines | src/block.ts:302-306 | `replaceRange` at column 0 of line `at` puts the new lines before that line and keeps all the others. |
| TimelineYaml.InsertTimelineYaml | src/block.ts:280-308 | Nothing changes without an editor. With a header, the seven keys go in at its closing `---`. Without one, a new header holding them goes in at the top. |
| TimelineYaml.ClosingDelimiter | src/block.ts:296-300 | Gives the first line after line 0 that is exactly `---`, or the line count when there is none. |
| TimelineYaml.StartsWithHeader | src/block.ts:294-307 | After the edit, the note's first line is `---`. |
| TimelineYaml.InsertedKeysRemovable | src/block.ts:285-307 | The edit only adds the seven key lines (plus two delimiters for a new header). Removing them gives back the original lines. |
| TimelineYaml.KeysInsideHeader | src/block.ts:285-307 | When the header is closed, the seven keys end up inside it: the header's closing `---` comes right after them. |
| JsBuiltins.Trim | src/block.ts:110 | `trim` returns a slice of the text with only white space removed at either end, and does not start or end with white space. |
| JsBuiltins.TrimIdempotent | src/block.ts:110 | Trimming twice is trimming once. |
| JsBuiltins.Split | src/block.ts:112 | `split` gives at least one segment, and no segment contains the separator. |
| JsBuiltins.JoinSplit | src/block.ts:109 | Joining the segments of a split with the separator gives back the text. |
| JsBuiltins.SplitJoin | src/block.ts:112 | Splitting a join of separator-free segments gives back the segments. |
| JsBuiltins.ConcatSplit | src/block.ts:325-327 | `split('-').join('')` deletes exactly the dashes. |
| JsBuiltins.RemoveFirst | src/block.ts:362 | `replace(".md", "")` deletes the first occurrence only, and leaves the text unchanged when it has none. |
| JsBuiltins.ToInteger | src/block.ts:325-330 | Restricted to digit strings: a digit string gives the number it spells, which is below 10 to the power of its length. Other text gives no integer. |
| JsBuiltins.DigitsOrder | src/block.ts:323-328 | For digit strings of equal width, numeric order is dictionary order. |

## Left out

- The DOM is not modelled: the created elements, CSS classes, click handlers and hover previews. `buildHtmlTimeline` is reduced to what it computes for each date.
- These functions of `src/block.ts` build vis-timeline or DOM content and are not part of this model: `createNoteCard`, `getStartEndDates`, `buildVisTimelineItems`, `getVisTimelineOptions`, `createVisTimeline`, `insertTimelineIntoCurrentNote` and `run`.
- Tag parsing and file filtering (`getTagSet`, `filterFiles`, `src/utils.ts`) are not part of this model. `getTimelineData` receives the already-filtered files.
- `getImgUrl` resolves paths through the vault adapter. It is the `resolveImage` parameter.
- The metadata cache is replaced by its result: each file comes with its frontmatter.
- The `Notice` shown for a note without a date is a host side effect and is not modelled.
- `src/main.ts` is not modelled beyond its default settings, because it only wires the plugin into the host.
- Frontmatter values are modelled as strings. Numbers, lists and booleans in YAML are not modelled, and a key with an empty YAML value is read as the empty string, where the host would give `null`.
- NoteIds.EncodeId: does not model JavaScript's full `Number()` coercion. Surrounding white space, exponents, `.0` fractions and hexadecimal would also give integers in the source. Only dates of digits and dashes are modelled as giving an id.
- JsBuiltins.Trim: recognises the ASCII white space, NBSP, BOM and the line and paragraph separators, not every Unicode space separator.
- Bst.BST.Insert: nodes are values in a tree rather than shared objects, so aliasing of nodes is not modelled. The empty-tree case is stated separately by `Bst.FirstInsertion`.
- TimelineYaml.Editor.InsertLines: the host's clipping of an out-of-range position is not modelled. A header without a closing `---` receives the keys after its last line.
- HtmlTimeline.BuildHtmlTimeline: requires every date to have a non-empty note list. The source would throw on such a date before reaching its `continue`, so that branch is unreachable in the model. `Timeline.GetTimelineData` always delivers such lists (`HtmlTimeline.TimelineDataRenderable`).
- HtmlTimeline.SortDates: the engine's own sort algorithm is not modelled. The result is the same because it is determined by the comparator (`HtmlTimeline.SortedUnique`).
- JsBuiltins.ToInteger: restricted to digit strings. Unary `+` also gives integers for text such as `" 7"`, `"7.0"`, `"1e3"` and `"0x1F"`, which the model treats as giving none.
- NoteIds.EncodeId: ids are unbounded integers, while the source's ids are JavaScript numbers. A digit string whose value is at most 2^53 converts exactly, zero-padded strings included. A larger value may be rounded, so two different dates can share an id: the source then groups their notes together, while the model keeps them apart. A value of about 1.8 × 10^308 or more becomes `Infinity`, which fails `Number.isInteger`: the source skips that note, while the model keeps it under its exact value.
