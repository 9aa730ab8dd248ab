# Learncpp_CN site tooling, modelled in Dafny

This project models the parts of the Learncpp_CN repository that compute
something. That repository is a Chinese translation of learncpp.com published
with Quartz.

- **`script.py`, the index renamer.** It walks the `content` tree and picks
  out Markdown files named like `01-A-intro.md`. It turns the name's index into
  `01.A`. It then rewrites the index in each file's `title:` and `alias:` lines.
  - `IndexName` models the file-name pattern and the normalised index.
  - `IndexRewrite` models the two `re.sub` substitutions.
  - `RewriteOrder` proves how the two substitutions relate: they commute, and
    a second run changes nothing when the index starts with digits (an index
    that starts with a letter can be rewritten again).
  - `RewriteExample` gives worked examples.
  - `ContentWalk` models the walk itself. A class `ContentTree` holds the file
    contents and is updated file by file.
- **`quartz/util/emoji.ts` (`Emoji`).** `getIconCode` and `toCodePoint` turn
  UTF-16 code units into hyphen-joined hexadecimal code points.
- **`quartz/util/theme.ts` (`Theme`).** Builds the Google Fonts family
  parameter of each typography slot and the stylesheet link.
- **`quartz/plugins/transformers/frontmatter.ts` (`FrontMatter`).** Normalises
  a parsed front-matter record, field by field. Covers the key aliases,
  coercion to lists, tag de-duplication and alias slugs.
- **`quartz.layout.ts` and `quartz.config.ts` (`NaturalSort`).** The
  `naturalCompare` comparator of the Explorer and of the folder page. Digit
  runs compare by value; everything else uses `localeCompare`.
- **`quartz/components/Landing.tsx` (`Landing`).** Builds the sorted,
  de-duplicated chapter-folder list and the card shown for each folder.
- **`quartz/processors/parse.ts` (`Parse`).** Covers:
  - the chunking of the file list;
  - the choice of thread count;
  - text preparation;
  - the per-file parse loop, which drops a file that fails.
- **`quartz/i18n/locales/lt-LT.ts` (`LithuanianLocale`).** The Lithuanian
  count-dependent messages, whose wording has three grammatical forms.
- **Shared pieces.**
  - `Strings` holds the JavaScript string built-ins these files use:
    `toString(16)`, `String(n)`, `split`, `join`, `trim`, ASCII
    `toLowerCase`, `parseInt` and the default `sort`.
  - `Wrappers` holds `Option`. It stands for `undefined`, for an empty
    `findall` result and for optional fields.

The code differs from a plain reading of the script's intent in one place:
`os.walk`-style traversal (`content.walk()`) visits every level of the tree.
The script skips each level that has subdirectories and processes the files
of every level that has none, at any depth. `ContentWalk` follows the code,
not a "top-level files only" reading.

## Model

| member | source | states |
|---|---|---|
| `IndexName.MatchIndexComplete` | script.py:7 | A name `x-y-t` is recognised, with group 1 `x-y`, when `x` is in `[0-9A-Z]+`, `y` is in `[0-9a-zA-Z]+` and `t` is a one-line text ending in `.md` (optionally with a final newline, as `$` allows). |
| `IndexName.MatchIndexSound` | script.py:7 | Conversely, every recognised name has exactly that shape, and group 1 is `x-y`. |
| `IndexName.MatchIndexShape` | script.py:7 | Group 1 of a recognised name is a raw index. It is followed in the name by `-` and a `.md` tail. |
| `IndexName.MatchIndex` | script.py:7-18 | `INDEX_REG.findall` on a file name: a match is a proper prefix of the name (its group 1). `MatchIndexComplete` and `MatchIndexSound` give both directions. |
| `IndexName.Dotted` | script.py:21 | `replace("-", ".")`: the length is kept. Every hyphen becomes a dot and every other character is kept. |
| `IndexName.NormalizedIndex` | script.py:18-21 | A file name gives a normalised index exactly when `INDEX_REG` finds a match in it. |
| `IndexName.DottedRawIndex` | script.py:7-21 | The normalised index is `x.y`, made only of `[0-9A-Za-z.]`. It has the shape the substitutions accept exactly when `x` is all digits. |
| `IndexRewrite.RunProps` | script.py:7-9 | A greedy character-class run is maximal: all of it is in the class, and the character after it is not. |
| `IndexRewrite.RunIs` | script.py:7-9 | Conversely, a prefix inside the class followed by a character outside it is the greedy run. |
| `IndexRewrite.HeadShape` | script.py:8-9 | A match at a position is the key (`title:`/`alias:`), one `\s` character, an index of digits, `.`, alphanumerics, then ` - `. |
| `IndexRewrite.HeadComplete` | script.py:8-9 | Conversely, key, blank, a well-formed index and ` - ` always match, and the index ends where ` - ` starts. |
| `IndexRewrite.Head` | script.py:8-9 | A `TITLE_REG`/`ALIAS_REG` match at the start of a text ends at least ten characters in and leaves its ` - ` inside the text. `HeadShape` and `HeadComplete` give both directions. |
| `IndexRewrite.Sub` | script.py:25 | One `re.sub`. Its contract is stated by `SubAtHead`, `SubNoHead`, `SubCopy` and `SubWithoutKey`. |
| `IndexRewrite.Rewrite` | script.py:25 | The alias substitution applied to the title substitution. A text that holds neither key is left exactly as it was. |
| `IndexRewrite.SubAtHead` | script.py:25 | At a match, `sub` keeps group 1, writes the new index and keeps group 2 (the rest of the line). It then resumes scanning after the line. |
| `IndexRewrite.SubNoHead` | script.py:25 | Where no match starts, `sub` copies the character and scans on. |
| `IndexRewrite.SubCopy` | script.py:25 | Everything before the first occurrence of the key is copied unchanged. |
| `IndexRewrite.SubWithoutKey` | script.py:25 | A text that holds no key is left exactly as it was. |
| `IndexRewrite.SubNewlineLed` | script.py:8-9 | `.*` stops at a newline, so a substitution never swallows the line break that follows a match. |
| `IndexRewrite.SubOfLine` | script.py:8-25 | A line `key blank version rest` is rewritten to `key blank idx rest`, and the text after the line is substituted on its own. |
| `IndexRewrite.HeadStableSome` | script.py:8-9 | Whether a match starts at a position depends only on the characters up to the end of its ` - `. |
| `IndexRewrite.SubIdempotent` | script.py:25 | One substitution applied twice with a digit-led index gives what one application gives. |
| `RewriteOrder.Commute` | script.py:25 | The title substitution and the alias substitution commute for any two indices made of `[0-9A-Za-z.]`. |
| `RewriteOrder.RewriteOrderIrrelevant` | script.py:25 | Substituting titles first (as the script does) or aliases first gives the same file text. |
| `RewriteOrder.RewriteIdempotent` | script.py:25 | Rewriting an already rewritten text with the same digit-led index changes nothing. |
| `RewriteOrder.LetterIndexNotIdempotent` | script.py:7-25 | With an index that starts with a letter (`A1.B`, allowed by `INDEX_REG`), a second run does change a text. An example text is exhibited. |
| `RewriteExample.IntroName` | script.py:18-21 | `01-A-intro.md` is a candidate and its normalised index is `01.A`. |
| `RewriteExample.NameExample` | script.py:18-21 | Any `DD-L-<name>.md` with two digits and one capital is recognised and normalises to `DD.L`. |
| `RewriteExample.NotCandidates` | script.py:7 | `intro.md`, `01-A.md` and `01-A-intro.txt` are not candidates. |
| `RewriteExample.NotAVersionKept` | script.py:8 | A `title:` whose value does not start with a digit is not matched at its own key. The key is kept and the value is substituted on its own, so a `title:` inside the value can still be rewritten. |
| `RewriteExample.NotAVersionUnchanged` | script.py:8 | A `title:` whose value does not start with a digit and holds no `:` is left unchanged. |
| `RewriteExample.IntroBody` | script.py:25 | A two-line front matter with index `3.9` is rewritten to index `01.A` in both lines, and the rest is kept. |
| `RewriteExample.TwoLines` | script.py:8-25 | For any index and version, and any ` - ` line rest that holds no newline and no `:`, the title line and the alias line are both rewritten and nothing else changes. |
| `ContentWalk.Newlines` | script.py:23-24 | Reading in text mode yields no carriage return and is never longer than the stored text. |
| `ContentWalk.NewlinesKeep` | script.py:23-24 | A stored text without carriage returns is read back exactly. |
| `ContentWalk.NewlinesCrlf` | script.py:23-24 | A stored `\r\n` is read as `\n`. |
| `ContentWalk.LevelTargetsIff` | script.py:16-21 | The candidates of one level are exactly the (root, name, index) triples whose name `INDEX_REG` accepts. |
| `ContentWalk.TargetsIff` | script.py:13-21 | The candidates of the whole walk are exactly the recognised names of the levels that have no subdirectories. |
| `ContentWalk.Targets` | script.py:13-21 | The candidates of the walk, level by level. `TargetsIff` states which they are. |
| `ContentWalk.Step` | script.py:22-31 | One candidate either fails and changes nothing, or sets its file to the rewritten text. Every other file is kept and no file appears or disappears. |
| `ContentWalk.ApplyAllKeys` | script.py:22-31 | The walk creates and deletes no file. |
| `ContentWalk.ApplyAllUntouched` | script.py:16-31 | A file that is not a candidate, or whose processing fails, keeps its text. |
| `ContentWalk.ApplyAllRewrites` | script.py:22-28 | A candidate that succeeds ends up holding `Rewrite(index, text read)`. |
| `ContentWalk.ApplyAll` | script.py:16-31 | The file contents after the candidates are processed in order. `ApplyAllKeys`, `ApplyAllUntouched` and `ApplyAllRewrites` state what they are. |
| `ContentWalk.Errors` | script.py:29-31 | The paths reported by the `except` branch, in walk order. `ErrorsIff` states which they are. |
| `ContentWalk.ErrorsIff` | script.py:29-31 | The reported paths are exactly the candidates whose file is missing or fails. |
| `ContentWalk.RunTwice` | script.py:11-33 | Running the script a second time, with digit-led indices and the same failing files, leaves every file as the first run left it. |
| `ContentWalk.RunAgain` | script.py:11-33 | With digit-led indices, a second run whose failing files may differ creates or deletes no file. It leaves every file the first run rewrote, and every file that fails in both runs, as the first run left it. |
| `ContentWalk.RewriteNoCarriageReturn` | script.py:23-28 | A rewrite adds no carriage return to a text read in text mode. |
| `ContentWalk.ContentTree.RewriteFile` | script.py:22-31 | Opens, reads, rewrites, writes back and truncates one file. It returns failure exactly on `IOError`, and the new contents are `Step`. |
| `ContentWalk.ContentTree.ProcessLevel` | script.py:16-31 | The inner loop over a level's file names: the contents and the reported paths after the loop are those of the level's candidates, in order. |
| `ContentWalk.ContentTree.RenameTitleAndAlias` | script.py:11-31 | The whole walk: the final contents and the reported paths are those of all candidates, level by level. |
| `Emoji.Pair` | quartz/util/emoji.ts:17 | The value a pending high surrogate and the next unit give lies in `0x2400..0x112000`. |
| `Emoji.ToCodePoint` | quartz/util/emoji.ts:8-26 | The loop with a pending high surrogate computes the hex code points of the units joined by `-`. |
| `Emoji.GetIconCode` | quartz/util/emoji.ts:4-6 | `getIconCode` is `toCodePoint` of the input, with U+FE0F removed unless U+200D occurs in it. |
| `Emoji.IconUnits` | quartz/util/emoji.ts:4-5 | With U+200D in the input, the units are the input unchanged. Without it, they are the input with every U+FE0F removed and nothing else changed: the same multiset less the U+FE0F units, in the input's order (`Without`). |
| `Emoji.Without` | quartz/util/emoji.ts:2-5 | The global replace removes every occurrence of the unit. Every other unit is kept with its multiplicity (`multiset(r) == multiset(s)[x := 0]`), and a text without the unit is kept. |
| `Emoji.WithoutSingle` | quartz/util/emoji.ts:2-5 | One unit is dropped exactly when it is the removed unit. |
| `Emoji.WithoutConcat` | quartz/util/emoji.ts:2-5 | The removal distributes over concatenation, so the kept units stay in their order. |
| `Emoji.NonSurrogate` | quartz/util/emoji.ts:19-23 | A unit that is not a high surrogate, read with nothing pending, is its own code point. |
| `Emoji.PairConsumesNext` | quartz/util/emoji.ts:16-20 | A high surrogate combines with the next unit, whatever that unit is. |
| `Emoji.PairRange` | quartz/util/emoji.ts:17 | A high surrogate followed by a low surrogate gives a supplementary code point, in `0x10000..0x10FFFF`. |
| `Emoji.TrailingHighDropped` | quartz/util/emoji.ts:14-24 | A high surrogate left pending at the end produces nothing. |
| `Emoji.EmptyEncoded` | quartz/util/emoji.ts:9-25 | The empty string gives the empty string. |
| `Emoji.NoSurrogates` | quartz/util/emoji.ts:21-23 | Surrogate-free units give one code point each, in order. |
| `Emoji.PieceCount` | quartz/util/emoji.ts:14-24 | On well-formed UTF-16 there is one piece per unit, less one per surrogate pair. |
| `Emoji.DecodeEncode` | quartz/util/emoji.ts:14-24 | On well-formed UTF-16 the decoded code points are scalar-range values, and UTF-16 encoding them gives the units back. |
| `Emoji.EncodeDecode` | quartz/util/emoji.ts:14-24 | The loop decodes the UTF-16 encoding of any scalar values back to those values. |
| `Emoji.ReadBack` | quartz/util/emoji.ts:17-25 | Splitting the output on `-` and reading each piece as hexadecimal gives the code points back. |
| `Theme.FormatFontSpecification` | quartz/util/theme.ts:51-82 | The features pushed one by one and joined give the family of the slot. |
| `Theme.GoogleFontHref` | quartz/util/theme.ts:84-91 | The link lists the body, header and code families, in that order, between the fixed URL parts. |
| `Theme.WeightDefaults` | quartz/util/theme.ts:56-58 | Given weights win. Otherwise headers ask for 400 and 700, and other slots for 400 and 600. |
| `Theme.ItalicDefaults` | quartz/util/theme.ts:57-59 | A given italic flag wins. Otherwise only body text asks for italics. |
| `Theme.BareName` | quartz/util/theme.ts:61-81 | The family is the bare name exactly when there are no italics and at most one weight. |
| `Theme.FeatureOrder` | quartz/util/theme.ts:61-79 | `:ital` follows the name exactly when italics are asked for. `wght@` appears exactly when two or more weights are, after `ital` when both are. |
| `Theme.ItalicWeightsSorted` | quartz/util/theme.ts:67-71 | With italics the weight list is sorted as strings, is a permutation of the `0,w`/`1,w` pairs and holds two entries per weight. |
| `Theme.ItalicWeightsBoth` | quartz/util/theme.ts:69 | With italics every weight appears both as `0,w` and as `1,w`. |
| `Theme.ItalicZerosFirst` | quartz/util/theme.ts:69-70 | After the sort every `0,` entry comes before every `1,` entry. |
| `Theme.PlainWeightsReadBack` | quartz/util/theme.ts:72 | Without italics the weights can be read back, in order, by splitting on `;`. |
| `Theme.FontName` | quartz/util/theme.ts:43-49 | `getFontSpecificationName`: the name, whether the specification is a bare string or an object. `BareName` and `FeatureOrder` state how the family is built from it. |
| `FrontMatter.CoalesceAliases` | quartz/plugins/transformers/frontmatter.ts:23-27 | The loop with an early return gives the first value, over the keys, that is neither undefined nor null. |
| `FrontMatter.FirstPresent` | quartz/plugins/transformers/frontmatter.ts:23-27 | The value `coalesceAliases` returns is nullish only when it is `undefined`. |
| `FrontMatter.FirstPresentSpec` | quartz/plugins/transformers/frontmatter.ts:23-27 | The result is undefined exactly when every key is nullish. Otherwise it is the value of one of the keys. |
| `FrontMatter.FirstPresentIsFirst` | quartz/plugins/transformers/frontmatter.ts:23-27 | A key whose earlier keys are all nullish, and which is not nullish itself, is the one picked. |
| `FrontMatter.CoerceToArray` | quartz/plugins/transformers/frontmatter.ts:29-44 | Nullish gives undefined. An array gives its string and number items as strings, in order. |
| `FrontMatter.CoerceScalar` | quartz/plugins/transformers/frontmatter.ts:33-38 | A scalar gives one trimmed, comma-free piece per comma-separated part of its string form. |
| `FrontMatter.KeptConcat` | quartz/plugins/transformers/frontmatter.ts:41-43 | Filtering and mapping keep the order of the items. |
| `FrontMatter.Dedup` | quartz/plugins/transformers/frontmatter.ts:86 | `[...new Set(xs)]` holds no duplicates, is no longer than `xs` and has the same elements. |
| `FrontMatter.DedupOrder` | quartz/plugins/transformers/frontmatter.ts:86 | The de-duplicated tags come in the order of their first occurrences. |
| `FrontMatter.AliasSlugs` | quartz/plugins/transformers/frontmatter.ts:46-58 | One slug per alias, then the permalink when it is a string, each with the trailing-slash fix applied. |
| `FrontMatter.FixSlug` | quartz/plugins/transformers/frontmatter.ts:56-58 | A slug that ends in `/` gets `index` joined to it, and any other slug is kept. `AliasSlugs` states the list it builds. |
| `FrontMatter.TitleOf` | quartz/plugins/transformers/frontmatter.ts:79-83 | A non-empty given title wins over the file stem and the locale default. The result is empty exactly when no non-empty title was given and the fallback (stem, else default) is empty. |
| `FrontMatter.Normalise` | quartz/plugins/transformers/frontmatter.ts:69-114 | The transformer body gives the record `Normalised`, the alias slugs stored on the file, and `allSlugs` with those slugs appended. |
| `FrontMatter.Normalised` | quartz/plugins/transformers/frontmatter.ts:79-111 | The record after every field step. The `Normalised*` lemmas and `OthersKept` state each field. |
| `FrontMatter.SetAliases` | quartz/plugins/transformers/frontmatter.ts:88-93 | The aliases step stores the list, computes the file's alias slugs and appends them to `allSlugs`. |
| `FrontMatter.NormalisedTitle` | quartz/plugins/transformers/frontmatter.ts:79-83 | The final `title` is `TitleOf` the parsed record. |
| `FrontMatter.NormalisedTags` | quartz/plugins/transformers/frontmatter.ts:85-86 | The final `tags` come from `tags`, else `tag`: coerced, slugged and de-duplicated. With neither present the field is left alone. |
| `FrontMatter.NormalisedAliases` | quartz/plugins/transformers/frontmatter.ts:88-90 | The final `aliases` come from `aliases`, else `alias`, coerced to a list. With neither present the field is left alone. |
| `FrontMatter.NormalisedCss` | quartz/plugins/transformers/frontmatter.ts:94-95 | The final `cssclasses` come from `cssclasses`, else `cssclass`. With neither present the field is left alone. |
| `FrontMatter.NormalisedCreated` | quartz/plugins/transformers/frontmatter.ts:99-100 | `created` becomes the first present of `created`, `date` when that is truthy. Otherwise it is left alone. |
| `FrontMatter.NormalisedModified` | quartz/plugins/transformers/frontmatter.ts:101-107 | `modified` becomes the first present of `modified`, `lastmod`, `updated`, `last-modified` when truthy. Otherwise it is left alone. |
| `FrontMatter.NormalisedPublished` | quartz/plugins/transformers/frontmatter.ts:108-109 | `published` becomes the first present of `published`, `publishDate`, `date` when truthy. Otherwise it is left alone. |
| `FrontMatter.NormalisedSocialImage` | quartz/plugins/transformers/frontmatter.ts:97-111 | `socialImage` becomes the first present of `socialImage`, `image`, `cover` when truthy. Otherwise it is left alone. |
| `FrontMatter.OthersKept` | quartz/plugins/transformers/frontmatter.ts:79-111 | Every field the transformer does not write keeps its parsed value. |
| `NaturalSort.SplitSegments` | quartz.layout.ts:36-37 | `split(/(\d+)/).filter(Boolean)` gives the maximal digit and non-digit runs of the string. |
| `NaturalSort.SegmentsSpec` | quartz.layout.ts:36-37 | The segments are non-empty runs, of alternating kind, that spell out the string. |
| `NaturalSort.SegmentsUnique` | quartz.layout.ts:36-37 | Any split into alternating runs is the segments of its concatenation. |
| `NaturalSort.NaturalCompare` | quartz.layout.ts:35-52 | `naturalCompare` splits both strings and compares the segment lists. |
| `NaturalSort.CompareSegments` | quartz.layout.ts:39-51 | The loop with early returns gives the first non-tying segment comparison, else the difference in segment counts. |
| `NaturalSort.NaturalOrder` | quartz.layout.ts:35-52 | `naturalCompare` over the segments of both strings. `NumbersDecide`, `TextDecides`, `CountsDecide` and `NaturalAntisymmetric` state its results. |
| `NaturalSort.CompareStep` | quartz.layout.ts:39-48 | In round `i`, the segment pair at `i` decides unless it ties, in which case the next round does. |
| `NaturalSort.NumbersDecide` | quartz.layout.ts:40-44 | Leading digit runs of different values order by their difference. Equal values pass on to the rest. |
| `NaturalSort.TextDecides` | quartz.layout.ts:45-47 | Leading runs that are not both numbers order by `localeCompare`, or pass on to the rest when it ties. |
| `NaturalSort.TwoBeforeTen` | quartz.layout.ts:40-44 | `2` sorts before `10`, by `-8`, whatever `localeCompare` does. |
| `NaturalSort.LeadingZerosTie` | quartz.layout.ts:40-44 | `01` and `1` tie. |
| `NaturalSort.CountsDecide` | quartz.layout.ts:51 | When all common segments tie, the difference in segment counts decides. |
| `NaturalSort.SelfTie` | quartz.layout.ts:35-52 | A string compares equal to itself when `localeCompare` does. |
| `NaturalSort.NaturalAntisymmetric` | quartz.layout.ts:35-52 | Swapping the arguments flips the sign of the result, when `localeCompare` is antisymmetric. |
| `NaturalSort.ExplorerOrder` | quartz.layout.ts:54-64 | Files sort before folders. |
| `NaturalSort.ExplorerIgnoresCase` | quartz.layout.ts:54-58 | Entries whose names differ only in ASCII case sort alike. |
| `NaturalSort.ExplorerAntisymmetric` | quartz.layout.ts:54-64 | The Explorer comparator is antisymmetric in sign. |
| `NaturalSort.MissingTitleFirst` | quartz.config.ts:98-100 | A missing title reads as empty. It ties with an empty title and sorts before any other. |
| `NaturalSort.TitlesIgnoreCase` | quartz.config.ts:98-100 | Titles that differ only in ASCII case tie. |
| `NaturalSort.TitleOrder` | quartz.config.ts:79-100 | The folder-page comparator over lower-cased titles, with `""` for a missing one. `MissingTitleFirst`, `TitlesIgnoreCase` and `TitleAntisymmetric` state its results. |
| `NaturalSort.TitleAntisymmetric` | quartz.config.ts:79-100 | The folder-page comparator is antisymmetric in sign. |
| `Landing.Lookup` | quartz/components/Landing.tsx:311 | Finds the first `CARDS` entry keyed by the folder, or reports that there is none. |
| `Landing.FixedTable` | quartz/components/Landing.tsx:12-275 | Every entry of `CARDS` uses one of the six card styles. Every card links to the folder it is keyed by, except the `B-CPP-Standart` entry, which links to `B-CPP-Standard`. That entry is the only one whose key starts with `B`. |
| `Landing.FolderOfSpec` | quartz/components/Landing.tsx:283 | The folder of a slug holding `/` is the text before its first `/`. |
| `Landing.Folders` | quartz/components/Landing.tsx:279-290 | The folder list is sorted, has no duplicates, and holds exactly the non-hidden first segments of the slugs that hold `/`. |
| `Landing.FolderNumberSpec` | quartz/components/Landing.tsx:314 | The folder number is the leading digit run followed by `-`. It is empty exactly when the name has no such prefix. |
| `Landing.FolderNumber` | quartz/components/Landing.tsx:314 | The folder number is made of digits only. `FolderNumberSpec` states where it comes from. |
| `Landing.Unhyphen` | quartz/components/Landing.tsx:315 | Every hyphen becomes a space and every other character is kept. |
| `Landing.DisplayName` | quartz/components/Landing.tsx:315 | The display name holds no hyphen. |
| `Landing.DisplayNameSpec` | quartz/components/Landing.tsx:314-315 | The display name is the folder name after its folder number and the `-` that follows it (the whole name when there is no number), character by character, with every `-` read as a space. |
| `Landing.FallbackStyle` | quartz/components/Landing.tsx:319-322 | A made-up card uses a style from 1 to 5, never 6. A folder without a number gets style 1. |
| `Landing.CardStyle` | quartz/components/Landing.tsx:319-322 | The card style is `parseInt(folderNumber) % 6` with JavaScript's signed remainder, or 1 when that is 0 or `NaN`. It is never 0, lies in `-5..5`, and is 1 when there is no number. |
| `Landing.FallbackCard` | quartz/components/Landing.tsx:314-325 | The made-up card. `FallbackStyle` and `DisplayNameSpec` state its style and title. |
| `Landing.FallbackExample` | quartz/components/Landing.tsx:314-325 | Folder `30-Io-Ex` gets the title `Io Ex`, the subhead `章节 30` and style 1. |
| `Landing.CardChoice` | quartz/components/Landing.tsx:311-326 | A folder with an entry in `CARDS` shows that entry's card. Any other folder shows its made-up card. |
| `Landing.CardFor` | quartz/components/Landing.tsx:311-326 | The `CARDS` card keyed by the folder, else the made-up card. `CardChoice` and `CardShape` state which card is shown. |
| `Landing.CardIn` | quartz/components/Landing.tsx:311-326 | The lookup-or-fallback choice over a given card table. It is shared by the card table as written and by the corrected one. |
| `Landing.CardShape` | quartz/components/Landing.tsx:311-326 | Every card uses one of the six styles. Every card links to its own folder, except the card for `B-CPP-Standart`. |
| `Landing.LandingCards` | quartz/components/Landing.tsx:310-327 | One card per folder, in the order of the folder list, each with a style from 1 to 6. Each links to its own folder, except for `B-CPP-Standart`. |
| `Landing.StandartLink` | quartz/components/Landing.tsx:230-238 | As written, the `B-CPP-Standart` card links to `B-CPP-Standard`. A folder named `B-CPP-Standard` gets the made-up card: style 1, title `B CPP Standard`, subhead `章节 `. |
| `Landing.IntendedOnlyB` | quartz/components/Landing.tsx:230-238 | The corrected table differs from `CARDS` only in the `B-CPP-Standart` entry, whose card now links to `B-CPP-Standart`. In the corrected table, every card links to the folder it is keyed by and uses one of the six styles. |
| `Landing.IntendedCardShape` | quartz/components/Landing.tsx:230-238 | With the corrected table, every card links to its own folder and uses one of the six styles. `B-CPP-Standart` shows its fixed card: style 6, title `B. C++标准更新`, subhead `附录 B`. |
| `Parse.Chunks` | quartz/processors/parse.ts:46-50 | The chunks concatenate to the input. Each holds 1 to `n` items, all but the last hold exactly `n`, and there are just enough of them. |
| `Parse.Clamp` | quartz/processors/parse.ts:144-145 | The clamp lies in `[min, max]`, and is the rounded value when that is already in range. |
| `Parse.ClampMonotonic` | quartz/processors/parse.ts:144-145 | A larger number never gets a smaller clamp. |
| `Parse.RoundFiles` | quartz/processors/parse.ts:153-154 | `Math.round(files / 128)` is `(files + 64) / 128` in integers. |
| `Parse.DefaultConcurrency` | quartz/processors/parse.ts:153-154 | Without `--concurrency`: 1 thread below 192 files, 4 from 448 on, and `files / 128` rounded in between. |
| `Parse.GivenConcurrency` | quartz/processors/parse.ts:154 | A given `--concurrency` is used as it is. |
| `Parse.Concurrency` | quartz/processors/parse.ts:153-154 | A given `--concurrency` is used as it is. Otherwise the thread count lies in 1 to 4. |
| `Parse.PrepareText` | quartz/processors/parse.ts:93-99 | The text is trimmed, then passed through each plugin's text transform in order. |
| `Parse.NoTransforms` | quartz/processors/parse.ts:97-99 | Plugins without a text transform leave the trimmed text as it is. |
| `Parse.ParseFiles` | quartz/processors/parse.ts:84-119 | The loop collects the results of the files that succeed, in file order. |
| `Parse.SurvivorsConcat` | quartz/processors/parse.ts:88-116 | A failing file takes nothing from the files after it. The results split at any point of the file list. |
| `Parse.AllSurvive` | quartz/processors/parse.ts:88-116 | When every file succeeds there is one result per file, in order. |
| `Parse.FailureDropped` | quartz/processors/parse.ts:113-115 | A file that fails contributes nothing. |
| `Parse.ChunkedSurvivors` | quartz/processors/parse.ts:179-194 | Parsing chunk by chunk and flattening gives the results of parsing all files in one go. |
| `LithuanianLocale.CountedBands` | quartz/i18n/locales/lt-LT.ts:63-68 | The three-way message ends in the singular word exactly at 1, in the few-form below 10 (other than 1), and in the many-form from 10 on. |
| `LithuanianLocale.LastFewNotesBands` | quartz/i18n/locales/lt-LT.ts:63-68 | `lastFewNotes` ends in `užrašas` exactly at 1, in `užrašai` for other counts below 10, and in `užrašų` from 10 on. |
| `LithuanianLocale.ItemsUnderFolderBands` | quartz/i18n/locales/lt-LT.ts:78-83 | `itemsUnderFolder` uses `elementas` exactly at 1, `elementai` for other counts below 10, and `elementų` from 10 on. |
| `LithuanianLocale.ItemsUnderTagBands` | quartz/i18n/locales/lt-LT.ts:88-93 | `itemsUnderTag` uses `elementas` exactly at 1, `elementai` for other counts below 10, and `elementų` from 10 on. |
| `LithuanianLocale.ShowingFirstBands` | quartz/i18n/locales/lt-LT.ts:94-95 | `showingFirst` ends in `žymos.` below 10 (including 1) and in `žymų.` from 10 on. |
| `LithuanianLocale.TotalTagsBands` | quartz/i18n/locales/lt-LT.ts:96-101 | `totalTags` ends in `žyma.` exactly at 1, in `žymos.` for other counts below 10, and in `žymų.` from 10 on. |
| `LithuanianLocale.TagFormsAgree` | quartz/i18n/locales/lt-LT.ts:94-101 | `showingFirst` and `totalTags` agree on the form of `žyma` for every count except 1, where they differ. |
| `LithuanianLocale.LastFewNotes` | quartz/i18n/locales/lt-LT.ts:63-68 | `lastFewNotes`. `LastFewNotesBands` and `LastFewNotesCountReadBack` state its text. |
| `LithuanianLocale.ItemsUnderFolder` | quartz/i18n/locales/lt-LT.ts:78-83 | `itemsUnderFolder`. `ItemsUnderFolderBands` and `FolderCountReadBack` state its text. |
| `LithuanianLocale.ItemsUnderTag` | quartz/i18n/locales/lt-LT.ts:88-93 | `itemsUnderTag`. `ItemsUnderTagBands` and `TagItemsCountReadBack` state its text. |
| `LithuanianLocale.ShowingFirst` | quartz/i18n/locales/lt-LT.ts:94-95 | `showingFirst`. `ShowingFirstBands` and `ShowingFirstCountReadBack` state its text. |
| `LithuanianLocale.TotalTags` | quartz/i18n/locales/lt-LT.ts:96-101 | `totalTags`. `TotalTagsBands` and `TotalTagsCountReadBack` state its text. |
| `LithuanianLocale.CountedReadBack` | quartz/i18n/locales/lt-LT.ts:78-83 | After the opening words, `parseInt` reads back any count other than 1. |
| `LithuanianLocale.FolderCountReadBack` | quartz/i18n/locales/lt-LT.ts:78-83 | `parseInt` on the folder message gives back the count. |
| `LithuanianLocale.TagItemsCountReadBack` | quartz/i18n/locales/lt-LT.ts:88-93 | `parseInt` on the tag message gives back the count. |
| `LithuanianLocale.ShowingFirstCountReadBack` | quartz/i18n/locales/lt-LT.ts:94-95 | `parseInt` after `Rodomos pirmosios ` gives back the count. |
| `LithuanianLocale.TotalTagsCountReadBack` | quartz/i18n/locales/lt-LT.ts:96-101 | `parseInt` after `Rasta iš viso ` gives back the count. |
| `LithuanianLocale.LastFewNotesCountReadBack` | quartz/i18n/locales/lt-LT.ts:63-68 | `parseInt` after the opening word gives back the count. |
| `Strings.Hex` | quartz/util/emoji.ts:17-22 | `toString(16)`: at least one lower-case hex digit, with no leading zero. |
| `Strings.HexRoundTrip` | quartz/util/emoji.ts:17-22 | Reading `toString(16)` back as hexadecimal gives the number. |
| `Strings.IntRoundTrip` | quartz/util/theme.ts:69-72 | Reading back what `String(n)` writes gives `n`, negative numbers included. |
| `Strings.SplitJoin` | quartz/util/emoji.ts:25 | Splitting a join on its separator gives the parts back when no part holds the separator. |
| `Strings.SplitParts` | quartz/plugins/transformers/frontmatter.ts:36 | Split parts hold no separator, and there is one more part than separators. |
| `Strings.Trim` | quartz/processors/parse.ts:94 | `trim()` is a contiguous slice of its input. Everything before the slice and everything after it is JavaScript white space, and the slice neither starts nor ends with white space. |
| `Strings.LowerIdempotent` | quartz.layout.ts:56-57 | Lower-casing twice is lower-casing once. |
| `Strings.Sort` | quartz/components/Landing.tsx:290 | `sort()` with no comparator gives a sorted permutation. |
| `Strings.LexLeTotal` | quartz/components/Landing.tsx:290 | The code-unit order the default sort uses is total. |
| `Strings.LexLeTrans` | quartz/components/Landing.tsx:290 | The code-unit order is transitive. |
| `Strings.LexLeAntisym` | quartz/components/Landing.tsx:290 | The code-unit order is antisymmetric. |
| `Strings.DistinctPermutation` | quartz/components/Landing.tsx:284-290 | Sorting a list without duplicates keeps it without duplicates. |
| `Strings.ParseAtDigit` | quartz.layout.ts:40-41 | On text that starts with a digit, `parseInt` is the value of the leading digit run. |
| `Strings.ParseNoDigits` | quartz.layout.ts:40-43 | On a text that holds no digit, `parseInt` is `NaN`. |
| `Strings.ParseIntStr` | quartz/i18n/locales/lt-LT.ts:78-83 | `parseInt` reads back `String(n)` for `n >= 0`, whatever non-digit text follows. |

## Left out

- File I/O, the directory walk and `print`. `content.walk()` is a parameter: the sequence of levels, each with its root, subdirectory names and file names. The files are a map from path to stored text. Which opens fail with `IOError` is a parameter too, a set of paths; a missing path fails as well. The printed message is modelled as the list of failing paths.
- A `UnicodeDecodeError` when a file is not UTF-8 is not modelled. It is not an `IOError`, so the script would stop there.
- A write that fails after `seek(0)` or part-way through is modelled as leaving the file unchanged. The source gives no guarantee either way.
- Reading in text mode is modelled as universal-newline translation (`\r\n` and `\r` become `\n`). Writing on POSIX adds no carriage return.
- RewriteExample.TwoLines: proved only for a line rest without `:`. A rest that holds `title:` or `alias:` followed by an index is rewritten again by the other substitution, and the model does not state that result.
- RewriteOrder.RewriteIdempotent, IndexRewrite.SubIdempotent, ContentWalk.RunTwice, ContentWalk.RunAgain: these hold only for indices whose first part is all digits. `RewriteOrder.LetterIndexNotIdempotent` shows that letter-led indices can break idempotence.
- `localeCompare` is a function parameter. Its ICU collation is not modelled; lemmas that need reflexivity or antisymmetry of it say so in their `requires`.
- `toLowerCase` is modelled on ASCII letters only. Other letters are kept as they are.
- `String.prototype.sort` compares UTF-16 code units. The model compares characters, which is the same order for text in the Basic Multilingual Plane.
- `Theme`: font weights are integers. The `number` type also allows fractions, which are not modelled.
- `Theme`: `joinStyles` and the colour schemes are only template text and are not modelled.
- `Emoji`: `loadEmoji` (a fetch with a cache) and the Twemoji URL are I/O and are not modelled.
- `FrontMatter`: `gray-matter`, YAML/TOML parsing, `slugTag`, `slugifyFilePath`, `path.posix.join` and `joinSegments` are function parameters. The record is a map from keys to a small value type.
- `FrontMatter`: numbers in the record are integers. `toString` of non-integer numbers is not modelled.
- `FrontMatter`: `permalink` is read from the front matter the file held before this transformer ran, as the source reads `file.data.frontmatter`.
- `Landing`: the JSX markup, `resolveRelative` and the fixed header text are not modelled. A card is its link target, style number, title and subhead.
- Digit runs are read as unbounded integers (`NaturalSort.SegmentCompare`, `NaturalSort.NumbersDecide`, `Landing.CardStyle`, `Strings.ParseInt10`). JavaScript's `parseInt` rounds values above 2^53 and gives `Infinity` above about 10^308. So two long digit runs that differ only beyond double precision compare equal in the source but unequal in the model.
- `Landing`: `CARDS[folder]` on a key inherited from `Object.prototype` (for example `constructor`) is not modelled.
- `Landing`: `file.slug !== undefined` is an `Option`. The inner `if (file.slug)` check repeats the outer filter for every non-empty slug, so it adds no case.
- `Parse`: `workerpool`, `esbuild`, the worker processes and the HTML stage are not modelled. The chunking, the thread count and the flattening of per-chunk results are.
- `Parse`: reading a file, `slugifyFilePath` and the unified processors are the `process` parameter. `createMarkdownParser` has the same loop shape as `createFileParser` and is covered by `ParseFiles`.
- `LithuanianLocale`: `readingTime` and the other fixed strings are not modelled. `Counted` is the one definition of the repeated three-way conditional.
- `LithuanianLocale.FolderCountReadBack`, `LithuanianLocale.TagItemsCountReadBack`, `LithuanianLocale.ShowingFirstCountReadBack`, `LithuanianLocale.TotalTagsCountReadBack`, `LithuanianLocale.LastFewNotesCountReadBack`, `LithuanianLocale.CountedReadBack`: the read-back is stated for non-negative integer counts. Counts at or above 10^21, which JavaScript writes in exponent form, and non-integer counts are not covered.

## Findings

| source | as written | input that shows it | evidently intended | confidence | as-written member | corrected member |
|---|---|---|---|---|---|---|
| quartz/components/Landing.tsx:230-231 | The `CARDS` entry keyed `B-CPP-Standart` renders a card linking to `B-CPP-Standard`. Every other entry links to its own key. | Folder `B-CPP-Standart`: its card links to a folder that is not on the list. Folder `B-CPP-Standard`: the fixed card is never shown, and the folder gets the made-up card `B CPP Standard`, style 1, subhead `章节 `. | The appendix B card links to the folder it is keyed by, like the other 27 entries. | not executed; medium (the content tree, which would show the folder's real name, is not part of this model) | `Landing.StandartLink` | `Landing.IntendedCardShape` |
