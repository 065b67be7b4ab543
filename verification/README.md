# Skill router builder, modelled in Dafny

`build-router.py` scans a skills directory for `SKILL.md` files. It reads the
`---`-delimited header of each file, builds a `Skill` record (name, path,
description, helper directories and warnings), drops skills whose name
was already seen, and counts the warnings. It then writes a routing file:
a title, a blank line, one `name: path/` line per skill in name order, and
a final blank line. With `--list` it prints each skill's description, cut to
60 characters.

This project models that core. The filesystem becomes a value: a tree of
`Entry` nodes, each a file with its text or a directory with its entries.
Python's string operations are written out:

- `str.isspace` and the `\s` class;
- `strip`, `splitlines`, `partition` and `"\n".join`;
- code-point order on strings and the stable `sorted`.

The modules are:

- `Options` (options.dfy): the optional value.
- `Text` (text.dfy): Python's whitespace and line-boundary classes, `strip`, `splitlines`, `join`/`split`, and string order.
- `Sorting` (sorting.dfy): `sorted(key=...)` as a stable insertion sort, filtering, and maps and flat-maps over sequences.
- `Frontmatter` (frontmatter.dfy): `parse_frontmatter`.
- `Skills` (skills.dfy): the `Skill` record, `should_ignore`, `find_helper_dirs`, `find_skill_in_dir` and `scan_skills`.
- `Router` (router.dfy): `check_conflicts`, `validate_skills`, `generate_router_content` and the `--list` description.

The functions that build up a dictionary or a list in a loop are `method`s
with the same loops. Those are `parse_frontmatter`, `find_helper_dirs`,
`find_skill_in_dir`, `scan_skills`, `check_conflicts`, `validate_skills` and
`generate_router_content`. Each method is proved equal to a specification
function, and the properties are proved about that function.

The header regular expression `^---\s*\n(.*?)\n---` is modelled exactly,
including the way `\s*` gives back characters when the first `\n` it could
stop at has no closing `\n---` after it. `MatchHeaderSpec` states the result
without backtracking:

- the match fails exactly when no opening is followed by a closing;
- otherwise the body is the shortest one after the last opening that has a closing.

## What the script checks

The script is lenient, and the model does what it does:

- It checks no name pattern, no length of name or description, and no match between a skill's name and its directory. Its only checks are the two missing-field warnings (build-router.py:95-102).
- A missing or malformed header is not an error. The header parses to an empty dictionary, and the skill gets both warnings (build-router.py:54-56).
- Of two skills with the same name, the first found is kept. The later one is dropped with only a log message (build-router.py:164-182).
- A routing line is `name: path/`, the skill's directory with a trailing slash (build-router.py:192).
- The script exits with status 1 when no skill is found (build-router.py:302-305).

## Model

| member | source | states |
|---|---|---|
| `Text.IsSpace` | build-router.py:54 | the characters of Python's `str.isspace()`, which `re` also uses for `\s` |
| `Text.IsLineBreak` | build-router.py:59 | the line boundaries of `str.splitlines()`; each of them is whitespace |
| `Text.StripLeftSpec` | build-router.py:62 | `lstrip` drops only whitespace and keeps the rest of the string unchanged |
| `Text.StripRightSpec` | build-router.py:62 | `rstrip` drops only whitespace and keeps the start of the string unchanged |
| `Text.Strip` | build-router.py:62 | the result of `strip` is no longer than its input and has no whitespace at either end |
| `Text.StripPadded` | build-router.py:62 | `strip` removes exactly the whitespace padding around a trimmed string |
| `Text.SplitLines` | build-router.py:59 | no line from `splitlines` contains a line boundary, and only the empty string gives no lines; the lemmas below fix the lines for every input |
| `Text.SplitLinesSingle` | build-router.py:59 | a non-empty text without boundaries is one line |
| `Text.SplitLinesCons` | build-router.py:59 | a line followed by `\n` is split off as the first line |
| `Text.SplitLinesBreak` | build-router.py:59 | a line followed by any single boundary (a `\r` only when no `\n` follows it) is split off as the first line |
| `Text.SplitLinesCrLf` | build-router.py:59 | a line followed by `\r\n` is split off as the first line, the pair counting as one boundary |
| `Text.Join` | build-router.py:195 | `sep.join(parts)`; a single part is returned as it is |
| `Text.SplitJoin` | build-router.py:195 | splitting at a one-character separator undoes joining with it when no part contains it |
| `Text.LessEq` | build-router.py:189 | Python's `<=` on strings: code-point order, a prefix first |
| `Text.LessEqTotal` | build-router.py:189 | any two strings are ordered one way or the other |
| `Text.LessEqTransitive` | build-router.py:189 | string order is transitive |
| `Text.LessEqAntisymmetric` | build-router.py:189 | two strings ordered both ways are equal |
| `Sorting.SortBy` | build-router.py:189 | `sorted(key=...)` returns a permutation of its input, ordered by key |
| `Sorting.SortByStable` | build-router.py:189 | `sorted` is stable: elements with the same key come out in their input order |
| `Sorting.SortByMember` | build-router.py:129 | sorting keeps exactly the elements it was given |
| `Sorting.SortByDistinct` | build-router.py:189 | sorting keeps keys distinct when they were distinct |
| `Sorting.SortedUnique` | build-router.py:78 | two sequences sorted by distinct keys with the same elements are equal |
| `Sorting.SortByMap` | build-router.py:189-192 | sorting commutes with a map that carries each key along |
| `Sorting.FilterSorted` | build-router.py:74-78 | keeping some elements of a sequence sorted by distinct keys leaves it sorted by distinct keys |
| `Sorting.FlatMapMembers` | build-router.py:129-149 | an element of a concatenation of images comes from the image of some element |
| `Frontmatter.FindClose` | build-router.py:54 | the lazy `(.*?)\n---` stops at the first closing at or after the body start |
| `Frontmatter.SpaceEnd` | build-router.py:54 | the greedy `\s*` stops at the first non-whitespace character |
| `Frontmatter.MatchFrom` | build-router.py:54 | the backtracking of `\s*`: try the `\n` at the current end, then give back one whitespace character at a time |
| `Frontmatter.MatchHeader` | build-router.py:54 | `re.match` of the header pattern, giving its group 1 |
| `Frontmatter.MatchFromSpec` | build-router.py:54 | backtracking from an opening candidate finds the last opening at or before it that has a closing, or none |
| `Frontmatter.MatchHeaderSpec` | build-router.py:54-56 | the pattern fails exactly when no opening is followed by a closing; otherwise the body is the shortest one after the last such opening |
| `Frontmatter.CommonHeader` | build-router.py:54 | a file made of `---\n`, a non-empty body that does not start with whitespace and holds no `\n---`, then `\n---`, yields that body |
| `Frontmatter.Partition` | build-router.py:61 | `partition(":")` splits a line at its first colon, and the text before holds no colon |
| `Frontmatter.ParseFrontmatter` | build-router.py:48-64 | the dictionary the loop fills equals the specification `Frontmatter(content)` |
| `Frontmatter.FrontmatterWithoutHeader` | build-router.py:55-56 | content without a header parses to the empty dictionary |
| `Frontmatter.CollectKey` | build-router.py:59-62 | a key is present exactly when some body line with a colon has it as its stripped text before the colon |
| `Frontmatter.CollectLastWins` | build-router.py:59-62 | a key's value is the stripped text after the colon on the last line that sets it |
| `Frontmatter.FrontmatterShape` | build-router.py:58-62 | every key and value is stripped and has no line boundary, and no key contains a colon |
| `Frontmatter.FrontmatterRoundTrip` | build-router.py:48-64 | a header written as `key: value` lines parses back to the dictionary those lines set, for stripped keys and values without line breaks, keys without a colon and not starting with `---` |
| `Skills.ShouldIgnore` | build-router.py:67-69 | a directory is ignored exactly when its name starts with a dot or is `_router`, `__pycache__`, `node_modules` or `venv` |
| `Skills.HelperDirsShape` | build-router.py:32 | the helper list is sorted, has no repeats, and holds exactly the helper names that are directories |
| `Skills.FindHelperDirs` | build-router.py:72-78 | whatever order the set yields, the sorted result is the fixed-order filter of the helper names that are directories |
| `Skills.HasField` | build-router.py:96 | Python truthiness of `frontmatter.get(key)`: the key is present and its value is not empty |
| `Skills.NewSkill` | build-router.py:95-112 | name falls back to the directory name; the name warning is present exactly when the name is missing or empty, the description warning exactly when the description is; one warning per missing field, so at most two and none exactly when both are set; the name is non-empty when the directory name is |
| `Skills.SkillFile` | build-router.py:87-89 | the `SKILL.md` text found is a file of that name in the directory, and none is found only when no such file exists |
| `Skills.FindSkillInDir` | build-router.py:81-112 | returns the specification `SkillIn` result, and a skill exactly when the directory holds a `SKILL.md` file |
| `Skills.ScanWarnings` | build-router.py:93-102 | every skill the scan returns carries at most two warnings |
| `Skills.ScanGroup` | build-router.py:142-149 | the inner loop collects the skills of the group's non-ignored subdirectories in order |
| `Skills.ScanSkills` | build-router.py:115-151 | the nested loops return the specification `Scan` of the tree |
| `Skills.ScanFinds` | build-router.py:129-149 | a skill is found exactly when it belongs to a non-ignored top-level directory, or to a non-ignored subdirectory of a top-level directory that is not itself a skill |
| `Router.NamesStep` | build-router.py:172-179 | the names seen after one more skill are the earlier names plus its name, and its name was seen exactly when it does not occur first there |
| `Router.CheckConflicts` | build-router.py:164-182 | the loop with the `seen` map returns the first skill of each name, in order |
| `Router.FirstOccurrencesNames` | build-router.py:169-180 | deduplication keeps every name and leaves the names pairwise distinct |
| `Router.FirstOccurrencesPositions` | build-router.py:169-180 | the result is a subsequence of the input taken at exactly the positions where a name first occurs |
| `Router.ValidateSkills` | build-router.py:154-161 | the nested loops count all warnings of all skills |
| `Router.TotalWarningsZero` | build-router.py:154-161 | the count is zero exactly when no skill has a warning |
| `Router.TotalWarningsAppend` | build-router.py:156-160 | the count over two runs of skills is the sum of their counts |
| `Router.FirstOccurrencesMember` | build-router.py:172-180 | deduplication keeps only skills of its input |
| `Router.PipelineWarningsBound` | build-router.py:302-308 | the warning count after scanning and deduplicating is at most twice the number of skills |
| `Router.TotalWarningsBound` | build-router.py:93-102 | skills with at most two warnings each give at most twice as many warnings as skills |
| `Router.RouterLines` | build-router.py:185-195 | the lines are the title, a blank, the `name: path/` line of each skill in name order, and a blank |
| `Router.GenerateRouterContent` | build-router.py:185-195 | the appending loop produces the specification text |
| `Router.RouterTextLines` | build-router.py:194-195 | when no name or path has a newline, the text splits back into its lines, one per skill plus three |
| `Router.RouterTextFrame` | build-router.py:187-195 | the text starts with the title and a blank line and ends with a newline |
| `Router.RouterTextDeterministic` | build-router.py:189-192 | with distinct names, the text depends only on the set of name/path pairs, not on their order |
| `Router.NamesCount` | build-router.py:169-180 | with distinct names there are as many names as skills |
| `Router.DeduplicatedRouterLines` | build-router.py:307-327 | the routing file written after deduplication has one line per distinct name found, plus three |
| `Router.ShownDescription` | build-router.py:211-214 | the shown description is at most 60 characters: a placeholder when there is none, the text itself when it fits, otherwise its first 57 characters and `...` |

## Left out

- Filesystem access (`is_dir`, `is_file`, `iterdir`, `read_text`, `mkdir`, `write_text`) is replaced by the `Entry` tree value. Decoding errors in `read_text` and symbolic links are not modelled.
- A `File`'s content is the text `read_text` returns, after universal-newline translation has turned `\r\n` and `\r` into `\n`. A header written with bare `\r` line ends is found by the program. The model finds it only in the translated text.
- A `Path` is a string, and `dir / name` is `dir + "/" + name`. Sorting the paths of one directory's entries is sorting them by name.
- The `~` substitution for the home directory (build-router.py:191) depends on the environment. Paths are used as already rendered.
- Logging and printing are left out. This covers the warning and conflict messages, the `--list` table layout (column padding, helper suffix, total line) and the dry-run output.
- `backup_router` (build-router.py:225-234) depends on the clock and on a file copy.
- `main` (build-router.py:237-346) is argument parsing and exit codes. Of its pipeline, scan, deduplicate, count and render are modelled one by one, and `DeduplicatedRouterLines` connects deduplication to rendering.
- Router.RouterTextDeterministic: the lemma assumes distinct names, which `check_conflicts` guarantees before rendering. Only then does the output not depend on the order of the skills. With repeated names the lines of those skills follow input order (`Sorting.SortByStable`), so two orders of the same skills can give different texts.
- Router.RouterTextLines: assumes no name or path contains a newline. A name read from a header cannot hold one, but a directory name could.
