# CLC resolver and ISBN helpers of NLCISBNPlugin, in Dafny

This project models two pure parts of the NLCISBNPlugin metadata source for
calibre and proves properties of the model.

The first part is the resolver for Chinese Library Classification (CLC)
codes in `src/clc_parser.py`. The resolver has these pieces:

- The range expander (`parse_clc_code_str`) turns taxonomy tokens such as
  `X922.3/.7`, `T-013/-017` and `Z813/817` into concrete codes.
- Descendant collection (`get_children_codes_recursively`) gathers the codes
  of a whole subtree.
- The pattern builder (`build_regex_from_codes`) makes one matching pattern
  from a list of codes.
- `load_tree_json` builds the three-level match tree, and `load_clc_info`
  builds the information table.
- The cleaner (`clean` with `generate_clean_regex`) pulls the first
  recognisable code unit out of a raw string.
- Resolution covers `run_sub_regex_on_code` and `parse_code`, the
  multi-code front end `parse`, and `get_clc_info_by_code`.

The second part is the ISBN normaliser and the check-digit validators in
`src/__init__.py`: `canonical`, `check_digit10`, `is_isbn10`,
`check_digit13`, `is_isbn13` and `to_isbn13`. It also includes the branch
that turns a record's classification field into a tag. That branch is
modelled at the parse level the code uses, the constant `CLC_PARSE_LEVEL = 2`
(`src/__init__.py:47`, read at line 388). The `clc_parse_level` option
(`src/__init__.py:522-526`, documented as 1 to 3) is declared but never read,
so `Tags.TagOfCodes` covers level 2 only, not levels 1 or 3.

Modules follow the program's structure:

- `Options`: the option type.
- `Strings`: ASCII digits, `int`/`str`, `strip`, `replace`, `split`/`join`.
- `OrderedMaps`: Python's insertion-ordered `dict` as an association list.
  Assigning to a present key keeps the key's position and replaces its value.
- `Taxonomy`: the definition tree and descendant collection.
- `RangeExpand`: the range expander.
- `Patterns`: a small compiler and matcher for the exact pattern language the
  builder emits, under `re.search`.
- `Cleaner`: the cleaning pattern, written out as a greedy scanner.
- `Resolver`: the match tree and code resolution.
- `Parser`: the `parse` front end.
- `ClcInfo`: the information table and its lookup.
- `Tags`: the classification branch of the tag builder.
- `Isbn`: the ISBN helpers.

The taxonomy definition, which the source imports from a data module, is an
explicit parameter here. So are the match tree and the information table,
which the source keeps in a lazily created singleton.

Three behaviours of the code are modelled as written, although a plain
description of the resolver would suggest otherwise:

- The built pattern is `^` followed by the codes joined with `|`. The caret
  anchors only the first alternative. A pattern therefore accepts a string
  that starts with the first code or that contains any later code anywhere.
  It does not accept exactly the strings with one of the codes as a prefix.
  See `Patterns.BuildPatternMeaning`.
- An empty code list produces the pattern `^`, which accepts every string.
  See `Resolver.EmptyNodeAcceptsAll`.
- When a second-level code repeats a first-level code, the first-level entry
  can overwrite the second-level one in the information table. Its
  `namePath` then has one element, and the tag branch raises `IndexError`.
  See `Tags.ClcTagFromTree` and `ClcInfo.LastFirstLevelWins`.

## Model

| member | source | states |
|---|---|---|
| Strings.NatToString | src/clc_parser.py:256-261 | `str(int(...))` drops leading zeros. The numeral starts with `0` only for zero, and `int` reads it back as the same number. |
| Strings.StripMeaning | src/clc_parser.py:45 | `strip()` removes exactly the leading and trailing whitespace. The result is empty exactly when the input is all whitespace; otherwise both of its ends are non-space. |
| Strings.Split | src/clc_parser.py:43 | `split(';')` gives at least one piece. No piece holds the separator, and joining the pieces with it gives the input back. |
| Strings.SplitJoin | src/clc_parser.py:43 | Splitting a join of separator-free pieces gives back exactly those pieces. |
| OrderedMaps.Put | src/clc_parser.py:49 | A dict assignment maps the key to the new value and leaves other keys alone. A present key keeps its position; a new key is appended. |
| OrderedMaps.PutAll | src/clc_parser.py:44-49 | After a run of assignments, each key holds the last value assigned to it. Keys never assigned keep their old value. |
| OrderedMaps.PutAllKeys | src/clc_parser.py:44-49 | After a run of assignments, the keys are the old keys in their old order, then each newly assigned key once, in the order of its first assignment. |
| Taxonomy.CollectPermutesFlat | src/clc_parser.py:218-231 | The collection is a permutation of the expansions of all nodes in the subtree: same length, same multiset. |
| Taxonomy.CollectContains | src/clc_parser.py:218-231 | A code is collected exactly when some node of the subtree expands to it. |
| Taxonomy.CollectLeaf | src/clc_parser.py:225-230 | A leaf's collection is its own expansion, reversed. |
| Patterns.BuildPatternMeaning | src/clc_parser.py:207-216 | Under `re.search` (line 108), the built pattern matches `s` exactly when the code list is empty, `s` starts with the first code, or a later code occurs anywhere in `s`. |
| Patterns.BuildPatternAcceptsOwnCodes | src/clc_parser.py:207-216 | Every string that starts with any of the codes is accepted. |
| Patterns.CompileBuildPattern | src/clc_parser.py:214-215 | The escaped join parses as a caret plus the first code's literal characters, followed by one literal branch per later code. |
| Patterns.EscapeIsCharwise | src/clc_parser.py:215 | The three chained `replace` calls escape character by character: `.` becomes `\.`, `+` becomes `[+]`, `-` becomes `[\-]`. |
| RangeExpand.StripBracketsChars | src/clc_parser.py:240 | Bracket removal keeps exactly the characters other than `[ ] { }`. |
| RangeExpand.MatchShape | src/clc_parser.py:244-252 | `re.match` with a lazy prefix picks the shortest prefix at which the shape fits. There is no match exactly when no prefix length fits. |
| RangeExpand.ExpandShape | src/clc_parser.py:254-279 | A matching shape yields the enumeration of its captured groups. |
| RangeExpand.Enumerate | src/clc_parser.py:260-261 | The list has `end - start + 1` codes, or none when `end < start`. Element `i` is prefix, separator, `str(start + i)` and postfix, in ascending order. |
| RangeExpand.Expand | src/clc_parser.py:233-284 | The dot shape is tried first, then the hyphen shape, then the bare shape, on the bracket-free token. A token of none of these shapes stands for itself. |
| RangeExpand.GroupsStart | src/clc_parser.py:256 | The start bound is `int()` of the first digit run. |
| RangeExpand.GroupsEnd | src/clc_parser.py:257 | The end bound is `int()` of the second digit run. |
| RangeExpand.GroupsRebuild | src/clc_parser.py:244-248 | The captured prefix, separators and digit runs spell the token's matched part again. |
| RangeExpand.PostfixFromMeaning | src/clc_parser.py:244 | `(.*?)$` captures the rest of the token, less one final newline. It holds no newline. |
| RangeExpand.ExampleDotRange | src/clc_parser.py:243 | `X922.3/.7` expands to `X922.3` through `X922.7`. |
| RangeExpand.ExampleHyphenRange | src/clc_parser.py:245 | `T-013/-017` expands to `T-13` through `T-17`, so leading zeros are dropped. |
| RangeExpand.ExampleEmptyRange | src/clc_parser.py:247-279 | `Z817/813` expands to nothing, because its end is below its start. |
| Cleaner.Clean | src/clc_parser.py:113-122 | A non-empty result is a contiguous piece of the stripped input that starts at its first class letter. |
| Cleaner.CleanEmpty | src/clc_parser.py:113-122 | `clean` returns `''` exactly when the stripped input holds no letter from A-K, N-V, X or Z. |
| Cleaner.FirstUnitMeaning | src/clc_parser.py:121-122 | Group 1 of the first match is empty exactly when there is no class letter. Otherwise it starts at the first class letter. |
| Cleaner.CleanChars | src/clc_parser.py:293 | The cleaned unit holds only characters the unit pattern admits. |
| Cleaner.UnitEndWindow | src/clc_parser.py:293 | Scanning the extracted unit on its own ends exactly at its end. |
| Cleaner.CleanIdempotent | src/clc_parser.py:113-122 | Cleaning a cleaned code changes nothing. |
| Cleaner.ExampleBraced | src/clc_parser.py:320 | `{D922.59}` cleans to `D922.59`. |
| Cleaner.ExampleCompound | src/clc_parser.py:309 | `K837.125.6(202)+R173:G25a` cleans to `K837.125.6(202)`. |
| Resolver.LoadedEntry | src/clc_parser.py:177-203 | A level's map has an entry for a code exactly when some node of that level has the code. The entry is built from the last node of the level with that code. |
| Resolver.LoadedKeyOrder | src/clc_parser.py:177-203 | A level's keys are its nodes' codes, each once, in the order of first definition. |
| Resolver.FirstLevelResolution | src/clc_parser.py:64-81 | The first resolved code belongs to the first node of the definition whose first-level pattern accepts the cleaned code. Nothing resolves exactly when no first-level pattern accepts it. |
| Resolver.FirstLevelPattern | src/clc_parser.py:180 | A first-level node matches exactly the strings that start with its own unexpanded code. |
| Resolver.DeeperLevelPattern | src/clc_parser.py:186-196 | A second- or third-level node matches exactly what its subtree's collected codes accept. |
| Resolver.DeeperLevelAcceptsSubtree | src/clc_parser.py:186-196 | A deeper node accepts every string that starts with any code its subtree stands for. |
| Resolver.EmptyNodeAcceptsAll | src/clc_parser.py:214-215 | A deeper node whose subtree stands for no code gets the pattern `^`, which accepts every string. |
| Resolver.FirstMatchMeaning | src/clc_parser.py:104-111 | The result is absent exactly when no entry matches, which includes the empty map. Otherwise it is the key of the first matching entry in insertion order. |
| Resolver.ResolveSteps | src/clc_parser.py:75-96 | Each resolved code is the first match among the children of the previous one. Resolution stops at the first level with no match. |
| Resolver.ParseCode | src/clc_parser.py:64-96 | At most three codes are resolved, and none unless cleaning yields a non-empty code. |
| Resolver.ParseCodeCleaned | src/clc_parser.py:71 | Resolving a cleaned code gives the same answer as resolving the raw one. |
| Resolver.ParseCodeFollowsTree | src/clc_parser.py:64-96 | The resolved codes form a downward path of the definition: a first-level code, then one of its children, then one of that child's children. |
| Resolver.ParseCodeFirstLevel | src/clc_parser.py:76-78 | With plain first-level codes, the cleaned input starts with the first resolved code. |
| Parser.Units | src/clc_parser.py:42-43 | The pieces number at least one and hold no semicolon. |
| Parser.ParseKeysExact | src/clc_parser.py:41-51 | The keys of `parse(s)` are exactly the non-blank stripped `;`-pieces of `s`. |
| Parser.ParseValues | src/clc_parser.py:49 | Each key maps to `parse_code` of itself. |
| Parser.ParseKeyOrder | src/clc_parser.py:41-51 | The keys of `parse(s)` are the non-blank stripped `;`-pieces in field order, each once, at its first occurrence. |
| Parser.ParseFirstEntry | src/clc_parser.py:41-51 | `parse(s)` is empty exactly when no piece holds a code. Otherwise its first entry is the first piece with its resolution. |
| Parser.ParseKeys | src/clc_parser.py:44-47 | Every key is non-blank, starts and ends with a non-space, and holds no semicolon. |
| Parser.ParseFullWidth | src/clc_parser.py:42 | A full-width semicolon separates codes exactly as `;` does. |
| Parser.ParseBlank | src/clc_parser.py:44-47 | A field of blanks and semicolons parses to the empty dict. |
| Parser.ParseJoinedKeys | src/clc_parser.py:31-51 | Joining stripped, semicolon-free codes with `;` and parsing gives those codes back as the keys. |
| Parser.ParseJoinedValues | src/clc_parser.py:31-51 | Each code of such a join maps to its resolution. |
| ClcInfo.GetClcInfoByCode | src/clc_parser.py:53-62 | An unknown code gives no entry (`{}` in the source); a known one gives its entry. |
| ClcInfo.LookupDescribes | src/clc_parser.py:124-166 | The entry found for a code carries that code. It describes a node of the first three levels by its code, name, code path and name path. |
| ClcInfo.DescribedShape | src/clc_parser.py:145-163 | An entry has one to three path elements and as many names. The last ones are its own code and name. |
| ClcInfo.LookupFinds | src/clc_parser.py:124-166 | A code has an entry exactly when it is the code of a node in the first three levels. |
| ClcInfo.LastFirstLevelWins | src/clc_parser.py:159-164 | The last first-level node is written after everything else. Its own entry wins over earlier nodes and over nodes below it that share its code. |
| ClcInfo.LaterSubtreesWin | src/clc_parser.py:133-166 | Later first-level subtrees overwrite earlier ones: for any code of the first three levels of `b`, the table built from `a + b` holds what the table built from `b` alone holds. |
| ClcInfo.FirstLevelWins | src/clc_parser.py:159-164 | A first-level node's own entry is what the table holds for its code when no later first-level subtree has that code, whatever its own subtree and the earlier nodes hold. |
| ClcInfo.SecondLevelWins | src/clc_parser.py:133-157 | A second-level node's entry, with its two-element paths, is what the table holds for its code when no node written after it shares the code: not its parent, its later siblings, their children or later first-level subtrees. |
| Tags.TagOfCodes | src/__init__.py:391-397 | An empty resolution adds no tag, and one shorter than the parse level adds its last code. A long enough one whose level-2 code has no entry adds nothing. One whose level-2 code has an entry adds that entry's second name, or raises `IndexError` when its name path is shorter. |
| Tags.ClcTag | src/__init__.py:388-399 | An empty parse result adds the raw field. Otherwise the first parsed code's resolution decides the tag. |
| Tags.ClcTagFirstUnit | src/__init__.py:388-399 | The raw field is added when no piece of the field holds a code. Otherwise the tag is decided by the resolution of the first such piece. |
| Tags.ClcTagSecondLevel | src/__init__.py:388-395 | When the first piece resolves to a first-level node and then its child, and no node written after the child shares its code, the tag is the child's name. |
| Tags.ClcTagFirstLevel | src/__init__.py:396-397 | When the first piece resolves one level deep, the tag is the code of the first node of the definition whose first-level pattern accepts the cleaned piece. |
| Tags.ClcTagFromTree | src/__init__.py:384-399 | With tables built from the definition, an added tag is either a first-level code or a second-level node's name. `IndexError` needs a second-level code that repeats a first-level one. |
| Tags.TagOfPathIndexError | src/__init__.py:392-395 | For a path of the definition, `namePath[1]` can fail only on such a level clash. |
| Isbn.FilterKeeps | src/__init__.py:163 | Filtering keeps exactly the digits, `X` and `x` of the input. |
| Isbn.FilterAppend | src/__init__.py:163 | Filtering a concatenation filters each part and keeps them in order. |
| Isbn.CanonicalIgnoresSeparators | src/__init__.py:161-172 | Inserting a character other than a digit, `X` or `x` anywhere does not change the result. |
| Isbn.Find | src/__init__.py:170 | `find` gives -1 exactly when the character is absent. Otherwise it gives the index of its first occurrence. |
| Isbn.Canonical | src/__init__.py:161-172 | `canonical` returns `''` or 10 or 13 characters, each a digit or an upper-case `X`. |
| Isbn.CanonicalForm | src/__init__.py:166-172 | No result is one of the all-zero forms. No result has a lower-case `x`, or an `X` first found anywhere but index 9. |
| Isbn.CanonicalFixedPoint | src/__init__.py:161-172 | `canonical` leaves a string unchanged exactly when it has that form. |
| Isbn.CanonicalIdempotent | src/__init__.py:161-172 | `canonical(canonical(s)) == canonical(s)`. |
| Isbn.CheckDigit10 | src/__init__.py:181-195 | The result is `''` exactly when the input is not nine digits. Otherwise it is one digit or `X`. |
| Isbn.CheckDigit10Completes | src/__init__.py:189-195 | The check character is the one digit or `X` that brings the weighted sum (weights 10 down to 2) to a multiple of 11. |
| Isbn.CheckSumsAgree10 | src/__init__.py:179 | The check of `is_isbn10` holds exactly when the ISO 2108 sum with weights 1 to 10 is a multiple of 11. |
| Isbn.IsIsbn10Meaning | src/__init__.py:174-179 | `is_isbn10` holds exactly when the canonical form is ten characters: nine digits, then a digit or `X`, with a valid ISO 2108 checksum. |
| Isbn.CheckDigit13 | src/__init__.py:206-216 | The result is `''` exactly when the input is not twelve digits. Otherwise it is one digit. |
| Isbn.CheckDigit13Completes | src/__init__.py:214-216 | The check digit is the one digit that, weighted 1 in thirteenth place, makes the alternating 1-3 sum a multiple of 10. |
| Isbn.IsIsbn13Meaning | src/__init__.py:197-204 | `is_isbn13` holds exactly when the canonical form is thirteen digits with prefix 978 or 979 and an alternating 1-3 sum that is a multiple of 10. |
| Isbn.ToIsbn13Valid | src/__init__.py:218-227 | Every non-empty result is already canonical and satisfies `is_isbn13`. |
| Isbn.ToIsbn13Succeeds | src/__init__.py:218-227 | The result is non-empty exactly for valid ISBN-10s and valid ISBN-13s. |
| Isbn.ToIsbn13OfIsbn10 | src/__init__.py:223-227 | A valid ISBN-10 becomes `978`, then its first nine digits, then a fresh check digit. |
| Isbn.ToIsbn13KeepsIsbn13 | src/__init__.py:220-222 | A valid ISBN-13 comes back in its canonical form. |
| Isbn.ToIsbn13Idempotent | src/__init__.py:218-227 | Converting twice gives the same result as converting once. |

## Left out

- Python's `\d` also matches non-ASCII decimal digits. The model reads only ASCII `0`-`9` as digits, in the cleaner, the range shapes and the ISBN helpers.
- Taxonomy codes containing regex metacharacters (`( ) [ ] { } * ? | ^ $ \`) are excluded by preconditions on the pattern lemmas (`IsPlainCode`, `AllPlain`). The builder escapes only `.`, `+` and `-`, so such codes would change the pattern's meaning.
- Patterns.PatternMatches: the matcher knows only the pattern language the builder emits for plain codes. For any other pattern, such as one built from a code holding `(`, it answers "no match", where Python would read the metacharacters as regex syntax or raise `re.error`.
- A taxonomy node without a `children` key raises `KeyError` in `load_tree_json` and `load_clc_info` at the first two levels. The model's nodes always carry a (possibly empty) child list.
- The lazily created singleton (`get_instance`), the taxonomy data module and file I/O are not part of this model. The match tree and the information table are explicit values built by `LoadTree` and `LoadInfo`.
- Isbn.CheckDigit10: `int()` also accepts surrounding whitespace, a sign and `_` separators. On such nine-character inputs the source goes on to raise `ValueError` in the per-character `int(x)`. The model returns `''` for every input that is not nine ASCII digits, which agrees with the source on every input built from digits, `X` and `x`.
- Isbn.CheckDigit13: the same simplification as for `CheckDigit10`, for twelve characters.
- OrderedMaps.PutAll: its own contract states the values. The key order is proved in `OrderedMaps.PutAllKeys`.
- Resolver.FirstMatch: its own contract says only that a found key is present. The first-match properties are proved in `Resolver.FirstMatchMeaning`.
- Resolver.Resolve: its own contract bounds only the length. The level-by-level behaviour is proved in `Resolver.ResolveSteps`.
- Strings.Strip: its own contract bounds only the length. Its meaning is proved in `Strings.StripMeaning`.
- The rest of the tag builder is not part of this model: subjects, publisher and year tags, the non-converting branches (`src/__init__.py:400-401`) and the final `re.split` of the tag string. The model says which tag the classification branch adds, not how the tag string is later split.
- Network access, HTML scraping, sleeping and thread pools, MD5 hashing and calibre's metadata objects are all I/O or foreign calls. They are not part of this model.
