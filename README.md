# slcross text core, modelled in Dafny

slcross translates shaders between GLSL, HLSL, MSL, WGSL, Slang and SPIR-V. Before any shading-language
library is involved, it does a good deal of text work. This project models that work and proves what it does.

- **The `preprocessor` object** (`Preprocessor.Preprocessor`). It holds a per-path cache of processed text, a set
  of search roots and a set of `#define` lines. The methods add and remove defines, write them out as a prologue,
  and resolve `#include` tokens in a fixed order. They also process a file through the cache.
  - The two `std::set`s are sequences kept strictly increasing in string order (`SortedSets`).
  - Macro expansion is the third-party tcpp engine. It is an opaque function parameter (`Expander`), which gets the
    prologue-prefixed text and the include callback.
  - The file system is a value: the working directory, the set of existing paths, and a map from path to contents.
- **Whitespace consolidation** (`Whitespace`). This is the copying loop with its whitespace counter, the trailing
  `pop_back` loop and the leading-space trim, proved against the function `Consolidated`.
- **The string rewriters in `common.hpp`** (`Common`). `remove_whitespace` is the in-place erase/remove idiom on
  an array. `process_pragma_once` is the guard synthesis. `read_entire_file` is stated over the file-system value.
- **The command-line front end in `transpiler.cpp`** (`Transpiler`):
  - `split` (a `while (true)` loop proved against `Pieces`);
  - `parse_file_metadata` with its precedence and error rules;
  - the argument checks `main` makes;
  - the whitespace step `main` applies to the entry-point name.

A thrown `slcross::error` or `std::runtime_error` is an `Err` carrying the message text (`Wrappers.Result`).

Three facts about the code shape the model:
- `process_pragma_once` rewrites only the first `#pragma once`, however many the text holds.
- An expansion error is a message string built by the error callback, with `"in"` and the path joined without
  spaces.
- The entry-point step as written does not always remove all whitespace (see Findings).

## Model

| member | source | states |
|---|---|---|
| Strings.IsSpace | common.hpp:29 | `std::isspace` in the C locale: space, tab, newline, vertical tab, form feed and carriage return; the same test at preprocessor.hpp:20 and transpiler.cpp:114 |
| Strings.IsDigit | common.hpp:18 | a decimal digit, one part of `std::isalnum` |
| Strings.IsLower | common.hpp:18-19 | an ASCII lower-case letter, one part of `std::isalnum` and what `std::toupper` changes |
| Strings.IsUpper | common.hpp:18 | an ASCII capital, one part of `std::isalnum` |
| Strings.IsAlnum | common.hpp:18 | `std::isalnum` in the C locale: a digit or an ASCII letter |
| Strings.ToUpper | common.hpp:19 | a lower-case letter becomes the same letter in upper case; every other character is kept |
| Strings.ToLower | transpiler.cpp:71 | an upper-case letter becomes the same letter in lower case; every other character is kept (magic_enum's case-insensitive comparison) |
| Strings.EqualsIgnoreCase | transpiler.cpp:71 | `magic_enum::case_insensitive`: equal length and equal characters after ASCII lowering; the same comparison at transpiler.cpp:78 and 85 |
| Strings.Searched | preprocessor.hpp:88 | `std::search(...) != define.end()`: the name stands at a position inside the define (an empty name matches any non-empty define) |
| Strings.FindFrom | transpiler.cpp:40 | a reported position lies at or after the start, with the whole pattern before the end of the text; see `FindFromFirst` for first occurrence |
| Strings.FindFromFirst | transpiler.cpp:40 | `find` reports an occurrence and the first one at or after the start; it reports npos only when there is none |
| Strings.NatToString | preprocessor.hpp:105 | `std::to_string` of a line number is a non-empty string of decimal digits without a leading zero |
| Strings.ParseNatToString | preprocessor.hpp:105 | the decimal text of a line number reads back as that number |
| Strings.Less | preprocessor.hpp:49-50 | the lexicographic order of `std::string` that orders both `std::set`s; see the order laws below |
| Strings.LessIrreflexive | preprocessor.hpp:50 | the string order of `std::set` is irreflexive |
| Strings.LessTransitive | preprocessor.hpp:50 | the string order is transitive |
| Strings.LessTotal | preprocessor.hpp:50 | any two different strings are ordered |
| Strings.LessAsymmetric | preprocessor.hpp:50 | the string order is asymmetric |
| SortedSets.Insert | preprocessor.hpp:81 | `std::set::insert` keeps the set sorted and adds exactly the new element; inserting a member changes nothing |
| SortedSets.SortedUnique | preprocessor.hpp:54 | two sorted sequences with the same elements are equal, so set iteration order depends on the set alone |
| SortedSets.InsertIdempotent | preprocessor.hpp:81 | inserting the same line twice equals inserting it once |
| SortedSets.InsertCommutes | preprocessor.hpp:81 | the order of two insertions does not show in the set |
| SortedSets.RemoveAtKeepsOrder | preprocessor.hpp:92 | `erase` of one position keeps the rest in order and adds no element |
| Paths.IsAbsolute | preprocessor.hpp:119 | a path is absolute when it starts with the root separator, which `absolute` keeps as it is |
| Paths.Parent | preprocessor.hpp:115 | `parent_path` is empty exactly when the path has no separator; otherwise it is the prefix before the last separator, or the root `/` when the only separators lead the path |
| Paths.Combine | preprocessor.hpp:115-126 | definitional (`operator/`); see `Paths.CombineJoins` |
| Paths.CombineJoins | preprocessor.hpp:115-126 | an absolute right operand replaces the left; otherwise the left stays in front and the right ends the result, with one separator between them unless the left is empty or ends in one |
| Paths.Filename | transpiler.cpp:75 | `filename` is the longest separator-free suffix: the whole path, or what follows its last separator |
| Paths.Extension | transpiler.cpp:75 | `extension` runs from the last dot of the file name to its end when that dot does not lead the name and the name is not `.` or `..`; otherwise it is empty |
| Paths.ReplaceExtension | transpiler.cpp:101 | `replace_extension(ext)` keeps the path without its extension, adds a dot unless `ext` is empty or brings one, and ends in `ext` |
| Paths.Absolute | preprocessor.hpp:119 | `absolute` gives an absolute path; an absolute path is kept; a relative one ends the result |
| Paths.AbsoluteUnderCwd | preprocessor.hpp:119 | a relative path is put after the working directory, with one separator between them unless the directory ends in one |
| Paths.Exists | preprocessor.hpp:116-127 | `std::filesystem::exists`: the path made absolute is among the existing paths; the test at lines 116, 120 and 127 |
| Common.RemoveWhitespace | common.hpp:28-31 | the result holds no whitespace and is no longer than the input |
| Common.RemoveWhitespaceAppend | common.hpp:29 | removing whitespace from a concatenation removes it from each part |
| Common.RemoveWhitespaceSingle | common.hpp:29 | one character is kept exactly when it is not whitespace; with `RemoveWhitespaceAppend` this fixes the result on every string |
| Common.RemoveWhitespaceFixes | common.hpp:28-31 | a string is left unchanged exactly when it holds no whitespace |
| Common.RemoveWhitespaceIdempotent | common.hpp:28-31 | removing whitespace twice is removing it once |
| Common.RemoveIfSpaceResult | common.hpp:29 | after `remove_if` the string keeps its length and starts with its non-whitespace characters in order |
| Common.RemoveIfSpace | common.hpp:29 | in place on the buffer: the returned end is the count of non-whitespace characters, and the buffer is as `RemoveIfSpaceResult` says |
| Common.EraseWhitespace | common.hpp:28-31 | `remove_whitespace` returns exactly the non-whitespace characters of its argument, in order |
| Common.PragmaOnce | common.hpp:15 | the 12-character marker `#pragma once` that `find` looks for and `replace` overwrites |
| Common.IsGuardChar | common.hpp:17-20 | the characters a guard name is built from: capitals, digits and `_` |
| Common.GuardChar | common.hpp:17-20 | a guard character is in `[A-Z0-9_]`; it is `_` exactly when the path character is not alphanumeric, and otherwise the character upper-cased (digits and capitals kept) |
| Common.GuardName | common.hpp:16-21 | the guard is `__`, one sanitised character per path character, then `_GUARD__`; it has length path + 10 and uses only `[A-Z0-9_]` |
| Common.GuardNameExample | common.hpp:16-21 | the guard of `a.h` is `__A_H_GUARD__` |
| Common.GuardOpening | common.hpp:22 | the replacement text: `#ifndef `, the guard, a newline, `#define `, the guard, a newline |
| Common.GuardClosing | common.hpp:23 | the appended text: `#endif //`, the guard and a newline |
| Common.ProcessPragmaOnce | common.hpp:14-26 | no marker: the text is unchanged (and only then). Otherwise the 12-character first marker becomes the `#ifndef`/`#define` pair, the text around it is kept verbatim, and the `#endif //` line ends the result |
| Common.PragmaOnceIdempotent | common.hpp:14-26 | with exactly one marker, a second rewrite (with any path) changes nothing |
| Common.ReadEntireFile | common.hpp:34-47 | a missing file is the "Failed to open file" error; otherwise the contents plus one newline, guarded when asked |
| Whitespace.Collapse | preprocessor.hpp:19-28 | definitional (the copying loop with its counter); see `CollapseTidy`, `CollapseKeepsText`, `CollapseLength` |
| Whitespace.CollapseTidy | preprocessor.hpp:19-28 | after the copying loop the only whitespace is single spaces, none doubled, and none at the end |
| Whitespace.CollapseKeepsText | preprocessor.hpp:19-28 | the copying loop keeps every non-whitespace character, in order |
| Whitespace.CollapseLength | preprocessor.hpp:19-28 | the copying loop never lengthens the text, and it shortens text that ends in whitespace |
| Whitespace.Consolidated | preprocessor.hpp:17-35 | the result has no whitespace but single inner spaces, none adjacent, leading or trailing. It keeps the non-whitespace characters in order and is no longer than the input. It is empty exactly when the input is empty or all whitespace. `ConsolidatedSplits` states that every run between words becomes one space |
| Whitespace.CollapseWellSpaced | preprocessor.hpp:19-28 | the copying loop leaves well-spaced text unchanged |
| Whitespace.ConsolidatedIdempotent | preprocessor.hpp:17-35 | consolidating twice is consolidating once |
| Whitespace.CollapseSnoc | preprocessor.hpp:19-28 | one more loop step: a whitespace character only counts; another character is appended, after one space when whitespace was counted |
| Whitespace.CollapseAllSpace | preprocessor.hpp:19-28 | a run of whitespace alone leaves nothing in `out` |
| Whitespace.CollapseAppendSpaces | preprocessor.hpp:19-28 | a whitespace run at the end of the text adds nothing to `out` |
| Whitespace.CollapseAfterSpace | preprocessor.hpp:19-28 | text after a whitespace run, starting with a non-whitespace character, is copied after exactly one space |
| Whitespace.CollapseLeadingSpaces | preprocessor.hpp:19-28 | leading whitespace before a word leaves exactly one space in front of it |
| Whitespace.ConsolidatedJoinsWords | preprocessor.hpp:17-35 | two well-spaced words separated by any non-empty whitespace run come out joined by exactly one space |
| Whitespace.ConsolidatedTrims | preprocessor.hpp:17-35 | whitespace before and after well-spaced text is dropped entirely |
| Whitespace.CollapseFirst | preprocessor.hpp:19-28 | the copying loop's output starts with the first character when that is not whitespace |
| Whitespace.CollapseAfterLeading | preprocessor.hpp:19-28 | a word after a run of leading whitespace is copied after one space, and after none when there is no run |
| Whitespace.CollapseAcrossRun | preprocessor.hpp:19-28 | over any run of whitespace and into a word, the copying loop adds exactly one space |
| Whitespace.ConsolidatedAfterLeading | preprocessor.hpp:33-34 | leading whitespace before a word is trimmed away entirely |
| Whitespace.ConsolidatedJoin | preprocessor.hpp:31-34 | when the loop leaves one part, a space and a word, the trailing and leading trims act on the first part alone |
| Whitespace.ConsolidatedSplits | preprocessor.hpp:17-35 | for any two parts that each hold a non-whitespace character, joined by any run of whitespace, the result is the two parts consolidated with one space between them; so every run between words becomes one space |
| Whitespace.ConsolidateWhitespace | preprocessor.hpp:17-35 | the three loops of `consolidate_whitespace` compute `Consolidated` |
| Includes.DefaultConfig | preprocessor.hpp:39-45 | the default configuration keeps comments and whitespace, guards `#pragma once`, and has no path |
| Includes.NotFoundMessage | preprocessor.hpp:134 | definitional (the message text); see `NotFoundExactly` |
| Includes.RequesterCandidates | preprocessor.hpp:113-122 | the non-system block tries next to the configured path (only when set), then the token made absolute |
| Includes.RootCandidates | preprocessor.hpp:125-129 | one candidate `root / token` per search root, in set order |
| Includes.Candidates | preprocessor.hpp:123-131 | definitional (the order the include kind sets); see `IncludeFromFirstRoot`, `LocalIncludeBeforeRoots` |
| Includes.FirstExisting | preprocessor.hpp:125-129 | an existing candidate, and none exactly when no candidate exists |
| Includes.FirstExistingIsFirst | preprocessor.hpp:125-129 | the chosen candidate stands at a position before which no candidate exists |
| Includes.FirstExistingAt | preprocessor.hpp:125-129 | an existing candidate with none existing before it is the one chosen |
| Includes.Resolve | preprocessor.hpp:108-134 | definitional (the include callback); see `CachedTokenFirst`, `NotFoundExactly` and the lemmas below |
| Includes.CachedTokenFirst | preprocessor.hpp:110-111 | a cached token is served from the cache, whatever exists on disk |
| Includes.LocalIncludeNextToRequester | preprocessor.hpp:114-117 | a non-system include next to the requesting file is read from there, even when a root also has it |
| Includes.LocalIncludeBeforeRoots | preprocessor.hpp:123 | a non-system include found by the requester-relative block never reaches the roots |
| Includes.IncludeFromFirstRoot | preprocessor.hpp:123-131 | the first root in set order holding the token wins: a system include always; a non-system one once both relative forms miss |
| Includes.IncludeWithoutRoot | preprocessor.hpp:125-131 | when no root has the token, the relative forms decide, or the include is not found |
| Includes.NotFoundExactly | preprocessor.hpp:108-134 | "could not be found" is raised exactly when the token is not cached and no candidate exists |
| Includes.TryNextToRequester | preprocessor.hpp:113-122 | the non-system block in the source's order reads the first existing of its two candidates |
| Preprocessor.DefineLine | preprocessor.hpp:81 | the inserted line is exactly `#define `, the name, a space and the value |
| Preprocessor.Lines | preprocessor.hpp:54-55 | definitional (the loop body); see `PrologueLine` |
| Preprocessor.Prologue | preprocessor.hpp:52-57 | definitional (`defines_string`); see `PrologueLine`, `PrologueDependsOnlyOnSet` |
| Preprocessor.PrologueLine | preprocessor.hpp:52-57 | each define stands on a line of its own in the prologue, after the lines of the defines before it in set order |
| Preprocessor.PrologueDependsOnlyOnSet | preprocessor.hpp:50-57 | the prologue depends on the set of defines, not on the order they were added in |
| Preprocessor.FirstSearched | preprocessor.hpp:87-89 | `find_if` with `std::search` finds the first define holding the name as a substring; every earlier one does not hold it |
| Preprocessor.WithoutFirstSearched | preprocessor.hpp:86-94 | `remove_define` removes at most that one define and keeps the set sorted; with no match the set is unchanged |
| Preprocessor.RemoveFromSorted | preprocessor.hpp:92 | erasing one line of a set removes exactly that element |
| Preprocessor.InsertedIsFirstSearched | preprocessor.hpp:87-89 | after adding a define holding the name to a set where none did, it is the one `find_if` finds |
| Preprocessor.RemoveUndoesAdd | preprocessor.hpp:80-94 | removing by a name no define held undoes adding a define with that name |
| Preprocessor.RemoveMatchesSubstring | preprocessor.hpp:87-89 | the match is a substring match: removing `B` removes `#define AB 1`, which comes first |
| Preprocessor.ExpansionErrorMessage | preprocessor.hpp:101-107 | the message is the error type (or "Unknown error"), then `in` and the path when set, then ` on line: ` and the line number |
| Preprocessor.ResolverFor | preprocessor.hpp:108-135 | definitional (the callback handed to the engine is `Resolve` over the object's state); see `Preprocessor.Preprocessor.ResolveInclude` |
| Preprocessor.ExpandText | preprocessor.hpp:98-139 | the engine gets the prologue, the text and a newline; its output is consolidated exactly when asked; its errors become their messages |
| Preprocessor.ProcessAndStore | preprocessor.hpp:61-70 | definitional (`process_from_memory_and_cache` on values); see `ProcessMissStores`, `GuardedOnceOnMiss` |
| Preprocessor.ProcessStep | preprocessor.hpp:72-78 | definitional (`process` on values); see `ProcessHit`, `ProcessMissStores`, `StaleAcrossConfigs` |
| Preprocessor.ProcessHit | preprocessor.hpp:72-74 | a cache hit returns the cached text and changes nothing |
| Preprocessor.ProcessMissStores | preprocessor.hpp:61-78 | a successful miss stores the returned text under the path and keeps every other entry; a failed miss stores nothing |
| Preprocessor.StaleAcrossConfigs | preprocessor.hpp:61-78 | the key is the path alone: a later call with any other configuration, engine or file system returns the first text |
| Preprocessor.GuardedOnceOnMiss | preprocessor.hpp:63 | the second `#pragma once` pass on a miss changes nothing when the file has one marker |
| Preprocessor.Preprocessor.Valid | preprocessor.hpp:49-50 | the two `std::set` fields are kept strictly increasing in string order, so each holds no duplicate |
| Preprocessor.Preprocessor.constructor | preprocessor.hpp:47-50 | a new object has an empty cache, no roots and no defines |
| Preprocessor.Preprocessor.AddSearchPath | preprocessor.hpp:49 | a root is inserted into the sorted set of roots; nothing else changes |
| Preprocessor.Preprocessor.DefinesString | preprocessor.hpp:52-57 | the loop builds a newline and then each define followed by a newline, in set order |
| Preprocessor.Preprocessor.AddDefine | preprocessor.hpp:80-83 | the define line is inserted into the sorted set; the cache and the roots do not change |
| Preprocessor.Preprocessor.RemoveDefine | preprocessor.hpp:86-94 | the defines become `WithoutFirstSearched`; nothing else changes |
| Preprocessor.Preprocessor.ResolveInclude | preprocessor.hpp:108-134 | the callback's loops and early returns compute `Resolve`: cache, then the requester block and the roots in the order the include kind sets, then the error |
| Preprocessor.Preprocessor.ProcessFromMemory | preprocessor.hpp:98-139 | `process_from_memory` computes `ExpandText` over the object's state |
| Preprocessor.Preprocessor.ProcessFromMemoryAndCache | preprocessor.hpp:61-70 | guard when configured, expand with the path set, store a success under the path; defines and roots unchanged |
| Preprocessor.Preprocessor.Process | preprocessor.hpp:72-78 | hit, or read, process and store, as `ProcessStep` says |
| Transpiler.SplitLoopPieces | transpiler.cpp:39-52 | from any state, the loop appends the pieces from `start` on to what it has collected |
| Transpiler.PiecesFrom | transpiler.cpp:34-55 | definitional (the pieces from `start` on, empty ones dropped); see `SplitLoopPieces`, `PiecesAreClean`, `JoinPiecesFrom` |
| Transpiler.Pieces | transpiler.cpp:34-55 | definitional (the pieces between delimiters, empty ones dropped); see `PiecesAreClean`, `JoinPiecesFrom`, `SplitJoin` |
| Transpiler.SplitLoop | transpiler.cpp:39-52 | definitional (the loop as a function of its state); see `SplitLoopPieces` |
| Transpiler.Split | transpiler.cpp:34-55 | the `while (true)` loop returns exactly `Pieces(str, delimiter)` |
| Transpiler.PiecesAreClean | transpiler.cpp:34-55 | no piece is empty and none holds the delimiter |
| Transpiler.SplitEmpty | transpiler.cpp:34-55 | the empty string splits into no piece |
| Transpiler.JoinPiecesFrom | transpiler.cpp:39-52 | joining the pieces from `start` with the delimiter gives back the rest of the string |
| Transpiler.SplitJoin | transpiler.cpp:34-55 | with no leading, trailing or adjacent delimiters, joining the pieces gives back the string |
| Transpiler.PiecesNonEmpty | transpiler.cpp:66-67 | a string holding a character other than `:` has a first piece |
| Transpiler.SplitTwo | transpiler.cpp:34-55 | two colon-free names joined by a colon split back into them |
| Transpiler.SplitThree | transpiler.cpp:34-55 | three colon-free names joined by colons split back into them |
| Transpiler.CastIgnoreCase | transpiler.cpp:71 | `enum_cast` with `case_insensitive` returns an enumerator whose name matches, and none only when no name matches |
| Transpiler.CastFindsExactly | transpiler.cpp:71 | with names distinct up to case, the cast returns a value exactly when its name matches |
| Transpiler.LanguageNamesDistinct | transpiler.cpp:186-200 | no two language names are equal up to case |
| Transpiler.StageNamesDistinct | slcross.hpp:39-54 | no two stage names are equal up to case |
| Transpiler.StageListed | slcross.hpp:39-54 | every stage is among the enumerators the cast walks |
| Transpiler.Languages | transpiler.cpp:71 | the enumerators `enum_cast` walks for a language: the six languages |
| Transpiler.Stages | transpiler.cpp:85 | the enumerators `enum_cast` walks for a stage, as declared at slcross.hpp:39-54 |
| Transpiler.LanguageName | transpiler.cpp:101 | definitional (`enum_name` of a language); see `LanguageNamesDistinct`, `ReplacedHasPiece` |
| Transpiler.StageName | slcross.hpp:39-54 | definitional (`enum_name` of a stage); see `StageNamesDistinct` |
| Transpiler.ParseLanguage | transpiler.cpp:71 | definitional (`enum_cast` over the languages); see `ParseLanguageExactly` |
| Transpiler.ParseStage | transpiler.cpp:85 | definitional (`enum_cast` over the stages); see `ParseStageExactly` |
| Transpiler.ParseLanguageExactly | transpiler.cpp:71 | a language is read from exactly the strings spelling its name in any case |
| Transpiler.ParseStageExactly | transpiler.cpp:85 | a stage is read from exactly the strings spelling its name in any case |
| Transpiler.ExtensionName | transpiler.cpp:75-76 | the extension without its dot: empty when there is no extension, and otherwise a dot before it gives the extension |
| Transpiler.LanguageOf | transpiler.cpp:69-81 | definitional (the language branch); see `ParseFileMetadata`, `LanguageFromExtension`, `InvalidLanguageMessage` |
| Transpiler.StageOf | transpiler.cpp:83-88 | definitional (the stage branch); see `ParseFileMetadata`, `InvalidStageMessage` |
| Transpiler.ParseFileMetadata | transpiler.cpp:63-92 | the file is the first piece; explicit values win; otherwise piece 2 (or the extension) and piece 3 match names ignoring case; four or more pieces always fail. With or without an explicit language, the call succeeds exactly when there are at most three pieces, the language is explicit or read, and the stage is explicit, absent or read |
| Transpiler.LanguageFromExtension | transpiler.cpp:75-81 | a one-piece name whose extension spells a language in any case is read as that language |
| Transpiler.LanguageFromExtensionExample | transpiler.cpp:75-81 | `a.GLSL` is a GLSL file without a stage |
| Transpiler.GenericError | transpiler.cpp:64 | the hint appended to every metadata error: a newline and the `file:language:stage` form |
| Transpiler.InvalidLanguageMessage | transpiler.cpp:72 | an unknown second piece gives "Invalid language: " with that piece and the generic hint |
| Transpiler.InvalidStageMessage | transpiler.cpp:86 | an unknown third piece gives "Invalid shader stage: " with that piece and the generic hint |
| Transpiler.ParseEncodedMetadata | transpiler.cpp:63-92 | `file:language[:stage]` written from a value reads back as that value |
| Transpiler.ReplacedHasPiece | transpiler.cpp:101 | the derived output file name has a first piece |
| Transpiler.StdinMessage | transpiler.cpp:99 | the error text when standard input is read without an output file |
| Transpiler.NoOutputLanguageMessage | transpiler.cpp:100 | the error text when neither an output file nor an output language is given |
| Transpiler.GlslStageMessage | transpiler.cpp:110 | the error text for GLSL output without a stage |
| Transpiler.OutputFile | transpiler.cpp:98-102 | definitional (the output name branch); see `CheckArguments`, `ReplacedHasPiece` |
| Transpiler.CheckArguments | transpiler.cpp:97-110 | it asks for a first piece only of a name that reaches `parse_file_metadata`: the input once the output name is settled, a given output once the input has parsed. Errors for stdin without an output file and for no output file or language. The output name is given or derived. Input and output are what `parse_file_metadata` gives for the two names; a parse error is passed on. Explicit languages and stage are kept. The call fails after both parses only for GLSL output without a stage, and otherwise succeeds. The warning flag is set exactly when the input names a stage |
| Transpiler.CheckArgumentsEmptyName | transpiler.cpp:98-100 | an empty or all-colon input with neither output file nor output language fails on the missing output language before any name is parsed |
| Transpiler.CheckArgumentsInputFirst | transpiler.cpp:102-104 | with an output file given, an input that fails to parse gives the input's error, whatever the output name is |
| Transpiler.StripEntryPoint | transpiler.cpp:113-116 | `remove_if` then `erase(end)` on the name computes `EntryPointAsWritten` |
| Transpiler.EntryPointAsWritten | transpiler.cpp:113-116 | definitional (`remove_if`, then `erase` of one position); see `EntryPointAsWrittenCorrectIff`, `EntryPointAsWrittenExample` |
| Transpiler.EntryPointAsWrittenCorrectIff | transpiler.cpp:113-116 | the step as written equals removing all whitespace exactly when the name holds at most one whitespace character |
| Transpiler.EntryPointAsWrittenExample | transpiler.cpp:113-116 | `a b c` becomes `abcc`, not `abc` |
| Transpiler.StripEntryPointIntended | transpiler.cpp:113-116 | erasing from `end` to the end, which is `remove_whitespace`, leaves exactly the non-whitespace characters |

## Left out

- The tcpp directive engine (macro expansion, comment removal, lexing) is an opaque parameter. Nothing is proved
  about what it does with the text or when it calls the include callback.
- File I/O is abstracted. `std::ifstream`, `seekg`/`tellg`, `std::filesystem::exists` and `absolute` read the
  file-system value. Opening a directory, read errors and a changing file system are not modelled. A file opens
  exactly when its absolute path has contents.
- Paths are strings with `/` separators. `std::filesystem::path` comparison in `std::set` is taken to be string
  order. Root names and normalisation are not modelled.
- `std::isspace`, `std::isalnum` and `std::toupper` follow the C locale on ASCII. Other locales, and `char` values
  that are negative when passed to them, are not modelled.
- The `slcross::language` enum's declaration is not part of this model. Its enumerators are the six names the
  language switch in `main` uses. Their order does not matter, because no two names are equal up to case.
  magic_enum's reflection range is assumed to cover every enumerator.
- Transpiler.ParseFileMetadata: it requires a first piece. The source indexes `subs[0]` unchecked, which is
  undefined behaviour for `""` or for a name made only of colons.
- Transpiler.CheckArguments: it requires a first piece of the input file once the output name is settled, and of a
  given output file once the input has parsed, because there `parse_file_metadata` indexes `subs[0]`. Errors raised
  before that point need neither. The stderr warning is returned as the flag `stageWarning`.
- Transpiler.SplitJoin: it proves the round trip in the direction the source needs (join after split). It does not
  prove that splitting a join of clean pieces gives them back, except for the two- and three-piece forms
  `SplitTwo` and `SplitThree`.
- Argument parsing, globbing, the language dispatch, the calls into the shader libraries and the output writes in
  `main` are not modelled. This covers everything in `main` outside lines 97-116.
- slcross.cpp, hello.cpp, read_entire_file.hpp and cstring_from_view.hpp are not part of this model. They are
  wrappers over foreign libraries, an example, memory-mapped and stdin reading, and a pointer trick.
- The chaining of `add_define` and `remove_define` (both return `*this`) is not modelled: the methods return
  nothing.
- Common.RemoveIfSpaceResult: the positions after the new end keep their old characters, as libstdc++ and libc++
  leave them. The C++ standard leaves those positions unspecified; the entry-point finding depends on this.
- Paths.Absolute: libstdc++ throws `filesystem_error` for `absolute("")`, which an empty include token reaches at
  preprocessor.hpp:119 when no configuration path is set. The model returns the working directory with a separator
  instead; that error path is not modelled.
- The buffer that `consolidate_whitespace` reserves and the `std::string_view` lifetimes are not modelled.

## Findings

| source | as written | input that shows it | evidently intended | confidence | as-written member | corrected member |
|---|---|---|---|---|---|---|
| transpiler.cpp:116 | `erase(end)` removes the one character at `end`; the moved-over tail stays | entry point `a b c` becomes `abcc` | `erase(end, entry_point.end())`, leaving `abc` | high (not executed) | Transpiler.EntryPointAsWrittenExample | Transpiler.StripEntryPointIntended |

`Transpiler.StripEntryPoint` models the code as written, in place on an array. `Transpiler.EntryPointAsWrittenCorrectIff`
shows that the step as written is correct exactly when the name holds at most one whitespace character. The
corrected `Transpiler.StripEntryPointIntended` is proved to return `RemoveWhitespace` of the name, which holds no
whitespace.
