# copynotice, modelled in Dafny

copynotice is a Windows command-line tool. It copies source files from one or
more source directory trees into mirrored destination trees and puts a
comment-prefixed notice at the top of each copy. With `/replace` it first drops
a leading block of comment lines. This project models the tool's single source
file, `main.cpp`, with the Win32 and console calls replaced by abstract inputs:

- **Argument names** (`ArgumentNames.dfy`): the sorted name table, the binary
  search of `find_argument_name_id`, `get_max_argument_name_length`, and the copy
  loop that truncates a name to 7 characters.
- **Options** (`Options.dfy`): `instance::init`'s argument loop as functions
  (`ApplyOption`, `ParseFrom`, `Parse`), with one lemma per option that gives its
  accept/reject set.
- **Discovery** (`Discovery.dfy`): the pre-order walk of `target_directories`
  over a finite entry tree (`Discover`). It is proved equal to an independent
  relative-path description of the walk. The de-duplicating merge is `MergeAll`.
- **Overwrite policy** (`Overwrite.dfy`): `ask_yesno`'s answer classification and
  the one-way `mAlwaysOverwriteFiles` latch.
- **Notice rewrite** (`Rewrite.dfy`): what `create_file` writes. This is the
  notice block (split on CRLF), the retained line and the unread rest of the
  source. Idempotence of a rewrite with `/replace` is proved.
- **Run** (`Run.dfy`): `create_file`, `iterate` and `execute` as state
  transformers over the latch, the lines the user will type and the destination
  files.
- **Program** (`Program.dfy`): the imperative code. `program::instance` is a
  class with the source's fields, and `mCommentPrefix` is a 16-byte array. Its
  methods run the source's loops (the `argIdx` loop, the merge loop, the walk,
  the `noticeOffset` loop, the comment-skipping loop, the 64-byte copy loop,
  `iterate`'s counter and `execute`'s nested loops). Each method is proved to
  compute the matching function above.

Abstract inputs: `utf16_to_utf8` and the `/notef` file read are the functions of
`Options.Host`. `FindFirstFileW`/`FindNextFileW` is a function from a search
pattern to a listing of `Discovery.Entry`, and below a configured root the walk
follows each entry's `children`. A source file is a `Rewrite.SourceFile`: the
lines `freadline` returns, the bytes after the last CRLF, and two explicit
parameters, `endLine` and `endRest`. Those two say what the line buffer holds and
what `fread` still returns once `freadline` has reported the end. `main.cpp`
does not show either of them. `fexists` and the destination files are the map of
`Program.Disk`. The console is the sequence of lines the user will type.

## Model

| member | source | states |
|---|---|---|
| `ArgumentNames.ArgumentNamesSorted` | main.cpp:132-144 | the name table is strictly sorted, as the `static_assert` demands |
| `ArgumentNames.MaxArgumentNameLength` | main.cpp:146-158 | the loop returns the length of the longest name: every name is at most that long, one is exactly that long, and it is 7 |
| `ArgumentNames.LowerBound` | main.cpp:166 | binary search: every name before the result is less than the key, and none from the result on is |
| `ArgumentNames.LowerBoundFinds` | main.cpp:166-167 | in a sorted table the key occurs iff it is at its lower bound |
| `ArgumentNames.FindArgumentNameId` | main.cpp:162-172 | returns 0 exactly for strings not in the table, otherwise index + 1 of that string |
| `ArgumentNames.NameId` | main.cpp:162-172 | the id is 0 iff the string is not a table name, and otherwise it indexes that name |
| `ArgumentNames.NameIdAt` | main.cpp:132-172 | the name at position k has id k + 1, so distinct names get distinct ids (needs sortedness) |
| `ArgumentNames.NameIds` | main.cpp:299-445 | the case labels `find_argument_name_id(L"dir")` … `(L"verbose")` are the ids 1–8 |
| `ArgumentNames.CopyArgumentName` | main.cpp:288-292 | the copy loop keeps the characters after `/` up to the buffer capacity, in order |
| `ArgumentNames.ArgumentName` | main.cpp:279-293 | the looked-up name is the first min(length − 1, 7) characters after `/` |
| `ArgumentNames.LongNamesTruncated` | main.cpp:279-293 | a 7-letter name followed by anything is looked up as that name (`/recursex` is `/recurse`) |
| `ArgumentNames.TableNamesRecognised` | main.cpp:279-299 | every table name written after `/` is recognised as itself |
| `ArgumentNames.SlashAloneUnknown` | main.cpp:288-297 | `/` alone is an unknown argument |
| `Options.DirOption` | main.cpp:299-340 | on success `/dir` consumes exactly its two subarguments and appends their mapping, changing nothing else |
| `Options.ExtOption` | main.cpp:342-367 | on success `/ext` consumes exactly one subargument and appends it, changing nothing else |
| `Options.NoteOption` | main.cpp:369-400 | `/note`/`/notef` succeed iff the subargument is present and no non-empty notice is stored; they then consume exactly that subargument and store its text or the file's contents |
| `Options.SyntaxOption` | main.cpp:422-443 | `/syntax` succeeds iff the converted subargument is 1–15 bytes; it then consumes it and copies it with its NUL into the 16-byte buffer, changing nothing else |
| `Options.ApplyOption` | main.cpp:280-457 | one pass of the loop moves past the option and its subarguments and only adds to the settings |
| `Options.ParseFrom` | main.cpp:280-458 | a successful loop leaves well-formed settings that extend the starting ones |
| `Options.DirectoryAccepted` | main.cpp:299-340 | `/dir` succeeds iff both subarguments are present and do not start with `/`, `src`/`dst` have no trailing slash, `dst` is non-empty and neither contains one of the characters of `PathIllegal` (less-than, greater-than, colon, double quote, vertical bar, question mark, asterisk); then exactly that mapping is appended |
| `Options.ExtensionAccepted` | main.cpp:342-367 | `/ext` succeeds iff its subargument is present, is 1–15 characters and contains none of the characters of `ExtensionIllegal` (those of `PathIllegal`, both slashes and the dot); then it is appended |
| `Options.SyntaxAccepted` | main.cpp:422-443 | `/syntax` succeeds iff the converted subargument is 1–15 bytes; the next argument index is two further on, only the prefix buffer changes, and a NUL-free subargument becomes the comment prefix |
| `Options.NoticeAccepted` | main.cpp:369-400 | `/note`/`/notef` succeed iff the subargument is present and the stored notice is empty; the notice is then the converted text or the file's contents and the next argument index is two further on |
| `Options.FlagAccepted` | main.cpp:402-452 | `/recurse`, `/verbose`, `/replace` fail iff their flag is already set; otherwise they set that flag only and move to the next argument |
| `Options.NotAnOption` | main.cpp:282-287 | an argument not starting with `/` where an option is expected is refused |
| `Options.EveryNameHandled` | main.cpp:293-457 | the `default:` branch ("not implemented") is never reached |
| `Options.NoArgumentsRefused` | main.cpp:261-278 | a command line with no arguments is refused |
| `Options.EmptyNoteThenNote` | main.cpp:369-381 | `/note ""` followed by `/note text` is accepted, with notice `text` |
| `Options.RecurseTwiceRefused` | main.cpp:402-409 | `/recurse /recurse` is refused |
| `Options.RecursexIsRecurse` | main.cpp:279-293 | `/recursex` alone parses as `/recurse` |
| `Run.SearchIsSourcePath` | main.cpp:512 | the walk lists the directory that `iterate` searches and `create_file` reads from: its pattern is the source path of `*` |
| `Discovery.DiscoverMirrors` | main.cpp:521-547 | the k-th discovered mapping is `src` and `dst` each extended by the k-th relative path of the pre-order walk (no separator after an empty `src`) |
| `Discovery.NothingToEnter` | main.cpp:523-537 | a listing with no visible, non-dot directory adds nothing |
| `Discovery.DiscoverNext` | main.cpp:521-547 | one pass of the listing loop appends the entered child and then everything below it |
| `Discovery.MergeAll` | main.cpp:466-478 | the merge keeps every existing mapping in place and in order; each appended mapping was discovered and its `src` was new at that moment |
| `Discovery.MergeIsFresh` | main.cpp:466-478 | the merge is the configured mappings followed by exactly the discovered mappings whose `src` is neither configured nor discovered earlier, in discovery order |
| `Discovery.MergeSources` | main.cpp:466-478 | after the merge a `src` is present iff it was configured or discovered |
| `Discovery.FirstMappingWins` | main.cpp:466-478 | of two discovered mappings with one `src`, the first is kept and the second dropped |
| `Discovery.MergeCovers` | main.cpp:466-478 | after the merge every discovered and every configured `src` is targeted |
| `Discovery.AppendedSourcesDistinct` | main.cpp:466-478 | appended sources differ from each other and from every configured one |
| `Discovery.NoRecurseNoDiscovery` | main.cpp:460-507 | without `/recurse` nothing is discovered and `mDirectories` is unchanged |
| `Overwrite.FirstAnswer` | main.cpp:107-122 | the first line that is a yes or a no; every line before it was invalid |
| `Overwrite.ExactAnswers` | main.cpp:112-118 | answers are exact and case-sensitive (`Y`, `Yes`, `yes ` are invalid) |
| `Overwrite.AskAnswersFirst` | main.cpp:107-122 | `ask_yesno` returns true iff the first valid line is `y`/`yes` and false iff it is `n`/`no` |
| `Overwrite.InvalidAskedAgain` | main.cpp:109-121 | an invalid line is consumed and the question is asked again |
| `Overwrite.NeverAnswered` | main.cpp:109-121 | only invalid lines means no answer (the prompt waits) |
| `Overwrite.LatchStaysSet` | main.cpp:646 | with the latch set nothing is checked, asked or read |
| `Overwrite.LatchMonotone` | main.cpp:646-662 | the latch never goes from true to false; it goes from false to true only after a question about an existing file |
| `Overwrite.AbsentDestination` | main.cpp:649 | an absent destination is written without a question and the latch is unchanged |
| `Overwrite.RefusedOnlyOnNo` | main.cpp:653-660 | the file is refused iff the latch is clear, the destination exists and the answer is no |
| `Overwrite.YesSilencesLaterQuestions` | main.cpp:653-656 | after a yes the next conflict is overwritten with no question |
| `Overwrite.NoAsksAgain` | main.cpp:657-660 | after a no the latch stays clear and the next conflict is asked about again |
| `Common.FindCrlf` | main.cpp:704-709 | `find(u8"\r\n", offset)` with npos as the notice size: the first CRLF at or after the offset |
| `Common.SplitJoin` | main.cpp:695-720 | the notice pieces joined with CRLF give back the notice |
| `Common.SplitPiecesClean` | main.cpp:695-720 | no notice piece contains a CRLF |
| `Common.SplitUnique` | main.cpp:695-720 | CRLF-free pieces joined with CRLF split back into the same pieces |
| `Common.SplitCount` | main.cpp:695-720 | a notice with k CRLFs (left to right, non-overlapping) has k + 1 pieces |
| `Common.CString` | main.cpp:696 | `strlen`'s view of the prefix buffer: the bytes before the first NUL |
| `Rewrite.FirstNonComment` | main.cpp:679-693 | the first line from a position on that does not start with the prefix; all lines before it do |
| `Rewrite.NoticeLineCount` | main.cpp:695-720 | the notice block has exactly k + 1 lines for k CRLFs |
| `Rewrite.EmptyNotice` | main.cpp:695-720 | an empty notice writes the single line prefix + CRLF |
| `Rewrite.TrailingCrlfComment` | main.cpp:695-720 | a notice ending in CRLF gets a last line holding only the prefix |
| `Rewrite.NoticeStep` | main.cpp:699-720 | one pass of the notice loop writes prefix + piece + CRLF and continues after the CRLF, or stops at the last piece |
| `Rewrite.EmptySource` | main.cpp:673-677 | an empty source leaves a zero-length destination |
| `Rewrite.KeepsWholeSource` | main.cpp:679-734 | without replace, or without a leading comment, the destination is the notice block followed by the whole source (an old comment is kept) |
| `Rewrite.DropsLeadingComments` | main.cpp:679-734 | with replace and a leading comment, exactly the leading comment lines are dropped |
| `Rewrite.AllComments` | main.cpp:685-691 | when every line is a comment, what follows the notice is the reader's end-of-file buffer and remainder |
| `Rewrite.RewrittenLines` | main.cpp:695-731 | the destination line by line: the comment lines, the retained line, the lines after it, the tail |
| `Rewrite.SplitDestination` | main.cpp:695-731 | split at its CRLFs, a destination gives exactly those pieces |
| `Rewrite.RewriteIdempotent` | main.cpp:679-734 | rewriting a destination again with replace gives the same bytes |
| `Rewrite.ReplaceExample` | main.cpp:679-734 | `"// old", "int x;"` with replace and notice `Copyright 2024` gives `"// Copyright 2024\r\nint x;\r\n"` |
| `Run.PathsInjective` | main.cpp:628-644 | different file names in one directory get different source and destination paths, so no two files of a listing share a destination |
| `Run.PathsMirror` | main.cpp:628-644 | a file in a discovered subdirectory is read and written at that subdirectory's relative path below `src` and below `dst`: the destination tree mirrors the source tree |
| `Run.PatternIsSourcePath` | main.cpp:575-580 | `iterate` searches the source path of `*.ext`, the same place `create_file` reads from |
| `Run.IterateMonotone` | main.cpp:600-621 | the count is at most the number of non-hidden, non-directory entries; the latch never reverts; no file disappears |
| `Run.CreateRefused` | main.cpp:646-662 | `create_file` returns false iff the latch is clear, the destination exists and the answer is no; then no file and not the latch changes |
| `Run.CreateWrites` | main.cpp:664-734 | a created destination holds the rewritten source and no other file changes |
| `Run.EmptySourceCreated` | main.cpp:666-677 | an empty source creates a zero-byte destination and counts as created |
| `Run.LatchedCreatesAll` | main.cpp:600-615 | with the latch set every target file is created and nothing is asked |
| `Run.NoTargetsNoFiles` | main.cpp:589-615 | a listing without target files gives 0 and changes nothing |
| `Run.OnlyDestinationsChange` | main.cpp:600-615 | iterating keeps every file other than the target files' destinations, with its contents |
| `Run.TwoConflicts` | main.cpp:646-662 | with two conflicts, a yes creates both and asks once; a no skips the first and asks about the second |
| `Run.RunJobsMonotone` | main.cpp:556-568 | `execute`'s loops keep the latch set once set and lose no file |
| `Run.RunJobsAppend` | main.cpp:560-566 | the run over directories × extensions splits at any point into two consecutive runs |
| `Run.LatchedRunCreatesAll` | main.cpp:556-568 | with the latch set, `execute` creates every target file of every (directory, extension) pair |
| `Run.RunCountBounded` | main.cpp:556-568 | the total created count is at most the number of target files found |
| `Run.NoJobsNoFiles` | main.cpp:556-568 | with no extension configured nothing is created |
| `Program.AskYesNo` | main.cpp:107-122 | the loop returns the first yes/no answer and consumes exactly the lines up to it |
| `Program.Instance.ApplyDirectory` | main.cpp:299-340 | the `dir` case computes `DirOption` |
| `Program.Instance.ApplyExtension` | main.cpp:342-367 | the `ext` case computes `ExtOption` |
| `Program.Instance.ApplyNotice` | main.cpp:369-400 | the `note`/`notef` cases compute `NoteOption` |
| `Program.Instance.ApplySyntax` | main.cpp:422-443 | the `syntax` case copies the prefix and its NUL into the array, as `SyntaxOption` |
| `Program.Instance.SetFlag` | main.cpp:402-452 | the flag cases set each flag once |
| `Program.Instance.ApplyArgument` | main.cpp:280-457 | one pass of the `argIdx` loop computes `ApplyOption` |
| `Program.Instance.ParseArguments` | main.cpp:259-458 | the argument loop succeeds iff `Parse` does, with its settings |
| `Program.Instance.TargetDirectories` | main.cpp:499-554 | the recursive walk appends exactly `Targets(recurse, d, listing)` |
| `Program.Instance.DiscoverDirectories` | main.cpp:460-464 | the collection loop computes `DiscoverAll` |
| `Program.Instance.MergeDirectories` | main.cpp:466-478 | the merge loop computes `MergeAll` |
| `Program.Instance.Init` | main.cpp:259-478 | `init` succeeds iff the command line parses; `mDirectories` is then the configured directories merged with the discovered ones |
| `Program.Instance.ConfirmOverwrite` | main.cpp:646-662 | the overwrite check computes `Check`, including the latch update and the lines read |
| `Program.Instance.SkipComments` | main.cpp:679-693 | the replace loop leaves the line and remainder that `Retain` gives |
| `Program.Instance.WriteNotice` | main.cpp:695-720 | the `noticeOffset`/`commentEndPos` loop writes exactly `NoticeBlock(prefix, notice)` |
| `Program.Instance.CopyRest` | main.cpp:726-731 | the 64-byte copy loop appends the whole unread rest of the source |
| `Program.Instance.WriteDestination` | main.cpp:669-733 | the destination ends up holding `Rewritten(source, prefix, notice, replace)` |
| `Program.Instance.CreateFile` | main.cpp:626-735 | `create_file`'s result and new state are `CreateOutcome`'s |
| `Program.Instance.Iterate` | main.cpp:570-624 | `iterate`'s count and new state are `IterateOutcome`'s |
| `Program.Instance.ExecuteDirectory` | main.cpp:562-565 | the inner loop of `execute` is `RunJobs` over one directory's extensions |
| `Program.Instance.Execute` | main.cpp:556-568 | `execute`'s total and new state are `RunJobs` over every (directory, extension) pair in order |

## Left out

- The `console` class, ANSI colour output, `echo_command_line`, `MessageBoxA` and the `wmain` exception wrappers. They are terminal I/O and presentation. `console::read` is reduced to "the next line typed". Its `resize(numRead - 2)` is console plumbing and is not modelled.
- `Program.AskYesNo`: the source asks forever. The model ends when the typed lines run out and returns `None`, which stands for "the program waits at the prompt".
- The `CreateDirectoryW` loop (main.cpp:480-494). It is file-system I/O with no data effect that the model tracks.
- `FindFirstFileW`/`FindNextFileW`, `fopen`, `freadline`, `fread`, `fwrite`, `fexists`, `fgetsize` and `ReadFile` are abstract inputs. Their buffering, chunking and error codes are not visible. The model treats every failure of these calls (`throw_win32`) as not happening, so fatal-error aborts and their partial output are not modelled.
- `utf16_to_utf8` and the `/notef` file read are uninterpreted functions. Only their effect on the notice and the prefix is modelled.
- `Rewrite.AllComments`: what `freadline` leaves in `firstCodeLine`, and what `fread` still returns, once it reports the end inside the replace loop cannot be seen in `main.cpp`. They are the explicit parameters `endLine` and `endRest` rather than a guess.
- `Rewrite.RewriteIdempotent`: it assumes a reader that splits at every CRLF, a prefix without CR, and a retained line that is not itself a comment. `freadline` is not visible, and outside those conditions the second run can differ.
- `Program.Instance.Execute`, `Program.Instance.Iterate`, `Run.IterateOutcome`, `Run.RunJobs`: `filesCreated` is a `std::uint32_t` in the source, in `execute` and in `iterate` alike. The model counts with unbounded `nat`, because wrap-around needs more than 4 billion created files.
- Command-line arguments are Dafny strings. Windows never passes an argument with an embedded NUL, so the model does not stop at one where `wchar_t*` code would.
- `Options.ExtOption`, `Options.ValidExtension`, `ArgumentNames.CopyArgumentName`, `ArgumentNames.ArgumentName`: lengths are counted in Unicode characters (Dafny `char`s), whereas the source counts UTF-16 `wchar_t` units. An extension of more than 15 units that is at most 15 characters long (it has characters outside the Basic Multilingual Plane) is refused by the source but accepted here. A name cut after 7 units can split a surrogate pair, which the model cannot do. Unpaired surrogates cannot be written at all.
- `Run.RunJobs`, `Run.IterateOutcome`, `Run.CreateOutcome`, `Discovery.Discover`, `Discovery.DiscoverAll`: the directory listings (`find`), the source contents (`sources`) and the destination files are three independent inputs, fixed for the whole run. The model therefore assumes that the destination trees are disjoint from the source trees, so nothing `create_file` writes is listed or read again later in the run (as it would be with `/dir a b /dir b c`, or a `dst` inside a recursed `src`). It also assumes that the source trees are finite, with no junction or symbolic-link cycles: main.cpp:523-545 does not skip reparse points. `Run.LatchedRunCreatesAll` and `Run.RunCountBounded` count the listings as given and say nothing about runs outside these assumptions.
- `Run.CreateOutcome`, `Run.OnlyDestinationsChange`, `Run.CreateWrites`, `Program.Disk.Exists`: a file is identified by its exact path string. Windows resolves paths ignoring letter case, dropping `.` components and reading `/` as `\`, so two spellings of one file (`/dir a Out /dir b out`) are one file to `fexists` and `fopen` but two keys of the model's file map. For such runs the model creates the second copy without asking, and `OnlyDestinationsChange` keeps the first spelling's contents where the program overwrites them.
