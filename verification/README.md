# A verified model of the command line and its YANG front end

The repository is a router-style command line: a command engine in C, and on top of it a generator
that turns YANG schemas into commands. This project models the parts of it that carry logic and
proves what they promise. It follows the form of the source: what the program updates in place is a
class or an array with methods, each proved against a specification function; what it computes is a
function; and the promises are lemmas about those functions.

Check it with `dafny verify dfyconfig.toml` (Dafny 4.11).

| module | what it models |
|---|---|
| `CStrings` | C strings, `isspace`, comparisons that ignore case |
| `Tokeniser`, `WordCuts`, `Quoting`, `Pipeline` | splitting a line into words, where a line is cut, printing words so that they are split again, splitting words into stages |
| `OptargMatch`, `OptargRules`, `OptargCompleteness`, `FoundOptargs`, `Buildmode` | matching words against optargs, the rules it follows, what a match means, the pairs it leaves, and replaying them when buildmode is left |
| `CommandList`, `CommandTypes` | the doubly linked list of commands |
| `Modes`, `Abbreviations`, `Lookup` | the mode stack, the cached abbreviation lengths, finding a command |
| `Schema`, `CommandForest`, `Generator` | a schema tree, the command tree, compiling one into the other |
| `ModeCursor` | the mode stack and the data cursor of a session |
| `LineEditor` | the edit buffer and the zipper it refines |
| `HelpWrap`, `Filters`, `UserOrder`, `IdentityHelp` | wrapped help, output filters, user-ordered lists, the help of identityref leaves |

A character is a Dafny `char`; a C string is the sequence before its terminator, and reading it is
allowed up to and including the terminator. A position in a list stands for the identity of the
object there. The mode of a schema node is an abstract injective function into modes above
MODE_CONFIG.

## What the code does that its documentation does not say

- A printed value that starts with `|` is taken for a pipeline separator even inside quotes, so
  buildmode replays exactly the settings whose printed words do not start with one
  (`Buildmode.ReplayedLine`). A line that itself starts with `|` yields an empty first word.
- An escape between two words is dropped together with its character
  (`Tokeniser.EscapeBetweenWordsVanishes`), and a backslash right after an escape does not escape
  (`WordCuts.Escaped`).
- The comment at `lib/libcli/libcli.c:3675` takes the rest of the line as the end of the
  processing; the code goes on matching with the next word.
- The abbreviation cache compares case and lookup does not, so names that differ only in the case
  of a shared letter are ambiguous (`Abbreviations.MixedCaseIsAmbiguous`).
- Buildmode does not offer optargs of MODE_ANY, although they are visible everywhere else
  (`CommandList.IsOffered`), and a required optarg that may be repeated always ends it with a
  missing argument (`Buildmode.BuildCmdline`).
- A value set under one case of a name is read under all of them (`FoundOptargs.ReadingAgrees`).
- A container with the name of its parent gets no command. What is below it is placed below the
  command of that parent, even when this is a list or the root, and so in the mode in which that one
  is entered; below a second such container it is placed at the top, in a mode that no command
  pushes (`Generator.PlacementStep`; `Generator.Placement` has the exact condition).
- Lookup may drop to MODE_CONFIG although the command then fails (`Lookup.LookupOnlyDrops`).
- A user-ordered entry whose index points at itself, such as a new one with an index just past the
  last, is freed (`UserOrder.OrderedList.AddEntry`, `UserOrder.NewEntryRefused`).
- The help of an identityref leaf does not list the bases, and their share of the allocation is what
  makes room for the terminator (`IdentityHelp.HelpFits`).

## Model

| member | source | states |
|---|---|---|
| `CStrings.CaseEqualMeans` | lib/libcli/libcli.c:3041-3042 | Two strings agree, case ignored, when each character is the same or its letter in the other case. |
| `CStrings.CasePrefixMeans` | lib/libcli/libcli.c:3042 | A word abbreviates a name, case ignored, when it agrees with as much of the name as it is long. |
| `Tokeniser.ReturnNewWord` | lib/libcli/libcli.c:929-945 | A completed word is the raw text between the pointers with every backslash deleted. |
| `Tokeniser.SkipSpaces` | lib/libcli/libcli.c:953-959 | The first word starts at the first character that is not white space; on a blank line no word is open. |
| `Tokeniser.ScanTurn` | lib/libcli/libcli.c:961-1005 | One turn of the loop reads nothing beyond the terminator, stores at most one word, and either moves on or closes the open word, so the loop terminates even though a turn may not advance. |
| `Tokeniser.ParseLine` | lib/libcli/libcli.c:947-1008 | For every line the array receives the words of the specification `Words`, at most `max_words - 1` of them (127 for the usual array). |
| `Tokeniser.WordsConserveInk` | lib/libcli/libcli.c:947-1008 | On a line without backslashes the characters other than white space and quotes are those of the words, in order, unless the cap was reached; then the words hold a prefix of them. |
| `Tokeniser.EscapeBetweenWordsVanishes` | lib/libcli/libcli.c:962-964 | Why backslashes are excluded: between words an escape disappears together with the character it protects. |
| `Tokeniser.LexDropsBackslashes` | lib/libcli/libcli.c:929-945 | No word of any line contains a backslash. |
| `WordCuts.WordsAreCut` | lib/libcli/libcli.c:947-1008 | For every line, with or without backslashes, the words are those of its cut into blanks, pipes, longest plain runs, quoted sections and escapes, up to the cap; the cut is described on the line itself, without the scanner. |
| `WordCuts.CutExists` | lib/libcli/libcli.c:947-1008 | Every line has such a cut. |
| `WordCuts.CutIsUnique` | lib/libcli/libcli.c:947-1008 | No line has two. |
| `WordCuts.QuoteEndsWord` | lib/libcli/libcli.c:989-994 | A quote that directly follows a word ends it and opens the next one, which the same quote closes; then come the words of the rest. |
| `Quoting.ExtendCmdline` | lib/libcli/libcli.c:2766-2807 | The command line grows by a space and the word inside the quotes that the walk over the word settled on. |
| `Quoting.QuoteForExactly` | lib/libcli/libcli.c:2766-2807 | For every word the quote is decided by its characters that no backslash protects: the first such quote asks for the other kind, otherwise an empty word or a space asks for double quotes, and nothing else for any. |
| `Quoting.PrintedWord` | lib/libcli/libcli.c:2766-2807 | A printed quotable word is tokenised back to itself, whatever printed words follow. |
| `Quoting.WordsAfterName` | lib/libcli/libcli.c:947-1008 | Text printed after a command name adds its own words to the words of the name. |
| `Quoting.RoundTrip` | lib/libcli/libcli.c:2766-2807 | Printing any list of quotable words after a command name and tokenising gives the words of the name followed by exactly that list, up to the cap. |
| `Quoting.NotQuotableIsLost` | lib/libcli/libcli.c:2766-2807 | A word that is not quotable is never tokenised back to itself. |
| `Quoting.RoundTripExactly` | lib/libcli/libcli.c:2766-2807 | One printed word survives if and only if it is quotable: no backslash, not both kinds of quote, and no word-ending character unless a space or a quote makes the printer quote it (or the word is a lone pipe). |
| `Pipeline.GeneratePipeline` | lib/libcli/libcli.c:3204-3244 | The stages partition the words at the separators; they are one more than the separators and fit the 128-entry array; in buildmode a separator is refused. |
| `Pipeline.RejoinedStages` | lib/libcli/libcli.c:3218-3243 | Stages and separators put back together are the word array. |
| `Pipeline.PartitionIsUnique` | lib/libcli/libcli.c:3218-3243 | There is only one such partition, so the contract of the splitter determines its result. |
| `Pipeline.SeparatorsStandBetween` | lib/libcli/libcli.c:3218-3243 | The words outside all stages are exactly those that start with a pipe. |
| `OptargMatch.StageMatch.FindCandidates` | lib/libcli/libcli.c:3543-3593 | The candidates of a word: a decisive optarg stands alone, possible ones are collected, and the search stops after the first visible required optarg. |
| `OptargMatch.StageMatch.CheckDemanded` | lib/libcli/libcli.c:3741-3756 | After the loop the stage fails exactly when a visible recorded optarg that is required or starts a transient mode is still to come. |
| `OptargMatch.StageMatch.ParseOptargs` | lib/libcli/libcli.c:3504-3764 | Status, pairs and first unmatched word are those of the specification `Match`; every turn consumes a word. |
| `OptargRules.CandidatesAre` | lib/libcli/libcli.c:3543-3593 | Flag by flag: the first visible optarg that decides for the word (hyphenated and a hyphen, a flag by validator or exact name, an optional argument by exact name) stands alone if no visible required one comes before it; otherwise the candidates are, in order, the visible optargs up to and including the first required one that are required or abbreviated by the word. |
| `OptargRules.MatchRuns` | lib/libcli/libcli.c:3529-3756 | Matching is a run by the rules: each move gives the next word, or an exact name and the word after it, to the only candidate, and the run stops with the status that the place it reached calls for, be it success, a missing argument or value, an ambiguity, a refused value or the start of buildmode. |
| `OptargRules.JoinWordsAppend` | lib/libcli/libcli.c:1010-1032 | The rest of a line is its words joined by single spaces. |
| `OptargCompleteness.MatchAccounts` | lib/libcli/libcli.c:3529-3739 | A match that ends well is explained by events: each one a visible optarg whose validator accepted its word, together tiling the consumed words and producing the pairs, and hitting the visible required optargs exactly once each, in order. |
| `OptargCompleteness.MatchKeeps` | lib/libcli/libcli.c:3678-3694 | A pair whose name no remaining visible optarg has is still there at the end. |
| `OptargCompleteness.RequiredOptargsHavePairs` | lib/libcli/libcli.c:3529-3756 | When matching ends well every visible required recorded optarg has a pair of its name; it is the one stored from words that its validator accepted unless a later visible optarg has the same name. |
| `OptargCompleteness.SameNameOverwrites` | lib/libcli/libcli.c:2494-2522 | The exception is real: of two required optargs of one name only the second value is left. |
| `FoundOptargs.Cli.SetOptargValue` | lib/libcli/libcli.c:2494-2522 | The new list is `SetPair` of the old one. |
| `FoundOptargs.Cli.UnsetOptargValue` | lib/libcli/libcli.c:2478-2492 | The new list is the old one without the pairs of that name. |
| `FoundOptargs.Cli.GetOptargValue` | lib/libcli/libcli.c:2529-2546 | The first value of the name, or the next one after the given value, case ignored; a position that is no value of the name finds nothing. |
| `FoundOptargs.Cli.AllValues` | lib/libcli/libcli.c:2529-2546 | Reading value after value visits every value of a name once, in insertion order. |
| `FoundOptargs.SetRefines` | lib/libcli/libcli.c:2494-2522 | Setting overwrites the first value of that name or appends one; other names keep their values, and the order of names is kept. |
| `FoundOptargs.UnsetRefines` | lib/libcli/libcli.c:2478-2492 | Unsetting removes every value of that name and none of another. |
| `FoundOptargs.SameValuesSamePairs` | lib/libcli/libcli.c:2494-2522 | Lists with the same values for every name hold the same pairs. |
| `FoundOptargs.ReadingAgrees` | lib/libcli/libcli.c:2529-2546 | Reading ignores case where setting does not: both see the same values of a name if and only if no pair has that name in another case. |
| `Buildmode.ExtendWithOptarg` | lib/libcli/libcli.c:2723-2751 | What is printed for one optarg: all its values if it may be repeated, else the first; a required one without value, or a required repeatable one, ends with a missing argument. |
| `Buildmode.BuildCmdline` | lib/libcli/libcli.c:2711-2764 | The command line is the name and the printed words of all visible optargs; it fails exactly when some visible required optarg has no value or may be repeated. |
| `Buildmode.ReplayFrom` | lib/libcli/libcli.c:2711-2764 | Matching the printed words again consumes them all and records the printed pairs in order. |
| `Buildmode.ReplayedAreSet` | lib/libcli/libcli.c:2722-2752 | For every name the values that are replayed are those that were set, in order. |
| `Buildmode.ReplayedLine` | lib/libcli/libcli.c:3204-3244 | The printed line is tokenised into the words of the name and the printed words; it is one stage exactly when no printed word starts with a pipe, quoted or not. |
| `Buildmode.ReplayIsIdentity` | lib/libcli/libcli.c:2711-2807 | Leaving buildmode replays the settings: the printed line is a single stage whose match ends well, leaves no word over and records the same name/value pairs, with the values of every name in the same order. |
| `Buildmode.AbbreviatingValueIsAmbiguous` | lib/libcli/libcli.c:3586-3607 | The condition on required values is needed: a value that abbreviates an optional name standing just before makes the replay ambiguous. |
| `CommandList.Cli.Register` | lib/libcli/libcli.c:491-535 | A command is appended; `next` and `previous` stay mutually inverse. |
| `CommandList.Cli.Free` | lib/libcli/libcli.c:567-610 | Freeing takes one command out of the list and keeps the links of the others inverse, also when the head has already moved on. |
| `CommandList.Cli.UnregisterCommand` | lib/libcli/libcli.c:612-637 | The first command of that name, type and hash is taken out, or nothing changes. |
| `CommandList.FirstNamed` | lib/libcli/libcli.c:612-637 | That is the first one whose name, type and hash all agree, and every other command stays. |
| `CommandList.Cli.UnregisterTree` | lib/libcli/libcli.c:855-869 | Unregistering by type is an order-preserving filter of the list. |
| `CommandList.Cli.EnterBuildmode` | lib/libcli/libcli.c:2557-2709 | Entering buildmode appends the offered optargs from the entry on and then the four reserved commands; a reserved name makes it fail and leaves the list as it was. |
| `CommandList.Cli.FreeBuildmode` | lib/libcli/libcli.c:2548-2555 | Whatever buildmode commands follow the original list are gone afterwards, and the original list is back. |
| `CommandList.EnterAndLeave` | lib/libcli/libcli.c:2548-2709 | Entering and leaving buildmode, with success or error, restores the list of commands. |
| `CommandList.KeptOfAppend` | lib/libcli/libcli.c:855-869 | Commands added in one type and unregistered by that type leave no trace. |
| `CommandList.KeptIsFilter` | lib/libcli/libcli.c:855-869 | The filter looks at each command alone and drops it exactly when it is of the type. |
| `CommandList.FromEntryIsFirst` | lib/libcli/libcli.c:2557-2709 | Buildmode starts from the first optarg that allows it. |
| `CommandList.OfferedAre` | lib/libcli/libcli.c:2557-2709 | It offers, in order, exactly the optargs of the mode or the transient mode that neither start buildmode nor change the transient mode. |
| `Modes.Terminal.SetConfigmode` | lib/libcli/libcli.c:465-489 | The mode is set; MODE_CONFIG and MODE_EXEC empty the stack. |
| `Modes.Terminal.PushConfigmode` | lib/libcli/libcli.c:271-282 | The mode is set and pushed with its text. |
| `Modes.Terminal.Exit` | lib/libcli/libcli.c:707-729 | Popping returns to the mode below; an exit from the last pushed mode returns to MODE_CONFIG, from there to MODE_EXEC, and from there ends the session. |
| `Modes.ExitUndoesPush` | lib/libcli/libcli.c:707-729 | An exit right after pushing a mode above MODE_CONFIG restores mode and stack. |
| `Abbreviations.Shorten` | lib/libcli/libcli.c:421-444 | The cached length of one command is one more than the longest prefix it shares with a visible sibling of its type, or the whole name when it is not visible. |
| `Abbreviations.BuildShortest` | lib/libcli/libcli.c:418-446 | Rebuilding sets the right length for every command that can be reached through visible ones. |
| `Abbreviations.MatchesExactly` | lib/libcli/libcli.c:3037-3042 | The two comparisons of lookup accept a word exactly when it abbreviates the name, case ignored, and is at least `unique_len` long or the whole name. |
| `Abbreviations.UniqueLenIsExact` | lib/libcli/libcli.c:418-446 | A non-empty prefix of a visible command is at least `unique_len` long if and only if no other sibling of its type that belongs to the mode or to all and is within the privilege shares it: the cache is sufficient and minimal. |
| `Abbreviations.HiddenLength` | lib/libcli/libcli.c:421-426 | A command of another mode or beyond the privilege is cached with the length of its whole name. |
| `Abbreviations.AmbiguousExactly` | lib/libcli/libcli.c:3037-3042 | Some word matches two commands if and only if what their names have in common, case ignored, is long enough for both. |
| `Abbreviations.LowerCaseConsistent` | lib/libcli/libcli.c:418-446 | Distinct lower-case names are distinguishable by the cache. |
| `Abbreviations.Unambiguous` | lib/libcli/libcli.c:3037-3042 | With the cache as it is built, a word matches at most one visible command of a type among distinguishable names. |
| `Abbreviations.FullNameIsItsOwn` | lib/libcli/libcli.c:3037-3042 | A full name matches its own command and no other visible one of its type. |
| `Abbreviations.InvisibleNeedsFullName` | lib/libcli/libcli.c:418-446 | A command that is not visible is matched by its full name only. |
| `Abbreviations.MixedCaseIsAmbiguous` | lib/libcli/libcli.c:418-446 | Two siblings whose letters agree further ignoring case than exactly are always ambiguous: the cache compares case, lookup does not. |
| `Lookup.Cli.constructor` | lib/libcli/libcli.c:418-446 | The cache is right once the commands have been registered and it has been built. |
| `Lookup.Cli.SetConfigmode` | lib/libcli/libcli.c:465-489 | A change of mode keeps the cache right for every command that lookup can reach. |
| `Lookup.Cli.SetPrivilege` | lib/libcli/libcli.c:448-458 | A change of privilege keeps the cache right for every command that lookup can reach. |
| `Lookup.Cli.ScanLevel` | lib/libcli/libcli.c:3037-3109 | The loop over one level picks a command of the current mode, else, from a mode above MODE_CONFIG, one of MODE_CONFIG, else one of MODE_ANY, with at most one jump back. |
| `Lookup.Cli.LocateCommand` | lib/libcli/libcli.c:3032-3115 | Lookup returns what the specification `Locate` says, never reads beyond the words of the stage, keeps the cache right, and terminates by words left. |
| `Lookup.ChosenMode` | lib/libcli/libcli.c:3037-3109 | What is chosen is of the type and within the privilege, its name is abbreviated by the word at sufficient length or spelled in full, and it is of the current mode, of MODE_ANY, or of MODE_CONFIG seen from a mode above it. |
| `Lookup.LookupPrefers` | lib/libcli/libcli.c:3037-3109 | Any command of the type and within the privilege whose name the word abbreviates at sufficient length, or spells in full, is chosen unless there is one of a preferred mode. |
| `Lookup.FreshAlong` | lib/libcli/libcli.c:418-446 | Along a trail of visible commands the cache is right at every level. |
| `Lookup.LookupOnlyDrops` | lib/libcli/libcli.c:3100-3104 | Lookup changes the mode only from above MODE_CONFIG to MODE_CONFIG with an empty stack, and leaves it alone when nothing matches. |
| `Lookup.FoundByPath` | lib/libcli/libcli.c:3048-3090 | A found command is callable and stands at the end of a path whose names the words abbreviate one by one; the unmatched words start right behind them. |
| `Lookup.DeepestDecides` | lib/libcli/libcli.c:3048-3115 | The deepest command of the chain of choices decides: it is found, with the next word unmatched, when it can be called, and is an error when it cannot; nothing matches exactly when the first level has no choice; and the mode drops exactly when the chain goes through MODE_CONFIG from above it. |
| `Schema.AnchorIsNearest` | src/commands/yang_core/y_utils.c:63-69 | Nothing strictly between a node and its anchor is a list or the root. |
| `Schema.PreorderExact` | src/commands/yang_core/y_cmd_generator.c:50-61 | The depth-first walk visits exactly the nodes of the schema. |
| `Schema.PreorderOrdered` | src/commands/yang_core/y_cmd_generator.c:50-61 | It visits every node once, and after all its ancestors. |
| `CommandForest.SearchFinds` | src/commands/yang_core/y_utils.c:97-124 | The search returns a command of the node and name if there is one below commands of the module, and fails only if there is none. |
| `CommandForest.AppendKeeps` | lib/libcli/libcli.c:491-535 | Registering below a command changes no other command, nor what is above it. |
| `CommandForest.AppendPlaces` | lib/libcli/libcli.c:491-535 | The new command stands below its parent with the ancestors of the parent. |
| `CommandForest.AppendAddsOne` | lib/libcli/libcli.c:491-535 | There is no other new position. |
| `Generator.ParentFound` | src/commands/yang_core/y_utils.c:126-166 | The parent that is found is the command of the target node, and it is found whenever that node has one. |
| `Generator.CompiledGrows` | src/commands/yang_core/cmd_leaf.c:138-167 | Registering a node keeps the commands of the module exactly those of the processed nodes, once each and in their places. |
| `Generator.CompiledSkips` | src/commands/yang_core/cmd_container.c:246-259 | A node that is not registered leaves no command. |
| `Generator.Cli.RegisterNode` | src/commands/yang_core/y_cmd_generator.c:18-48 | Registration of a container, list, leaf or leaf-list keeps both command trees compiled. |
| `Generator.Cli.RegisterSchema` | src/commands/yang_core/y_cmd_generator.c:50-61 | After the walk both trees hold exactly the commands of the registered nodes. |
| `Generator.NoTwinsIdeal` | src/commands/yang_core/cmd_list.c:342-356 | Without twins on the way the command stands below exactly the containers between its anchor and the node, in the mode pushed on entering the anchor. |
| `Generator.IdealNoTwins` | src/commands/yang_core/cmd_container.c:256-259 | With a container named like its parent on the way it cannot. |
| `Generator.Placement` | src/commands/yang_core/y_utils.c:97-166 | No config-false node has a command (section 7.21.1 of RFC 7950), no node has two, and a config-true node has the right command in the right place and mode if and only if no container from below its anchor down to it is named like its parent. |
| `Generator.PlacementStep` | src/commands/yang_core/y_utils.c:126-166 | With twins too: a command stands directly below that of its schema parent, a non-root container, and in its mode; when that is named like its own parent, below the command of this one; and at the top, in the mode of its schema parent, when there is no such command. |
| `ModeCursor.CursorIsAnchor` | src/commands/default_cmd.c:79-90 | In a mode that offers the commands below an anchor, the cursor stands on that anchor. |
| `ModeCursor.StepKeepsInStep` | src/commands/default_cmd.c:59-91 | Every operation keeps the mode stack equal to the modes of the list-or-root ancestors of the cursor, the current mode equal to its top, and the cursor in a candidate tree. |
| `ModeCursor.RunStaysInStep` | src/commands/default_cmd.c:59-91 | So does every run. |
| `ModeCursor.TreesAfterStep` | src/commands/default_cmd.c:62-78 | An exit from MODE_CONFIG without uncommitted changes frees all candidate trees, and no other operation frees any. |
| `ModeCursor.TreesFreedByExit` | src/commands/default_cmd.c:62-78 | Over every run, a candidate tree that is gone at the end was freed by such an exit. |
| `ModeCursor.ExitUndoesEntry` | src/commands/default_cmd.c:79-90 | Exiting a list entry restores the very state in which it was entered. |
| `ModeCursor.ExitsUndoEntries` | src/commands/default_cmd.c:79-90 | As many exits as lists were entered restore the state before the first of them. |
| `ModeCursor.ExitsRestoreConfig` | src/commands/default_cmd.c:79-90 | A root entry, n list entries and n + 1 exits end in MODE_CONFIG with an empty stack and no cursor. |
| `ModeCursor.RelativeRoot` | src/commands/yang_core/y_utils.c:63-69 | The walk of `get_relative_path` stops at the anchor of the node. |
| `ModeCursor.Ascend` | src/commands/default_cmd.c:80-88 | The ascent of `exit` stops at the same anchor, or leaves the root. |
| `ModeCursor.Session.EnterRootContainer` | src/commands/yang_core/data_factory.c:223-288 | Entering a root container finds its tree or adds one in front, moves the cursor to the root and pushes its mode. |
| `ModeCursor.Session.EnterListEntry` | src/commands/yang_core/cmd_list.c:65-103 | Entering a list with a child that is no key moves the cursor to the entry with the keys given, below the entries it was in, and pushes its mode; otherwise, or when the entry cannot be made, nothing moves. |
| `ModeCursor.Session.CmdExit` | src/commands/default_cmd.c:59-91 | `exit` with uncommitted changes in MODE_CONFIG changes nothing; without, it frees the trees and returns to MODE_EXEC; elsewhere it pops the mode, moves the cursor up and keeps the trees; and it ends the session exactly from MODE_EXEC. |
| `ModeCursor.Session.SetConfigmode` | lib/libcli/libcli.c:465-489 | Dropping to MODE_CONFIG or MODE_EXEC empties the stack, leaves cursor and trees, and keeps the session in step. |
| `LineEditor.Editor.InsertChar` | lib/libcli/libcli.c:1831-1865 | Insertion below and at capacity, at the end and in the middle, is that of the zipper. |
| `LineEditor.Editor.InsertInside` | lib/libcli/libcli.c:1844-1865 | In the middle the tail moves right; at capacity the last character is dropped and the terminator stays. |
| `LineEditor.Editor.DeleteBack` | lib/libcli/libcli.c:1503-1528 | One deletion moves the tail left and clears the last byte. |
| `LineEditor.Editor.WordBack` | lib/libcli/libcli.c:1477-1491 | How far back-word goes: over blanks, then over a word. |
| `LineEditor.Editor.ClearLineKey` | lib/libcli/libcli.c:1157-1173 | The buffer is zero after having held the terminal output. |
| `LineEditor.Editor.KillToEndKey` | lib/libcli/libcli.c:1561-1575 | Everything after the cursor is gone. |
| `LineEditor.Editor.RecallLine` | lib/libcli/libcli.c:1770-1777 | A history line is copied up to the capacity and measured. |
| `LineEditor.Editor.Handle` | lib/libcli/libcli.c:1473-1865 | Every key keeps the buffer sound (bytes below `l` non-zero, the others zero, cursor within) and does what the zipper does. |
| `LineEditor.Editor.HandleAll` | lib/libcli/libcli.c:1293-1865 | So does every sequence of keys. |
| `LineEditor.PressStaysWithin` | lib/libcli/libcli.c:1831-1858 | No key makes the line longer than 4095 characters. |
| `LineEditor.KeyOnText` | lib/libcli/libcli.c:1473-1865 | What every key does to the text and the cursor position: insertion is one rule for all cases, with what exceeds 4095 characters falling off the end, and each other key deletes, keeps or moves as stated. |
| `LineEditor.MovingKeepsText` | lib/libcli/libcli.c:1782-1829 | Moving the cursor leaves the line as it is. |
| `LineEditor.BackspaceUndoesInsert` | lib/libcli/libcli.c:1831-1865 | Deleting what was just typed restores the line if and only if there was space for it. |
| `LineEditor.WordRemoved` | lib/libcli/libcli.c:1477-1491 | Back-word removes the last word before the cursor and the blanks after it, and nothing else. |
| `LineEditor.TypingEnters` | lib/libcli/libcli.c:1831-1843 | Typing into an empty line enters the text, up to the capacity. |
| `HelpWrap.Measure` | lib/libcli/libcli.c:3340-3357 | How much of the text goes on a line: all of it, up to a line break, up to the last blank that fits, or the full width. |
| `HelpWrap.BestBreakIsUnique` | lib/libcli/libcli.c:3340-3357 | The place where a line ends is determined by the text. |
| `HelpWrap.Pass` | lib/libcli/libcli.c:3334-3366 | A pass makes progress even when it prints no character. |
| `HelpWrap.WrapHelpLine` | lib/libcli/libcli.c:3314-3368 | The loop terminates; its lines are the layout of the wrapping of the text, hold the non-blank characters of name and text in order, and fit 80 columns without a line break in the help part. |
| `HelpWrap.WrappingShowsEverything` | lib/libcli/libcli.c:3314-3368 | The lines hold the non-blank characters of name and text in order; every line but a long name fits 80 columns and has no line break in its help part. |
| `HelpWrap.WordsStayWhole` | lib/libcli/libcli.c:3343-3350 | A line ends inside a word only when it is full and nothing in the available width, nor the place after it, is blank. |
| `HelpWrap.WrappingIsUnique` | lib/libcli/libcli.c:3334-3366 | The wrapping is determined by the text. |
| `Filters.Filter.Apply` | lib/libcli/libcli.c:2168-2238 | What a match, range or count filter does with a line, and its next state. |
| `Filters.RangeState` | lib/libcli/libcli.c:2221-2238 | After any lines the one bit of a range filter says whether some line opened a range that no line since has ended. |
| `Filters.RangeKeepsItsLines` | lib/libcli/libcli.c:2221-2238 | `begin` and `between` keep line i exactly when some j up to i contains the start text and no line from j to before i contains the end text. |
| `Filters.MatchKeepsItsLines` | lib/libcli/libcli.c:2168-2193 | `include` keeps exactly the lines in which the text occurs, and `exclude` the others, in order. |
| `Filters.CountCounts` | lib/libcli/libcli.c:2253-2271 | `count` prints no line and counts those with a character that is not white space. |
| `Filters.Printer.PrintLine` | lib/libcli/libcli.c:2049-2058 | A line runs through the chain until a filter drops it. |
| `Filters.Printer.PrintAll` | lib/libcli/libcli.c:2049-2058 | The printed lines and the states of the filters are those of the stages run one after the other. |
| `Filters.ChainIsComposition` | lib/libcli/libcli.c:3254-3264 | Filtering line by line is the composition of the stages, each fed only what its predecessors kept. |
| `UserOrder.OrderedList.PrintOrder` | src/commands/yang_core/cmd_list.c:12-33 | The entries are printed with the indices 10, 20, 30 and so on. |
| `UserOrder.OrderedList.AddEntry` | src/commands/yang_core/data_factory.c:162-181 | With an index the entry is put immediately before the first sibling printed with a greater index, or stays where it is if there is none; all others keep their order (section 7.7.7.2 of RFC 7950). It fails, and the entry is lost, exactly when that sibling is the entry itself. |
| `UserOrder.PositionIsFirstAbove` | src/commands/yang_core/data_factory.c:163-178 | The sibling that is found is the first one printed with a greater index. |
| `UserOrder.MovedIsPlaced` | src/commands/yang_core/data_factory.c:169-176 | Moving keeps the order of the others and the entry unique. |
| `UserOrder.MovedPosition` | src/commands/yang_core/data_factory.c:169-176 | Where the entry ends up: at the position asked for when it moves up, one before it when it moves down. |
| `UserOrder.NewEntryRefused` | src/commands/yang_core/data_factory.c:169-176 | A new entry is refused exactly when its index points just past the existing ones (or is negative in an empty list). |
| `IdentityHelp.CalculateLength` | src/commands/yang_core/y_utils.c:238-255 | The recursive length is the length of the text that the recursive writer appends. |
| `IdentityHelp.AddIdentities` | src/commands/yang_core/y_utils.c:257-276 | The text of all derived identities is appended, within the buffer whenever it is that much longer. |
| `IdentityHelp.HelpFits` | src/commands/yang_core/y_utils.c:278-311 | The allocation covers the help and its terminator if and only if the leaf has a base (section 9.10.2 of RFC 7950). |
| `IdentityHelp.CreateHelp` | src/commands/yang_core/y_utils.c:278-311 | The buffer holds the description, the heading and the texts of all bases. |
| `IdentityHelp.HelpLists` | src/commands/yang_core/y_utils.c:257-311 | The help is the description, the heading, and one line `module:name` for every identity below a base, depth first. |
| `IdentityHelp.DescendantsAreAll` | src/commands/yang_core/y_utils.c:257-276 | Those are exactly the identities derived in any number of steps. |

## Left out

- Sockets, terminals, prompts, telnet negotiation, idle timeouts, logging, signals: input and output only. The bytes that the editor echoes are not modelled.
- TAB, `?`, end-of-transmission and the password states of the line editor: they follow other buffer rules.
- The completion branches of `cli_int_parse_optargs`, spot checks and transient-mode callbacks; a validator is a function of the word it is given.
- The 128-entry bound of the candidate array in `cli_int_parse_optargs`: the candidates are a sequence.
- The word array of `cli_parse_line` and the list of name/value pairs are sequences that the methods reassign; sharing of their strings is not modelled.
- FoundOptargs.Cli.GetOptargValue: the position of a pair stands for the address of its value.
- Freeing the children and optargs of a command, and nested sibling lists: `CommandList` models the list of one level.
- Abbreviations.BuildShortest: the children of a command are fixed once it is constructed, so a registration between two builds of the cache is not modelled.
- Lookup.Cli.LocateCommand: assumes that siblings of one type and mode have distinguishable names and that commands below one tied to a mode are tied to the same mode, because only then is the cache right after a drop to MODE_CONFIG.
- Buildmode.ReplayIsIdentity: the order between different names becomes that of the optargs. An optional argument as the last word of a stage that is not the last takes the separator as its value and is left to `OptargMatch`.
- Choices and cases (`src/commands/yang_core/cmd_choice.c`), the `print-order` commands, and the show and operational trees: the placement is stated for schemas of containers, lists, leaves and leaf-lists below one root container.
- Unregistering a schema, optargs of generated commands, and their help texts.
- `lysc_path`, `lyd_new_path`, the comparison of path strings in `get_relative_path`, `lyd_diff_tree` and the datastore: a data node is its module, schema path and keys.
- ModeCursor.Session.EnterRootContainer: a root that cannot be created, and a cursor left over from trees that were freed (discarding changes, or a clean exit after a drop), are excluded by `Enabled`.
- Deleting data nodes (`no` commands) and commands on leaves: they do not move modes or cursor as modelled here; deleting the entry under the cursor is not modelled.
- The hash that computes modes, which can collide in 32 bits: modes are an injective function.
- UserOrder.OrderedList.AddEntry: the list is alone under its parent, and the index is the number that `strtol` returned.
- Regular-expression filters and the buffering of partial lines in `_print`: `Filters` starts from whole lines.
- IdentityHelp.CreateHelp: a missing description or base, and failing allocation.
- Allocation failures everywhere, and the C widths of `int` and `size_t`.
