# Verified model of the LED message board

The message board daemon drives a scrolling LED board over a serial line and is operated through a telnet command line.
This project models the three parts of it in which a wrong step is hard to see, and proves what they promise:

* **libcli, the command interpreter.** The abbreviation index cached in every command, the tokenizer, dispatch, the
  filter pipeline, completion, the line editor, the telnet and arrow-key decoding, the history, and the session machine
  with its logins, privileges and modes.
* **The driver of the board.** Escape rewriting, the four overlapping packets and their checksums, and the agreement
  between what the host records and what the board shows.
* **Serial line framing.** `readline` and `readlines` over a port that may time out.

## How it is built

Every part has two sides. One is imperative and follows the source: `Command` nodes whose `uniqueLen` is rewritten in
place, a `Cli` whose handlers update its fields, a `LineEditor` over a 4096-byte array, a `HistoryRing` over 256 slots,
a `DriverDX` filling packet arrays, a `Port` read byte by byte. The other is a description that does not mention the
mechanism: commands are resolved by searching the siblings for ambiguity, a line is a pair of strings, a filter
transforms a whole listing, a telnet stream is a list of items. Each method is proved to do what its description says,
and the properties are proved of the description, for every input and every run. Among them are laws that say what a
command, a key, a filter or a request comes to without mentioning the functions that describe it.

| file | contents |
|---|---|
| `Text.dfy`, `Wrappers.dfy` | C string functions: case folding, prefixes, shared prefixes; optional values |
| `CommandTree.dfy`, `AbbrevIndex.dfy` | the command nodes and their cached abbreviation lengths; what a cached length means |
| `Tokenizer.dfy`, `Conservation.dfy` | splitting a line into words; what is kept of the line and what is lost |
| `Pipeline.dfy`, `FilterLaws.dfy` | the filter chain; which filters a command line puts in force and what reaches the client |
| `Interpreter.dfy`, `Libcli.dfy` | the session as a function of its state, and libcli's code for it |
| `DispatchLaws.dfy`, `Outcomes.dfy` | what a line runs, what it says, and what each command leaves of the session |
| `Completion.dfy`, `CompletionLaws.dfy` | what TAB offers among siblings, and for whole lines |
| `SessionSafety.dfy`, `SessionEffects.dfy`, `Logins.dfy` | what a session can never do, what follows each command in it, who is let in |
| `Terminal.dfy`, `Editing.dfy`, `LineEditor.dfy` | the remote screen, keys acting on a zipper, the buffer |
| `Telnet.dfy`, `History.dfy` | the byte front end, the Up and Down keys |
| `CommandLoop.dfy`, `LoopLaws.dfy` | all of these together: from the bytes received to the commands run, and what each key does |
| `Packets.dfy`, `LedDriver.dfy`, `LedBoard.dfy` | escapes, packets, the board |
| `SerialLines.dfy` | line framing |
| `MessageBoardCli.dfy` | the command tree the daemon registers, and the general laws applied to it |

## What the source demands of its callers

* Command names are non-empty, lower case, and distinct among the siblings of one mode (`WellNamed`), and a subcommand
  is registered for its parent's mode or for any (`Scoped`). Both hold of the daemon's tree
  (`MessageBoardCli.TreeIsWellRegistered`). Without the first the index and the search differ, and
  `AbbrevIndex.IndexIsAmbiguitySearch` says exactly when.
* No command is registered while `cli_loop` runs, so the tree is fixed and only `uniqueLen` changes.
* For the dispatch laws, registered callbacks do not return `CLI_ERROR_ARG`, which libcli uses itself to mean that no
  command took a word.
* For the safety of sessions, every command asks for the privilege its callback is kept for, only callbacks kept for
  the privileged change to a mode other than exec, and none sets privilege itself (`WellGuarded`, `Tame`).
* The edited line fits the buffer (`Fits`): three times its length when it is cleared, since `cli_clear_line` writes
  what it sends into the line's own buffer, and two bytes to spare otherwise. `Editing.ShortLinesFit` gives a bound on
  the keys typed that is enough.

## Where the code departs from what one would expect

The code is modelled as it is. Where that breaks a law one would want, the exact condition is proved, or a concrete
input.

* Names registered with capitals can hide a clash: the index compares letters exactly, lookup ignores case
  (`AbbrevIndex.IndexIsAmbiguitySearch`, `AbbrevIndex.MixedCaseIsAmbiguous`).
* A quote mark in the middle of a word throws away the part of the word before it (`Tokenizer.QuoteDropsWord`); the
  words put together are the text of the line if and only if there is none (`Conservation.ParseKeepsText`). So a
  quoted word does not survive if it holds a quote mark, even of the other kind (`Tokenizer.RoundTrip`). A line that
  begins with a pipe has an empty first word.
* A completion shorter than the word it replaces leaves the end of that word behind, on the screen and in the buffer,
  where it is run with the line: the screen stays in step and the buffer sound if and only if it is not shorter
  (`Editing.KeyKeepsStep`, `LineEditing.LineEditor.PressComplete`). Typing "show" with its quotes and TAB is enough
  (`MessageBoardCli.QuotedShowIsNotCovered`).
* A filter list given up, for a missing filter, a question mark or an ambiguous name, leaves in force the filters before
  that point, or, if there are none, those an earlier command left (`FilterLaws.FiltersLeftBehind`,
  `FilterLaws.StaleCount`, `FilterLaws.StillStale`).
* No filter name is ever offered for completion, because the word compared is the pipe itself
  (`Completion.NoFilterIsEverOffered`).
* Completion does not descend through a full name that begins a sibling's name, though dispatch does
  (`Completion.DescendsUnlessPrefix`, `Completion.FullNameStopsCompletion`).
* The content of a telnet subnegotiation reaches the editor, and a negotiation of an option from 251 up is not stripped
  cleanly (`Telnet.SubnegotiationLeaks`, `Telnet.NegotiationIsStripped`).
* Ctrl-Z in config mode clears the bytes of the line but keeps its length (`LineEditing.LineEditor.PressCtrlZ`).
* Once the history is full, immediate repeats are remembered too (`History.HistoryIsLastOnes`).
* `setMessage` lets position 0 through, which has no message and no bit (`LedDriver.GuardMeaning`).
* The run mask is one byte, so a message above the eighth is never shown (`LedBoard.HostAndBoardAgree`).

## Model

| member | source | states |
|---|---|---|
| CommandTree.BuildShortest | src/libcli/libcli.c:298-335 | whatever the index held, every entry that lookup can reach becomes the one for the current mode and privilege, and every entry below a hidden command stays as it was |
| CommandTree.LongestClash | src/libcli/libcli.c:309-328 | the sibling loop finds one more than the longest prefix shared with a visible sibling |
| CommandTree.SharedLength | src/libcli/libcli.c:318-325 | the character loop finds the exact length of the shared prefix, letters compared as they are |
| AbbrevIndex.SharedBelowMeaning | src/libcli/libcli.c:309-328 | an index entry exceeds n exactly when some other visible sibling shares n letters |
| AbbrevIndex.IndexIsAmbiguitySearch | src/libcli/libcli.c:298-335 | the two comparisons against an entry accept the same words as a search for ambiguity, for every word, if and only if the case of the names hides no clash |
| AbbrevIndex.MatchIsNames | src/libcli/libcli.c:857-866 | with lower-case names an entry of a visible command accepts a word exactly when the word is a prefix of its name, ignoring case, and is its whole name or a prefix of no other visible name |
| AbbrevIndex.HiddenMatchIsWholeName | src/libcli/libcli.c:307-311 | an entry of a command of another mode accepts its whole name and nothing else |
| AbbrevIndex.AtMostOneNamed | src/libcli/libcli.c:857-866 | a word names at most one visible command of a mode, even where one name begins another |
| AbbrevIndex.WholeNameAlwaysReaches | src/libcli/libcli.c:857-866 | the full name of a visible command always names it |
| AbbrevIndex.CaseIsIgnored | src/libcli/libcli.c:857-866 | a word names a command exactly when the same letters in any other case do |
| AbbrevIndex.MixedCaseIsAmbiguous | src/libcli/libcli.c:322-323 | two names that differ in case only in their shared prefix: the index accepts a word that abbreviates both |
| Tokenizer.ParseLine | src/libcli/libcli.c:733-794 | the loop ends on every line, although not every turn advances, and gives the words of the specification scanner, fewer than max_words of them |
| Tokenizer.RoundTrip | src/libcli/libcli.c:733-794 | any plain, quoted and pipe tokens up to the limit, printed with any white space between, parse back to their values if and only if no quoted word holds a quote mark of either kind; a leading pipe adds one empty word |
| Tokenizer.JoinRoundTrip | src/libcli/libcli.c:796-822 | parsing inverts join_words on plain words, quoted words and pipes, with the same condition |
| Tokenizer.SeparatorsAndQuotes | src/libcli/libcli.c:751-788 | exactly blanks, tabs and the four other white space characters, and pipes, separate words, and marks of both kinds quote |
| Tokenizer.ParsedHoldNoQuotes | src/libcli/libcli.c:751-775 | no word of any line holds a quote mark |
| Conservation.ParseKeepsText | src/libcli/libcli.c:733-794 | below the word limit, for any line, the words put together are its text, without quote marks and unquoted white space, less the words that are cut; so they are its text if and only if no quote mark but a closing one comes in the middle of a word |
| Conservation.DroppedMeaning | src/libcli/libcli.c:767-771 | nothing is dropped exactly when no quote mark cuts a word |
| Conservation.ParseConserves | src/libcli/libcli.c:733-794 | on any line without quotes the words put together are the line without its white space, or its beginning when the limit cuts it off |
| Conservation.CutExample | src/libcli/libcli.c:767-771 | a line that is cut: typed ab"cd", the word is cd |
| Tokenizer.QuoteDropsWord | src/libcli/libcli.c:767-771 | on any line, a word that is open when a quote mark that does not close it comes is scanned as if it had never been |
| Text.ContainsMeaning | src/libcli/libcli.c:2382 | what a filter looks for is in a line exactly when it stands somewhere in it, at its start or anywhere else |
| Pipeline.Fusion | src/libcli/libcli.c:2206-2210 | for any filters and lines, the line-at-a-time chain that stops at the first rejection prints the same lines, and leaves the same filter states, as running each filter over the whole listing and composing |
| Pipeline.RangeKeeps | src/libcli/libcli.c:2449-2473 | begin and between print exactly the lines that lie in a range: opened by a line in which the one text stands anywhere, and not closed before them by one in which the other does |
| Pipeline.BeginIsSuffix | src/libcli/libcli.c:2449-2473 | begin prints the listing from the first line in which its text stands anywhere |
| Pipeline.IncludeExcludePartition | src/libcli/libcli.c:2363-2399 | include keeps the lines in which its text stands anywhere, exclude the others, each in order |
| Pipeline.GrepKeeps | src/libcli/libcli.c:2363-2399 | grep and egrep keep the lines their expression accepts, in order |
| Pipeline.CountCounts | src/libcli/libcli.c:2492-2513 | a count passes nothing on and has counted the lines that reached it with anything on them but white space |
| Pipeline.CountAtTheEnd | src/libcli/libcli.c:990-998 | a count behind any other filters makes the listing the single figure of the non-blank lines that get through them |
| Pipeline.CountsInOrder | src/libcli/libcli.c:990-998 | of two counts the first has the figure and the second zero, and the figures come in that order |
| Pipeline.SplitIsExact | src/libcli/libcli.c:2199-2225 | the lines a text is cut into hold no line feed and, joined with line feeds, are the text |
| Pipeline.Printer.PushLine | src/libcli/libcli.c:2206-2210 | the filter loop is the chain: same verdict, same new state of every filter |
| Pipeline.Printer.Print | src/libcli/libcli.c:2199-2225 | a printed text goes line by line through the filters in force; what passes is appended to the output |
| Pipeline.Printer.Close | src/libcli/libcli.c:990-998 | the clean-up empties the chain and prints the figure of every count in it, in order |
| FilterLaws.MarksAreThePipes | src/libcli/libcli.c:1050-1056 | the marks are exactly the words that begin with a pipe, unless the first word does, and then there are none; no pipe is among the words of the command |
| FilterLaws.WordsAreShared | src/libcli/libcli.c:918-942 | no word is lost or moved: the words of the command, then every pipe with the words of its filter, are the words of the line |
| FilterLaws.IncludeFilter | src/libcli/libcli.c:2276-2299 | every abbreviation of include, down to i, keeps lines holding its arguments joined |
| FilterLaws.ExcludeFilter | src/libcli/libcli.c:2276-2299 | every abbreviation of exclude, down to ex, drops them |
| FilterLaws.BeginFilter | src/libcli/libcli.c:2407-2447 | beg, begi and begin start at the arguments joined |
| FilterLaws.BetweenFilter | src/libcli/libcli.c:2407-2447 | bet up to between run from the first argument to the rest joined |
| FilterLaws.CountFilter | src/libcli/libcli.c:2475-2490 | every abbreviation of count starts counting at zero |
| FilterLaws.GrepFilter | src/libcli/libcli.c:2276-2361 | every abbreviation of grep and egrep, down to g and e, filters by the expression, or is refused if it does not compile |
| FilterLaws.FilterRefusals | src/libcli/libcli.c:963-976 | filters with too few words or too many, and names that abbreviate no filter, are refused |
| FilterLaws.ChainIsAsTyped | src/libcli/libcli.c:918-984 | when the callback is reached the chain is the filters typed, in order, each freshly started |
| FilterLaws.FiltersLeftBehind | src/libcli/libcli.c:927-961 | whatever was in force before, filters are in force after a command if and only if its filter list was given up (missing, help or ambiguous) behind filters that all took, or at once with filters left from before |
| FilterLaws.StaleCount | src/libcli/libcli.c:927-931 | a count followed by an empty pipe is left in force |
| FilterLaws.StillStale | src/libcli/libcli.c:927-931 | and an empty pipe alone, typed next, leaves it there |
| FilterLaws.FilteredListing | src/libcli/libcli.c:918-1000 | what a registered command prints reaches the client as the composed filters of its line, then their figures, and no filter remains |
| Interpreter.ChooseCurrent | src/libcli/libcli.c:868-869 | a word that names a command of the current mode is taken by it, whatever else it names |
| Interpreter.ChooseConfig | src/libcli/libcli.c:1018-1024 | failing that, from a submode a full name of a command of config mode is taken by it, in config mode |
| Interpreter.ChooseAny | src/libcli/libcli.c:1025-1029 | failing both, a word that names a command of any mode is taken by it |
| Interpreter.ChosenIsVisible | src/libcli/libcli.c:857-1029 | whatever takes a word is visible in the mode the choice leads to, which is the current one or config mode from a submode |
| Interpreter.NamedIsChosen | src/libcli/libcli.c:857-1029 | a word that names a command is taken by it exactly when no command of a mode that comes first has that name |
| Interpreter.ChosenIsMeant | src/libcli/libcli.c:857-1029 | so a word is taken by a command if and only if it names it unambiguously and unshadowed, or in a submode spells out a command of config mode and names none of the submode |
| Libcli.FreshBelow | src/libcli/libcli.c:330-331 | a fresh index is fresh at every list of siblings reached through visible commands, though hidden ones hold stale entries |
| Libcli.DropKeepsPath | src/libcli/libcli.c:1018-1024 | dropping from a submode to config mode keeps visible every command on the path to one of config mode |
| Libcli.MatchMeaning | src/libcli/libcli.c:857-866 | against a fresh index the comparisons mean: named in the current mode, named in any mode, or named in full for config mode |
| Libcli.Cli.constructor | src/libcli/libcli.c:1279-1322 | a session starts unprivileged, in exec mode, at the login prompt unless no login is required, with a fresh index |
| Libcli.Cli.SetPrivilege | src/libcli/libcli.c:337-349 | sets the privilege and nothing else of the session, and the index is fresh for it |
| Libcli.Cli.SetConfigmode | src/libcli/libcli.c:358-385 | sets the mode and nothing else of the session, and the index is fresh for it |
| Libcli.Cli.AskForInput | src/libcli/libcli.c:2575-2605 | a request remembers the state it was made in, and one made during another remembers the first |
| Libcli.Cli.Invoke | src/libcli/libcli.c:505-592 | a built-in or registered callback does what the session function says, and outright: disable, quit and exit from exec mode drop privilege and mode, exit leaves one mode, enable asks for a password if there is one to ask for, and the index is fresh |
| Libcli.Cli.Lookup | src/libcli/libcli.c:857-1031 | one pass over the cached lengths makes the choice a search for ambiguity would make among current mode, config mode and any |
| Libcli.Cli.SetupFilters | src/libcli/libcli.c:918-985 | the filter loop builds the specified chain in place of whatever was left behind, or stops where specified with the specified chain |
| Libcli.Cli.HelpList | src/libcli/libcli.c:833-855 | a question mark lists the visible commands that begin as asked and have a callback or subcommands, in order |
| Libcli.Cli.FindCommand | src/libcli/libcli.c:824-1035 | ends, and does what the recursive search without an index does: same callback, arguments, filters, messages and result; the index is fresh for whatever mode and privilege the callback chose |
| Libcli.Cli.RunCommand | src/libcli/libcli.c:1037-1071 | strips, tokenizes, finds the pipes and dispatches as specified; only a quit result ends the session |
| Libcli.Cli.CheckUsers | src/libcli/libcli.c:2030-2039 | the loop over the users finds whether one has this name and a matching password |
| Libcli.Cli.Submit | src/libcli/libcli.c:2007-2112 | what a line does in each state: login, password, enable password, request, command |
| Libcli.Cli.CtrlC | src/libcli/libcli.c:1537-1562 | gives up a request and restores the state it was made in; otherwise changes nothing |
| Libcli.Cli.CtrlZ | src/libcli/libcli.c:1695-1712 | leaves any mode for exec, except during a request |
| Libcli.Cli.GetCompletions | src/libcli/libcli.c:1073-1146 | reading the cached lengths, offers what the search among visible siblings offers, up to the limit |
| Libcli.Cli.Loop | src/libcli/libcli.c:1271-2126 | over any inputs the session goes through the states of the specification, and the index is fresh at the end of every one |
| DispatchLaws.DispatchRunsTarget | src/libcli/libcli.c:824-1035 | a line runs at most one callback: the one the words name, or after a word nothing takes the deepest on the path, with exactly the words between it and the first pipe as arguments; if there is none, nothing runs and only messages and mode change |
| DispatchLaws.UnambiguousSpellings | src/libcli/README:26-28 | any other unambiguous spellings, in any case, of the words down to the command that runs change nothing: callback, arguments, filters, messages |
| DispatchLaws.RespellingChangesNothing | src/libcli/libcli.c:824-1035 | the dispatch depends on those words only through the commands that take them |
| DispatchLaws.LongerSpelling | src/libcli/README:26-28 | every longer spelling, in any case, of an unambiguous abbreviation names the same command, and is taken by it if and only if it does not, in a submode, spell out a command of config mode |
| Outcomes.DispatchIsClosed | src/libcli/libcli.c:824-1035 | everything said and done for a line, in closed form from the walk its words take: the mode it ends in, help, a complaint for every word given up, the last first, and the run of its target |
| Outcomes.HelpListsAll | src/libcli/libcli.c:846-853 | help lists every visible command that begins as asked and leads somewhere, each in its place, and nothing else |
| Outcomes.LeavingOutcome | src/libcli/libcli.c:527-579 | a line that runs quit, disable or exit: the privilege, mode and state it leaves, for exit from exec mode, config mode and a submode, and whether the session is over |
| Outcomes.EnableOutcome | src/libcli/libcli.c:505-525 | a line that runs enable leaves an unprivileged session asking for the password, if there is one, and privileged if not |
| Outcomes.OtherOutcome | src/libcli/libcli.c:535-592 | configure terminal changes the mode alone, help and history change nothing |
| Outcomes.UserOutcome | src/libcli/libcli.c:989-990 | a registered callback gets its arguments, and of what it asks for the last privilege, the last mode and a request are in force after it |
| Outcomes.WordsAreDispatched | src/libcli/libcli.c:1037-1071 | a line of up to 127 words without quotes and pipes is dispatched word for word as typed, and ends the session exactly when the command quits |
| Outcomes.EnteredWordsAreDispatched | src/libcli/libcli.c:2102-2109 | entered while commands are typed it is remembered, unless it asks for help or the history, and dispatched |
| Completion.LongEnoughIsAlone | src/libcli/libcli.c:1122-1135 | completion descends into a command exactly when it is the only visible sibling the word begins |
| Completion.DescendsUnlessPrefix | src/libcli/libcli.c:1130-1133 | that is where dispatch would go, except through a full name that begins a sibling's |
| Completion.OfferedResolves | src/libcli/libcli.c:1119-1142 | every name offered, typed in full after the earlier words, resolves to the very command it was offered for, if and only if no command of a mode that comes first has the same name |
| Completion.OfferedAll | src/libcli/libcli.c:1119-1142 | the offer is every visible sibling the last word begins, each once and in order |
| Completion.OfferedOnly | src/libcli/libcli.c:1119-1142 | nothing is offered but names of visible siblings that the last word begins |
| Completion.NoFilterIsEverOffered | src/libcli/libcli.c:1092-1117 | behind a pipe nothing is ever offered |
| Completion.CompletionResolves | src/libcli/libcli.c:1073-1146 | every name offered for a line, typed in full in place of the last word, resolves to a command of that name, unless a command of a mode that comes first has the same name |
| Completion.FullNameStopsCompletion | src/libcli/libcli.c:1130-1133 | a full name that begins a visible sibling's is taken by dispatch, but completion does not go past it |
| CompletionLaws.CompletionsAreAll | src/libcli/libcli.c:1073-1146 | on a whole line whose earlier words each begin the name of one visible command alone, each below the one before, every command below them that fits the last word is offered in its place, and as many names as fit, up to the limit |
| CompletionLaws.NothingIsOffered | src/libcli/libcli.c:1119-1142 | where some earlier word begins the name of none or of several, nothing is |
| CompletionLaws.TypedLineOffersAll | src/libcli/libcli.c:1073-1146 | so for words as they are typed, the last of them begun or not |
| SessionSafety.KnownUserMeaning | src/libcli/libcli.c:2030-2039 | a login is known exactly when some user has that name and a password that matches |
| SessionSafety.DispatchSafe | src/libcli/libcli.c:824-1035 | a command line keeps the session invariant: privilege only in the enable state or in a request made there, other modes only with privilege, no request nested in a request |
| SessionSafety.SubmitSafe | src/libcli/libcli.c:2007-2110 | any line in any state keeps it |
| SessionSafety.SessionIsSafe | src/libcli/libcli.c:1316-1322 | every state any inputs lead to satisfies it |
| SessionSafety.NothingRunsUnauthorized | src/libcli/libcli.c:2007-2110 | whatever is typed, each command that ran was preceded by a matching login and, if it asks for privilege or its callback is kept for the privileged, by a login, then a matching enable password, and no drop of privilege since |
| SessionEffects.CommandsAreFollowed | src/libcli/libcli.c:505-592 | whatever is typed, to any host: each command that ran is followed at once by the changes of privilege and mode it stands for, and after quit, or exit from exec mode, there is nothing more |
| SessionEffects.DisabledUntilElevated | src/libcli/libcli.c:527-533 | in any session, between a disable and a later command that asks for privilege or is kept for the privileged, a matching enable password was given |
| SessionEffects.ExitsLeaveOneMode | src/libcli/libcli.c:566-579 | in any session, exit is followed by config mode from a submode, by exec mode from config mode, and by no other command from exec mode |
| Logins.PasswordForms | src/libcli/libcli.c:1236-1251 | how plain, {crypt} and $1$ passwords are compared, in both directions |
| Logins.LoginOutcome | src/libcli/libcli.c:2007-2057 | from the start a name and a password let a user in, unprivileged, if and only if the password fits the name; otherwise both are asked for again |
| Logins.ElevationOutcome | src/libcli/libcli.c:2061-2087 | an enable password makes the session privileged if and only if it matches; otherwise it goes on as it was |
| Logins.AnswerOutcome | src/libcli/libcli.c:2088-2099 | an answer is taken by the callback back in the state the request was made in |
| Logins.InterruptOutcome | src/libcli/libcli.c:1537-1562 | a request given up with ^C leaves the session as it was but for what else the callback asked for |
| Logins.EmptyLine | src/libcli/libcli.c:2007-2104 | an empty line is taken neither for a user name nor for a command |
| Terminal.FeedText | src/libcli/libcli.c:1980-1986 | printable bytes overwrite the row from the cursor on |
| Terminal.FeedBacks | src/libcli/libcli.c:1586-1587 | backspaces move the cursor and change nothing |
| Editing.StemMeaning | src/libcli/libcli.c:1753-1760 | a completion keeps the line up to and with its last space or pipe |
| Editing.KeyKeepsStep | src/libcli/libcli.c:1564-1997 | after any one key the bytes sent leave the terminal in step, showing prompt, edited line and blanks, cursor in place, if and only if a completion covers and what is put in is printable; printable but not covering, what it left over is shown behind the line |
| Editing.ScreenEqualsBuffer | src/libcli/libcli.c:1195-1212 | over any keys the screen equals the buffer after every one of them if and only if every completion covers the word it replaces and all that is put in is printable |
| Editing.StartsInStep | src/libcli/libcli.c:1353-1387 | so it does when a line is started |
| Editing.ShortLinesFit | src/libcli/libcli.c:1203-1210 | keys other than completions and help never outgrow the buffer while line, recalled entries and number of keys stay within a third of it |
| Editing.KillWordTakesOneWord | src/libcli/libcli.c:1569-1585 | ^W takes exactly the spaces before the cursor and then the non-spaces, and nothing after the cursor |
| Editing.BellRings | src/libcli/libcli.c:1590-1594 | a backspace with nothing before it, and a TAB without a single completion, ring the bell |
| LineEditing.LineEditor.TypeChar | src/libcli/libcli.c:1947-1997 | a character goes in at the cursor, at the end or in the middle; the buffer is the zipper's text and zeros |
| LineEditing.LineEditor.DeleteOne | src/libcli/libcli.c:1602-1625 | one turn of the deletion loop removes the byte before the cursor and rewrites what follows |
| LineEditing.LineEditor.PressKillWord | src/libcli/libcli.c:1564-1628 | ^W on the buffer is ^W on the zipper |
| LineEditing.LineEditor.ClearLine | src/libcli/libcli.c:1195-1212 | sends the blanks and backspaces that wipe the line and leaves the whole buffer zero |
| LineEditing.LineEditor.PressKillEnd | src/libcli/libcli.c:1662-1680 | ^K zeroes and blanks what follows the cursor |
| LineEditing.LineEditor.Move | src/libcli/libcli.c:1891-1945 | cursor keys change the split of the line and nothing of its text |
| LineEditing.LineEditor.PressRecall | src/libcli/libcli.c:1878-1886 | a history entry replaces the line and nothing of the old one remains |
| LineEditing.LineEditor.PressComplete | src/libcli/libcli.c:1750-1766 | a single completion replaces the last word and adds a space; the buffer then holds the line and what was not covered, and is sound if and only if the completion covers the word |
| LineEditing.LineEditor.PressCompleteSome | src/libcli/libcli.c:1782-1819 | several completions turn the last word into the prefix they share, with the same condition |
| LineEditing.CommonPrefixMeaning | src/libcli/libcli.c:1793-1817 | that prefix begins every completion and is the longest that does |
| LineEditing.LineEditor.PressQuestion | src/libcli/libcli.c:1988-1995 | on a command line, the line is run with the question mark and put back without it, exactly as it was |
| LineEditing.LineEditor.PressAll | src/libcli/libcli.c:1389-1997 | over any keys up to the first completion that does not cover, the buffer follows the zipper and the bytes sent are those replayed on the screen; every byte from its length on is zero if and only if every completion covers |
| LineEditing.LineEditor.PressCtrlZ | src/libcli/libcli.c:1695-1712 | Ctrl-Z in config mode leaves a sound buffer if and only if the line was empty |
| Telnet.FrontEnd.Receive | src/libcli/libcli.c:1467-1535 | one turn of the loop is one step of the telnet decoder and then, if a byte comes out, one of the arrow decoder |
| Telnet.FrontEnd.ReceiveAll | src/libcli/libcli.c:1455-1535 | decoding both at once in one loop is decoding telnet first and arrow keys after |
| Telnet.StripInverts | src/libcli/libcli.c:1461-1482 | data with 255 doubled, two-byte commands and negotiations mixed in, comes out as exactly the data |
| Telnet.NegotiationIsStripped | src/libcli/libcli.c:1467-1482 | a negotiation vanishes if and only if its option code is below 251 |
| Telnet.SubnegotiationLeaks | src/libcli/libcli.c:1467-1482 | the content of a subnegotiation, whatever it is, is delivered as typed, so only an empty one vanishes |
| Telnet.ArrowsInvert | src/libcli/libcli.c:1484-1535 | keys typed come out as their control codes, arrows and plain keys and returns mixed |
| Telnet.OthersAreSwallowed | src/libcli/libcli.c:1484-1535 | escape sequences of other keys are swallowed whole, NUL and line feed dropped, and every other byte delivered |
| Telnet.TypedIsSeen | src/libcli/libcli.c:1455-1535 | end to end the editor sees the keys typed and nothing else, with telnet commands even inside an arrow key's bytes |
| Telnet.LinesAreSubmitted | src/libcli/libcli.c:1521-1529 | CR LF, CR NUL and bare CR each end exactly one line: decoded, with telnet commands mixed in anywhere, the lines typed are the lines the editor is given |
| History.HistoryRing.Add | src/libcli/libcli.c:701-721 | adding keeps the occupied slots a gap-free prefix and changes the list as specified, dropping the oldest when full |
| History.HistoryRing.AddAll | src/libcli/libcli.c:701-721 | over any lines the slots hold what the list of remembered lines holds |
| History.HistoryRing.Up | src/libcli/libcli.c:1838-1855 | one entry back, around the occupied slots |
| History.HistoryRing.Down | src/libcli/libcli.c:1856-1874 | one entry on, around the occupied slots |
| History.StepsAroundCircle | src/libcli/libcli.c:1831-1877 | Up and Down are one less and one more, modulo the number of entries |
| History.UpDownUndo | src/libcli/libcli.c:1831-1877 | Up and Down undo each other, wherever they start |
| History.HistoryIsUniq | src/libcli/libcli.c:701-721 | until the slots run out the history is what was entered without immediate repeats, ignoring case |
| History.UniqHasNoRepeats | src/libcli/libcli.c:708-712 | so no two neighbours in it are equal ignoring case |
| History.HistoryIsLastOnes | src/libcli/libcli.c:714-720 | from then on it is the last 256 of those and of every later line, repeats included |
| History.HistoryIsBounded | src/libcli/libcli.c:701-721 | it never exceeds 256 entries |
| CommandLoop.Loop.Press | src/libcli/libcli.c:1521-1997 | each byte the decoders let through does what it asks for: an edit, a recall, a completion, help, the line run, config mode left or the end |
| CommandLoop.Loop.Serve | src/libcli/libcli.c:1389-2126 | bytes from the socket, in the command states, do what the decoded bytes ask for one after another, with buffer, history and index sound throughout |
| LoopLaws.LeftKey | src/libcli/libcli.c:1891-1904 | the bytes of a left arrow, and ^B, move one byte from before the cursor to behind it |
| LoopLaws.RightKey | src/libcli/libcli.c:1891-1916 | those of a right arrow, and ^F, move one back |
| LoopLaws.ArrowsUndo | src/libcli/libcli.c:1891-1916 | so the arrows undo each other, except at the ends of the line |
| LoopLaws.EndKeys | src/libcli/libcli.c:1918-1945 | ^A and ^E put all of the line behind the cursor or before it |
| LoopLaws.BackspaceKeys | src/libcli/libcli.c:1564-1628 | backspace and delete take the byte before the cursor |
| LoopLaws.KillKeys | src/libcli/libcli.c:1649-1680 | ^K takes what follows the cursor and ^U the line |
| LoopLaws.KillWordKey | src/libcli/libcli.c:1564-1628 | ^W takes the word before the cursor and the spaces behind it |
| LoopLaws.IdleKeys | src/libcli/libcli.c:1537-1647 | ^L and ^C leave the line and the session as they are |
| LoopLaws.CharacterKey | src/libcli/libcli.c:1947-1997 | a printable byte goes in at the cursor |
| LoopLaws.ReturnKey | src/libcli/libcli.c:1521-1529 | return gives the session the whole line, wherever the cursor is, and keeps it in the history |
| LoopLaws.QuestionKey | src/libcli/libcli.c:1988-1995 | a question mark at the end gives it the line with the mark and leaves the line to be typed on |
| LoopLaws.UpKey | src/libcli/libcli.c:1831-1888 | an up arrow, and ^P, put the entry before in place of the line |
| LoopLaws.DownKey | src/libcli/libcli.c:1831-1888 | a down arrow, and ^N, the one after |
| LoopLaws.TabKey | src/libcli/libcli.c:1714-1829 | TAB puts the single completion and a space in place of the last word, or once what several share, and otherwise leaves the line alone |
| LoopLaws.LeaveKey | src/libcli/libcli.c:1695-1712 | ^Z leaves any mode for exec |
| LoopLaws.HangUpKey | src/libcli/libcli.c:1682-1693 | ^D ends the session on an empty line and does nothing on another |
| LoopLaws.SentTogether | src/libcli/libcli.c:1389-1535 | keys sent together do what they do one after another |
| LoopLaws.CutThenReturn | src/libcli/libcli.c:1661-1904 | an end cut off with a left arrow and ^K is not run: the session is given what was before it |
| LoopLaws.HistoryOfRun | src/libcli/libcli.c:2102-2106 | after any bytes the history is that of the lines the session was given, without those that are empty, ask for help or ask for the history |
| CommandLoop.RunIsSession | src/libcli/libcli.c:1389-2112 | for any bytes, the session is the one over the texts of the edited line at each return, each with its question mark where help was asked |
| CommandLoop.TypedLinesAreRun | src/libcli/libcli.c:1455-2112 | plain lines typed at a telnet client, commands and negotiations mixed in anywhere and any kind of return, are run one after another exactly as typed, for as long as commands are served |
| MessageBoardCli.TreeIsWellRegistered | src/lmbcli.cpp:346-366 | the daemon's commands and libcli's own meet every condition on registration |
| MessageBoardCli.PortAmongPorts | src/lmbcli.cpp:357-358 | show port reaches port although ports begins with it, and show po reaches neither |
| MessageBoardCli.QuotedShowIsNotCovered | src/libcli/libcli.c:1750-1766 | typed "show" with its quotes, TAB finds show alone, which leaves the closing quote in the line |
| MessageBoardCli.ShowPoOffers | src/lmbcli.cpp:357-358 | behind show po, TAB offers ports and port |
| MessageBoardCli.SaveIsKept | src/lmbcli.cpp:353 | save names a command to the privileged and none to others |
| MessageBoardCli.ExitIsEverywhere | src/libcli/libcli.c:566-579 | exit is understood in every mode, whatever the privilege |
| MessageBoardCli.EnableThenPassword | src/libcli/libcli.c:505-525 | enable and a password make a session of the daemon privileged if and only if the password matches |
| MessageBoardCli.DisableThenSave | src/libcli/libcli.c:527-533 | disable and then save, typed by the privileged: save is refused as unknown, and the record holds nothing else |
| MessageBoardCli.DaemonSessionsAreSafe | src/lmbcli.cpp:342-372 | in a session of the daemon nothing runs before a login, and the callbacks of set and its subcommands, save, disable and configure terminal run only after a login and then the enable password |
| Packets.RewriteAt | src/Driver-DX.cpp:162-173 | each byte of the rewritten message, by position: a mark, a code, or itself |
| Packets.PassesAreOneRewrite | src/Driver-DX.cpp:162-173 | one replacement after another over the whole message comes to a single left-to-right pass with all escapes at once |
| Packets.AnyOrder | src/Driver-DX.cpp:162-173 | the order of the replacements does not matter |
| Packets.UnescapeInverts | src/Driver-DX.cpp:162-173 | a message without the mark byte is recovered from its rewriting |
| Packets.EscapesAreSeparate | src/Driver-DX.cpp:163-173 | the eleven escapes meet the condition for all this: no letter is a code, none is repeated, none is a tilde or mark |
| Packets.TranslationIsFaithful | src/Driver-DX.cpp:162-173 | so what setMessage sends is that one pass, and can be read back |
| Packets.EscapesByLetter | src/Driver-DX.cpp:163-173 | what a tilde and each of the eleven letters are sent as, and that a tilde before any other byte is sent as it is |
| LedDriver.DoChkSum | src/Driver-DX.cpp:30-38 | stores the sum modulo 256 of bytes 1 to length - 1 at length and changes nothing else |
| LedDriver.InsertMessage | src/Driver-DX.cpp:39-72 | exactly which bytes each part writes, the unsigned subtraction that wraps and the byte under the checksum included |
| LedDriver.MakePacket | src/Driver-DX.cpp:177-198 | each of the four arrays ends up as header, slot, offset, its 64 bytes of the payload, and the checksum of the rest |
| LedDriver.PacketBytes | src/Driver-DX.cpp:177-198 | the bytes of each packet as numbers: header, slot, offset, the fixed ones and the length, the text, zeros, and the sum of it all modulo 256 |
| LedDriver.SetSends | src/Driver-DX.cpp:177-236 | the four packets of a message go out in order, to its slot, and the mask after them |
| LedDriver.GuardMeaning | src/Driver-DX.cpp:146-149 | the guard lets through exactly positions 0 to messages |
| LedDriver.DriverDX.SetMessage | src/Driver-DX.cpp:144-241 | for any position but 0: accepts exactly positions 1 to messages; records the message, whole up to 250 bytes and the first 250 of a longer one, and whether there is any; sends the four packets of the translated text, if any, and the run mask |
| LedBoard.ReceivePacket | src/Driver-DX.cpp:177-198 | the board accepts each packet and stores 64 bytes of the payload at its offset, in its slot alone |
| LedBoard.PacketRoundTrip | src/Driver-DX.cpp:151-225 | the four packets rebuild length and text exactly, each byte once, whatever the slot held before; no other slot and not the mask change |
| LedBoard.MaskBit | src/Driver-DX.cpp:235 | the mask byte holds the bits of the first eight messages and no other |
| LedBoard.SetKeepsLoaded | src/Driver-DX.cpp:144-241 | one setMessage keeps the host's bits those of its non-empty messages, every slot holding the text recorded for it |
| LedBoard.RunKeepsLoaded | src/Driver-DX.cpp:144-241 | any sequence of requests, accepted or refused, keeps this |
| LedBoard.HostAndBoardAgree | src/Driver-DX.cpp:144-241 | after any run with an accepted request the board shows a message exactly as the host has it if and only if it is among the first eight or empty; after any other they agree if and only if the board was not running it already; a text without the mark byte can be read back |
| LedBoard.DisplayedIsLast | src/Driver-DX.cpp:151-161 | after any run the host displays for a message what was asked for it last, whole up to 250 bytes, and for one never asked for what it did before |
| LedBoard.BoardShowsLast | src/Driver-DX.cpp:144-241 | and the board shows, of the first eight messages, exactly that text with its escapes rewritten, unless it is empty or was never asked for |
| LedBoard.ClearHides | src/Driver-DX.cpp:230-236 | clearing hides a message and leaves the board's memory alone |
| SerialLines.Port.Readline | src/serial/src/serial.cc:160-184 | one line: bytes up to a timeout, the end-of-line byte or the size, and the stream after them |
| SerialLines.Port.Readlines | src/serial/src/serial.cc:195-234 | the one-buffer loop gives what readline repeated with the remaining size gives |
| SerialLines.LineConsumes | src/serial/src/serial.cc:160-184 | a line is exactly the bytes read, holds the end-of-line byte only at its end, and stops at the first reason to |
| SerialLines.LinesFrameStream | src/serial/src/serial.cc:195-234 | for any source, the lines put together are exactly the bytes read; only the last may lack its end; less than the size is read only at a timeout |

## Left out

- Sockets, `select`, idle and regular timers, and end of input: what arrives is a sequence of bytes, keys or lines, what is sent a sequence appended to.
- `malloc` failure and freeing: the nodes, filters and buffers are always there.
- `crypt(3)`, the auth and enable callbacks, the registered callbacks and `regcomp`: functions the session is given. A grep or egrep filter is any predicate on lines.
- What a registered callback does beyond printing and asking libcli for a mode, a privilege or a request; abort callbacks, hooks, `config_mode_callback` and `cli_file`.
- `cli_bufprint`, whose partial line the code does not carry over, and `print_callback`: output goes to the client line by line.
- Texts of prompts and banners; messages are kept as values.
- The bell Ctrl-C rings outside a request, Ctrl-D outside the command states, and the text of the listing a second TAB prints.
- `Init`, `Fini`, `StartUp`, sleeps and partial writes of the driver: every packet is sent whole.
- The operating system's side of the serial library, file watching, logging, the JSON configuration, program options, the accept loop and the monitoring script: wrappers with only easy claims.
- Libcli.Cli.Invoke: the texts the help and history commands print are not modelled, because they change nothing.
- Libcli.Cli.HelpList: the parent's own line at the head of the list and the help texts are not modelled.
- Libcli.Cli.FindCommand: takes an empty word not to end in a question mark; the code reads the byte before the word there.
- Libcli.Cli.SetConfigmode: modes are not negative, because `MODE_ANY` is for registration only.
- Libcli.Cli.GetCompletions: does not consult completion callbacks for parameters or requests, which the daemon does not register.
- DispatchLaws.DispatchRunsTarget: does not cover callbacks that return `CLI_ERROR_ARG`, after which libcli tries the parent command as well; `Libcli.Cli.FindCommand` covers them.
- Editing.ScreenEqualsBuffer: does not cover the password states, where nothing is echoed and a backspace in the middle does not shift the text; lines at the very end of the buffer, where characters are refused or dropped; and Ctrl-L at the login prompt, which writes the command prompt instead.
- CommandLoop.Loop.Serve: serves the command states only, with lines that fit and completions that cover, and Ctrl-Z in config mode on an empty line; logins, passwords and requests are covered from entered lines on, by `Libcli.Cli.Loop`.
- LineEditing.LineEditor.PressAll: stops at a completion that does not cover; how further keys act on a buffer with a residue is not modelled.
- LineEditing.LineEditor.PressQuestion: is about command lines; at the login prompt and in a request the line with the question mark is taken as the user name or the answer, and the text is left in the buffer of the line that follows, which the password prompt does not show.
- History.HistoryRing.Up: with no entries it says only that nothing is found; with some, it is about positions among them, where every line starts and where both keys stay.
- LedDriver.DriverDX.SetMessage: does not take position 0, which would index a bit that does not exist, nor more than 64 messages, for which `to_ulong` fails.
- LedBoard.HostAndBoardAgree: the board is known only from the protocol notes (doc/LED Message Board Protocol.txt); its effects, speed and clock are not modelled.
- SerialLines.Port.Readline: takes an end of line of one byte, the default, because with a longer one the code compares bytes from before its buffer until enough have been read; and a size above 0, because with size 0 it writes beyond the buffer.
- SerialLines.Port.Readlines: takes an end of line of one byte, for the same reason.
