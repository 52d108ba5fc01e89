# A model of nsh, the router shell, and of the bgplg looking glass

`nsh` reads a configuration file line by line, cuts each line into words, resolves abbreviations,
hands the words to a handler, and can write the running state back out in the same language. `bgplg`
decodes URLs and matches command lines against a table. This project models that behaviour in Dafny
and proves, for all inputs, that the in-place C loops compute what simple specifications say, that
the writers of the configuration and its readers undo each other (or exactly when they do), and that
the arithmetic of masks and routing messages is exact.

`dafny verify dfyconfig.toml` checks everything.

## How it is built

- **Text** holds C strings and the number formats; **Words32** holds 32-bit words and their bits;
  **Folding** runs a step over a list, so that results about one line extend to whole files.
- **Tokens** is the language of command lines; **Makeargv** is the tokeniser on its line buffer, proved
  to compute that language. **Abbreviations** is `genget`. **Stream** is the reading of a file by lines.
- **Cmdrc** is the mode state machine that reads a configuration file; **Interface** is the dispatch
  of interface mode.
- **Ctl** and **RuleFiles** write the rule files and flags of the daemons and read them back through all
  of the above, over whole configurations. **Carp**, **CarpConf**, **Nwid**, **Bridge**, **BridgeConf**,
  **Sysctl**, **Timeslot**, **ChannelRuns**, **TimeslotConf**, **Inet** and **Route** do the same for
  their own parts of the configuration. **Optreq** fills argument templates.
- **Rtmsg** and **RtmsgWalk** pack and unpack routing messages; **Mask4** and **Mask6** convert masks.
- **Bgplgsh** and **Urldecode** are the looking glass; **Complete** is command completion and **Listing**
  the columns its candidates are printed in.

Code that works on a buffer, an array or a state is a method (of a class where the state has fields),
with its loops, proved against a function on values; the lemmas are about that function, and some of
them say what it means in terms of its arguments alone. Files are sequences of lines, kernel state is a
record or a pair of arrays.

## Where the code does not do what it seems to promise

Each of these is modelled as the code has it, with a lemma that says exactly when the promise holds.

- `inttimeslot` feeds its parse loop the command word, not the list, so that every saved timeslot line
  clears the map (`TimeslotConf.LineClearsMap`). `timeslot_status` overwrites its buffer for every run,
  so that only a map of one run survives the text (`ChannelRuns.OverwrittenRestored`); with the runs
  appended, as the separator suggests, every map does (`ChannelRuns.AppendedRestored`).
- `ctlhandler` skips two-word lines whose second word is empty or abbreviates `rules` or `action`; a rule
  file survives exactly if it has no such line and no blank one (`RuleFiles.RuleFileRestored`).
- `interface` swallows a two-word line whose second word is the name of the interface, so that a CARP
  passphrase or device of that name is lost (`CarpConf.CarpRestored`).
- A rejected mode header leaves its mode open with the argument of the header before it
  (`Cmdrc.RejectedHeaderKeepsOldArgument`).
- `cmdrc` looks at a line again after makeargv has rewritten it, so that a line with a quote or an escape and
  a blank behind it in front looks indented: `" a"` is no command (`Cmdrc.QuotedBlankIsNoCommand`).
  `Cmdrc.IndentedIffMasked` says which lines do, in terms of their text; `Cmdrc.MaskedBlankKeepsMode` says
  what becomes of them: the mode stays, and its handler gets the saved line of an earlier line.
- `margv` has an entry for every word a line of the buffer can have, but not for the null pointer behind the
  words: 128 one-letter words, in 255 characters, or a shell escape of 254, make makeargv store it past the
  end of the array (`Makeargv.LettersFill`, `Makeargv.EscapeFills`). It stays inside exactly when there are
  fewer than 128 words (`Makeargv.CommandLine.Makeargv`); a text of up to 254 characters (253 for a shell
  escape) has fewer (`Makeargv.ShortLinesFit`), and so has a complete line of a file, ended by its newline
  (`Makeargv.CompleteLinesFit`).
- `get_string` lets one byte more than its buffer holds through: 33 characters without `0x` are stored, and
  accepted, as a network name of 32 (`Nwid.OneTooMany`); the buffer holds what is stored exactly when the
  text asks for no more bytes than it has (`Nwid.BufferHolds`).
- A start with `-i` removes the rule files of eleven daemons, but not those of ftp-proxy, inet, sshd and dns,
  whose rules double with every start (`RuleFiles.SecondStart`), and it removes no flag: a flag that the
  configuration does not set or clear outlives it (`RuleFiles.FlagsOutlive`). The theorems on the whole
  configuration say exactly which files are right after it, whatever was there before.
- `step_optreq` counts six entries of a template and copies five, so that `show bgp ip` loses a word
  (`Optreq.LastWordLost`).
- `rtmsg` claims a netmask it does not pack for a proxy entry that is not exported
  (`RtmsgWalk.MessageUnpacked` is an equivalence with that condition).
- The default route is saved as `0.0.0.0/0`, for which the check in `route` shifts by 32, which C does
  not define (`Route.RouteRestored` asks for a length of at least 1).
- A name, tag or passphrase written bare comes back exactly when it is a plain word
  (`Tokens.BareWordRestored` and the theorems that use it).

## Model

| member | source | states |
|---|---|---|
| Text.NoArgIs | nssh/externs.h:6 | the word no, in any case, and no other |
| Text.LettersAre | nssh/genget.c:39 | lower case is that of the 26 letters, and every other character is its own |
| Text.BlanksAre | nssh/commands.c:821-832 | the six characters that separate words |
| Text.HexDigitsAre | patches/bgplg/bgplg.c:66-78 | which characters are hexadecimal digits, of either case, and the value of each |
| Abbreviations.Isprefix | nssh/genget.c:49-66 | the sign and size of the result tell an exact match, a proper abbreviation in any case, and neither |
| Abbreviations.Genget | nssh/genget.c:71-94 | the table scan returns what the lookup means, for a NULL name too |
| Abbreviations.ResolveCharacterised | nssh/genget.c:71-94 | first exact match if and only if fewer than two earlier rows properly extend the name; ambiguous if and only if two extensions precede any exact match; else the only extension |
| Abbreviations.LookupIs | nssh/genget.c:71-94 | which row a name stands for, by the names of the table alone: the row is found, or nothing when no row begins with it, or the ambiguity marker in exactly the remaining cases |
| Abbreviations.FullNameResolves | nssh/genget.c:71-94 | a full name finds its own row in every table where no row follows two of its proper extensions and no name repeats |
| Abbreviations.EmptyNameResolves | nssh/genget.c:55-56 | the empty name is row 0 of any table that has one |
| Abbreviations.LongerAbbreviationKeepsRow | nssh/genget.c:71-94 | making an unambiguous abbreviation longer never loses its row |
| Tokens.BlankHasNoWords | nssh/commands.c:821-832 | a line has no words exactly when it is blank |
| Tokens.WordCount | nssh/commands.c:808-869 | at most (length + 1) / 2 words, and the shell escape adds at most one; the null pointer makeargv stores behind them is not among them |
| Tokens.WordsNulFree | nssh/commands.c:833-857 | the words of a C string are C strings |
| Tokens.WordsAppend | nssh/commands.c:821-869 | the words of a line whose words are all ended by blanks do not depend on what follows |
| Tokens.CursorOnLastWord | nssh/commands.c:858-866 | the cursor is on the last word with its raw length, or past it at offset 0 after a blank; one less when a lone backslash ends the line |
| Tokens.BareWordRestored | nssh/commands.c:833-857 | a word written bare is read back as itself exactly when it has no blank, quote or backslash and is not empty |
| Tokens.PiecesAreWord | nssh/commands.c:833-857 | any sequence of characters, escapes and quotations, one behind the other, is one word: the quotes and backslashes are dropped, everything else kept in order |
| Tokens.SpelledLineRestored | nssh/commands.c:808-869 | every argument vector is the reading of some line: tokenising undoes a quoting spelling |
| Tokens.PlainLine | nssh/commands.c:821-869 | plain words separated by single blanks, indented or not, are read back word for word |
| Tokens.WordsWithin | nssh/commands.c:833-857 | no word of a text is longer than the text, and one equal to it is the only word and plain |
| Makeargv.CommandLine.ReadChar | nssh/commands.c:833-857 | one character of a word in place: quotes and escapes are dropped, the write position stays at or below the read position, nothing unread changes |
| Makeargv.CommandLine.CutWord | nssh/commands.c:833-857 | the inner loop squeezes one word towards its start and terminates it, leaving the unread rest of the line as it was |
| Makeargv.CommandLine.Makeargv | nssh/commands.c:808-869 | margv and margc are exactly the words of the language, each a C string in the rewritten buffer; the null pointer stands behind them exactly when there are fewer than 128, and is stored past the array otherwise; the cursor pair is the specified one |
| Makeargv.ShortLinesFit | nssh/commands.c:79-80 | a text of at most 254 characters, or 253 for a shell escape, leaves an entry for the null pointer |
| Makeargv.CompleteLinesFit | nssh/commands.c:1407-1417 | so does every line of the buffer that ends in its newline and is no shell escape |
| Makeargv.LettersFill | nssh/commands.c:864 | 128 one-letter words in 255 characters leave none |
| Makeargv.EscapeFills | nssh/commands.c:816-823 | a shell escape of 254 characters leaves none either |
| Stream.LinesRestored | nssh/commands.c:1406-1410 | reading lines that fit the buffer and were written one after the other gives those lines |
| Stream.LinesAreText | nssh/commands.c:1406-1410 | the strings of successive fgets calls are the text, no character lost, each cut behind a newline or where the buffer is full; only the last may end otherwise |
| Cmdrc.Shell.Cmdrc | nssh/commands.c:1386-1512 | the loop over the lines of a file, tokenising each in place, produces exactly the specified events from any earlier state, up to an empty string or a line that overruns margv, and says which |
| Cmdrc.CompleteLinesProcessed | nssh/commands.c:1407-1417 | no line that ends in its newline overruns margv |
| Cmdrc.IndentedIffMasked | nssh/commands.c:1417-1420 | after makeargv a line starts with a blank exactly when it did before, or when behind any empty quotations it has a quote or a backslash and then a blank |
| Cmdrc.MaskedBlankKeepsMode | nssh/commands.c:1415-1435 | a line of the second kind leaves mode and argument as they were and is handed to that mode with the saved line of the nearest line above that does start with a blank, or is rejected when there is no mode |
| Cmdrc.QuotedBlankIsNoCommand | nssh/commands.c:1415-1420 | one such line, whose only word is looked up nowhere |
| Cmdrc.EventsAre | nssh/commands.c:1406-1512 | the k-th event of a run is that of line k in the state before it |
| Cmdrc.CommandLineCalls | nssh/commands.c:1436-1510 | a command line calls the row its first word stands for, the second after no: of the main table, or of the hidden one when no main row matches, with all its words, its argument if the row is a mode, and is rejected exactly when the row takes no negation or a header lacks its argument; it is ambiguous or invalid in exactly the remaining cases |
| Cmdrc.FullNameReaches | nssh/commands.c:799-806 | a full row name, in any case, reaches its own row unless an earlier row shadows it |
| Cmdrc.IgnoredLines | nssh/commands.c:1411-1419 | comments leave the state alone, and lines without a word save themselves when they start with a blank |
| Cmdrc.ModeIsSetAbove | nssh/commands.c:1413-1467 | the mode before any line is set by the nearest command line above alone, its argument by the nearest accepted header; comments, blank and indented lines change neither |
| Cmdrc.IndentedLineReachesItsHeader | nssh/commands.c:1422-1512 | an indented line reaches the handler of the nearest command line above with that line's argument, and is rejected when there is none or it opens no mode |
| Cmdrc.RejectedHeaderKeepsOldArgument | nssh/commands.c:1446-1457 | after a rejected header the lines below go to the rejected command with the argument of the last accepted header |
| Cmdrc.CommandLineStandsAlone | nssh/commands.c:1436-1512 | a command line is handled the same whatever came before it, but for the saved line and the names of an earlier header |
| Optreq.StepOptreq | nssh/commands.c:1810-1862 | the two passes accept the words or fail; up to the cut every constant of the template stands in its own entry, every NULL leaves a null pointer, and the m-th place holds the m-th word |
| Optreq.WordsTaken | nssh/commands.c:1826-1857 | the words taken are the first ones and stand, in order, in the places before the cut; every constant before it is copied as it is |
| Optreq.CutIs | nssh/commands.c:1826-1857 | where the copy ends: at the first NULL behind the first two entries, at the first place no word is left for, and after five entries in any case |
| Optreq.PlacesCount | nssh/commands.c:1810-1824 | the places counted are the entries that are optional or required |
| Optreq.FillMeaning | nssh/commands.c:1810-1862 | accepted exactly when there are no more words than places and the first place left over is optional; every word is then used once unless the place lies beyond the copied entries |
| Optreq.RequiredFirst | nssh/commands.c:1810-1862 | with required places first, filling fails exactly when there are too many words or too few for the required places |
| Optreq.LastWordLost | nssh/commands.c:1831-1850 | the template of show bgp ip takes one of two words |
| Optreq.LeadingNullKept | nssh/commands.c:1831-1850 | a NULL in the first or second entry is copied as a NULL, and the copy goes on behind it unless the entry beside it is a place no word is left for; a NULL in front allows no word at all |
| Ctl.ConfCtl | nssh/conf.c:145-222 | the strings written for a daemon, piece by piece, are the lines of its rules block, its flags block and its reload line |
| Ctl.GrabNames | nssh/conf.c:182-189 | the loop over the table keeps the name of the action for each of the three flags |
| Ctl.FlagNameIs | nssh/conf.c:182-189 | that action is the last row with the flag, and there is none exactly when no row has it |
| Ctl.FileSystem.FlagX | nssh/ctl.c:277-314 | a flag file is removed or written as the flag says and nothing else changes |
| Ctl.FlagIs | nssh/ctl.c:277-314 | which flag files each of the four flags leaves: enabling and disabling make and remove one, the other two replace each other, and no other file changes |
| Ctl.FileSystem.RuleWriteline | nssh/ctl.c:416-432 | a line is appended to the rule file, creating it if need be |
| Ctl.FileSystem.Ctlhandler | nssh/ctl.c:317-382 | what the call does is the specified deed, a line written or an action run, and the files are the old ones after that deed |
| Ctl.ActionIs | nssh/ctl.c:353-370 | the action run is the row the second word stands for, when its template takes the words behind it, and there is none otherwise |
| Ctl.DeedIs | nssh/ctl.c:336-380 | in this order: nothing for a two-word line that begins rules or action in any abbreviation, in a rules block the saved line without its first blank, otherwise the action |
| Ctl.EventDeedIs | nssh/ctl.c:325-334 | a line acts on the daemon the name of its header stands for, and on none otherwise |
| Ctl.DoIs | nssh/ctl.c:416-432 | a text is put behind what its file holds, and no other file changes |
| RuleFiles.RuleFileRestored | nssh/conf.c:166-177 | a rule file written to the configuration and read back through the shell into a removed file keeps exactly its surviving lines; it is restored if and only if all survive |
| RuleFiles.SurvivesIs | nssh/ctl.c:338-345 | which lines do not come back: those without a word, and those of two words whose second abbreviates rules or action |
| RuleFiles.RuleBlockPlayed | nssh/ctl.c:336-351 | a rules block, whatever mode it is read in, writes exactly its surviving lines, in order, to the file of its daemon |
| RuleFiles.DaemonPlayed | nssh/conf.c:145-222 | everything written for one daemon, read on any machine onto any files: its rules are written in order, then the action of every flag that is set is run, and last the reload when the daemon wants one and has a rule file; nothing else is done |
| RuleFiles.ConfigurationRestored | nssh/conf.c:122-141 | for any daemons with rule files and flags of their own, writing and reading back on any machine leaves each daemon's rule file and flags as they were exactly when nothing was left there that reading does not replace; the rules stand behind those that were there; no other rule file or flag changes |
| RuleFiles.ConfigurationFileRestored | nssh/commands.c:1406-1512 | the same through the text of the configuration file, cut into lines by fgets, all of which are processed |
| RuleFiles.FlagsOutlive | nssh/main.c:86-107 | with its rule file removed at the start, a daemon's files are right exactly when no flag was left that it does not have |
| RuleFiles.SecondStart | nssh/main.c:86-107 | after two starts a daemon whose rule file is not removed has its rules twice, behind what was there; one whose file is removed has them once |
| Interface.Interface | nssh/commands.c:513-650 | the dispatch of one line of interface mode |
| Interface.LineReachesCommand | nssh/commands.c:513-650 | a configuration line of plain words reaches its sub-command with exactly these words, unless its only word is the interface name |
| Interface.DispatchIs | nssh/commands.c:604-650 | a line runs the row its first word stands for, the second after no, when the row is offered in this mode; a row of the other mode is unknown, and the line is ambiguous in exactly the remaining cases |
| Interface.SwallowedIs | nssh/commands.c:513-522 | exactly the two-word lines whose second word is the interface name are swallowed; a lone no is unknown |
| Carp.CarpReq.FindVhid | nssh/carp.c:213-228 | the scan finds the place of a vhid, or the first free place, or that there is none |
| Carp.CarpReq.Intcnode | nssh/carp.c:165-249 | the two arrays after a carpnode line are the specified update of the arrays before; an error changes nothing |
| Carp.UpdateIsStep | nssh/carp.c:214-249 | on a well-formed table the arrays stay dense, duplicate-free and zero beyond the end, and follow the list of nodes |
| Carp.SetIsUpdate | nssh/carp.c:230-234 | setting a node updates or inserts exactly its key in the map |
| Carp.DeleteIsRemoval | nssh/carp.c:235-249 | deleting by swap with the last node removes exactly one key |
| Carp.RunRefinesMap | nssh/carp.c:214-249 | every run of sets and deletes on the two arrays leaves them legal, dense, duplicate-free and zero behind the nodes after every step, and does to the map what the commands say; a set of a new key on a full table changes nothing |
| Carp.ParseNode | nssh/carp.c:178-211 | the words written for a node ask for that node |
| Carp.LineMeaning | nssh/carp.c:165-249 | on any line of words: a negated vhid in range removes exactly that key, a vhid with or without an advskew in range sets exactly that key unless it is new and the table full, and every other shape or range changes nothing |
| Carp.DecimalLineMeaning | nssh/carp.c:165-249 | the same for the three written forms, over every vhid and advskew |
| CarpConf.ConfCarp | nssh/carp.c:256-292 | the lines written for a CARP interface |
| CarpConf.CarpRestored | nssh/carp.c:256-292 | writing and reading back on a fresh interface gives identical node arrays and base interval; device and passphrase exactly when unset, or plain and not the interface name |
| CarpConf.NumberLines | nssh/carp.c:43-124 | what the three lines about one number set, by name, with a value, negated and malformed |
| CarpConf.TextLines | nssh/carp.c:126-163 | device and passphrase are cut to their buffers, and emptied when negated |
| Nwid.MakeString | nssh/ieee80211.c:132-163 | the printer's bare, quoted and hexadecimal forms, through its bounded appends |
| Nwid.GetString | nssh/ieee80211.c:78-130 | the parser's loop returns the bytes the text stands for, or fails, and how many bytes it has stored by then |
| Nwid.BufferHolds | nssh/ieee80211.c:90-123 | what get_string stores stays in its buffer exactly when the text asks for no more bytes than the buffer has, and goes one byte beyond it at most; a text without 0x asks for its length, one with it for at most half of the rest |
| Nwid.OneTooMany | nssh/ieee80211.c:104-121 | a text one character longer than the buffer is stored and accepted |
| Nwid.PrintedFits | nssh/conf.c:507-508 | a printed network name has at most 66 characters and is not truncated |
| Nwid.PrintedIs | nssh/ieee80211.c:132-163 | which names are written bare, which in double quotes and which in hexadecimal |
| Nwid.HexParsed | nssh/ieee80211.c:88-121 | a text behind 0x is read as bytes exactly when it spells them in hexadecimal digits of either case and they fit |
| Nwid.NwidSet | nssh/if.c:1121-1162 | a name is set to what its word stands for, no clears it, and any other line changes nothing |
| Nwid.ParsedPrinted | nssh/ieee80211.c:132-163 | parsing undoes printing; the test for 0x keeps a text from being read as hexadecimal |
| Nwid.QuotedRestored | nssh/commands.c:833-857 | a quoted name comes back as one word equal to it exactly when it has no double quote |
| Nwid.NwidRestored | nssh/if.c:1121-1162 | a network name written, tokenised and parsed is the same bytes exactly when it is restorable: hexadecimal always, quoted without double quotes, bare without quotes or backslash |
| Bridge.ShowRule | nssh/bridge.c:1300-1337 | the words printed for a rule |
| Bridge.BridgeRule | nssh/bridge.c:1345-1445 | the parser's result is the specified one, errors included |
| Bridge.EtherRestored | nssh/bridge.c:1328-1331 | a printed link address is read back and is one plain word |
| Bridge.EtherParsed | nssh/bridge.c:1428-1436 | a text is read as a link address exactly when it spells its six bytes in pairs of hexadecimal digits of either case with colons between them |
| Bridge.ClausesTaken | nssh/bridge.c:1394-1443 | a list of clauses is taken in exactly when every kind occurs at most once and is free; each turn takes two words |
| Bridge.AnyOrder | nssh/bridge.c:1394-1443 | clauses in any order give the same rule; a repeated kind is rejected in every order |
| Bridge.RuleMeaning | nssh/bridge.c:1345-1445 | for any words: a rule results exactly when the first four give action, direction and member and every clause behind them is taken, an address once for each kind, a tag of at most 64 characters behind empty ones only, and it has exactly these parts; a malformed address stops it exactly where the loop comes to one |
| BridgeConf.WordsParsed | nssh/bridge.c:1345-1445 | the printed words of a well-formed rule parse back to the rule |
| BridgeConf.RuleRestored | nssh/bridge.c:321-340 | a saved rule line read in bridge mode gives the rule back exactly when its tag is absent or a plain word |
| Sysctl.ConfIpsysctl | nssh/sysctl.c:140-171 | the lines written for the table of kernel values |
| Sysctl.Kernel.Ipsysctl | nssh/sysctl.c:105-138 | the new kernel values are the specified update; an error changes nothing |
| Sysctl.RowSet | nssh/commands.c:272-311 | the line of one row sets its own value and no other |
| Sysctl.SetIs | nssh/sysctl.c:105-138 | the row the word stands for is set to its default when negated, to 1 without an argument, to a number that fits an int, and no other value changes |
| Sysctl.IpcmdIs | nssh/commands.c:272-311 | an ip line, negated or not, calls ipsysctl for the menu row its word stands for, in the main table or in the hidden one when no main row matches, when the row takes as many words as there are; anything else changes nothing |
| Sysctl.NegatedRow | nssh/commands.c:272-311 | no ip before any row, valued or not, restores the default of that row where the menu allows no argument |
| Sysctl.LinesWritten | nssh/sysctl.c:148-168 | no line is written for a row at its default except the always-shown one |
| Sysctl.RowWritten | nssh/sysctl.c:140-171 | the text written for a row at any value, and which values write nothing |
| Sysctl.SysctlsRestored | nssh/sysctl.c:140-171 | from default values, reading the written lines restores every value that can be expressed and disturbs no other row |
| Timeslot.GetTsMap | nssh/timeslot.c:123-141 | the map of a pending channel or range; undefined exactly when a shift leaves the width |
| Timeslot.ParseLoop | nssh/timeslot.c:89-110 | the loop's map is that of the spans of the text |
| Timeslot.ListMeaning | nssh/timeslot.c:89-110 | for every list of numbers and ranges, with any separators and leading zeros, bit k is set exactly when some slot or range covers k, and a map results exactly when all of them lie in its width |
| ChannelRuns.RunsCharacterised | nssh/timeslot.c:157-175 | the printed runs are the maximal runs of set bits, ascending, and hold every set bit |
| ChannelRuns.TimeslotStatus | nssh/timeslot.c:143-181 | the text left in the buffer and the result, as coded |
| ChannelRuns.AppendedRestored | nssh/timeslot.c:157-175 | with the runs appended, parsing gives any 32-bit map back |
| ChannelRuns.OverwrittenRestored | nssh/timeslot.c:162-166 | as coded, parsing gives a map back exactly when it has one maximal run |
| ChannelRuns.TextLeft | nssh/timeslot.c:157-175 | the text left in the buffer is that of the last run alone |
| TimeslotConf.Inttimeslot | nssh/timeslot.c:57-120 | the whole command: usage, all, none, or the map of what it parses |
| TimeslotConf.SettingIs | nssh/timeslot.c:57-90 | two words or usage; no and all give every channel, and any other command word is itself parsed as the list |
| TimeslotConf.ListIgnored | nssh/timeslot.c:76-90 | whatever the list, the word timeslots or an abbreviation of it gives the empty map |
| TimeslotConf.LineClearsMap | nssh/conf.c:425-428 | a saved timeslot line, read back, clears the map |
| Rtmsg.RoundupIsLeast | nssh/externs.h:60-61 | ROUNDUP is the least positive multiple of the word size that is not below its argument |
| Rtmsg.NextAddr | nssh/routesys.c:739-742 | a sockaddr is copied to its place and nothing else changes |
| Rtmsg.Rtmsg | nssh/routesys.c:719-749 | destination, gateway, netmask and interface, as far as their bits are set, lie in that order one behind the other, each in its rounded size, then zeros; the length is the header plus these sizes |
| Rtmsg.PackedLies | nssh/routesys.c:739-747 | what was packed lies at its offset, whatever comes after |
| RtmsgWalk.GetRtaddrs | nssh/show.c:230-243 | the table of addresses is where the walk finds them |
| RtmsgWalk.PmsgAddrs | nssh/routesys.c:527-548 | the addresses printed are those of the walk, in order |
| RtmsgWalk.PrintGetmsg | nssh/routesys.c:450-472 | the addresses kept are those of the walk at their bits, the interface only when it has a name |
| RtmsgWalk.ConfPrintRtm | nssh/conf.c:854-876 | the addresses kept are those of the walk at their bits, filtered by family |
| RtmsgWalk.WalkFinds | nssh/show.c:230-243 | a message that holds sockaddrs is taken apart into exactly those |
| RtmsgWalk.MessageUnpacked | nssh/routesys.c:730-749 | every walker finds exactly what rtmsg laid down, for every choice of addresses and lengths, if and only if the header claims no netmask that is not there |
| RtmsgWalk.KeptByGetmsg | nssh/routesys.c:450-472 | of an honest message print_getmsg keeps each sockaddr rtmsg was given, at its offset, and the interface exactly when it is link-level and has a name |
| RtmsgWalk.KeptByConf | nssh/conf.c:854-876 | conf_print_rtm keeps destination and gateway when their family is the one asked for, and the netmask always |
| Mask4.ShiftMask | nssh/if.c:657 | the shift expression is the mask of its length, for the lengths it is defined at |
| Mask4.LengthRestored | nssh/show.c:610-612 | 33 - ffs inverts the mask of every length, 0 included |
| Mask4.SmallestCover | nssh/route.c:157-160 | the mask rebuilt from any mask's length is the smallest contiguous one that holds it |
| Mask4.ContiguousRestored | nssh/route.c:157-160 | a mask comes back from its length exactly when it is contiguous |
| Mask4.InSubnet | nssh/if.c:363-382 | under a contiguous mask an address is in the subnet exactly when, as a number, it lies between network and broadcast address |
| Mask4.NetworkIsMultiple | nssh/route.c:84-87 | an address has no bits below s exactly when it is a multiple of 2 to the s |
| Inet.QuadRestored | nssh/route.c:152-155 | a printed address is read back and never taken for a bit count |
| Inet.QuadsRead | nssh/route.c:152 | reading dotted quads is all the theorems on routes ask of inet_aton |
| Inet.OctetBits | nssh/route.c:152-155 | the octets of an address by its bits, the highest first |
| Inet.SwappedOctets | nssh/route.c:84-87 | network order is the octets the other way round |
| Route.ParseIp | nssh/route.c:136-193 | the result for any text and any inet_aton, with the slash overwritten in the argument |
| Route.AddressTaken | nssh/route.c:136-193 | exactly the texts taken for an address: one with a dot that inet_aton reads, alone or before a slash and either a mask written like an address or a count of at most 32 |
| Route.OctalCount | nssh/route.c:158-161 | a count that begins with a zero is read in base 8, up to a digit 8 or 9 |
| Route.Route | nssh/route.c:35-101 | the outcome of the command for any inet_aton, errors included |
| Route.RouteMask | nssh/routesys.c:625-634 | the mask of the routing message for every length, 0 being left out of the shift |
| Route.AcceptedDestinations | nssh/route.c:84-92 | for lengths 1 to 32 a destination is accepted exactly when it is a multiple of 2 to the 32 - length |
| Route.NetNameRead | nssh/show.c:598-618 | a printed network is read back with its address and the length of its mask |
| Route.HostRead | nssh/route.c:136-193 | an address without a slash is a host: length 32, or none when the caller assumes no mask |
| Route.DottedMaskRead | nssh/route.c:150-165 | a mask written as an address gives its length |
| Route.RouteShapes | nssh/route.c:35-75 | one or two words behind the command; adding needs a gateway |
| Route.RouteDeleted | nssh/route.c:35-101 | a negated route is checked like any other and deleted, with or without a gateway |
| Route.CheckedRoutes | nssh/route.c:84-101 | what passes the check is routed as it was asked for, added or deleted; it passes exactly for lengths 1 to 32 and multiples of 2 to the 32 - length |
| Route.RouteRestored | nssh/conf.c:877-887 | a saved route comes back with its destination, mask and gateway exactly when the mask is contiguous and not zero and the destination is its network address |
| Mask6.Netname6 | nssh/show.c:633-693 | the loop's address, length and verdict are the specified ones for any sin6_len |
| Mask6.MaskTaken | nssh/show.c:633-693 | legal if and only if the zero-extended mask is ones and then zeros; then masklen counts its ones and the address is the bytewise conjunction |
| Mask6.MasklenIs | nssh/show.c:633-693 | the length printed for any mask, legal or not: eight for every leading byte of ones, and the leading ones of the next byte when it is ones and then zeros |
| Mask6.MaskedIs | nssh/show.c:633-693 | under any mask, legal or not, which bytes of the address are kept, cut and cleared |
| Mask6.TrailingZerosDropped | nssh/show.c:636-639 | truncating trailing zero bytes changes neither length, verdict nor address |
| Mask6.Prefixlen | nssh/routesys.c:262-286 | the bytes of the mask built for a length; a bad length changes nothing |
| Mask6.PrefixRestored | nssh/routesys.c:276-285 | netname6 reads back the length of the mask prefixlen builds, for every length from 0 to 128 |
| Bgplgsh.LgArg2argv | patches/bgplg/bgplgsh.c:77-122 | the two passes agree: null exactly when the line is refused, else the words of the line in order |
| Bgplgsh.StartsAreWords | patches/bgplg/bgplgsh.c:113-120 | the positions filled in are the starts of the words |
| Bgplgsh.RefusedLines | patches/bgplg/bgplgsh.c:54-122 | the refused lines, character by character |
| Bgplgsh.MatchesIs | patches/bgplg/bgplgsh.c:160-178 | a row matches when the line is the words of its name and then no more words than it takes |
| Bgplgsh.LgCheckcmd | patches/bgplg/bgplgsh.c:160-193 | the answer of one row, given the fewest words left over so far |
| Bgplgsh.Selected | patches/bgplg/bgplgsh.c:250-259 | the loop ends with the most specific matching row, the last among equals; with none exactly when none matches; refused exactly when some row at least as specific as all before it wants more words |
| Bgplgsh.ChoiceIsUnique | patches/bgplg/bgplgsh.c:250-259 | with distinct names the chosen row leaves strictly fewer words than every other match |
| Bgplgsh.OrderDoesNotMatter | patches/bgplg/bgplgsh.c:250-259 | two tables of the same distinctly named rows choose the same command unless one refuses the line |
| Bgplgsh.LgArgextra | patches/bgplg/bgplgsh.c:125-158 | the vector is the row's own words and exactly the unmatched trailing words in order |
| Bgplgsh.Line | patches/bgplg/bgplgsh.c:246-275 | one line: words of the name and words executed together are the words of the line |
| Urldecode.LgUrldecode | patches/bgplg/bgplg.c:55-92 | the in-place decoder ends on every string and leaves its decoding, a C string, in the buffer, nothing beyond it changed |
| Urldecode.EncodingRestored | patches/bgplg/bgplg.c:66-88 | decoding undoes percent encoding (section 2.1 of RFC 3986) over every choice, for each byte, of writing it as it is or as a percent sign and two hexadecimal digits of either case; a byte 0 becomes a blank, a plus sign too, and a percent sign without two digits stands for itself |
| Urldecode.EveryTextSpelled | patches/bgplg/bgplg.c:66-88 | every C string is such an encoding, so that this is the decoding of all queries |
| Urldecode.TextRestored | patches/bgplg/bgplg.c:66-88 | every NUL-free text of bytes comes back from its encoding |
| Complete.MatchLength | nssh/complete.c:97-107 | the loops find the length of the longest common prefix of all candidates |
| Complete.CompleteAmbiguous | nssh/complete.c:77-124 | error, insertion or listing; what is inserted makes the word the longest common prefix |
| Complete.CompleteCommand | nssh/complete.c:129-155 | the word with the inserted text has exactly the candidates it had |
| Listing.ListVertical | nssh/complete.c:372-408 | for any terminal width and any candidates the text printed is the listing, with no index out of bounds; for candidates without tabs and newlines it shows them in columns |
| Listing.LayoutIs | nssh/complete.c:372-391 | the cells are the narrowest multiple of 8 that leaves a blank, there are as many columns as fit but at least one, and as few lines as these columns allow |
| Listing.LinesCut | nssh/complete.c:392-407 | the printed text, cut at its newlines, is one line for every row and nothing behind the last |
| Listing.LineShown | nssh/complete.c:393-406 | the texts between the tabs of line i are exactly the candidates at places i, i + lines, i + 2 lines and so on |
| Listing.ShownOnce | nssh/complete.c:392-406 | every candidate is printed exactly once, at place k / lines of line k % lines, and nothing else is printed |
| Listing.CellStands | nssh/complete.c:401-405 | on a terminal with tab stops every eight columns the j-th candidate of a line begins in column j times the cell width |
| Listing.ColumnMajor | nssh/complete.c:394-397 | places run down the columns: j * lines + i is k exactly for one line and one column |
| Listing.RowFits | nssh/complete.c:388-391 | no line has more candidates than the terminal has columns for |

## Left out

- Foreign calls: sockets, ioctl, sysctl, fork and exec, signals, the terminal and the editing library; kernel state is fields, files are sequences of lines. What a handler outside the model does is one opaque outcome.
- The kernel's own checks on what an ioctl sets; system constants (CARP_MAXNODES 32, IFNAMSIZ 16, PF_TAG_NAME_SIZE 64, IEEE80211_NWID_LEN 32, RTAX_MAX 11, and the like) are taken from its headers.
- The concrete command, interface, daemon and sysctl tables: the theorems hold for every table in which the words concerned resolve, which is stated as a predicate (Known, Registered, Usable, Fits).
- What makeargv overwrites when it stores its null pointer past margv: the run of cmdrc ends before such a line. What lies in modhvar before any header is a parameter of the run.
- RuleFiles.ConfigurationRestored: the symbolic link that the DNS actions set besides their flag (ctl_symlink) is not among the files.
- RuleFiles.ConfigurationFileRestored: the same.
- The address of the ambiguity marker is dereferenced by cmdrc as if it were a row; its mode flag is taken as unset.
- Carp.CarpReq.LastUsed: does not model the scan past the end of a full array, because what lies there is unknown; the scan is bounded by the array, on which the code behaves the same for every table that is not full.
- inet_aton is a parameter of parse_ip and route, of which the theorems ask only that it reads dotted quads; Inet.InetAton is one that reads nothing else. ether_aton is modelled on six groups of two digits.
- unsigned long is 32 bits wide, as on the 32-bit machines; shifts by the width or more and by negative counts have an outcome of their own, and 1 << 31 is the sign bit.
- Lines longer than the buffer, which fgets splits, and NUL bytes inside a line of a rule file.
- intcarp, intcpass, intcdev, intnwid, brrule and ipcmd are functions from the old request or kernel values to the new: their request structures are filled once and handed to the kernel, so order of assignment and aliasing are not captured.
- The separator form of get_string and the multi-key WEP printing, in which make_string overwrites the text before it.
- conf_print_rtm's suppression of the default route under dhclient, host flags of ip_route, and IPv6 routes, whose code is not compiled.
- rtmsg's mark of a proxy entry in so_dst when it is exported: the caller's so_dst is taken with it set.
- qsort before a listing: the listing is proved for any order of the candidates. Insertion into the edit line always succeeds.
- Local file and interface name completion, the editor, lock files, and the actions of the daemons.
- interface's refusal of names of 16 or more characters, its creation of missing interfaces, and its limit on the number of arguments.
- Statistics, version, who, more, the pager, passwords, the running of a shell escape, nwrapper, and the web interface: programs started or counters printed, with no state of the configuration in them.
