# A model of tcsh's hard algorithms

This project models the parts of tcsh that carry the most state and branching, in Dafny, and proves what
their comments, their callers and their design promise. Every algorithm keeps the form it has in C: arrays
are changed in place, loops are loops with invariants, objects are classes, and linked structures are nodes
in a memory map, so that updates in place, pointers to pointers and freed nodes are in view. Each such
method is proved against a specification, and lemmas say what the specification means.

How the files belong together:

- **Screen**: `Tty.dfy` is the terminal (rows of cells, margins with `am` and `xn`, insert and delete);
  `EdScreen.dfy` the cursor motion and editing primitives; `RowUpdate.dfy` the row differ `update_line`;
  `Layout.dfy` where text lies on the screen; `EdRefresh.dfy` Refresh and its fast forms. `Rows.dfy` has the
  facts about rows of cells that they share.
- **Patterns**: `GlobPattern.dfy` is the language of patterns (IEEE Std 1003.1-2017, Shell Command Language,
  section 2.13); `GlobMatch.dfy` the matcher of glob.c that goes back only to the last star;
  `GlobCompile.dfy` its compiler; `GlobText.dfy` how patterns are written; `GlobWalk.dfy` and `GlobTree.dfy` the walk over directories;
  `ShMatch.dfy` the recursive matcher of sh.glob.c; `GlobAgree.dfy` where the two agree; `Brace.dfy` brace
  expansion; `ShGlob.dfy` matching with braces and complement.
- **Directories**: `Canon.dfy` says what canonicalisation preserves (IEEE Std 1003.1-2017, Base Definitions,
  section 4.13), `DirCanon.dfy` does it in one buffer; `DirRing.dfy` and `DirStack.dfy` are the directory
  stack.
- **Expressions**: `Numbers.dfy`, `Exp.dfy` (the evaluator), `OpMeaning.dfy` (what the operators mean) and
  `ExpTrees.dfy` (the text and the lazy value of expression trees).
- **Keys and editing**: `XkeyMap.dfy` and `Xmap.dfy` (extended keys), `Escape.dfy` (escaped strings),
  `KillRing.dfy` and `EditLine.dfy` (kill and yank).
- `Basics.dfy` has what several of them need: optional values, sequences without repetition, and division.
- **Processes**: `DotLock.dfy` (the lock file protocol as steps of any number of processes) and
  `PathHash.dfy` (the hash of the command path).

Where the code does not do what its comments or callers suggest, the model keeps the code, a lemma gives the
input, and another says exactly when the code does what is meant:

- The right operand of `||` is cut to 32 bits (sh.exp.c:193). Input: `ExpTrees.OrLosesHighBits`; exactly when:
  `ExpTrees.OrIn32`, and for whole trees `ExpTrees.Fits32Exactly`.
- A range with its ends in the wrong order contains its first end for glob, and nothing for t_pmatch. Input:
  `GlobAgree.ReversedRangeDiffers`; exactly when: `GlobPattern.SpanReadings`. A list that starts with a
  bracket is read differently as well; exactly when: `GlobAgree.SameTokens`.
- A slash between brackets splits the pattern within the brackets (glob.c:524). Input:
  `GlobTree.SlashInBracket`; exactly when the pattern is cut at its slashes: `GlobTree.CutAtSlashes`.
- A kill ring that is filled in part loses its oldest entry when its size is changed to another one that is
  enough for it (ed.chared.c:879-882): both cases are in the contract of `KillRing.Ring.SetKillRing`.
- With `killdup` set to `all`, killing and yanking may put something else back; exactly when:
  `EditLine.Line.KillThenYank`, `EditLine.Line.KillEndThenYank`, `KillRing.PushedNewest`.
- A canonical path may lead somewhere where the path it was made from does not. Input:
  `Canon.MissingNameCancels`; exactly when: `Canon.RewriteExact`. With a link to itself the canonicaliser does
  not end. Input: `Canon.SelfLinkNeverEnds`; it ends for every path of which each "." and ".." stands in a
  directory, even when the path leads nowhere (`Canon.GroundedEnds`), and without ".." when links are not
  chased (`Canon.NoBackEnds`).
- After five collisions the lock code goes on as if it had made its file (dotlock.c:78-88). With shared
  names and a link that reports a false success there can be two holders; exactly when there cannot:
  `DotLock.SafeExactly`.
- Tabs are counted from `CursorH & 0370`, which is wrong from column 256 on unless the last column is the
  goal; exactly when: `EdScreen.TabMaskExact`.
- CalcPosition stops a tab at a tab stop past the right edge, where drawing wraps. Input:
  `Layout.TabPastEdgeDiffers`; exactly when: `Layout.CalcStepExact`.
- RefPlusOne may go on to a Display row that was erased only in its first cell. Input:
  `EdRefresh.StaleRowDiffers`, from what `EdRefresh.Editor.ClearRow` leaves; exactly when:
  `EdRefresh.TypedIntoErased`, and `EdRefresh.TypedIntoUnused` for any contents of the buffer.
- Without the clear-to-end capability, clearing up to the last column loses the cursor; exactly when: the
  contract of `EdScreen.Screen.ClearEOL`. update_line shows the right row in any case, and the cursor is lost
  exactly if the clear that its cuts ask for ends there: the contract of `RowUpdate.UpdateLine`, with
  `RowUpdate.ClearedTo` for the end of the clear. Input: `RowUpdate.FullRowEmptied`; a condition without the
  cuts that is enough: `RowUpdate.ClearsInsideKeeps`.
- In insert mode the character that is written to make a wrap happen is inserted too, and shifts the next row
  (the contract of `EdScreen.Screen.InsertWrite`). Input: `EdScreen.WrapShifts`; exactly when it does no harm:
  `EdScreen.WrapInInsertMode`.
- A terminal that has an insert mode but no string to leave it, and nothing else to insert with, counts as one
  that can insert (T_CanIns), but Insert_write then overwrites. Input: `RowUpdate.InsertModeAlone`; exactly when
  a terminal inserts: `EdScreen.InsertWorksExactly`.
- find_cmd asks the hash about relative directories that are never entered in it (sh.exec.c:1143). Input:
  `PathHash.RelativeDirectoryMissed`; exactly when a command is found: `PathHash.FindsExactly`.
- With `savedirs` set to n, n + 1 directories are saved, those at the bottom of the stack:
  `DirStack.SavedStackComesBack`.

In one place a comment of the code doubts more than is needed: t_pmatch is said to give the end of the longest
match, with a note that this is not guaranteed (sh.glob.c:938 and 970). For patterns whose tokens take one
character each it is: `ShMatch.LaterReachesAsFar`, and with it the contract of `ShMatch.TPmatch`.

## Model

| member | source | states |
|---|---|---|
| EdScreen.Screen.MoveToChar | ed.screen.c:1071-1143 | moving the cursor, also by rewriting Display cells, tabs and the retry from column 0, ends in the column asked for and changes no cell of the screen; from column 256 on only where the tab mask is right |
| EdScreen.Screen.MoveToLine | ed.screen.c:1014-1069 | going to another row, also by writing past the right edge, changes no cell and ends in that row; the tabs to the last column have to be counted rightly |
| EdScreen.Screen.SoWrite | ed.screen.c:1145-1232 | the cells written, and where the cursor is known to be after the last column for each kind of margin |
| EdScreen.Screen.InsertWrite | ed.screen.c:1276-1327 | space is opened and text written, up to the last column, in all three ways there are; with only an insert mode that cannot be left, the text is overwritten instead; and what a wrap in insert mode does to the next row |
| EdScreen.WrapInInsertMode | ed.screen.c:1307-1311 | it leaves the next row alone exactly if all its cells are the same |
| EdScreen.WrapShifts | ed.screen.c:1307-1311 | a row that is shifted |
| EdScreen.InsertWorksExactly | ed.screen.c:1276-1327 | of the terminals that are taken to insert, those with a way out of insert mode or a string to insert with put any text into any row, and the others do not |
| EdScreen.Screen.DeleteChars | ed.screen.c:1235-1272 | exactly num cells go, and the rest of the row moves up; only called on terminals that can |
| EdScreen.Screen.ClearEOL | ed.screen.c:1330-1345 | what is blanked, and exactly when the tracked cursor is still right |
| EdScreen.TabMaskExact | ed.screen.c:1103-1115 | the tabs sent land where CursorH says exactly below column 256, or at the last column |
| RowUpdate.StrInsert | ed.refresh.c:479-518 | the buffer after an insertion of any number of characters, cut off at its length |
| RowUpdate.StrDelete | ed.refresh.c:521-550 | the buffer after a deletion of any number of characters, also past its end |
| RowUpdate.FindCuts | ed.refresh.c:642-790 | the segments that the scans find are those of a function of the two rows, which split them into equal parts and differences and are ones this terminal can make |
| RowUpdate.CutsOfSound | ed.refresh.c:642-790 | what that function gives for any two rows claims nothing equal that is not, keeps no scraps, and asks for nothing that the terminal lacks |
| RowUpdate.PutInCuts | ed.refresh.c:642-790 | for text put in at one place they are exactly that place |
| RowUpdate.Pragmatics | ed.refresh.c:720-790 | giving up matches for short ends and missing capabilities leaves a sound splitting that needs no operation the terminal lacks |
| RowUpdate.FirstPart | ed.refresh.c:864-968 | the early first difference, either finished or leaving the row shifted as the second part expects it |
| RowUpdate.SecondDelete | ed.refresh.c:970-1025 | the second deletion, which leaves what the late insertion needs |
| RowUpdate.LateInsert | ed.refresh.c:1030-1074 | the insertion of the first difference after the second deletion |
| RowUpdate.SecondInsert | ed.refresh.c:1079-1114 | the second difference completes the new row |
| RowUpdate.ApplyCuts | ed.refresh.c:864-1118 | for every sound splitting the operations turn the old row into the new one, whatever order they come in, and the cursor is kept exactly if no blanks are written up to the last column |
| RowUpdate.UpdateLine | ed.refresh.c:584-1118 | for all old and new rows the screen row shows the new string up to trailing blanks, no other row changes, and the cursor is still known exactly if no blanks were written up to the last column; an emptied row keeps its Display cells but for the end mark |
| RowUpdate.ClearsInsideKeeps | ed.refresh.c:940-965 | a condition on the ends of both rows alone under which none are |
| RowUpdate.BeginningLeft | ed.refresh.c:940-965 | a row of which only a beginning is left is cleared from there on, and the cursor is kept exactly if the old row ended before the last column |
| RowUpdate.FullRowEmptied | ed.screen.c:1337-1345 | a full row that is emptied needs a clear up to the last column; one column more is enough to do without |
| RowUpdate.InsertModeAlone | ed.screen.c:1276-1327 | two rows for which the cuts ask only for an insertion that has room, and overwriting does not give the new row |
| Rows.GrowMiddle | ed.refresh.c:875-895 | opening space and rewriting a middle part is the same as splicing it, when nothing that is kept falls off the edge |
| Rows.ShrinkMiddle | ed.refresh.c:919-940 | deleting and rewriting a middle part is the same as splicing it |
| Layout.PagesGrow | ed.refresh.c:159-298 | text that is longer fills at least the rows that it filled before |
| Layout.TextFlows | ed.refresh.c:159-298 | text without newlines and tabs goes on where the page ends, cell by cell and from full row to full row: a printing character as itself, a control character with a caret, any other as a backslash and the octal digits of its code |
| Layout.NewlineEndsRow | ed.refresh.c:197-201 | after a newline a page of its own begins |
| Layout.TabIsBlanks | ed.refresh.c:202-206 | a tab is blanks up to the next multiple of eight, or to the right edge |
| Layout.UnbrokenSeen | ed.refresh.c:159-298 | read row by row, a screen that shows the page of such a text shows its characters, and then blanks |
| Layout.PrintableSpells | ed.refresh.c:259-261 | characters that print are seen as they are |
| Layout.UnbrokenEnds | ed.refresh.c:266-298 | where such a text ends: the number of its cells, divided by the width |
| Layout.CalcStepExact | ed.refresh.c:1139-1170 | one step of CalcPosition agrees with drawing exactly unless a tab stop lies past the edge |
| Layout.CalcTextIsPosition | ed.refresh.c:1139-1170 | for every text whose tabs have their stops on the row they are drawn on, CalcPosition is where drawing ends |
| Layout.TabsFitEvenly | ed.refresh.c:1145-1160 | every tab has its stop there when the width is a multiple of eight |
| Layout.TabPastEdgeDiffers | ed.refresh.c:1145-1160 | a text for which it is not |
| EdRefresh.Editor.Vdraw | ed.refresh.c:266-298 | drawing a character puts it on the page and wraps at the edge |
| EdRefresh.Editor.Draw | ed.refresh.c:159-264 | tabs, control characters and newlines as cells of the page |
| EdRefresh.Editor.CpyPadSpaces | ed.refresh.c:1121-1137 | the copy is padded to the full width |
| EdRefresh.Editor.Refresh | ed.refresh.c:347-456 | from any settled state in which every row that is updated keeps the cursor, the screen shows prompt and input, rows past them are blank, the state is settled again, and the cursor is where it belongs; text that prints is read off the screen as it is, with the cursor behind as many cells as there are characters before it |
| EdRefresh.Editor.AnyRowFits | ed.refresh.c:347-456 | every row does on a terminal that can clear to the end of a line and inserts if it is taken to |
| EdRefresh.Editor.ClearRow | ed.refresh.c:439-444 | a row that is no longer used is blank on the screen, and of its Display buffer only two cells have changed |
| EdRefresh.Editor.RefCursor | ed.refresh.c:1172-1208 | only the cursor moves, to where Refresh would put it |
| EdRefresh.Editor.PutPlusOne | ed.refresh.c:1211-1241 | one more cell on the screen, in Display and on the page |
| EdRefresh.Editor.RefPlusOne | ed.refresh.c:1244-1297 | after a character is appended, the same screen, last row and cursor as a full Refresh |
| EdRefresh.TypedIntoUnused | ed.refresh.c:1211-1241 | writing into the first cell of an erased row agrees with the screen exactly when blanks follow it |
| EdRefresh.TypedIntoErased | ed.refresh.c:439-444 | the same for what ClearRow leaves of a padded row: exactly when the row had nothing but blanks behind its first cell |
| EdRefresh.StaleRowDiffers | ed.refresh.c:439-444 | a row of which ClearRow leaves what does not agree |
| EdRefresh.Editor.ClearDisp | ed.refresh.c:1301-1312 | every Display cell is NUL and the cursor is at the start |
| EdRefresh.Start | ed.screen.c:414-438 | there is a settled state: an editor with new buffers on a blank terminal |
| GlobPattern.CollapsePreserves | glob.c:397-405 | reducing runs of stars to one does not change the names matched |
| GlobPattern.MatchesMeaning | glob.c:698-784 | a name is in the language of the tokens exactly if it can be cut into parts that they stand for |
| GlobPattern.SpanReadings | glob.c:750-761 | the two readings of a range agree exactly when its ends are in order |
| GlobMatch.RetryCovered | glob.c:721-729 | once a later star is reached, going back to an earlier one finds nothing more |
| GlobMatch.MatchSet | glob.c:748-764 | a character is in a set exactly when an item of it contains it |
| GlobMatch.Match | glob.c:698-784 | the matcher says yes exactly for the names in the language of the compiled segment, and it terminates |
| GlobCompile.ProtectQuoted | glob.c:330-359 | quoted characters are protected from being special |
| GlobCompile.CompileItems | glob.c:380-390 | the list of a bracket, encoded in place over what has been read |
| GlobCompile.CompileTok | glob.c:365-409 | a bracket, a question mark or another character, encoded in place; an unclosed bracket is an ordinary character |
| GlobCompile.Compile | glob.c:361-412 | the buffer holds the cells of the pattern's tokens with runs of stars reduced, and its end mark |
| GlobText.ProtectReads | glob.c:330-359 | whatever has a backslash in front is protected, and nothing else is |
| GlobText.PatternText | glob.c:330-409 | round trip: the text of any tokens, quoted or not, is read as these tokens, and what comes behind as on its own |
| GlobText.QuotedInside | glob.c:345-350 | in any pattern a quoted character stands for itself, and leaves the reading of the rest alone |
| GlobText.QuotedMatches | glob.c:345-350 | a pattern that is quoted throughout matches nothing but the text itself |
| GlobAgree.SameTokens | glob.c:365-391 | both readings give the same tokens exactly when every bracket is closed and none starts with a closing bracket |
| GlobAgree.TextRead | sh.glob.c:940-1022 | round trip for t_pmatch: the text of any tokens is read as these tokens |
| GlobAgree.MatchersAgree | sh.glob.c:940-1022 | glob with GLOB_ALTNOT and a whole match of t_pmatch accept the same names for such patterns with ordered ranges |
| GlobAgree.ReversedRangeDiffers | sh.glob.c:998-1006 | a pattern and a name on which they differ |
| GlobWalk.PathsAreWanted | glob.c:484-656 | what is found below a path is what exists, and matches segment by segment under the rule for dots |
| GlobWalk.PathsOnce | glob.c:622-652 | no path is found twice |
| GlobWalk.ExactlyTheMatchingPaths | glob.c:463-656 | for a whole pattern: exactly the existing matching paths, each once |
| GlobWalk.CollapseKeepsPaths | glob.c:397-405 | reducing runs of stars does not change the paths that match, segment by segment |
| GlobWalk.CollapseKeepsWalk | glob.c:397-405 | nor the paths that the walk finds, or their order |
| GlobTree.CutAtSlashes | glob.c:521-528 | the separators in the compiled pattern are the slashes of the pattern exactly when no bracket has a slash in it |
| GlobTree.SlashInBracket | glob.c:521-528 | a pattern that is cut within its bracket, into cells that are no pattern |
| GlobTree.CompiledSeparate | glob.c:361-412 | without such brackets every slash and the end mark are cells of their own |
| GlobTree.Walker.CopySegment | glob.c:521-528 | the segment in the pattern's cells, whether there is a meta cell in it, and the path with its text |
| GlobTree.Walker.Glob2 | glob.c:484-541 | the results grow by exactly the paths below the path buffer, in directory order; errors only where one ends the walk |
| GlobTree.Walker.Glob3 | glob.c:562-656 | the same for a segment that needs a directory to be read |
| GlobTree.Walker.Glob | glob.c:291-420 | quote protection, compilation and walk together: the results grow by exactly the existing paths that match the pattern as it was parsed, each once |
| GlobTree.QuotedPath | glob.c:345-350 | a pattern that is quoted throughout finds the path of that name, if there is one |
| ShMatch.MatchList | sh.glob.c:989-1014 | the bracket of t_pmatch: membership and end of the list, though items after a hit are only skipped |
| ShMatch.TPmatch | sh.glob.c:939-1022 | 2 exactly for a whole match, 1 exactly for a match of a proper prefix only, 0 for none; the end given is that of the longest match; the error exactly when the text before an unclosed bracket matches a prefix |
| ShMatch.LaterReachesAsFar | sh.glob.c:963-986 | when matches begin at two positions, those from the later one end as late: the last one that is tried decides |
| ShMatch.MatchStar | sh.glob.c:958-987 | the star: every later position decides, and the last prefix found is kept |
| ShGlob.Gnmatch | sh.glob.c:890-932 | the result is that of any of the brace alternatives, complemented by a leading caret; the end given is the least of the ends of their longest matches; errors of expansion and of brackets |
| ShGlob.ComplementMark | sh.glob.c:899-902 | a circumflex in front asks for the complement, and nothing else does |
| Brace.SepsMeaning | sh.glob.c:185-214 | the pieces of a brace are balanced and undivided, and they are cut at commas |
| Brace.OnceMeaning | sh.glob.c:149-224 | a word pre{pieces}post stands for pre, each of the pieces, and post |
| Brace.OnceExactly | sh.glob.c:149-224 | a word with a brace stands for something exactly if it is of that form |
| Brace.WhatIsMissing | sh.glob.c:163-181 | which character is missing otherwise: a bracket exactly if one is open at the end |
| Brace.ExpandMeaning | sh.glob.c:227-291 | the full expansion in terms of the text: words that stay, words of that form, and the others |
| Brace.OnceFewer | sh.glob.c:203-212 | every alternative has fewer opening braces than its word |
| Brace.GlobBrace | sh.glob.c:149-217 | one word for each alternative of the first brace, or what is missing |
| Brace.ExpandAllAppend | sh.glob.c:237-289 | expansion in order, with the first error, distributes over lists of words |
| Brace.ExpandTwice | sh.glob.c:240-243 | nothing is left to expand |
| Brace.Room | sh.glob.c:255-265 | the vector that has grown has room for the words that are put in |
| Brace.Splice | sh.glob.c:272-286 | the words replace the one that was expanded; the others move up in place |
| Brace.ExpBrace | sh.glob.c:219-293 | the vector ends with the expansions of its words in order, or the first thing that is missing is reported; it terminates |
| Canon.RewriteResolves | sh.dir.c:931-1112 | whenever a path resolves with at most k links, rewriting ends and its result resolves to the same node |
| Canon.RewriteCanonical | sh.dir.c:931-1112 | no empty, dot or dot-dot component is left, and under SYM_CHASE no component is a link |
| Canon.CompsText | sh.dir.c:931-946 | reading a canonical path gives its components back |
| Canon.CompsMeaning | sh.dir.c:931-960 | a path is taken apart at its slashes, of which more than one are like one |
| Canon.TrueReadlinkIsFaithful | sh.dir.c:979-980 | every tree has a readlink as the theorems assume it |
| Canon.RewriteExact | sh.dir.c:931-1112 | when rewriting has ended, the path leads to a node exactly if the result does and every "." and ".." stands in a directory, and under SYM_CHASE every link leads somewhere |
| Canon.GroundedEnds | sh.dir.c:931-1112 | rewriting ends for every path of that kind, even one that leads nowhere |
| Canon.NoBackEnds | sh.dir.c:978-980 | it ends for every path without ".." when links are not chased |
| Canon.MissingNameCancels | sh.dir.c:1032-1045 | a path that leads nowhere, and its result leads somewhere |
| Canon.SelfLinkNeverEnds | sh.dir.c:978-1029 | a path for which the loop does not end |
| DirCanon.Flush | sh.dir.c:933-937 | extra slashes go, in place |
| DirCanon.BackCase | sh.dir.c:1032-1045 | the last name goes with "..", in place, and never the root |
| DirCanon.Expand | sh.dir.c:988-1029 | the text of a link takes the place of the name in a new buffer that is just long enough |
| DirCanon.Round | sh.dir.c:931-1112 | one round does one step of the rewriting, and there is less to do |
| DirCanon.RewritePath | sh.dir.c:886-1112 | the loop: the buffer ends with the text of the rewritten path, also for a relative path |
| DirCanon.FixHome | sh.dir.c:1114-1166 | the part of the path that stat finds to be the home directory is replaced by its name, unless the path starts with it |
| DirCanon.HomeKeepsPlace | sh.dir.c:1114-1166 | that leads to the same place, when what is remembered of the home directory is what stat says |
| DirCanon.HomeIsNamed | sh.dir.c:1140-1163 | the longest part of the path that leads to the home directory is replaced by the name of that directory |
| DirCanon.HomeNotNamed | sh.dir.c:1121-1163 | a path stays if it starts with that name or no part of it leads there |
| DirCanon.CanonicalText | sh.dir.c:873-877 | the text starts with a slash, no two slashes are adjacent, and only the root ends with one |
| DirCanon.DcanonInternal | sh.dir.c:878-1166 | both together, in place or in new buffers |
| DirCanon.SamePlace | sh.dir.c:873-877 | an absolute path that resolves becomes a canonical path to the same place |
| DirCanon.SamePlaceExactly | sh.dir.c:873-1166 | for every path of which each "." and ".." stands in a directory: rewriting ends, and the path leads to a node exactly if the final text does |
| DirRing.UnlinkAt | sh.dir.c:832-833 | taking an entry out leaves a ring of the others, in their order |
| DirRing.LinkFirst | sh.dir.c:761-764 | a new entry before the current one keeps the ring |
| DirRing.ReplaceFirst | sh.dir.c:524-530 | a new entry takes the place of the current one |
| DirStack.Dirs.Dfind | sh.dir.c:769-795 | the n-th directory, passing over the head; an error exactly when there are not so many |
| DirStack.PlusNumber | sh.dir.c:779-787 | the word +n is the number n, whether or not a leading zero means octal |
| DirStack.NoNumber | sh.dir.c:779-783 | a word without a plus sign, or with something besides digits behind it, is no number |
| DirStack.Dirs.Dnewcwd | sh.dir.c:1193-1209 | with dunique, one other entry of the same name is taken out of the ring, wherever the head is |
| DirStack.StaysUnique | sh.dir.c:1193-1209 | with dunique no command brings a directory to be on the stack twice |
| DirStack.Skipargs | sh.dir.c:190-218 | the arguments behind the options, the dash for the previous directory, and what is refused |
| DirStack.WordsAsked | sh.dir.c:190-218 | what the words of a command ask for: none, options, a dash, two arguments, something behind a dash |
| DirStack.Dirs.Dochngd | sh.dir.c:484-533 | cd and cd +n with any arguments on the stack of names, with cdtohome and dunique, errors leaving it alone |
| DirStack.Dirs.Dopushd | sh.dir.c:687-767 | pushd in its forms, with pushdtohome, dextract and dunique |
| DirStack.Dirs.Dopopd | sh.dir.c:801-841 | popd and popd +n; only popd of the current directory looks at dunique |
| DirStack.CdPlus | sh.dir.c:507-518 | cd +n on the stack of names |
| DirStack.PushdPlus | sh.dir.c:742-752 | pushd +n on the stack of names, with and without dextract |
| DirStack.PopdPlus | sh.dir.c:822-833 | popd +n on the stack of names |
| DirStack.Dirs.Extract | sh.dir.c:1315-1326 | a directory is taken from where it is and put on top |
| DirStack.Dirs.Alone | sh.dir.c:822-823 | the comparison with the head recognises exactly the empty stack |
| DirStack.Dirs.Getstakd | sh.dir.c:1285-1306 | the n-th or the last name |
| DirStack.Dirs.Recdirs | sh.dir.c:1351-1423 | the commands that are written, for any limit |
| DirStack.PushdTwice | sh.dir.c:720-735 | bare pushd twice changes nothing |
| DirStack.PopdAfterPushd | sh.dir.c:754-765 | popd takes back a push |
| DirStack.RotateBack | sh.dir.c:742-752 | two rotations that add up to the height change nothing |
| DirStack.SavedStackComesBack | sh.dir.c:1351-1423 | replaying the saved commands rebuilds the stack, or with a limit of n its n + 1 lowest directories |
| Numbers.GetN | sh.set.c:544-579 | the number that a word stands for, digit by digit, or that it is none |
| Numbers.NumeralPlaces | sh.set.c:567-574 | a digit counts for what its place says |
| Numbers.GetnMeaning | sh.set.c:553-578 | decimal and octal words, with and without signs |
| Numbers.GetnRefuses | sh.set.c:558-578 | a word with anything else in it is an error |
| Numbers.PutnGetn | sh.set.c:521-542 | a number that is written reads back the same |
| Exp.Exp0 | sh.exp.c:186-207 | the loop of \|\|, with its lazy operand and its 32-bit right side |
| Exp.Exp2c | sh.exp.c:302-343 | equality compares words, =~ and !~ match a pattern that is read without expansion, and a word on its own becomes a number |
| Exp.Exp3 | sh.exp.c:345-389 | relations, with an equals sign as a word of its own |
| Exp.Exp5 | sh.exp.c:457-511 | products, and errors for a zero that counts; in a pattern the operator itself is the value |
| Exp.Exp6 | sh.exp.c:513-595 | operands: signs, parentheses, commands in braces, operators in the place of an operand, file tests, words with file name expansion |
| Exp.InBraces | sh.exp.c:547-582 | a command's words up to the closing brace; when only parsing it is not run |
| Exp.Filetest | sh.exp.c:602-681 | which words are file tests, what counts as a missing file name, and the name that is tested |
| OpMeaning.ArithIsMeaning | sh.exp.c:201-511 | every operator computes what it means: sums, relations, quotient and remainder by the equation of division, shifts by powers of two, bits one by one |
| OpMeaning.ComplementBits | sh.exp.c:531-539 | a complement has all bits the other way round |
| ExpTrees.WordsCompared | sh.exp.c:302-343 | == and != on words, =~ and !~ with the word on the left and the pattern on the right |
| ExpTrees.TestsFile | sh.exp.c:602-681 | a file test is made with the name behind it |
| ExpTrees.RunsCommand | sh.exp.c:547-582 | a command in braces is 1 or 0, and an error if the brace is not closed |
| ExpTrees.ShowIsRead | sh.exp.c:186-595 | at every level the shortest text of a tree is read as the tree, and in ignore mode without an error |
| ExpTrees.EvaluatesTree | sh.exp.c:180-184 | on the text of any tree the whole list is consumed and the result, or the error, is the tree's; file name expansion must leave numbers alone |
| ExpTrees.EvaluatesLazily | sh.exp.c:186-231 | the same with mathematical \|\|, for trees without operands that 32 bits lose |
| ExpTrees.OrIn32 | sh.exp.c:193-201 | for one \|\| they agree exactly when the left operand decides or the right one survives |
| ExpTrees.Fits32Exactly | sh.exp.c:193-201 | for a whole tree every value on the way is the mathematical one exactly when no right operand that counts is lost |
| ExpTrees.OrLosesHighBits | sh.exp.c:193-201 | an expression for which they do not |
| DotLock.TrueLinkExcludes | dotlock.c:46-179 | on every run with a link that tells the truth there is at most one holder, even with shared names |
| DotLock.UniqueNamesExclude | dotlock.c:46-179 | on every run with names that are not shared there is at most one holder, whatever link reports |
| DotLock.TwoLinks | dotlock.c:100-113 | two links on an own file mean that the lock name is one of them |
| DotLock.HolderOwnsLock | dotlock.c:105-113 | the holder's file is the lock file |
| DotLock.SafeExactly | dotlock.c:46-179 | exactly these two assumptions make the lock safe |
| DotLock.AloneGetsLock | dotlock.c:126-179 | a process on its own gets a free lock and leaves nothing behind |
| Escape.UnparseString | ed.xmap.c:820-871 | the text of a string, in a buffer that is never overrun |
| Escape.WrittenMeaning | ed.xmap.c:837-862 | how each character is written |
| Escape.ParseEscape | ed.xmap.c:653-817 | the value of an escape of any form, and the position of its last character |
| Escape.NamedEscapes | ed.xmap.c:672-729 | the code of each escape with a letter, and of those that mean nothing |
| Escape.ControlEscapes | ed.xmap.c:681-708 | the codes of ^X and \cX |
| Escape.OctalEscapes | ed.xmap.c:765-801 | one to three octal digits, and the error for more than eight bits |
| Escape.HexPlaces | ed.xmap.c:607-630 | a hexadecimal digit counts for what its place says |
| Escape.HexEscapes | ed.xmap.c:730-764 | the digits of \x, \u and \U: as many as there are, up to two, four and eight |
| Escape.BracedHexEscapes | ed.xmap.c:732-744 | the digits of \x between braces |
| Escape.ParseString | tc.bind.c:374-404 | a text is decoded escape by escape |
| Escape.RoundTrip | ed.xmap.c:820-871 | what is written for any string of 8-bit characters reads back as that string |
| PathHash.NoFalseNegatives | sh.exec.c:93-111 | where the bit of a directory is off, the command is not in it, for every width and any number of directories |
| PathHash.HashNameMeaning | sh.exec.c:800-808 | the hash of a name: its characters as the digits of a number, modulo the length of the table |
| PathHash.FalsePositives | sh.exec.c:93-111 | the bit is on exactly when a name with the same hash is in a directory with the same bit |
| PathHash.Hash.DoHash | sh.exec.c:633-761 | the table that is built has exactly the bits of the names in the directories that can be read |
| PathHash.Hash.Look | sh.exec.c:829-857 | a pass finds only what is there, and with a table that is up to date the first one of all |
| PathHash.Hash.IsCommand | sh.exec.c:810-865 | the same position as a search without a hash; with autorehash nothing is missed even with an old table |
| PathHash.WhereMeaning | sh.exec.c:816-823 | a name with a slash is looked up as it is, another one in the directories of the path |
| PathHash.Hash.FindCmd | sh.exec.c:1107-1180 | the exact outcome: the command is built in, or some directory has it that is "." or has its bit on; with autorehash, in the old table or in the new one |
| PathHash.FindsExactly | sh.exec.c:1142-1152 | with a table that is up to date: exactly when such a directory is absolute or ".", or is taken for one by its bit |
| PathHash.RelativeDirectoryMissed | sh.exec.c:1142-1152 | a command in the only directory of the path, a relative one, is not found |
| KillRing.Ring.PushKill | ed.chared.c:904-959 | a push on the entries newest first, for every setting of killdup |
| KillRing.Ring.MoveUp | ed.chared.c:914-929 | a duplicate becomes the newest, in place; the order of the others is kept |
| KillRing.PushedContents | ed.chared.c:904-959 | only the oldest entry can be lost, and with erase or all no entry is there twice |
| KillRing.PushedOrder | ed.chared.c:904-959 | the order of the entries after a push, for every setting of killdup |
| KillRing.PushedNewest | ed.chared.c:913-944 | the text is the newest entry exactly unless killdup is all and it was an older one |
| KillRing.Ring.SetKillRing | ed.chared.c:866-901 | the newest entries are kept in both cases that are right; in the other one the oldest is lost |
| EditLine.Line.CInsert | ed.chared.c:161-176 | room at the cursor, in place, if there is any |
| EditLine.Line.CDelAfter | ed.chared.c:178-217 | the text after the cursor goes, and the mark follows |
| EditLine.Line.CDelBefore | ed.chared.c:219-250 | the text before the cursor goes, and the mark follows |
| EditLine.MarkKeepsPlace | ed.chared.c:161-250 | the mark keeps to its character when text is put in or deleted elsewhere |
| EditLine.Line.KillEnd | ed.chared.c:2604-2614 | the tail of the line goes to the ring |
| EditLine.Line.KillRegion | ed.chared.c:2641-2663 | the region goes to the ring, whichever side the mark is on |
| EditLine.Line.YankKill | ed.chared.c:2254-2287 | the entry to yank is inserted, or nothing changes |
| EditLine.Line.YankPop | ed.chared.c:2290-2351 | what was yanked is replaced by an entry that many entries older, around the ring |
| EditLine.Line.KillThenYank | ed.chared.c:2254-2287 | killing a region and yanking at once restores the text exactly when the text killed is the newest entry then |
| EditLine.Line.KillEndThenYank | ed.chared.c:2254-2287 | the same for the tail of the line |
| EditLine.Line.YankThenPop | ed.chared.c:2290-2351 | a yank and another entry instead is a yank of that entry |
| XkeyMap.PrefixFree | ed.xmap.c:170-206 | no bound key is a prefix of another |
| XkeyMap.InsertBinds | ed.xmap.c:234-299 | adding a key drops exactly its prefixes and its extensions |
| XkeyMap.InsertSound | ed.xmap.c:234-299 | siblings stay distinct and no leaf is without a binding |
| XkeyMap.DeleteUnbinds | ed.xmap.c:331-373 | deleting drops exactly the key's extensions |
| XkeyMap.DeleteSound | ed.xmap.c:331-373 | deleting keeps the tree sound |
| XkeyMap.GetFinds | ed.xmap.c:160-206 | reading finds exactly the bound key that the input starts with, and uses only that |
| XkeyMap.GetEof | ed.xmap.c:178-181 | the end of the input is met exactly on the way to a longer bound key |
| Xmap.Map.PutFreeNode | ed.xmap.c:375-404 | every node below is freed, each once |
| Xmap.Map.TryNode | ed.xmap.c:234-299 | the nodes become those of the map with the key; no other node is touched, none is lost |
| Xmap.Map.TryDeleteNode | ed.xmap.c:331-373 | the nodes become those of the map without the key; what is not in use is freed |
| Xmap.Map.AddXkey | ed.xmap.c:208-232 | a key is added unless it or its command is refused |
| Xmap.Map.DeleteXkey | ed.xmap.c:311-328 | a key is deleted, also from an empty map |
| Xmap.Map.TraverseMap | ed.xmap.c:170-206 | the walk over the nodes reads the key as the map does |

## Left out

- RowUpdate.UpdateLine: where its cuts insert text it requires a terminal that really inserts; `RowUpdate.InsertModeAlone` shows what happens otherwise. From column 257 on, tabs are left to terminals without them.
- EdRefresh.Editor.Refresh: requires of every row that the cursor is not lost in it, and a terminal that can move the cursor up; without that the code sends nothing and editing goes wrong as soon as there is a second row.
- EdRefresh.Editor.RefPlusOne: requires that a row it goes on to is blank in Display past its first cell; `EdRefresh.TypedIntoErased` says when the rows that Refresh erases are.
- EdRefresh.Editor.RefCursor: requires that every tab before the cursor has its stop on the row it is drawn on; `Layout.TabPastEdgeDiffers` shows what happens otherwise.
- EditLine.Line.YankPop: is for a mark that has been set; ResetInLine sets it before any command (ed.init.c:587).
- DirCanon.DcanonInternal: a path for which the rewriting does not end has no result; HAVE_SLASHSLASH is not modelled.
- DirStack.Dirs.Dochngd: directories that are still held by processes are not modelled, and flags are only read, since they choose how the stack is printed.
- DirStack.Dirs.Dopushd: the same.
- DirStack.Dirs.Dopopd: the same.
- GlobTree.Walker.Glob: sorting, GLOB_NOCHECK, GLOB_MARK, GLOB_STAR and a leading negation are not modelled, and a slash between brackets is excluded.
- PathHash.Hash.FindCmd: the listing of all places where a command is found, which also looks for aliases.
- ExpTrees.EvaluatesTree: is about trees without `=~` and `!~`, whose right operand is read in another way; `Exp.Exp2c` and `Exp.Exp5` have it.
- Exp.Filetest: the tests themselves; what they answer comes in as a parameter, like the outcome of a command, of a pattern match and of file name expansion.
- Wide and multibyte characters, literals, attributes, highlighting and the right-hand prompt: one cell is one character.
- Case folding and collation: characters are compared by their codes.
- Terminals with more rows of text than TermV, and scrolling.
- Numbers are integers without a bound; shifts by a negative count, which C leaves undefined, give 0.
- The mode in which operators of equal rank associate to the right (compat_expr).
- In the unclosed list of `[a-` t_pmatch reads past the end of the pattern; the model reports the missing bracket.
- The effect of vi mode on deletions (the undo buffer).
- The history, word and line motions, completion, and all other commands of the editor.
- The file system, clocks, signals and the terminal driver: what they answer comes in as parameters.
- The character of a prefix that GetXkey leaves behind when it does not find a key.
- Files and directories that change while a command runs.
