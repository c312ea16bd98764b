# Verified model of the MBSE BBS message base, DIESEL, CRCs and Fidonet addresses

MBSE BBS keeps its message areas in JAM message bases, formats its screens with the DIESEL
macro language, tells duplicates by CRC and routes mail by Fidonet addresses. This project
models the code of `lib/` that does these things and proves what it promises:

- **JAM message base** (`JamFormat`, `JamLayouts`, `JamText`, `JamWrap`, `JamStore`,
  `JamHeaders`, `JamPackSpec`, `JamPointers`, `JamTables`, `JamBases`, `JamPacking`,
  `JamReading`, `JamMessages`, `JamRuns`). The four files are byte
  strings and record sequences; the class `JamBases.JamBase` has the open files, the index
  position and the global buffers as fields, and its methods seek, read and write as the
  source does. A ghost field names the records the header file holds. Every method is tied to
  a value, a `Store`, on which the laws are proved: what every run keeps, what packing
  preserves, how pointers follow, how text wraps and comes back.
- **Threading** (`MsgLinkSpec`, `MsgLinkChains`, `MsgLinkReplies`, `MsgLinking`, `MsgLinkPack`,
  `MsgLinkRuns`, `MsgLinkCrc`). `Msg_Link` fills a table in one pass over the messages and writes headers in
  a second.
- **Line list** (`MsgText`). A doubly linked list on the heap with a cursor.
- **DIESEL** (`DieselText`, `DieselEval`, `DieselLaws`, `DieselVars`, `DieselCalls`, `Diesel`). The class
  `Diesel.Interpreter` has the variable chain and the EVAL depth as fields; its recursive
  methods compute the function `DieselEval.Run`, about which the laws are stated.
- **CRCs** (`CrcTheory`, the modules of `CrcSteps.dfy` and of the three tables, `Crc32`,
  `Ccitt`, `Xmodem`, `Crc32Bits`, `Crc32Changes`). The tables of the source, entry by entry,
  against single-bit steps. CRC-32 here is the register of section 8 of RFC 1952 without the
  final complement.
- **Duplicate cache** (`Dupes`), **address lists** (`FaLists`), **address text** (`Decimal`,
  `FtnAddress`, `FtnForms`, `AkaText`).

Assumptions the code itself makes: one process has the base to itself; the files are not
damaged; the deleted flag of the message buffer is clear when a message is added or rewritten;
file positions fit an `int`.

Where a promise is false of the code, the code is kept, the exact condition is proved, and an
input on which the promise fails is given:

| promise | exact condition | failing input |
|---|---|---|
| stored lines come back partitioned and unchanged | `JamText.StablePartition` | `JamText.AreaLineChanges` |
| wrapping loses only blanks | `JamWrap.WrapLosesOnlyBlanks` | `JamWrap.WrapCanLoseText` |
| a pointer follows its message through packing | `JamPointers.PointerToLiveMessage` | `JamRuns.RestartMisleadsPointer` |
| threading makes a chain of every subject | `MsgLinkChains.LinkThreadsExactly` | `MsgLinkRuns.DeletedFirstMisleads` |
| a reply threads with its original | `MsgLinkCrc.ReplyThreadsWith` | `MsgLinkCrc.NestedReply` |
| threading again changes nothing and returns 0 | `MsgLinkChains.SecondRun` | `MsgLinkRuns.DeletedFirstMisleads` |
| `MsgLinkChains.CountIsChanged` | lib/msg.c:466-477 | a run returns how many messages got other links, and one more for a deleted first record that an empty subject's message follows |
| a quoted literal survives the macros around it | `DieselLaws.QuotesMatched` | `DieselLaws.QuoteNeedsQuotes` |
| a name has one variable | `DieselVars.SetKeepsNames` | `DieselVars.SetvarTwice` |
| compaddr orders as numbers | `FaLists.ComparesExactly` | `FaLists.FarNetsSwap` |
| parsefnode undoes ascfnode | `FtnAddress.RoundTripExactly` | `FtnAddress.DotCuts` |
| str2aka undoes aka2str | `AkaText.RoundTripExactly` | `AkaText.TildeCuts` |

`dafny verify dfyconfig.toml` checks the whole project.

## Model

| member | source | states |
|---|---|---|
| `JamFormat.InfoRoundTrip` | lib/jam.h:49-58 | a header information block of 1024 bytes decodes to what was encoded, whatever follows it |
| `JamFormat.HdrRoundTrip` | lib/jam.h:98-120 | the 76 bytes of a message header decode to the header that was encoded |
| `JamFormat.RecordAt` | lib/jam.h:160-175 | at the offset of record i the header file holds exactly that record's header and subfields |
| `JamFormat.RewriteHeader` | lib/jammsg.c:1529-1537 | overwriting a header in place changes that record's header and no other byte of any record |
| `JamFormat.OffsetsKept` | lib/jammsg.c:1529-1537 | rewriting a header in place moves no record |
| `JamLayouts.InfoLayout` | lib/jam.h:49-58 | the place of every field of the header information block in its bytes, the lowest byte of a number first |
| `JamLayouts.HeaderLayout` | lib/jam.h:98-110 | the same of a message header, up to the date of writing |
| `JamLayouts.HeaderLayoutEnd` | lib/jam.h:111-120 | the same of the rest of a message header |
| `JamLayouts.DeletedBit` | lib/jam.h:92 | a record counts as deleted exactly when the highest bit of its attribute is set |
| `JamLayouts.FieldLayout` | lib/jam.h:160-166 | the same of a subfield: the id in two bytes, the length from the fifth, the data after eight |
| `JamLayouts.TagIds` | lib/jammsg.c:223-258 | which subfield a line with each tag is stored in |
| `JamLayouts.OtherId` | lib/jammsg.c:255-261 | any other control line is stored as a kludge without its control character |
| `JamLayouts.FlagsAndZone` | lib/jammsg.c:1345-1357 | the lines that FLAGS and TZUTC subfields are shown as |
| `JamStore.AddKeepsInv` | lib/jammsg.c:166-297 | adding a message keeps the invariant of the base and takes the next number |
| `JamStore.DeleteKeepsInv` | lib/jammsg.c:328-351 | deleting keeps the invariant, the count of active messages included |
| `JamStore.WriteKeepsInv` | lib/jammsg.c:1492-1540 | rewriting a header from a buffer with the deleted flag clear keeps the invariant |
| `JamStore.NumbersOrdered` | lib/jammsg.c:418-435 | undeleted numbers strictly increase in index order and the last record, deleted or not, has the highest number |
| `JamStore.Find` | lib/jammsg.c:1040-1056 | the undeleted record with a number, or none if there is none |
| `JamBases.JamBase.AddMsg` | lib/jammsg.c:166-297 | the files after an addition hold the old base plus one record with its subfields and text, the header written a second time with the lengths, and the information block counted up |
| `JamBases.JamBase.AddSubfield` | lib/jammsg.c:62-77 | one subfield is appended and the length counter grows by its size, modulo 2^32 |
| `JamBases.JamBase.AddLines` | lib/jammsg.c:220-277 | the lines become, in order, subfields and body text, each line in one place only |
| `JamBases.JamBase.Delete` | lib/jammsg.c:328-351 | marks exactly the undeleted message of that number and counts one less; nothing changes when there is none |
| `JamBases.JamBase.WriteHeader` | lib/jammsg.c:1492-1540 | rewrites exactly the header of the undeleted message of that number, found by the shortcut or the full scan |
| `JamBases.JamBase.Highest` | lib/jammsg.c:418-434 | the number of the last record, 0 when nothing is active |
| `JamBases.JamBase.Lowest` | lib/jammsg.c:472-489 | the number of the first record whether deleted or not, 0 when nothing is active |
| `JamBases.JamBase.Next` | lib/jammsg.c:509-567 | from any index position the least undeleted number above n; on failure n itself, and no undeleted number is above it |
| `JamBases.JamBase.Previous` | lib/jammsg.c:930-994 | from any index position the greatest undeleted number below n; on failure n itself, and none is below it |
| `JamBases.JamBase.NextFromHere` | lib/jammsg.c:516-540 | the fast path of Next agrees with the least number above n, or knows there is none, or leaves the question to the full scan |
| `JamBases.JamBase.PreviousFromHere` | lib/jammsg.c:938-963 | the fast path of Previous agrees with the greatest number below n, or knows there is none, or leaves the question to the full scan |
| `JamBases.JamBase.FindMessage` | lib/jammsg.c:1010-1056 | both shortcuts and the full scan find the same undeleted record, and fail only when there is none |
| `JamBases.JamBase.ReadHeader` | lib/jammsg.c:998-1204 | the message buffer holds what that record's header and subfields say, part by part, or is cleared when the message does not exist |
| `JamHeaders.HeaderFills` | lib/jammsg.c:1061-1204 | for any subfields: from, to, subject and both addresses are the first hundred characters of the last subfield with id 2, 3, 6, 0 and 1, the ids those of 4 and 5, a missing from address the start of the message id; number, dates, links and covered flags are the header's |
| `JamMessages.AddedHeader` | lib/jammsg.c:166-297 | a message added and read again has the names, subject and addresses of the buffer up to a hundred characters, the ids of its lines, and its dates, links and covered flags |
| `JamMessages.ShortHeaderBack` | lib/jammsg.c:166-297 | so a message with short names, a from address and covered flags comes back whole |
| `JamMessages.AddAndReadHeader` | lib/jammsg.c:998-1204 | the same of the two operations in turn on the open base |
| `JamMessages.WrittenHeader` | lib/jammsg.c:1492-1540 | a header rewritten and read again has the new flags, links and date of reading, and all else as it was |
| `JamMessages.DeleteTakesOne` | lib/jammsg.c:328-351 | a message deleted is found no more; no other record changes, and of its own only the deleted mark |
| `JamBases.JamBase.Open` | lib/jammsg.c:584-634 | an empty header file gets a fresh information block with no active messages, base number 1 and the time given; a sound base opens as what it was |
| `JamBases.JamBase.GetLastRead` | lib/jammsg.c:380-413 | finds the first pointer record of the user, by id or by name CRC, and stops at it |
| `JamBases.JamBase.SetLastRead` | lib/jammsg.c:1459-1465 | replaces the record the look-up stopped at, or appends one at the end |
| `JamMessages.PointersBack` | lib/jammsg.c:1459-1465 | a pointer record looked up, written and looked up again gives the pointers written |
| `JamBases.FindUnique` | lib/jammsg.c:1040-1056 | any undeleted record of a number is the one a full scan selects |
| `JamPackSpec.SurvivorKept` | lib/jammsg.c:724-782 | survivor t of a packed base is old survivor t: number t + 1, all other header fields, the subfields and the text bytes unchanged |
| `JamPackSpec.SurvivorsInOrder` | lib/jammsg.c:677-784 | survivors keep their order |
| `JamPackSpec.EveryLiveSurvives` | lib/jammsg.c:694-724 | every undeleted record is a survivor |
| `JamPackSpec.TextsAdjoin` | lib/jammsg.c:729-781 | the text of each survivor ends where the next one's starts |
| `JamPackSpec.TextsFill` | lib/jammsg.c:729-781 | the last survivor's text ends at the end of the new text file |
| `JamPackSpec.PackedRecs` | lib/jammsg.c:731-732 | as many records are written as are undeleted |
| `JamPackSpec.PackKeepsInv` | lib/jammsg.c:645-906 | packing keeps the invariant of the base |
| `JamPacking.Pack` | lib/jammsg.c:645-906 | the new files, with their index, hold exactly the packed base, and the new pointer table is what each of its records leaves, in their order |
| `JamPacking.CopySurvivors` | lib/jammsg.c:676-784 | the loop over the header file, rewriting the pointer table in place as it goes, builds the packed files |
| `JamPacking.RepointTable` | lib/jammsg.c:734-760 | one scan of the pointer table replaces one old number by one new number and nothing else |
| `JamPacking.CopyText` | lib/jammsg.c:772-781 | copying in chunks copies the whole text |
| `JamPacking.CopyReads` | lib/jammsg.c:809-868 | the loop over the pointer table writes exactly the packed table |
| `JamTables.PackedTable` | lib/jammsg.c:809-868 | the packed table is what its records leave, one after the other |
| `JamTables.RecordLeaves` | lib/jammsg.c:809-868 | a record with a name CRC for an id leaves a copy for each user, with the number of the last user of that name met so far, or the old id; any other one stays exactly when there is no user file or its id names a user of its name; a pointer to a record becomes the number of survivors at or before it, another one is limited to the last message |
| `JamPacking.CopyByCrc` | lib/jammsg.c:826-841 | a pointer with a name CRC for an id is written once for each user, the id corrected when the user is met |
| `JamPointers.PointersFollow` | lib/jammsg.c:694-760 | a pointer to an old record ends as the number of survivors at or before it, although the table is rewritten during the scan |
| `JamPointers.PointerMovesOnce` | lib/jammsg.c:694-760 | when old numbers strictly increase no pointer is moved twice |
| `JamPointers.ClampKeepsFollowed` | lib/jammsg.c:812-824 | the later clamp changes no pointer that followed a record |
| `JamPointers.PointersKeepOrder` | lib/jammsg.c:694-760 | two pointers that name records keep their order exactly when the first records bearing their numbers are in order, or no undeleted record lies after the one and up to the other |
| `JamPointers.PointerToLiveMessage` | lib/jammsg.c:694-760 | a pointer to an undeleted message follows it exactly when no earlier left-over bears the same number |
| `JamText.StablePartition` | lib/jammsg.c:220-277 | stored and shown again, control lines come above and SEEN-BY and PATH lines below in their order, exactly when each of them is of a form a subfield keeps |
| `JamText.AreaLineChanges` | lib/jammsg.c:1282-1288 | a control character and AREA:x come back as AREA:x |
| `JamText.LineRestored` | lib/jammsg.c:1247-1360 | a control line comes back to the letter, on its side of the text, exactly when it is of such a form |
| `JamText.Cut` | lib/jammsg.c:1255-1258 | a line shorter than the line buffer is kept whole |
| `JamWrap.ChunksDoNotMatter` | lib/jammsg.c:1369-1381 | chunk boundaries of the read change nothing |
| `JamWrap.CuttingConserves` | lib/jammsg.c:1398-1419 | at any width w >= 1 each piece has 1 to w characters, and pieces and carried characters concatenate to the characters consumed |
| `JamWrap.FeedCuts` | lib/jammsg.c:1381-1421 | feeding a paragraph gives out those pieces and carries the rest |
| `JamWrap.WrapLosesOnlyBlanks` | lib/jammsg.c:1383-1396 | at the closing CR only trailing blanks are lost, exactly when the remainder is empty or keeps two characters |
| `JamWrap.WrapCanLoseText` | lib/jammsg.c:1386-1389 | at width 3 the paragraph "ab c" loses its last letter |
| `JamWrap.BodyReadBack` | lib/jammsg.c:1369-1425 | a stored body reads back as each line's pieces in order |
| `JamWrap.ShortLinesUnchanged` | lib/jammsg.c:1369-1425 | lines shorter than the width read back unchanged, empty ones included |
| `JamWrap.Break` | lib/jammsg.c:1400-1412 | a full line with a blank is broken right after its last blank, one without at its end |
| `JamWrap.PiecesEndAtBlanks` | lib/jammsg.c:1398-1419 | every piece of a paragraph is cut from a full line of it: after the last blank of that line, or after all of it if it has none |
| `JamWrap.WrappedFits` | lib/jammsg.c:1381-1421 | no line of a wrapped paragraph is empty or longer than the width |
| `JamWrap.LineFeedsIgnored` | lib/jammsg.c:1397-1398 | line feeds in the text change nothing |
| `JamWrap.Trim` | lib/jammsg.c:1386-1388 | all trailing blanks are trimmed and nothing else, but never the first character |
| `JamReading.ReadText` | lib/jammsg.c:1369-1425 | the reading loop gives out what feeding the whole text gives |
| `JamReading.BreakLine` | lib/jammsg.c:1400-1419 | the search for a blank splits the line after its last blank, or gives it out whole |
| `JamReading.ShowFields` | lib/jammsg.c:1241-1360 | the loop over the subfields rebuilds the lines above and below the text |
| `JamReading.Read` | lib/jammsg.c:1211-1455 | the lines are those above the text, the wrapped text and those below it |
| `JamReading.ReadsBackAsPartition` | lib/jammsg.c:166-297 | a message added and read at a width above its lines is the stable partition of its lines exactly when its control lines are of a form that is kept |
| `JamReading.AddAndRead` | lib/jammsg.c:1211-1455 | a message added is found by the number it was given, and its lines read back partitioned exactly when its control lines are of a form that is kept |
| `JamReading.ShortLinesReadBack` | lib/jammsg.c:1211-1455 | with such control lines, control lines first, then the body, then SEEN-BY and PATH lines |
| `JamReading.AddThenRead` | lib/jammsg.c:1211-1455 | what reading a message just added gives, at any width |
| `JamReading.AddKeepsOthers` | lib/jammsg.c:166-297 | adding a message changes what no other message reads as |
| `JamReading.PackKeepsReading` | lib/jammsg.c:724-782 | packing changes what no surviving message reads as |
| `JamRuns.StepKeepsInv` | lib/jammsg.c:166-297 | every operation keeps the invariant: add, delete, rewrite, pack, thread, pointer updates |
| `JamRuns.EveryRun` | lib/jammsg.c:166-297 | after every run the active count is right, undeleted numbers increase, and the highest number found is the highest |
| `JamRuns.EveryPointer` | lib/jammsg.c:694-760 | after every run, exactly when a pointer to an undeleted message follows it through packing |
| `JamRuns.EveryRunSuccessive` | lib/jammsg.c:166-181 | after every run each record has the number after the one before it, or number 1 |
| `JamRuns.EveryRunKeepsOrder` | lib/jammsg.c:694-760 | after every run, restarts of the numbering included, packing keeps the order of any two pointers that name records |
| `JamRuns.RestartMisleadsPointer` | lib/jammsg.c:418-435 | adding, deleting and adding again leaves a pointer to an undeleted message that packing takes to 0 |
| `MsgLinking.Link` | lib/msg.c:409-477 | the two passes leave exactly the threaded records and return what the passes count |
| `MsgLinking.FillTable` | lib/msg.c:411-432 | the first pass fills the table with the key and number of each message visited, within its bounds |
| `MsgLinking.Neighbours` | lib/msg.c:447-458 | the search gives the last slot before and the first slot after with the same key |
| `MsgLinking.WriteLinks` | lib/msg.c:439-477 | the second pass visits the same messages although headers change under it |
| `MsgLinking.RelinkMessage` | lib/msg.c:466-471 | a header is written only when one of its links differs |
| `MsgLinking.StrUpr` | lib/msg.c:61-71 | upper case in place |
| `MsgLinking.SubjectKey` | lib/msg.c:416-424 | the key computed in place is the one whose cases `MsgLinkReplies.KeyCases` gives |
| `MsgLinkReplies.UpperMerges` | lib/msg.c:61-71 | two strings have the same upper case exactly when they differ at most in the case of letters |
| `MsgLinkReplies.KeyCases` | lib/msg.c:416-424 | a subject without RE: has the CRC of its upper-case text for a key, one behind RE: in any case that of what follows, less one blank |
| `MsgLinkReplies.ReplyKeys` | lib/msg.c:416-424 | replies to t, with and without a blank and in any case, have one key; it is the key of t whatever the CRC exactly when t is no reply itself |
| `MsgLinkReplies.ThreadKey` | lib/msg.c:416-424 | an original and its replies have the CRC of the original's upper-case text for a key |
| `MsgLinkReplies.StrangerKey` | lib/msg.c:416-424 | another subject has that key only if two texts have one CRC |
| `MsgLinkSpec.NextAbove` | lib/msg.c:432 | each step of the walk takes the first of the undeleted messages above |
| `MsgLinkSpec.SameSlots` | lib/msg.c:409-477 | threading changes no table a later run builds |
| `MsgLinkChains.LinkThreads` | lib/msg.c:409-477 | when the first record is undeleted, every subject becomes one doubly linked chain in message order |
| `MsgLinkChains.LinksAgree` | lib/msg.c:466-471 | in a threaded base j is i's Reply exactly when i is j's Original, and exactly when j is the next message with i's subject |
| `MsgLinkReplies.LinkChainsReplies` | lib/msg.c:409-477 | when the first record is undeleted, threading makes an original and its replies one doubly linked chain of their own exactly when no other subject has their CRC |
| `MsgLinkReplies.ThreadIsChain` | lib/msg.c:439-477 | the same of any threaded base |
| `MsgLinkChains.LinkThreadsExactly` | lib/msg.c:413-458 | when the walk starts at a deleted record the chains are right exactly when no message has an empty subject's key and the last message is alone with its subject |
| `MsgLinkChains.SecondRun` | lib/msg.c:409-477 | an immediate second run changes no header; it returns 1 exactly when no undeleted message has the first record's number and an undeleted message other than the last has the key of an empty subject, and 0 otherwise |
| `MsgLinkChains.TableFromDeleted` | lib/msg.c:411-426 | a walk that starts at a deleted record shifts the table by one slot |
| `MsgLinkRuns.EveryRunThreads` | lib/msg.c:409-477 | after every run, exactly when threading makes one chain of every subject |
| `MsgLinkRuns.EveryRunChainsReplies` | lib/msg.c:409-477 | after every run that leaves message 1 undeleted, threading makes an original and its replies one chain exactly when no other subject has their CRC |
| `MsgLinkRuns.EveryRunSettles` | lib/msg.c:409-477 | after every run, what a second threading returns, and that it changes no header |
| `MsgLinkRuns.DeletedFirstMisleads` | lib/msg.c:413-458 | after three messages without subjects are added and the first is deleted, threading makes no chain of them and a second run returns 1 |
| `MsgLinkPack.PackKeepsThreads` | lib/jammsg.c:724-762 | a threaded base is still threaded after packing exactly when every message linked to another already has the number packing gives it |
| `MsgLinkPack.PackThenLink` | lib/msg.c:409-477 | threading after packing always makes a chain of every subject |
| `MsgLinkCrc.MsgLink` | lib/msg.c:387-507 | with StringCRC32 as the key: when the first record is undeleted every subject is one chain, an original and its replies are one exactly when no other subject has their CRC, and the number of messages whose links changed is returned |
| `MsgLinkCrc.ReplyThreadsWith` | lib/msg.c:416-424 | with StringCRC32 a reply has the key of the subject it replies to exactly when that is no reply itself |
| `MsgLinkCrc.MarkMatters` | lib/crc.c:223-230 | a reply mark in front of a text always changes its CRC |
| `MsgLinkCrc.NestedReply` | lib/msg.c:419-423 | Re: Re: Hello does not have the key of Re: Hello |
| `MsgLinkCrc.LinkTwice` | lib/msg.c:387-507 | two runs in a row on the open base: the second writes nothing, and what it returns |
| `MsgText.LineList.Add` | lib/msgtext.c:72-107 | the line goes to the end from any cursor, and the cursor to it; its size, cut to an unsigned short as its text is, is added to the message's |
| `MsgText.LineList.Insert` | lib/msgtext.c:169-193 | the line goes after the cursor, and the cursor to it |
| `MsgText.LineList.Replace` | lib/msgtext.c:302-328 | the line at the cursor is replaced between the same neighbours |
| `MsgText.LineList.Remove` | lib/msgtext.c:244-263 | the cursor moves to the next line or, at the end, the one before |
| `MsgText.LineList.Clear` | lib/msgtext.c:111-116 | terminates from any cursor with no line left |
| `MsgText.LineList.First` | lib/msgtext.c:120-131 | the cursor goes to the first line |
| `MsgText.LineList.Last` | lib/msgtext.c:197-208 | the cursor goes to the last line |
| `MsgText.LineList.Next` | lib/msgtext.c:212-224 | one line on, or no value and no move at the end |
| `MsgText.LineList.Previous` | lib/msgtext.c:228-240 | one line back, or no value and no move at the start |
| `MsgText.LineList.Value` | lib/msgtext.c:330-334 | the line at the cursor, if there is one |
| `MsgText.LineList.ReadAll` | lib/msgtext.c:120-224 | First and then Next visits every line once and in order |
| `MsgText.RemoveUndoesInsert` | lib/msgtext.c:169-263 | removing a line just inserted gives back the lines |
| `MsgText.ReplaceIsInsertRemove` | lib/msgtext.c:169-328 | replacing is inserting after and removing the old line |
| `MsgText.OthersStay` | lib/msgtext.c:169-263 | inserting puts the line right after the cursor's and removing takes out the cursor's; all other lines stay in their places |
| `MsgText.AddInsertsLast` | lib/msgtext.c:72-107 | adding is inserting after the last line |
| `MsgText.RemovalsEmpty` | lib/msgtext.c:111-116 | as many removals as lines empty the list, from any cursor |
| `DieselText.Copy` | lib/diesel.c:1422-1478 | what is left over is never longer than the input, and starts at the bracket of a macro |
| `DieselText.Scan` | lib/diesel.c:1489-1587 | at most ten arguments, each strictly shorter than the macro text |
| `DieselText.CopyQuoted` | lib/diesel.c:1422-1453 | copying takes a quoted string for its text |
| `DieselText.ScanQuoted` | lib/diesel.c:1512-1533 | scanning takes a quoted string for its text, brackets and separators included |
| `DieselText.PieceScan` | lib/diesel.c:1489-1587 | a text that scans as one argument does so in front of anything |
| `DieselText.ScanMacro` | lib/diesel.c:1489-1587 | the text of a macro scans as its arguments, each a quote level lighter |
| `DieselText.PieceMacro` | lib/diesel.c:1489-1587 | scanning takes one quote level off each argument of a macro inside an argument, at any depth of brackets |
| `Diesel.CopyMode` | lib/diesel.c:1422-1478 | the copying loop computes the copy and how it ended |
| `Diesel.MacroMode` | lib/diesel.c:1489-1587 | the scanning loop computes the arguments, or fails at the end of the input |
| `Diesel.Interpreter.Diesel` | lib/diesel.c:1723-1767 | the recursive evaluator computes the value, the status and the variables, terminates on every input and restores the depth |
| `Diesel.Interpreter.MacroEval` | lib/diesel.c:1667-1716 | one macro is scanned and evaluated, and the input advances past it |
| `Diesel.Interpreter.MacroValue` | lib/diesel.c:1596-1659 | the function named in any case is called, or a diagnostic is put out |
| `Diesel.Interpreter.FIf` | lib/diesel.c:1057-1075 | only the chosen branch is evaluated |
| `Diesel.Interpreter.FNth` | lib/diesel.c:1133-1146 | only the chosen item is evaluated |
| `Diesel.Interpreter.FEval` | lib/diesel.c:952-969 | the argument's value is evaluated one level deeper, and the depth restored |
| `Diesel.Interpreter.FGetvar` | lib/diesel.c:1033-1048 | the chain is searched from what was its head before the name was evaluated |
| `Diesel.Interpreter.FSetvar` | lib/diesel.c:1175-1213 | a variable found in that chain gets the value, otherwise a new one is put at the head |
| `DieselLaws.RunQuoted` | lib/diesel.c:1723-1767 | a quoted string evaluates to its text |
| `DieselLaws.RunMacro` | lib/diesel.c:1596-1716 | a macro followed by any text is evaluated on its arguments, each a quote level lighter |
| `DieselLaws.ColumnOnly` | lib/diesel.c:1733-1758 | only the column of an error depends on the length of the input |
| `DieselLaws.QuotingProtects` | lib/diesel.c:1057-1146 | evaluating a quoted text as the argument that an IF or NTH selects is evaluating the text |
| `DieselLaws.NestedPiece` | lib/diesel.c:1489-1587 | scanning takes one quote level off a literal however deep in macros and in whichever of their arguments it stands |
| `DieselLaws.PlainPassesOn` | lib/diesel.c:1057-1146 | IF passes on the argument its condition selects, and NTH the one its index selects |
| `DieselLaws.QuotesMatched` | lib/diesel.c:1422-1587 | a literal quoted k times in the selected arguments of n nested IFs and NTHs survives exactly when k is n + 1, or k is at most n and the bare literal in the innermost n - k of them survives |
| `DieselLaws.StableSurvives` | lib/diesel.c:1422-1587 | a literal that scans to itself survives exactly when k is n + 1, or k is at most n and it evaluates to itself |
| `DieselLaws.QuoteNeedsQuotes` | lib/diesel.c:1422-1478 | a lone quote quoted n times inside n such macros is an error |
| `DieselVars.SetGet` | lib/diesel.c:1033-1213 | a variable set to any text, spelled plainly or quoted twice, and got again gives the text, with status 0 |
| `DieselVars.SetThenGet` | lib/diesel.c:1192-1211 | setting a variable in the chain from any place on leaves every other variable what it was, and gives this one the value unless its name stands both before and after that place |
| `DieselVars.SetKeepsNames` | lib/diesel.c:1192-1211 | setting makes a second variable of a name exactly when one of that name stands before the place where the search starts |
| `DieselVars.CallSetvar` | lib/diesel.c:1175-1213 | SETVAR searches from what was the head before its arguments were evaluated, and keeps names distinct exactly when they put no variable of that name in front |
| `DieselVars.SetvarTwice` | lib/diesel.c:1175-1213 | a name that sets its own variable first leaves two variables of that name |
| `DieselVars.LazyText` | lib/diesel.c:1057-1146 | in the text of a macro an unselected argument of IF or NTH may be any text that scans as one argument: output, variables and success stay the same |
| `DieselVars.RunRescan` | lib/diesel.c:952-969 | EVAL of a text quoted twice is the text evaluated one level deeper, and fails at the limit |
| `DieselVars.RescanLimit` | lib/diesel.h:26-28 | a plain text under k nested EVALs evaluates to itself exactly when k is at most 32 |
| `DieselCalls.RunEq` | lib/diesel.c:938-948 | EQ gives 1 for equal texts and 0 for different ones |
| `DieselCalls.CallEq` | lib/diesel.c:938-948 | and evaluates its first argument first |
| `DieselCalls.RunIf` | lib/diesel.c:1057-1075 | IF gives its second argument unless the first is 0, and then its third |
| `DieselCalls.RunIfThen` | lib/diesel.c:1069-1072 | without a third argument IF gives nothing for 0 |
| `DieselCalls.RunNth` | lib/diesel.c:1133-1146 | NTH gives the item its first argument counts to, from 0, and fails past the last |
| `DieselCalls.RunClear` | lib/diesel.c:1012-1026 | after CLEAR any text is evaluated without variables |
| `DieselCalls.ClearGet` | lib/diesel.c:1012-1048 | after CLEAR no variable can be got |
| `DieselCalls.GetvarMisses` | lib/diesel.c:1033-1048 | GETVAR of a name that sets its own variable first does not find it |
| `DieselCalls.WrongCount` | lib/diesel.c:495 | with a number of arguments it does not take a function fails with a diagnostic and changes nothing |
| `DieselCalls.FirstFails` | lib/diesel.c:495-500 | with a first argument that fails a function fails and evaluates nothing further |
| `DieselCalls.SecondFails` | lib/diesel.c:495-500 | so with a second one: EQ and SETVAR always, IF and NTH when it is selected |
| `DieselCalls.NoNumber` | lib/diesel.c:468-479 | IF and NTH fail when their first argument is no number |
| `DieselCalls.UnknownName` | lib/diesel.c:1652-1658 | a name that is no function puts out a diagnostic of its own |
| `DieselCalls.Unclosed` | lib/diesel.c:1489-1587 | a macro that is not closed puts out @? and fails at the end of the input |
| `DieselCalls.TooManyArgs` | lib/diesel.c:1489-1587 | so does a macro of more than ten parts |
| `DieselCalls.ArgValues` | lib/diesel.c:495-500 | the arguments of a library function are evaluated in order, each from the variables the one before it leaves |
| `DieselCalls.ArgFails` | lib/diesel.c:495-500 | an argument that fails, or that the function cannot read, is the last one evaluated |
| `DieselCalls.RunLibrary` | lib/diesel.c:1596-1659 | a function of the library gets the values of its arguments in order |
| `DieselCalls.LiteralFirst` | lib/diesel.c:1422-1478 | text in front comes out as it is, at-signs that no bracket follows included, whatever follows it |
| `DieselCalls.QuotedFirst` | lib/diesel.c:1422-1478 | so does the text of a quoted string |
| `DieselCalls.Unended` | lib/diesel.c:1422-1478 | a string that does not end puts out its text, with status -1 |
| `CrcTheory.Chunks` | lib/crc.c:237-247 | a CRC continued over any split of a buffer is the CRC of the whole |
| `CrcTheory.Lookup` | lib/crc.c:73-179 | looking an entry up gives what the table was shown to hold |
| `Crc32Table.TableIsSteps` | lib/crc.c:73-108 | all 256 entries are eight single-bit steps of their index, polynomial 0xedb88320 reflected |
| `CcittTable.TableIsSteps` | lib/crc.c:146-179 | all 256 entries are eight single-bit steps of their index, polynomial 0x8408 reflected |
| `XmodemTable.TableIsSteps` | lib/crc.c:110-144 | all 256 entries are eight single-bit steps of their index in the high byte, polynomial 0x1021 |
| `Crc32Moves.StepsMove` | lib/crc.c:60-65 | eight steps take the upper three bytes of a register down by a byte and do nothing else to them |
| `CrcTheory.UpdateByte` | lib/crc.c:243-245 | with a table of stepped bytes one look-up, move and xor is eight single-bit steps |
| `Crc32.UpdCrc32` | lib/crc.c:237-247 | the loop equals eight single-bit steps per byte for every buffer and starting value |
| `Crc32.Crc32Ccitt` | lib/crc.c:184-192 | the same from a register of ones |
| `Crc32.StringCrc32` | lib/crc.c:223-230 | the same over a string up to its first NUL |
| `Crc32.Chunked` | lib/crc.c:237-247 | two calls over two chunks equal one call over both |
| `Ccitt.Crc16Ccitt` | lib/crc.c:196-204 | the table loop equals eight reflected single-bit steps per byte |
| `Xmodem.Crc16Xmodem` | lib/crc.c:271-278 | the table loop equals eight highest-bit-first steps per byte |
| `CrcTheory.BurstMatters` | lib/crc.c:237-247 | a register without loss never gives messages that differ within a word's worth of consecutive items the same CRC |
| `Crc32Changes.RegisterSeen` | lib/crc.c:237-247 | registers that differ stay different over any bytes |
| `Crc32Changes.CrcOverBits` | lib/crc.c:237-247 | the CRC-32 of a buffer is the CRC of its bits, lowest first, one step a bit |
| `Crc32Changes.BurstSeen` | lib/crc.c:237-247 | buffers that differ at most within 32 consecutive bits, wherever these start, have the same CRC-32 exactly when they are equal |
| `Crc32Changes.ShortChangeSeen` | lib/crc.c:237-247 | buffers that differ at most within four consecutive bytes have the same CRC-32 exactly when they are equal |
| `Crc32Changes.EditIsWritten` | lib/dbmsgs.c:360-381 | a record edited within 32 consecutive bits is written back exactly when the edit changed it |
| `Dupes.Reports` | lib/dbdupe.c:72-187 | over any run of checks, flushes, closes and reloads the last max values are always reported, and only values accepted or in the file |
| `Dupes.ReportsAfterClose` | lib/dbdupe.c:154-187 | after a changed cache is closed exactly the last max values are reported |
| `Dupes.RunKeeps` | lib/dbdupe.c:72-187 | what is in memory or in the file is always the end of the history, with room for one more entry |
| `Dupes.DupeRec.CheckDupe` | lib/dbdupe.c:72-150 | the check, store and flush in place, every store below the allocated size |
| `Dupes.DupeRec.CloseDdb` | lib/dbdupe.c:154-187 | the last max entries are written, if anything changed |
| `Dupes.CloseDupes` | lib/dbdupe.c:191-197 | every database is closed |
| `FaLists.ComparesExactly` | lib/falists.c:208-214 | compaddr is 0 exactly for equal pairs, and orders as numbers exactly when the difference fits an int |
| `FaLists.FarNetsSwap` | lib/falists.c:208-214 | net 0xffffffff compares as lower than net 0 |
| `FaLists.SortList` | lib/falists.c:168-204 | the result is strictly increasing with the same pairs, and every node is on it or freed, exactly once |
| `FaLists.Relink` | lib/falists.c:187-200 | the relinking loop keeps the first of every run of equal pairs |
| `FaLists.UniqList` | lib/falists.c:150-162 | of neighbours with the same pair the first stays and the others are freed |
| `FaLists.SortThenUniq` | lib/falists.c:150-204 | after sort_list, uniq_list frees nothing |
| `FaLists.KeepDrop` | lib/falists.c:187-200 | kept and freed nodes are together the nodes of the list, each once |
| `FaLists.FirstsKept` | lib/falists.c:187-200 | kept are exactly the nodes that are first or differ from the one before, in their order |
| `FaLists.KeepIncreases` | lib/falists.c:187-200 | of an ordered list a strictly increasing one is kept |
| `FtnAddress.AscFnode` | lib/ftn.c:654-677 | the parts that the flags choose, cut to 127 characters |
| `FtnForms.OneFlag` | lib/ftn.c:666-675 | what each of the flags 0x01, 0x02, 0x04, 0x08 and 0x10 prints on its own |
| `FtnForms.FlagSets` | lib/ftn.c:666-675 | the sets 0x03, 0x06, 0x07, 0x0e, 0x0f and 0x1f print their parts in the order of the address |
| `FtnAddress.ParseFnode` | lib/ftn.c:61-206 | the text is trimmed, unbracketed, freed of a name, split at its marks and read number by number |
| `FtnForms.AnyParts` | lib/ftn.c:133-189 | each of the four numbers may be digits or a star for all |
| `FtnForms.FewerParts` | lib/ftn.c:133-189 | zone, net and point are 0 when they are left out with their marks |
| `FtnForms.BadNode` | lib/ftn.c:161-178 | a node that is neither a number nor a star makes the text no address |
| `FtnForms.PercentMark` | lib/ftn.c:106-109 | a percent sign serves for the at-sign |
| `FtnForms.HashMark` | lib/ftn.c:110-113 | before a hash the domain stands in front of the numbers |
| `FtnForms.Bracketed` | lib/ftn.c:80-86 | one pair of brackets or quotes around a printed address is taken off |
| `FtnForms.Spaced` | lib/ftn.c:72-77 | white space around a printed address is dropped |
| `FtnForms.NameStands` | lib/ftn.c:88-104 | a name is cut without looking in front of it exactly when it has four characters and one before the last three is no gap |
| `FtnForms.NameBeforeOf` | lib/ftn.c:91-103 | a name is cut before the word of, in any case, and the blanks and commas before it, and to 35 characters |
| `FtnForms.NameInFront` | lib/ftn.c:88-121 | a name of four characters and more in front of a printed address is dropped |
| `FtnAddress.DomainToDot` | lib/ftn.c:123-124 | of a printed address all is read back but what follows a dot in the domain |
| `FtnAddress.NameDropped` | lib/ftn.c:88-121 | a name in front of a printed address is dropped, unless it has an at-sign and the address no domain |
| `FtnAddress.RoundTripExactly` | lib/ftn.c:61-206 | parsefnode undoes ascfnode exactly when there is no domain, or it has no dot, at-sign or blank and no white space at its end |
| `FtnAddress.DotCuts` | lib/ftn.c:123-124 | the domain a.b is read back as a |
| `FtnAddress.PrintThenParse` | lib/ftn.c:654-677 | the same of the two functions in turn |
| `AkaText.Aka2Str` | lib/faddr.c:43-60 | the printed text, cut to 42 characters |
| `AkaText.Str2Aka` | lib/faddr.c:67-118 | the buffer is cut into tokens and read; a text longer than 42 characters, or without a colon or a slash, is no address |
| `AkaText.DomainToTilde` | lib/faddr.c:93-98 | of a printed address all is read back but what strtok cuts off at a tilde in the domain |
| `AkaText.RoundTripExactly` | lib/faddr.c:43-118 | str2aka undoes aka2str exactly when the domain has no tilde |
| `AkaText.PrintThenRead` | lib/faddr.c:43-118 | the same of the two functions in turn |
| `AkaText.TildeCuts` | lib/faddr.c:93-98 | the domain a~b is read back as a |
| `Decimal.AtoiDec` | lib/faddr.c:105-114 | atoi reads back what was printed |
| `Decimal.AtoiSigned` | lib/faddr.c:105-114 | and a number with a sign |

## Left out

- The repair branch of JAM_Pack for a header without its signature, and the renaming of temporary files beyond "new files replace old".
- File locking by fcntl, failed or short reads and writes, and failed allocations.
- JamBases.JamBase.ReadHeader: message ids and reply ids are kept whole, where the source copies them unchecked into fields of 81 bytes.
- JamReading.ReadText: JAM_Read writes past its buffers of 2049 bytes for a text line that grows longer at larger widths; the model keeps the line whole.
- JamReading.ShowFields: JAM_Read copies a subfield of more than 2048 bytes past its buffer; the model shows its first bytes.
- JamBases.JamBase.WriteHeader: the flag bits are one word; the three attribute bits the flags do not cover are dropped when a header is rewritten, as in the source, and MsgIdCRC and ReplyCRC are not reloaded by a read.
- JamBases.JamBase.AddControlLine: a Via line of exactly four characters is given empty data, where the source reads past its end.
- JamReading.Read: the ReplyAddr and ReplyTo fields that two kludges set are not modelled; the lines are a sequence; that the sequence is a linked list with a cursor is shown separately in `MsgText`.
- The user CRC of an index record, JAM_NewLastRead, JAM_SearchUser, JAM_DeleteJAM and JAM_Close.
- The Msg_* wrappers that take and release the lock.
- DieselText.Copy: outputs are below STRLIMIT, so the overflow marker is not modelled; the same holds of `DieselText.Scan`.
- Diesel.Interpreter.FLibrary: the arithmetic, string, bit and time functions are given as functions that evaluate their arguments in order; their own values, TIME's changing with the clock included, are parameters.
- Diesel.Interpreter.FGetvar: when CLEAR runs while the name is evaluated the source follows a freed pointer; the model finds nothing. The same holds of `Diesel.Interpreter.FSetvar`.
- ParseMacro's variables, alignment and file lookup.
- MsgText.LineList.Add: Msg.Size does not overflow.
- Dupes.DupeRec.CheckDupe: the file is whole records, and can be opened and written.
- FaLists.SortList: qsort is a parameter that returns the nodes in an order compaddr accepts.
- fill_list, fill_path and in_list of the address lists.
- FtnAddress.ParseFnode: where the source reads memory in front of a short name the result is Overrun; numbers beyond an int are read modulo 2^32.
- AkaText.Str2Aka: where the source would write past the domain field or give atoi a null pointer, the result is nothing.
- The search in the nodelist, SMTP, NNTP, sessions, file areas, character sets and the rest of the system.
