# A verified model of the hard parts of fetchmail and altermime

Two mail tools share one repository. *fetchmail* polls mail servers and hands
messages to a delivery agent; *altermime* rewrites MIME messages, mostly to add
disclaimers. This project models the parts of both whose correctness depends on
whole runs, on a fast form agreeing with a simple one, or on a decoder undoing
an encoder, and proves those properties in Dafny. `dafny verify dfyconfig.toml`
checks everything.

Code that changes state step by step is modelled by classes, arrays and loops;
each method is proved against a specification function, and the laws are proved
about that function. Server, sink and file system appear as arbitrary answers.

| Area | Modules | Main results |
|---|---|---|
| Option scanner | `Rotation`, `OptionElements`, `OptionScanner`, `OptionScans`, `CommandLines` | The permuting scanner refines one simple left-to-right reading: same options and arguments as the mode that reports operands in place, a stable partition of the arguments at the end, and termination by the pair of elements left and characters unread. Every command line, mistakes and missing arguments included, is read back as its author meant it; outside long-only mode every argument list is such a line. |
| Fetch driver | `FetchMessages`, `SessionRules`, `FetchSessions`, `AuthNotes`, `SkippedList` | Against arbitrary answers a message is deleted or marked seen exactly when the policy says so, and a pass, a session and a poll end exactly where and with the error that the rules say; what those rules imply: the cause of every end, and that nothing is left behind without one. Size windows refine the full size table. A positive fetch limit holds over all folders, repolls and sessions. Failure notices are separated by successful logins. |
| Line reader | `LineCuts`, `LineLaws`, `LineReader` | The lines of a file are exactly those that the rules for cutting give, across block edges, lookahead and push-back; nothing is lost or invented. A line ends with the longest line break in sight; what the lines of Unix, Macintosh, internet and mixed text are. |
| Replacement engine | `StringReplace`, `ReplacementPlaces`, `Linebreaks` | The segment-copying engine equals one simple scan and its buffer always suffices. Exactly when the scan replaces the leftmost non-overlapping occurrences between the first `preexist` and the last `postexist`. Line-break conversion is undone exactly for the texts described. |
| Quoted-printable | `QuotedPrintable`, `QuotedLaws` | The overwriting encoder equals a per-byte one; decoding in place gives back every line. Which bytes are escaped and how; what any text decodes to. |
| Base64 | `Base64Alphabet`, `AlterBase64`, `FetchBase64`, `Base64Laws` | Round trips for every byte string, whatever stale bytes the padding is made of; an exact capacity contract; what the two decoders make of text that no encoder wrote. |
| Boundary stack | `BoundaryStack` | The stack with its shortcuts agrees with the full search over every sequence of operations; what a match means. |

Places where a property one would expect is false of the code are kept as the
code has them, each with a concrete input and the exact condition:

- Occurrences between `preexist` and `postexist` that the engine does not
  replace: `ReplacementPlaces.HiddenExample` and
  `ReplacementPlaces.CutOffExample`; exactly when it replaces the right ones:
  `ReplacementPlaces.ReplacesExpected`.
- The `postexist` that counts is not the last one:
  `StringReplace.LastApartMissesOverlap`; exactly when it is:
  `ReplacementPlaces.LastApartIff`.
- Where a block of the file ends can change a line: `LineCuts.EdgeExample`;
  exactly when it does not: `LineCuts.EdgeMatters`. Between the CR and the LF of
  a pair this happens exactly in the case of `LineLaws.PairedCut`.
- A boundary is refused although there is room: `BoundaryStack.RefusedWithRoom`;
  exactly when: `BoundaryStack.PushRefusedIff`.
- Stale bytes reach the encoded text: `AlterBase64.StaleExample`; exactly when
  they do not: `AlterBase64.ZeroPadded`.
- Texts that do not survive line-break conversion: `Linebreaks.LostBreaks`;
  exactly which do: `Linebreaks.LfRoundTrip` and `Linebreaks.CrlfRoundTrip`.
- The empty string, alone, does not come back from Base64:
  `FetchBase64.RoundTripIff`.

Where code and comments disagree the model follows the code. The comments in
`altermime-x/mime_alter.c` and `altermime-x/qpe.c` speak of 76 characters a
line; Base64 lines are broken at 80 and no quoted-printable soft break survives.
The comment at `fetchmail-x/driver.c:1179` speaks of successive failures; other
errors in between do not reset the count. The comment at
`fetchmail-x/driver.c:1670` speaks of retrieved messages; each session counts
with the number it was allowed.

## Model

| member | source | states |
|---|---|---|
| `Rotation.Exchange` | fetchmail-x/getopt.c:227-281 | The in-place block exchange leaves the two adjacent runs in each other's place, each in its own order, and everything else where it was |
| `Rotation.SwapRuns` | fetchmail-x/getopt.c:250-255 | One inner loop swaps two runs of equal length element by element |
| `Rotation.LowerRunShort` | fetchmail-x/getopt.c:243-258 | With the lower run shorter, the swap leaves a smaller instance of the same exchange |
| `Rotation.UpperRunShort` | fetchmail-x/getopt.c:259-274 | With the upper run no longer than the lower, likewise |
| `Rotation.RotationSlices` | fetchmail-x/getopt.c:277-280 | The exchange said with slices: where the options and the operands stand afterwards |
| `OptionElements.FindLong` | fetchmail-x/getopt.c:484-525 | The lookup loop answers with the first exact name, else the only option abbreviated, else ambiguity, else nothing |
| `OptionElements.LongMatchUnique` | fetchmail-x/getopt.c:493-525 | That answer is determined by the table and the name |
| `OptionElements.Decode` | fetchmail-x/getopt.c:478-676 | Decoding (what it reports is the subject of `CommandLines`) never reports end or operand, uses at most the elements there are, and either finishes its element or shortens the unread text |
| `OptionElements.Punctuated` | fetchmail-x/getopt.c:456-460 | The text behind the punctuation is a non-empty, proper suffix of the element |
| `OptionScanner.Scanner.AdvancePermuting` | fetchmail-x/getopt.c:396-413 | Options processed since are moved in front of the operands, further operands are passed, the unscanned elements and the outcome of the whole scan stay the same |
| `OptionScanner.Gather` | fetchmail-x/getopt.c:401-404 | Guarded exchange: done options grow by the new ones, the operands keep their order, the rest is untouched |
| `OptionScanner.Scanner.DecodeCurrent` | fetchmail-x/getopt.c:478-602 | The imperative decoding computes the reference step: event, unread text and elements used |
| `OptionScanner.Scanner.TakeLong` | fetchmail-x/getopt.c:527-578 | A long option with attached, separate, missing or forbidden argument |
| `OptionScanner.Scanner.TakeShort` | fetchmail-x/getopt.c:604-676 | A short option with no, optional, required or missing argument |
| `OptionScanner.Scanner.Terminate` | fetchmail-x/getopt.c:415-443 | At `--` the array is options, operands, then what followed, and `optind` stands on the first operand |
| `OptionScanner.Scanner.Finish` | fetchmail-x/getopt.c:433-443 | The same at the end of the array |
| `OptionScanner.Scanner.MeetOperand` | fetchmail-x/getopt.c:445-454 | Without permuting an operand stops the scan or is reported and passed |
| `OptionScanner.Scanner.ReportOption` | fetchmail-x/getopt.c:463-676 | Reporting an option takes exactly its event and its elements off the predicted reading and lowers the measure |
| `OptionScanner.Scanner.Report` | fetchmail-x/getopt.c:463-676 | The same in terms of finished options, passed operands and the outcome of the whole scan |
| `OptionScanner.Scanner.Next` | fetchmail-x/getopt.c:375-677 | One call reports the next event of the reference reading, never disturbs unscanned elements or `argv[0]`, and lowers elements left or characters unread; only the permuting mode changes the array |
| `OptionScanner.PassOperands` | fetchmail-x/getopt.c:406-412 | Passing operands changes nothing about the reading but the operands |
| `OptionScans.ScanPermuting` | fetchmail-x/getopt.c:392-461 | Calls until the end give the options of the reading, and leave `argv[0]`, the option elements, the operands and the tail in this order with `optind` on the operands |
| `OptionScans.TakeNext` | fetchmail-x/getopt.c:375-677 | One of these calls: it ends the scan with that array or goes on with a lower measure |
| `OptionScans.ScanInOrder` | fetchmail-x/getopt.c:445-461 | In the other two modes the array never changes and the events are those of the reading |
| `OptionScans.CompareOrderings` | fetchmail-x/getopt.c:392-461 | The permuting mode gives the events of the reporting mode without the operands, and leaves exactly those operands followed by what stands after `--` |
| `OptionScans.StablePartition` | fetchmail-x/getopt.c:396-443 | Option elements and operands with the tail are an order-preserving partition of the scanned elements |
| `OptionScans.StrictIsPrefix` | fetchmail-x/getopt.c:448-451 | Stopping at the first operand gives the part of the full reading before it |
| `CommandLines.ReadUse` | fetchmail-x/getopt.c:478-676 | Every option use, with its argument written in any permitted way and other letters in front of a short one, and long options with two dashes or, in long-only mode, with one, is reported as meant whatever follows. So is every mistake, by one '?': an unknown letter, a long name that is unknown or ambiguous, an argument that is not wanted. In long-only mode a short element must not be an abbreviated long name, and an unknown letter makes its whole element unknown |
| `CommandLines.ReadLetters` | fetchmail-x/getopt.c:604-628 | The letters of a short element are reported one by one, '?' for an unknown one, and then what follows them in the element |
| `CommandLines.ReadLong` | fetchmail-x/getopt.c:478-602 | An element looked up as a long option is decoded as the one found, or reported once as ambiguous or unknown |
| `CommandLines.ReadEnding` | fetchmail-x/getopt.c:555-567 | How a line may end: with nothing, with `--` and what follows, or with an option whose argument is missing, reported by '?', or by a colon if the option string starts with one |
| `CommandLines.ReadBack` | fetchmail-x/getopt.c:415-676 | Writing any list of such uses, operands and mistakes with any ending and reading it gives the list back and leaves what follows `--`, in every mode |
| `CommandLines.ScanLine` | fetchmail-x/getopt.c:392-676 | The same for a caller of the permuting scanner: it is told the options and mistakes as meant and left with the operands and what follows |
| `CommandLines.EveryLine` | fetchmail-x/getopt.c:415-676 | Outside long-only mode every argument list is such a line, so what it means is settled |
| `CommandLines.Reported` | fetchmail-x/getopt.c:463-676 | In every mode, for all elements, only these are reported: operands; '?', or a colon when asked for; a letter of the option string other than the colon, or the code of the long option named by its index, each with an argument only as its description allows |
| `CommandLines.ArityWritten` | fetchmail-x/getopt.c:629-655 | One colon behind a letter means a required argument, two an optional one, none no argument |
| `FetchMessages.GivingUp` | fetchmail-x/driver.c:769-819 | Only fetched, confirmed, non-transient messages are given up; with soft bounces only accepted ones; none is both deleted and marked |
| `FetchMessages.WantedIff` | fetchmail-x/driver.c:480-560 | A message is skipped as too large only above a limit that is set, and as old only if nothing makes it count as new |
| `FetchMessages.DeletedIff` | fetchmail-x/driver.c:778-819 | Messages that must go do go: deleted or marked exactly when the server can and losing the copy is allowed |
| `FetchMessages.StopsBecause` | fetchmail-x/driver.c:480-833 | Why a pass stops where it does: all done; the answer about the last message, or to the next request for sizes, failed, and is the error; or the limit, which must be set, was reached with messages left. No message before gave a reason |
| `FetchMessages.NothingStops` | fetchmail-x/driver.c:480-833 | Without a limit and bad answers a pass handles every message and succeeds |
| `FetchMessages.StopWithin` | fetchmail-x/driver.c:822-833 | A pass that succeeds has sorted every message, and one that starts below its limit stays within it |
| `FetchMessages.Sorted` | fetchmail-x/driver.c:480-767 | In an undisturbed pass every message has exactly one of five fates |
| `FetchMessages.AfterCounts` | fetchmail-x/driver.c:480-833 | The counters of a pass: fetches are the fetched messages, dispatches are among them, deletions are the deletable ones |
| `FetchMessages.ExactlyCount` | fetchmail-x/driver.c:788-800 | As many deletions were counted as messages were deleted |
| `FetchMessages.GetPartialSizes` | fetchmail-x/driver.c:529-534 | The window buffer holds the sizes of the asked-for messages |
| `FetchMessages.SizeOf` | fetchmail-x/driver.c:513-541 | The index into the size cache is in bounds and the size is the server's own, in windows as in the full table, also after skipped messages |
| `FetchMessages.LedgerSafe` | fetchmail-x/driver.c:778-819 | What an exact record of deletions and marks implies: every deletion is permitted, no message is in both, and with soft bounces every wanted one was accepted |
| `FetchMessages.Pass.Deliver` | fetchmail-x/driver.c:585-767 | Fetching and forwarding one message, for every combination of answers: the outcome with the very answer that failed, suppression flags and all counters, nameserver failures while headers are read among them |
| `FetchMessages.Pass.Forward` | fetchmail-x/driver.c:652-767 | What follows the headers: the body, the answer of the sink, and the counters |
| `FetchMessages.Pass.ReadBody` | fetchmail-x/driver.c:659-719 | When the body is read, and which answers end the pass or fail for the time being |
| `FetchMessages.Pass.Flag` | fetchmail-x/driver.c:769-819 | Deleted, marked seen or left alone, as the flags and options say; it fails with the answer to that request and not otherwise |
| `FetchMessages.Pass.HandleMessage` | fetchmail-x/driver.c:543-819 | One message from the size decision to flagging: deleted, marked and accepted exactly under the policy, and what it adds to every counter |
| `FetchMessages.Pass.HandleNext` | fetchmail-x/driver.c:480-819 | The record stays exact from message to message |
| `FetchMessages.Pass.OneMessage` | fetchmail-x/driver.c:480-819 | One turn of the loop, with the size cache kept valid and the record exact even when the turn fails |
| `FetchMessages.Pass.Messages` | fetchmail-x/driver.c:480-833 | The loop stops exactly where and with the error that the rules for stopping say, with an exact record and exact counters |
| `FetchMessages.Pass.Fetch` | fetchmail-x/driver.c:423-834 | The same over every pass: an exact record, exact counters, the size decisions of the full table, the account of all messages on success, dispatches within fetches, and the limit |
| `SessionRules.SessionCause` | fetchmail-x/driver.c:1298-1609 | Every way a session can end for any answers: its error was answered by the server or the sink, or says that the connection was dropped, the count was bogus, nothing was fetched in an orderly session, the limit was reached, or the command after the session failed |
| `SessionRules.PollBroken` | fetchmail-x/driver.c:1315-1466 | A pass is broken off exactly by its first bad answer, with that error |
| `SessionRules.BrokenFolder` | fetchmail-x/driver.c:1300-1479 | The first folder that is not left in order ends the polling, with its error; otherwise the next one follows |
| `SessionRules.CalmSession` | fetchmail-x/driver.c:1483-1609 | With no bad answer from any folder: the answer to the logout, else the limit, else no mail if and only if nothing was fetched, else success |
| `SessionRules.CalmPass` | fetchmail-x/driver.c:1431-1441 | With no bad answers a pass stops at the limit with messages left or has done all |
| `SessionRules.FetchesEverything` | fetchmail-x/driver.c:1300-1494 | Without limit and repolls such a session fetches exactly what is to be fetched from every folder, and reports no mail if and only if that is nothing |
| `SessionRules.Repolls` | fetchmail-x/driver.c:1471-1478 | A folder is polled up to and including the first poll that forwarded nothing without idling, counted an error, or found it empty; what all of them let through is fetched |
| `SessionRules.SessionWithin` | fetchmail-x/driver.c:1467-1470 | No session fetches more than its limit |
| `SessionRules.RunWithin` | fetchmail-x/driver.c:1673-1705 | Sessions that each keep to their limit keep to the limit for all between them, an explicit "no limit" ends after one, and the last stops early only when the whole limit is used up |
| `SessionRules.PollWithinLimit` | fetchmail-x/driver.c:1613-1706 | The same for a whole poll |
| `SessionRules.LockedRetries` | fetchmail-x/driver.c:1687-1702 | Up to five sessions in a row that find the mailbox locked are each followed by another |
| `SessionRules.LockedOut` | fetchmail-x/driver.c:1689-1690 | The sixth ends the poll |
| `SessionRules.LockedScripts` | fetchmail-x/driver.c:1144-1156 | A session that is told at login that the mailbox is locked is such a session |
| `SessionRules.Refused` | fetchmail-x/driver.c:1634-1658 | No session is held exactly when the options ask for what the protocol cannot do |
| `FetchSessions.TallyAppend` | fetchmail-x/driver.c:1298-1308 | The fetch counter of a session is the sum over its recorded passes, whose records are exact |
| `FetchSessions.ExactSafe` | fetchmail-x/driver.c:778-819 | In an exactly recorded pass every deletion was permitted, none was deleted and marked, and with soft bounces every wanted one was accepted |
| `FetchSessions.GetSizes` | fetchmail-x/driver.c:1413-1421 | The full size table |
| `FetchSessions.Session.FetchPoll` | fetchmail-x/driver.c:1382-1441 | Sizes, then messages, and the record of the pass; the error and the counters are those of the rules; a bogus count stops before anything is fetched |
| `FetchSessions.Session.FetchPass` | fetchmail-x/driver.c:1431-1441 | The pass is recorded and the limit holds |
| `FetchSessions.Session.OnePass` | fetchmail-x/driver.c:1305-1478 | One pass of the repoll loop ends, breaks off or is repeated exactly as the rules say; going on implies that the limit leaves room |
| `FetchSessions.Session.EndPass` | fetchmail-x/driver.c:1456-1478 | The end of the mailbox, the limit, and whether to poll again |
| `FetchSessions.Session.OneFolder` | fetchmail-x/driver.c:1305-1478 | All passes over one folder: how they end and what they counted |
| `FetchSessions.Session.AllFolders` | fetchmail-x/driver.c:1300-1479 | All folders: how they end and what they counted, that the limit holds, and that an orderly end below the limit has visited every folder |
| `FetchSessions.DoSession` | fetchmail-x/driver.c:1298-1609 | The error and the number of messages fetched are those of the rules (`SessionRules.SessionCause`, `SessionRules.CalmSession`); what was fetched, deleted and marked is what the policy says of the answers; an orderly end below the limit has visited every folder |
| `FetchSessions.DoProtocol` | fetchmail-x/driver.c:1613-1706 | Error, limits and fetched messages are those of the rules, so that a positive limit holds over all sessions, none gets 0 for "unlimited", and there are at most as many sessions as messages allowed; over the whole poll every deletion was permitted |
| `FetchSessions.ManySessions` | fetchmail-x/driver.c:1673-1705 | The session loop with its clipping and its lock-out count refines the recursion over sessions |
| `FetchSessions.NextSession` | fetchmail-x/driver.c:1684-1702 | One session, and exactly when another follows |
| `FetchSessions.SingleSession` | fetchmail-x/driver.c:1664-1666 | The one session gets the whole limit |
| `AuthNotes.Account.Attempt` | fetchmail-x/driver.c:1163-1295 | Flags and counter after each login equal what the history of logins says |
| `AuthNotes.Watch` | fetchmail-x/driver.c:1163-1295 | Over every history notices go out exactly where the history says; none outside background mode |
| `AuthNotes.NotesSeparated` | fetchmail-x/driver.c:1184-1190 | Two failure notices have a successful login between them |
| `AuthNotes.NoteNeedsFailures` | fetchmail-x/driver.c:1186-1187 | A failure notice stands for three failures since the last success, ten once a login has succeeded |
| `AuthNotes.NoteGoesOut` | fetchmail-x/driver.c:1184-1190 | At a failure while mail works, with no notice since the last success, one goes out if and only if it is at least the third failure, the tenth once a login has succeeded |
| `AuthNotes.RestoredFollowsNote` | fetchmail-x/driver.c:1263-1287 | A restored notice follows a failure notice with no success in between |
| `SkippedList.Clean` | fetchmail-x/driver.c:263-300 | The list ends up as exactly the marked items in their old order |
| `SkippedList.Unlink` | fetchmail-x/driver.c:274-291 | Unlinking at the head or behind the previous item takes out exactly that item |
| `SkippedList.ChainDistinct` | fetchmail-x/driver.c:263-300 | A list that ends meets no item twice, so the relinked item is the only one that changes |
| `SkippedList.ChainUnique` | fetchmail-x/driver.c:263-300 | A list runs through one sequence of items only, so the result is determined |
| `LineReader.Reader.GetNewBlock` | altermime-x/ffget.c:106-181 | The next block with its NULs turned into spaces, and the end-of-file flags |
| `LineReader.Reader.FindDelimiter` | altermime-x/ffget.c:468-469 | The first delimiter of the mode, or none in the buffer |
| `LineReader.Reader.LookAhead` | altermime-x/ffget.c:495-523 | One byte past the block is read without changing what is still to come |
| `LineReader.Reader.PairBreak` | altermime-x/ffget.c:526-593 | Which break bytes belong together, and the mode afterwards, as a function of the bytes seen and the mode before |
| `LineReader.Reader.FindEnd` | altermime-x/ffget.c:529-593 | The break found is the one at that place of the text, its third byte counting only within the block |
| `LineCuts.BreakWithinLine` | altermime-x/ffget.c:529-593 | Pairing never takes more than belongs to the line, and CR once ending lines goes on doing so |
| `LineCuts.LineLenMode` | altermime-x/ffget.c:433-437 | Lines only get shorter when CR ends them too |
| `LineReader.Reader.CopyOut` | altermime-x/ffget.c:623-629 | Bytes move from the buffer to the line, none lost |
| `LineReader.Reader.TakeTerminated` | altermime-x/ffget.c:468-629 | A line up to its break is handed out and the rest, with the looked-at byte used or pushed back, is still to come |
| `LineReader.Reader.PassBlock` | altermime-x/ffget.c:631-654 | A line that crosses the block edge goes on in the next block |
| `LineReader.Reader.FinishTerminated` | altermime-x/ffget.c:468-629 | The last piece of a line: how far it goes, the mode, and what is left of the block |
| `LineReader.Reader.FillLine` | altermime-x/ffget.c:463-661 | The loop that fills the line from one block or several makes exactly the cut of the rules |
| `LineReader.Reader.FGets` | altermime-x/ffget.c:412-663 | Each call hands out a non-empty front of what remains, within the caller's buffer, and for a line that fits exactly the cut of the rules: its length, the mode and the bytes left of the block; it returns nothing exactly at the end |
| `LineCuts.FitsLines` | altermime-x/ffget.c:433-442 | Lines, as the delimiters of the mode end them, that fit at their starts fit wherever reading goes on |
| `LineCuts.CutIsPiece` | altermime-x/ffget.c:463-661 | What a cut means: no delimiter but in the break at its end, and a break is missing only at the end of the text or when the buffer is full |
| `LineCuts.EdgeMatters` | altermime-x/ffget.c:495-523 | Exactly when the end of a block does not change the cut of a line that fits: the line does not fill the buffer there, and LF, CR and the break byte behind them that belongs to them do not straddle it |
| `LineCuts.EdgeExample` | altermime-x/ffget.c:529-593 | A text that two block sizes cut differently |
| `LineCuts.PiecesCover` | altermime-x/ffget.c:412-663 | The pieces of a text whose lines fit make up the text, and each fits the buffer |
| `LineLaws.BreakLongest` | altermime-x/ffget.c:529-593 | The pairing takes the longest string in sight that is a line break of the mode, and CR ends lines from then on if that ends with a CR, unless the text ends with a lone CR |
| `LineLaws.CallLongest` | altermime-x/ffget.c:463-661 | The same for a whole call on a text whose line fits |
| `LineLaws.KindLines` | altermime-x/ffget.c:412-663 | The lines of text without CR end exactly at the LFs; of text without LF, where CR ends lines and none are empty, exactly at the CRs; of text with CRLF alone, while CR is watched for and has not ended a line alone, exactly at the pairs; wherever blocks end |
| `LineLaws.PairedCut` | altermime-x/ffget.c:571-581 | Where every CR has its LF, a call ends with LF and leaves the mode alone if and only if no block end comes between |
| `LineLaws.PairedLines` | altermime-x/ffget.c:412-663 | So in such text, watched or not, no line ends between a CR and its LF |
| `LineLaws.SdlLines` | altermime-x/ffget.c:554-593 | Once CR ends lines by itself, a CR before an LF ends a line alone, two CRs end one line together, and every line has one break at its end |
| `LineLaws.SdlOnIff` | altermime-x/ffget.c:554-593 | Exactly when a call finds that CR ends lines by itself |
| `LineReader.ReadFile` | altermime-x/ffget.c:412-663 | For every file whose lines, ended by LF or in the other mode by CR too, fit, the lines are those of the rules and put together are the file with NULs as spaces, for every block size and mode |
| `StringReplace.SameLetter` | altermime-x/pldstr.c:38-43 | Without regard to case two characters count alike exactly if they are the same or the two cases of one letter |
| `StringReplace.FindLast` | altermime-x/pldstr.c:443-460 | The loop finds the last of the non-overlapping occurrences |
| `StringReplace.LastApartIsLast` | altermime-x/pldstr.c:447-454 | Only an overlapping occurrence can start after that one |
| `StringReplace.LastApartMissesOverlap` | altermime-x/pldstr.c:447-454 | For a concrete text it is not |
| `StringReplace.CountOccurrences` | altermime-x/pldstr.c:471-485 | The loop counts the non-overlapping occurrences |
| `StringReplace.SizeRequired` | altermime-x/pldstr.c:463-487 | The size computed exceeds the length of the result, and counting does not change what is replaced |
| `StringReplace.NextSegment` | altermime-x/pldstr.c:506-538 | The next occurrence to replace is the one the simple scan replaces next |
| `StringReplace.ReplaceOne` | altermime-x/pldstr.c:547-652 | One turn: segment and replacement copied, the rest of the result still to come |
| `StringReplace.FillSegments` | altermime-x/pldstr.c:540-654 | The loop over the occurrences that are replaced leaves the rest of the result to be copied |
| `StringReplace.FillBuffer` | altermime-x/pldstr.c:540-656 | The filled buffer is the result of the simple scan with its terminator inside, so memory never runs out |
| `StringReplace.Replace` | altermime-x/pldstr.c:399-661 | The engine gives what the simple scan gives |
| `StringReplace.ScanGrows` | altermime-x/pldstr.c:486 | The result grows by at most the counted replacements |
| `StringReplace.ReplacedUpTo` | altermime-x/pldstr.c:681-699 | The simple entry point replaces the leftmost occurrences, all or as many as asked for |
| `ReplacementPlaces.ScanSplice` | altermime-x/pldstr.c:540-656 | The result is the source with the replaced places spliced |
| `ReplacementPlaces.PicksResume` | altermime-x/pldstr.c:512-538 | Nothing is replaced before the scan has stepped over the occurrences up to the first `preexist` |
| `ReplacementPlaces.PicksLeftmost` | altermime-x/pldstr.c:622-648 | From there on it replaces the leftmost qualifying occurrences |
| `ReplacementPlaces.LeftmostReached` | altermime-x/pldstr.c:533-534 | Starting later and leaving out occurrences makes no difference when no place is lost by either |
| `ReplacementPlaces.LeftmostMost` | altermime-x/pldstr.c:622-648 | The places of the reference are no more than asked for, and if fewer every qualifying occurrence is one of them or overlapped by one |
| `ReplacementPlaces.LastApartIff` | altermime-x/pldstr.c:447-454 | The `postexist` that counts is the last of all exactly when that is among the leftmost non-overlapping ones |
| `ReplacementPlaces.ReplacesExpected` | altermime-x/pldstr.c:399-661 | The engine replaces the leftmost non-overlapping occurrences strictly after the first `preexist` and strictly before the last `postexist`, at most the number asked for, exactly when each of those lies where the scan resumes past the first `preexist` or behind it and before the `postexist` that counts |
| `ReplacementPlaces.ReplacedSplices` | altermime-x/pldstr.c:399-661 | Then the result is the expected text |
| `ReplacementPlaces.HiddenExample` | altermime-x/pldstr.c:536 | A request whose qualifying occurrence is stepped over |
| `ReplacementPlaces.CutOffExample` | altermime-x/pldstr.c:443-460 | A request whose qualifying occurrence is cut off |
| `Linebreaks.AdaptLinebreak` | altermime-x/mime_alter.c:687-721 | The adapter computes the adapted text |
| `Linebreaks.LfRoundTrip` | altermime-x/mime_alter.c:687-721 | To CRLF and back is the identity exactly on text without CR or without CRLF pairs |
| `Linebreaks.CrlfRoundTrip` | altermime-x/mime_alter.c:687-721 | To LF and back is the identity exactly on text of pairs only, or with stray CRs and no pair |
| `Linebreaks.LostBreaks` | altermime-x/mime_alter.c:700-717 | A text that does not survive, each way |
| `QuotedPrintable.AddByte` | altermime-x/qpe.c:80-114 | A byte joins the paragraph, which never overflows; a soft break is written but not passed |
| `QuotedPrintable.SoftBreak` | altermime-x/qpe.c:92-106 | Only the paragraph survives of a soft break |
| `QuotedPrintable.EncodeParagraphs` | altermime-x/qpe.c:78-114 | Output and paragraph together are the encoding so far |
| `QuotedPrintable.EncodeLine` | altermime-x/qpe.c:70-121 | A line encoded with overwriting equals the per-byte encoding and a CRLF |
| `QuotedPrintable.Encode` | altermime-x/qpe.c:45-126 | The output is every line encoded byte by byte with a CRLF behind it |
| `QuotedLaws.EncodedText` | altermime-x/qpe.c:82-90 | Encoded text is printable, every equals sign in it begins an escape of two upper-case digits, and it is two bytes longer for every byte outside 32 to 126 or equal to 61 |
| `QuotedLaws.EncodedAsItself` | altermime-x/qpe.c:82-90 | Exactly the text that needs no escape is encoded as itself |
| `QuotedLaws.EncodedLinesText` | altermime-x/qpe.c:45-126 | The whole output is printable but for line breaks, which are pairs, and its length |
| `QuotedLaws.CrlfLines` | altermime-x/qpe.c:49-67 | The lines of a string are its parts between CRLFs, each with its CRLF |
| `QuotedLaws.HexDigits` | altermime-x/libmime-decoders.c:300-310 | The decoder's digits are 0 to 9 and A to F in either case, and nothing else |
| `QuotedLaws.DecodeHex` | altermime-x/libmime-decoders.c:300-310 | An escape before two digits of either case stands for their byte |
| `QuotedLaws.DecodeSoftBreak` | altermime-x/libmime-decoders.c:261-277 | An escape before blanks and one line break, of one byte or two, stands for nothing |
| `QuotedLaws.DecodeInvalid` | altermime-x/libmime-decoders.c:289-330 | An escape before anything else stands for itself, and at the very end for nothing |
| `QuotedLaws.DecodeLiteral` | altermime-x/libmime-decoders.c:335-347 | Text without an escape stands for itself, but for the underscores of header words |
| `QuotedPrintable.LinesCover` | altermime-x/qpe.c:49-67 | Without NULs the lines are the whole input |
| `QuotedPrintable.SoftBreakAfter` | altermime-x/libmime-decoders.c:261-277 | The blanks and break bytes a soft break takes |
| `QuotedPrintable.DecodeOne` | altermime-x/libmime-decoders.c:235-347 | One character, escape or soft break as the decoding function has it |
| `QuotedPrintable.DecodeInPlace` | altermime-x/libmime-decoders.c:221-360 | Writing never overtakes reading: the array ends up with the decoded text |
| `QuotedPrintable.DecodeTokens` | altermime-x/libmime-decoders.c:235-354 | Encoded bytes, hard breaks and soft breaks with blanks, in any order, decode to what they stand for |
| `QuotedPrintable.DecodeEncoded` | altermime-x/qpe.c:45-123 | Decoding the encoder's output gives each line with one CRLF more |
| `QuotedPrintable.RoundTrip` | altermime-x/qpe.c:45-123 | The same for both routines working on one buffer |
| `Base64Alphabet.Alphabet` | fetchmail-x/base64.c:13-28 | Every value is written by its character of the alphabet of section 6.8 of RFC 2045, and read from no other |
| `Base64Alphabet.Regrouped` | altermime-x/mime_alter.c:759-762 | Regrouping three bytes as four values and back is the identity, byte by byte |
| `AlterBase64.EncodeStream` | altermime-x/mime_alter.c:732-794 | For every input and every garbage in the read buffer: the text written, that it decodes to the input, and lines of at most 80 characters |
| `AlterBase64.EncodeNext` | altermime-x/mime_alter.c:753-791 | One group, and which stale bytes a partial one meets |
| `AlterBase64.EncodeText` | altermime-x/mime_alter.c:862-932 | The same for a C string, without stale bytes and with a break more |
| `AlterBase64.RoundTrip` | altermime-x/mime_alter.c:949-1016 | Decoding gives back every byte string whatever the stale bytes were |
| `AlterBase64.ZeroPadded` | altermime-x/mime_alter.c:759-770 | The text is the zero-padded one exactly when the bits that leak are zero |
| `AlterBase64.StaleExample` | altermime-x/mime_alter.c:759-770 | A text for which they are not |
| `AlterBase64.LinesAreShort` | altermime-x/mime_alter.c:783-790 | No line exceeds 80 characters |
| `AlterBase64.Snatch` | altermime-x/mime_alter.c:968-996 | Up to four characters that are not discarded, short only at the terminator |
| `AlterBase64.DecodeGroup` | altermime-x/mime_alter.c:961-1010 | One group decoded over text already read |
| `AlterBase64.DecodeBuffer` | altermime-x/mime_alter.c:949-1016 | The decoded bytes stand at the front with a NUL behind them and the rest of the buffer is unchanged |
| `AlterBase64.EncodeThenDecode` | altermime-x/mime_alter.c:949-1016 | Encoding a stream and decoding it in place leaves exactly the original bytes |
| `AlterBase64.EncodeTextThenDecode` | altermime-x/mime_alter.c:862-1016 | The same for a C string |
| `Base64Laws.Rows` | altermime-x/mime_alter.c:772-791 | Sixty bytes make a line of eighty characters and its break; the rest makes a last line, which has a break only if its last group is padded |
| `Base64Laws.Junk` | altermime-x/mime_alter.c:968-996 | A character that is neither a digit nor the pad makes no difference anywhere, every other takes part |
| `Base64Laws.GroupsAfter` | altermime-x/mime_alter.c:961-1010 | Whole groups decode on their own, and their pads count against all groups behind them |
| `Base64Laws.BytesLeft` | altermime-x/mime_alter.c:998-1010 | After some pads every further group gives three bytes less that many, in the end none |
| `Base64Laws.StrictGroups` | fetchmail-x/base64.c:82-117 | Groups of digits are decoded one after another up to the end or a CR, or on to what follows |
| `Base64Laws.StrictEnd` | fetchmail-x/base64.c:82-117 | A wrong or missing character refuses the whole text; a padded group ends it, whatever follows |
| `FetchBase64.EncodingLength` | fetchmail-x/base64.c:30-33 | The length formula is the length of the encoding |
| `FetchBase64.ToBase64` | fetchmail-x/base64.c:35-67 | Success exactly when encoding and terminator fit or there is nothing to encode; a terminated prefix of whole groups otherwise; nothing beyond the limit is touched |
| `FetchBase64.FromBase64` | fetchmail-x/base64.c:69-118 | The answer and the bytes for every C string and limit; nothing behind the terminator is read or behind the limit written |
| `FetchBase64.TakeGroup` | fetchmail-x/base64.c:82-115 | One turn of the loop |
| `FetchBase64.ReadGroup` | fetchmail-x/base64.c:83-94 | Four characters form a group, looked at one after the other |
| `FetchBase64.PutPiece` | fetchmail-x/base64.c:95-113 | One to three bytes under the limit |
| `FetchBase64.RoundTrip` | fetchmail-x/base64.c:69-118 | Every non-empty byte string comes back, with or without the challenge marker and whatever follows the line end or the padding |
| `FetchBase64.RoundTripIff` | fetchmail-x/base64.c:82-85 | The empty string alone does not |
| `FetchBase64.ThereAndBack` | fetchmail-x/base64.c:35-118 | Through buffers of given sizes: back exactly when non-empty, fitting and within the limit |
| `BoundaryStack.NonHyphenLength` | altermime-x/boundary-stack.c:223-231 | The loop counts letters and digits |
| `BoundaryStack.MatchIff` | altermime-x/boundary-stack.c:405-444 | A match means: the line is the boundary framed by characters that are neither letters nor digits, within the window and the first 126 characters |
| `BoundaryStack.MatchEmptyIff` | altermime-x/boundary-stack.c:411-417 | The empty boundary matches lines that start with two hyphens and hold no letter or digit |
| `BoundaryStack.Delimiter` | altermime-x/boundary-stack.c:503-521 | Every delimiter line of section 5.1 of RFC 2046 for a boundary of up to 124 characters is recognised |
| `BoundaryStack.DelimiterEndsInner` | altermime-x/boundary-stack.c:523-558 | It ends the parts opened inside |
| `BoundaryStack.HeldAccount` | altermime-x/boundary-stack.c:248-318 | Over every sequence of operations the count exceeds the depth by exactly the discarded boundaries, and a hold limit is never passed |
| `BoundaryStack.PushRefusedIff` | altermime-x/boundary-stack.c:253-257 | A push is refused exactly when live and discarded boundaries reach the limit |
| `BoundaryStack.RefusedWithRoom` | altermime-x/boundary-stack.c:253-257 | So it can be refused although there is room |
| `BoundaryStack.HitAgain` | altermime-x/boundary-stack.c:523-558 | Repeating a hit hits the top and changes nothing |
| `BoundaryStack.Stack.constructor` | altermime-x/boundary-stack.c:63-77 | The initial stack |
| `BoundaryStack.Stack.SetHoldLimit` | altermime-x/boundary-stack.c:94-99 | The limit is set and nothing else |
| `BoundaryStack.Stack.SetDetectLimit` | altermime-x/boundary-stack.c:160-168 | Limits outside the permitted range are ignored |
| `BoundaryStack.Stack.ClearAll` | altermime-x/boundary-stack.c:186-204 | Stack, count and shortest length start over |
| `BoundaryStack.Stack.PushBoundary` | altermime-x/boundary-stack.c:248-285 | Push of the specification, shortcuts kept in agreement |
| `BoundaryStack.Stack.PopBoundary` | altermime-x/boundary-stack.c:303-318 | Pop of the specification; an empty stack returns the last boundary again |
| `BoundaryStack.Stack.Detect` | altermime-x/boundary-stack.c:405-444 | The window loop finds the boundary exactly if it stands there |
| `BoundaryStack.Stack.Search` | altermime-x/boundary-stack.c:493-521 | The walk with its count filter finds the topmost match |
| `BoundaryStack.Stack.Cmp` | altermime-x/boundary-stack.c:465-567 | A hit leaves the stack from the topmost match on, a miss leaves it alone, and with the true length the early exits never change the answer |
| `BoundaryStack.Play` | altermime-x/boundary-stack.c:248-567 | Any sequence of operations from the start gives the answers and the stack of the search without shortcuts |

## Left out

- Option scanner: messages on standard error, `optopt`, the ordering prefix of the option string and `POSIXLY_CORRECT` (the ordering is a parameter and the option string comes without its prefix), and calls after the end was reported.
- Fetch driver: sockets, TLS, Kerberos, timeouts, signals, message texts, size warnings and the counting of oversized messages. The environment is a finite list of answers; behind its end the connection is dropped.
- CommandLines.EveryLine: in long-only mode the rest of a short element can be taken for a long name in the middle of it; such elements are read by the reference reading and covered by `CommandLines.Reported`, but no use describes them.
- LineLaws.KindLines: lines must be one byte shorter than the longest that fit, so that no block end can cut their break off; `LineCuts.EdgeMatters` says what happens to the others.
- FetchSessions.DoProtocol: the limit on fetched messages is stated for fetching only, because a session that merely checks for mail sets its counter from the server's numbers, which may be negative.
- FetchMessages.Pass.Fetch: the retrieval of all messages after an earlier error is modelled as it is; no guarantee across sessions follows from it, because the error count is cleared before fetching starts.
- AuthNotes.Watch: whether a notice can be mailed is part of the history; the text of notices is not modelled.
- SkippedList.Clean: marks are constants of the items, because nothing in the routine changes them; memory is not freed.
- LineReader.ReadFile: lines, as the delimiters of the mode end them, must fit into the caller's buffer together with the break bytes that may be paired with them; an over-long line that ends at a block edge can lose bytes. Read errors, seeking, preset buffers, raw reads, NUL-preserving mode and the record of the last break are not modelled.
- StringReplace.Replace: the text to look for must not be empty (the source would not stop), a negative number of replacements, integer overflow of the size and failed allocation are not modelled, and a further turn of the source's loop that copies nothing is dropped.
- Linebreaks.AdaptLinebreak: a linebreak that starts with neither CR nor LF is excluded, because the source then returns an uninitialised pointer.
- QuotedPrintable.Encode: the output buffer must have room for the whole text and its terminator; truncation is not modelled.
- QuotedPrintable.DecodeInPlace: bytes from 128 on index the hexadecimal table as unsigned values; a signed `char` makes that undefined in the source.
- AlterBase64.EncodeStream: read and write errors are not modelled.
- AlterBase64.EncodeText: write errors are not modelled.
- AlterBase64.DecodeBuffer: the text must hold no NUL before its end, because the source would then not stop, and bytes from 128 on count as unsigned.
- FetchBase64.FromBase64: negative limits are not modelled.
- BoundaryStack.Stack.Cmp: a null line, which is answered with no hit, and failed allocation are not modelled; letters and digits are those of ASCII.
- Header parsing, attachment removal and replacement, file name filters and regular expressions: heuristics that work on files and on the regular expressions of the system.
- Configuration, logging, DNS, MD5 and HMAC: calls into system libraries, or tables of settings without a law that connects them.
