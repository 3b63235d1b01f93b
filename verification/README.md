# Verification of the DALI lighting controller firmware

The firmware runs on an ESP32: it drives a DALI lighting line, fires cron jobs that switch scenes and
groups, answers mDNS queries, talks to its fellows over RS485 and keeps files. This project models its
algorithmic parts in Dafny and proves what they are for, or exactly when they do it.

`dafny verify dfyconfig.toml` checks everything.

| part | files | form |
|---|---|---|
| calendar and cron search | Calendar, Dates, CronSearch, CronCorrect, CronReach, CronDays | functions on instants, the Gregorian closed form, and the theorems about them |
| the search in place | CronFields, CronEngine | `struct tm` as a class, changed field by field, tied to those functions |
| backward search | CronPrev, CronBack | functions on instants, and the search in place |
| cron parser | CronParse, CronPrint, CronParser, CronTimes | the meaning of a text, schedules printed and read again, the loops that set the bits, and text and search together |
| job list and scheduler loop | Scheduler, JobList | a step relation over whole runs, and the linked list with its pointers |
| DNS names | DnsName, DnsRound, DnsStale, DnsCodec | reader and compressing writer (section 4.1.4 of RFC 1035), when a name is read back, and their loops over a byte array |
| packet framing | DnsFrame, DnsWalk, DnsFits, DnsDispatch, DnsText | what stands in a packet, the parser's walk over it, what fits, the loops, and the bytes as characters |
| names of a packet | DnsPlaces, DnsClosed, DnsHonest, DnsFresh, DnsResponder | why the matches in the responder's packets do not mislead |
| transmit queue, probing | TxQueue, PcbMachine, PcbRun, MdnsServer | invariants over all interleavings, what goes out and when (sections 8.1 and 8.3 of RFC 6762), and the server object |
| conflicts, TXT records | Conflict, TxtRecord, TxtForeign | who wins (section 8.2 of RFC 6762), the round trip, and the records of other hosts (section 6 of RFC 6763) |
| DALI commissioning | DaliSearch, DaliCommission | gear and slots as a state machine, and the nested searches with their registers |
| DALI line code | DaliLine, DaliWire, DaliPort | waveform, edges with jitter and bounce, all of it in numbers, and the interrupt handler |
| small pairs | Rs485, Glob, GlobMeaning | fragmentation and reassembly; glob matching, and what patterns mean |
| shared | Bytes | bytes and buffers |

Where the source changes things in place, a class or a method with loops does too, and its contract
equates the new state with a function of the old; the theorems are lemmas about that function.

Eight of the properties that the code suggests are false of it. Each is kept as the code has it, with the
input that shows it and the condition under which the property holds:

* **`cron_next` is not always the next match.** A search that starts inside a gap of the seconds keeps the
  late second (`CronCorrect.BrokenSecondsFail`), setting a month while the day of the month is past its
  end skips that month (`CronCorrect.OvershootFails`), and 29 February 2104 is out of reach from 2096
  (`CronReach.LeapDayLost`). `CronReach.AlwaysExact` has the exact condition, and `CronPrev.CronPrevExact`
  that of `cron_prev`; the schedules that the firmware builds meet them (`CronCorrect.DailyNext`).
* **With both day fields restricted `cron_next` may return a time that does not match**, such as midnight
  of a Friday the 13th for noon (`CronDays.FridayFails`, `CronDays.DayCoincidence`).
  `CronDays.AlwaysMatches` has the exact condition under which it never does.
* **Removing a job may miss it.** The last node of a longer list is never looked at, and a single other job
  leads to a null pointer (`Scheduler.RemoveExact`). The scheduler's loop only removes the head.
* **A compressed name may not be read back as it was appended.** The match may run on into stale bytes, so
  that the name points to itself (`DnsStale.EndlessMatch`: the host `local`); a label that an earlier packet
  has left may be completed by the last byte before the index, so that the pointer overwrites it
  (`DnsStale.StraddlingMatch`); and the match may be the name of a subtype, whose `_sub` the reader drops
  (`DnsStale.SubtypeMatch`). `DnsRound.RoundTripExactly` has the exact condition, for all packet states;
  `DnsStale.ExcessMatch` and `DnsStale.CutMatch` are such states, not runs of the writer, and show what the
  parts of that condition are for.
  For whole messages `DnsHonest.MessageIsHonest` and `DnsResponder.ResponderWalks` say when none of this
  happens: with usual names only a completed label is left, and in the first packet not even that.
* **Commissioning may never end.** A device whose random address has a low byte of zero is only found as a
  follower of another (`DaliSearch.SearchEndsExactly`).
* **A TXT record with a null value that is not the last is misread** (`TxtRecord.RoundTripExact`,
  `TxtRecord.Misread`).
* **A backslash in a pattern does not quote.** Outside brackets `fnmatch` neither compares the character behind
  it nor steps over one in the string, so that `\*` matches only the empty string (`GlobMeaning.EscapeMeans`);
  `Glob.Fnmatch` says what every pattern matches.
* **An RS485 message is delivered exactly when it has 1 to 1550 bytes** (`Rs485.DeliveredExactly`). Longer
  ones are not reported complete, until the count of frames wraps: one of 12801 bytes goes out as a single
  frame, and its first 50 bytes are reported complete (`Rs485.CountWraps`).

One more is a limit that a contract states outright: a DALI frame that begins just after a whole second
of silence is not recognized, and nothing of it is handed over (`DaliLine.FrameMissed`).

Comments in the source disagree with its code in a few places, and the model follows the code: `find_next`
is described as searching after the value provided but accepts that value itself; the comment on the
tolerances in `dali.cpp` speaks of 20 and of 30 per cent where the numbers are 125 us of 416 and 250 us of
832; `cron_prev` describes rolling forwards where it rolls backwards.

Ghost fields and parameters (`Tm.now`, the spine of the job list, the bounds passed to the nibble search)
carry nothing that the code does not have.

## Model

The first 42 rows are the main results; the others are what they rest on, part by part.

| member | source | states |
|---|---|---|
| `CronReach.AlwaysExact` | main/comp/cron/ccronexpr.cpp:904-945 | For all non-empty fields with one unrestricted day field: `cron_next` returns the first match strictly after every instant that has one, if and only if nothing ever matches, or every year has a match, the selected seconds are one unbroken range (or nothing else is restricted), and no selected month whose predecessor is not selected has selected days on both sides of a possible last day of it. |
| `CronReach.CutOff` | main/comp/cron/ccronexpr.cpp:463-472 | Under the conditions on seconds and months, for every start and its first later match: `cron_next` returns that match if and only if it is no later than the fourth year after the start's. |
| `CronCorrect.CronNextExact` | main/comp/cron/ccronexpr.cpp:904-945 | For non-empty fields, one unrestricted day field and a match in every year: `cron_next` returns the first match strictly after every instant if and only if the selected seconds are one unbroken range (or nothing else is restricted) and no selected month whose predecessor is not selected has selected days on both sides of a possible last day of it. |
| `CronDays.AlwaysMatches` | main/comp/cron/ccronexpr.cpp:380-477 | For all non-empty fields, both day fields restricted or not: whatever `cron_next` returns, from any start, is a later match if and only if, wherever the day search stops on the day number it started from in another, selected month, it has stopped on a matching day and midnight is selected in seconds, minutes and hours. |
| `CronDays.DayCoincidence` | main/comp/cron/ccronexpr.cpp:380-397 | With both day fields restricted, a day search that starts with a matching clock and stops on the same day number of another, selected month counts as not moved (line 456): `cron_next` returns midnight of that day, which is a match if and only if midnight matches in seconds, minutes and hours and the search stopped for a matching day. |
| `CronEngine.CronNextTime` | main/comp/cron/ccronexpr.cpp:904-945 | `cron_next` in place, for a time that is not before 1970 in any fixed-offset zone, returns what `CronCorrect.CronNext` says: from every start of the expressions of `CronDays.AlwaysMatches` and of those with one unrestricted day field, from every other start whose search ends on a match or without a result, and from the starts of `CronDays.DayCoincidence`. |
| `CronPrev.CronPrevExact` | main/comp/cron/ccronexpr.cpp:1171-1214 | For non-empty fields, one unrestricted day field and all months: `cron_prev` returns the last match strictly before every instant if and only if the selected seconds are one unbroken range or nothing else is restricted. |
| `CronPrev.PrevOfNext` | main/comp/cron/ccronexpr.cpp:904-1214 | The next match, and back again: the start itself when it matches, an earlier instant otherwise. |
| `CronParser.CronExpr.ParseExpr` | main/comp/cron/ccronexpr.cpp:858-902 | On a zeroed expression: an error exactly when the text is not accepted; otherwise every bitset is the denotation of its field. |
| `CronPrint.ScheduleReads` | main/comp/cron/ccronexpr.cpp:819-902 | Every schedule of six fields, printed in any notation (stars, question marks, numbers, ranges, steps, lists, and names in any case), is read as what it means when it has at most 255 characters and all its numbers are within their bounds, and is an error otherwise. The names have their own table, and case is a relation between characters. |
| `CronTimes.TextFires` | main/comp/cron/ccronexpr.cpp:859-945 | From a text to the time: for a text whose bitsets leave one day field unrestricted and match in every year, `cron_next` gives the first later date and time that the items of the text name, whatever the start, if and only if the seconds are unbroken (or alone restricted) and no selected month can be overshot. |
| `CronParser.DailyLoaded` | main/tools/config.cpp:178-186 | From the text that the firmware writes, through parser and engine, to the time: the job is next at the next m past h. |
| `Scheduler.RunValid` | main/comp/cron/cron.cpp:212-259 | In every run of creating, firing, destroying and clearing jobs and of time passing: the list stays sorted with distinct ids, every job is planned for the first match after it was planned, nothing fires before its time, and each later firing of a job is for an instant after its previous firing. |
| `Scheduler.LoopRoundExact` | main/comp/cron/cron.cpp:212-259 | After a round that fires, the fired job is in its place again, with only its time changed, behind all that run no later; every other job is untouched and in its order. |
| `Scheduler.CatchesUp` | main/comp/cron/cron.cpp:212-259 | At a fixed time as many rounds as jobs are due fire exactly that often, and then nothing is due. |
| `Scheduler.RemoveExact` | main/comp/cron/jobs.cpp:97-135 | Removal takes out exactly the first job with the id when that is the head or not the last node; with the last node of a longer list it reports that there is none; it dereferences a null pointer exactly on an empty list and on a single other job. |
| `DnsRound.RoundTripExactly` | managed_components/espressif__mdns/mdns.c:746-807 | For every packet and every name of up to four labels whose append fits, when the matched bytes, if any, are whole labels and whole pointers: reading at the old index gives back the labels up to ASCII case, with neither flag set and the reader at the new index, if and only if the match was read without touching a byte at or behind the index, came upon no `_sub`, and, for four labels, upon nothing behind the last. |
| `DnsHonest.MessageIsHonest` | managed_components/espressif__mdns/mdns.c:746-807 | Under the same conditions on the message, for every buffer: every match that any append finds is honest if and only if the first label of every match ends before the index at which it was found, so that nothing an earlier packet has left completes it. |
| `DnsHonest.MessageWalks` | managed_components/espressif__mdns/mdns.c:1486-1530 | Whatever the last packet has left in the buffer, from conditions on the message: no label has a byte that is the length of a label, labels differ within a name, a name has at most four labels unless a `_sub` is among them, a label shared by two names has `_sub` from there on in both or in neither, no label stands in the fixed bytes and raw data, the id is 0 or every label has three bytes; and when no matched label reaches over the index at which it was found. Then the dispatched packet is walked as `DnsWalk.PacketWalks` says. |
| `DnsWalk.PacketWalks` | managed_components/espressif__mdns/mdns.c:3592-3811 | For every message whose appends all succeed with honest matches (none touches a byte at or behind the index, comes upon `_sub` or a fifth item, has a terminator inside a label, or ends in a jump): the dispatched packet has the message's id, flags and four counts; walking it with the parser's own steps meets exactly its questions, each with name, type and class, and then exactly its records, each with name, type, class, time to live, length and data, and ends exactly at the final index, within 1460 bytes. A question whose 8-bit length wraps to 0 counts as one that has failed. |
| `DnsFits.MessageFits` | managed_components/espressif__mdns/mdns.c:1486-1530 | Whatever the buffer holds and whatever matches are found: a message that takes fewer than 1460 bytes with every name in full, and whose question names have at most 251, is dispatched, in no more bytes than that. |
| `DnsResponder.ResponderIsClear` | managed_components/espressif__mdns/mdns.c:819-1191 | The names of the responder (hosts, services, instances, subtypes and the list of services) meet the conditions on names when their labels are up to 31 printable ASCII characters, different within a name, and subtypes are nothing else. |
| `DnsResponder.ResponderWalks` | managed_components/espressif__mdns/mdns.c:1486-1530 | So every packet that a responder with such names dispatches, whatever it answers and whatever the buffer still holds, is walked as `DnsWalk.PacketWalks` says, when no label stands in its fixed bytes and raw data and no matched label reaches over the index. |
| `TxQueue.LiveActionIsHandled` | managed_components/espressif__mdns/mdns.c:5201-5212 | With the invariant, the action of a packet that still exists finds it at the head and queued, and due: only actions of freed packets are skipped. |
| `PcbMachine.AnnouncesAfterThreeProbes` | managed_components/espressif__mdns/mdns.c:5025-5080 | In every run, whenever a pcb goes from probing to announcing, it goes from PROBE_3 to ANNOUNCE_1, and the log of its dispatched probes ends with exactly the three since the last restart, each more than 250 ms after the one before (section 8.1 of RFC 6762). |
| `PcbMachine.RunValid` | managed_components/espressif__mdns/mdns.c:2253-2344 | In every run: `probe_running` and the probe services are set exactly in PROBE_1 to PROBE_3, a probing pcb has exactly one packet in the queue and it asks about all that is being probed, and the queue invariant holds. |
| `PcbRun.UndisturbedProbing` | managed_components/espressif__mdns/mdns.c:5025-5080 | In every run, once probing has started and as long as nothing else happens to the pcb: its dispatches are three probes and then three announcements, each later than its delay after the one before (the start's own, then 250 ms up to the first announcement, then 1000 ms); the state follows from how many there have been; and exactly one packet is queued, a probe or an announcement, for exactly that delay after the last, until all six are out. |
| `PcbRun.AnnouncementsFollow` | managed_components/espressif__mdns/mdns.c:5046-5080 | From the dispatch of a third probe: when in each of three stretches of the run the scheduler runs late enough and the actions that are then there are taken, three announcements go out, the first more than 250 ms later and the others more than 1000 ms apart, and then the pcb just answers, with nothing queued. |
| `Conflict.SrvSidesAgree` | managed_components/espressif__mdns/mdns.c:2840-2892 | Between two self-hosted services in `local` each side's verdict is the negation of the other's, and it is 0 exactly on equal data (section 8.2 of RFC 6762). |
| `Conflict.TxtSidesAgree` | managed_components/espressif__mdns/mdns.c:2897-2936 | The same for TXT data that fits into a packet, with non-empty keys. |
| `Conflict.SrvWinner` | managed_components/espressif__mdns/mdns.c:2840-2892 | Between two hosts in `local`: they win if and only if their host name is longer, or as long and then first their priority, else their weight, else their port, else their host at the first differing byte is greater; and we win in the opposite case (section 8.2 of RFC 6762). |
| `Conflict.TxtWinner` | managed_components/espressif__mdns/mdns.c:2897-2936 | The same on the encoded bytes of TXT items. |
| `TxtRecord.RoundTripExact` | managed_components/espressif__mdns/mdns.c:3437-3569 | For keys that are non-empty and free of `=`, values and entries that fit: parsing what was appended gives the same keys and values in order (an empty value comes back as none) if and only if every item but the last has a value pointer; the count is right in any case. |
| `TxtForeign.ForeignRecord` | managed_components/espressif__mdns/mdns.c:3437-3569 | For the data of any host: they are an error exactly when a length runs past the end; otherwise the parts up to a zero byte or the end are counted, and each part that does not begin with `=` is read as its key and value, as long as every part has a `=` or is the last of the data (sections 6.1 to 6.4 of RFC 6763). |
| `DaliSearch.SearchEndsExactly` | main/tools/dali_tool.cpp:326-404 | The loop of searching and assigning withdraws every device if and only if there are as many free slots as devices and every address with low byte zero is one that the three followers of an assigned address can reach without a carry out of the middle byte (line 374 drops it). |
| `DaliCommission.Commissioner.SearchDevice` | main/tools/dali_tool.cpp:326-404 | In place: when the condition holds the loop terminates with every device withdrawn and recorded, and the numbers given out are the lowest free ones, in the order of the random addresses. |
| `DaliLine.PackageArrives` | main/comp/dali.cpp:307-420 | For every package of one to three bytes, every start bit within 291 to 541 us, halves within 100 to 582 us, fulls within 582 to 2164 us, and any further edges within 100 us of a counted one: the receiver posts exactly one item, which is taken for the bytes and the type that were sent, and is waiting again (clauses 7 and 8 of IEC 62386-101). |
| `DaliLine.FrameMissed` | main/comp/dali.cpp:330-354 | The frame timer counts modulo one second: over all edges of the sender's own waveform, a frame that begins when the timer shows at most 1746 us, as right after a whole second of silence, leaves nothing begun and nothing on the queue, and any other frame leaves exactly one item. |
| `DaliWire.AnyFrame` | main/comp/dali.cpp:271-490 | Whatever frame of any length arrives: exactly one item is posted, and what it is taken for follows from the number of bits modulo 128: 8 and 16 bits are those bytes, any other frame below 16 bits is an answer 0xFF, 17 to 19 bits are an error, 20 bits an error or three bytes as the last bit is 1 or 0, and longer ones their last three bytes. |
| `Glob.Fnmatch` | main/comp/storage.cpp:242-319 | For every pattern, every string and every combination of the two flags: 0 is returned exactly when the string can be cut into pieces that the pattern's elements stand for one by one, where a star leaves something for what follows it, and no leading dot meets a `*` or `?` at the beginning. A backslash and its character, outside brackets, are an element that stands for nothing. |
| `GlobMeaning.EscapeMeans` | main/comp/storage.cpp:296-303 | Outside a bracket a quoted character should be for itself and is for nothing: `\c` matches only the empty string, and `*\c` matches no string at all. |
| `Rs485.DeliveredExactly` | main/comp/rs485.cpp:55-189 | For every message without a zero byte whose frames come in order, each as often as it is repeated, up to the last: `paket_decode` has returned true and the buffer holds the message as a C string if and only if it has 1 to 1550 bytes. |
| `CronReach.LeapDayLost` | main/comp/cron/ccronexpr.cpp:463-472 | For every expression that matches on 29 February only: from the end of 29 February 2096 the next match is in 2104, and `cron_next` does not return it. |
| `CronTimes.MatchIsNamed` | main/comp/cron/ccronexpr.cpp:859-902 | The bitsets match exactly the instants that the items name, with months from 1 and Sunday as 0 or 7. |
| `CronTimes.WeekdaysAtSeven` | main/comp/cron/library/ccronexpr/ccronexpr_test.c:305-305 | A test of the repository: `0 0 7 ? * MON-FRI` after 0:42:55 on 26 September 2009 is 7:00:00 on 28 September 2009. |
| `CronReach.FoundInReach` | main/comp/cron/ccronexpr.cpp:399-487 | For all non-empty fields with one unrestricted day field, whatever `do_next` finds is no later than the fourth year after the one it was given, or than the year of the first matching minute. |
| `CronCorrect.CronNextLeast` | main/comp/cron/ccronexpr.cpp:904-945 | Under the two conditions of `CronCorrect.CronNextExact`: a returned instant is the first match strictly after the start, and a failure means that no instant up to the end of the fourth year after the start matches. |
| `CronCorrect.CronNextExists` | main/comp/cron/ccronexpr.cpp:904-945 | Under them, and with a match in every year, `cron_next` never fails. |
| `CronCorrect.CronNextSound` | main/comp/cron/ccronexpr.cpp:380-487 | For all non-empty fields with one unrestricted day field, without the two conditions: what `cron_next` returns matches all six fields and is strictly after the start. |
| `CronCorrect.DoNextSound` | main/comp/cron/ccronexpr.cpp:399-487 | The same for `do_next`: the end matches and is not before the start. The recursion of `CronSearch.DoNext` is well founded for all non-empty fields: the months left before the year cut-off, then the minutes left to the next matching minute, go down. |
| `CronCorrect.DoNextLeast` | main/comp/cron/ccronexpr.cpp:399-487 | `do_next` passes over no match, and gives up at the cut-off only when there is none up to it. |
| `CronCorrect.DoneMatches` | main/comp/cron/ccronexpr.cpp:399-487 | A pass over the six fields in which nothing moves has ended at a match. |
| `CronCorrect.BrokenSecondsFail` | main/comp/cron/ccronexpr.cpp:426-440 | A concrete start for every expression with a gap in its seconds and another restricted field: a search that starts inside the gap keeps the late second, because line 428 does not put the seconds on the reset list, and does not return the first match. |
| `CronCorrect.OvershootFails` | main/comp/cron/ccronexpr.cpp:364-371 | A concrete start for every expression that violates the month condition: line 368 sets the month while the day is past its end, so the whole month is skipped before line 370 resets the day. |
| `CronDays.FridayFails` | main/comp/cron/ccronexpr.cpp:451-477 | The input: `0 0 12 13 * 5`, noon on a Friday the 13th, asked on Tuesday, 13 January 1970 at noon, is answered with Friday, 13 February at midnight, which does not match. |
| `CronDays.MatchingIsCovered` | main/comp/cron/ccronexpr.cpp:432-461 | Under that condition `CronEngine.CronNextTime` covers every start. |
| `CronDays.FreeIsCovered` | main/comp/cron/ccronexpr.cpp:432-461 | And so with one unrestricted day field. |
| `CronDays.CoincidenceIsCovered` | main/comp/cron/ccronexpr.cpp:451-461 | And, for any fields, the starts of `CronDays.DayCoincidence`. |
| `CronDays.DayLimit` | main/comp/cron/ccronexpr.cpp:380-397 | The day search ends on the first matching day, and without one after 366 days. |
| `CronCorrect.DailyNext` | main/tools/config.cpp:178-186 | Every schedule the firmware builds (`0 m h * * *`) fires next at the next h:m:00, and never fails. |
| `CronSearch.NextIdxLeast` | main/comp/cron/ccronexpr.cpp:354-370 | The index arithmetic that stands for `find_next` gives the least selected value at or after the current one, cyclically. |
| `CronSearch.NextDay` | main/comp/cron/ccronexpr.cpp:380-397 | `find_next_day` passes over no matching day and stops on one, or after 366 steps. |
| `CronSearch.MovedAdvances` | main/comp/cron/ccronexpr.cpp:426-462 | A move of minute, hour or day is strictly forward, never past a matching minute, and leaves a second that does not carry into the minute again. |
| `CronSearch.MonthMovedAdvances` | main/comp/cron/ccronexpr.cpp:463-471 | A month move is strictly forward, into a strictly later month. |
| `CronSearch.JanuaryDay` | main/comp/cron/ccronexpr.cpp:380-397 | Every day number falls on every day of the week in some January, so that no pair of day fields can starve the search. |
| `CronFields.LevelForward` | main/comp/cron/ccronexpr.cpp:354-378 | The calendar surgery of `find_next` (add, reset, set, reset the lower fields, with `mktime` after each) equals the index arithmetic, for seconds, minutes, hours and months, and no intermediate calendar is before the start. |
| `CronFields.ResetLevels` | main/comp/cron/ccronexpr.cpp:299-312 | What the resets list at each level amounts to. |
| `CronFields.MonthFinds` | main/comp/cron/ccronexpr.cpp:354-378 | The month move in parts, with the carry of 29 February and of days that the month does not have. |
| `Calendar.ToFromInstant` | main/comp/cron/ccronexpr.cpp:137-148 | `mktime` then `localtime_r` is the identity on in-range fields. |
| `Calendar.FromToInstant` | main/comp/cron/ccronexpr.cpp:137-148 | `localtime_r` then `mktime` is the identity on instants. |
| `Calendar.MonthOf` | main/comp/cron/ccronexpr.cpp:137-148 | Every day lies in exactly one Gregorian month. |
| `Dates.YearBegins` | main/comp/cron/ccronexpr.cpp:137-148 | The concatenation of months is the Gregorian closed form, for every year. |
| `Dates.DateMeans` | main/comp/cron/ccronexpr.cpp:137-139 | What `mktime` makes of any date and time, by that form. |
| `Dates.DateOf` | main/comp/cron/ccronexpr.cpp:141-148 | What `localtime_r` makes of it. |
| `Dates.KnownDates` | main/comp/cron/ccronexpr.cpp:137-148 | Dates and weekdays by their numbers. |
| `Calendar.Tm.MkTime` | main/comp/cron/ccronexpr.cpp:137-139 | In place: all fields come into range and agree, the weekday is recomputed, and the result is the time. |
| `CronEngine.NextSetBit` | main/comp/cron/ccronexpr.cpp:197-208 | The loop finds the first selected value or reports that there is none. |
| `CronEngine.AddToField` | main/comp/cron/ccronexpr.cpp:226-258 | In place on `struct tm`. |
| `CronEngine.SetField` | main/comp/cron/ccronexpr.cpp:314-348 | In place on `struct tm`. |
| `CronEngine.ResetMin` | main/comp/cron/ccronexpr.cpp:263-297 | In place on `struct tm`. |
| `CronEngine.ResetAllMin` | main/comp/cron/ccronexpr.cpp:299-312 | The loop over the resets list; it cannot meet the invalid instant while the calendar stays at or after 1970. |
| `CronEngine.FindNext` | main/comp/cron/ccronexpr.cpp:354-378 | In place: moves the calendar to where the closed form says, and returns the old value exactly when it is selected. |
| `CronEngine.FindNextDay` | main/comp/cron/ccronexpr.cpp:380-397 | In place: the loop of at most 366 days, with the resets after every day. |
| `CronEngine.SearchSeconds` | main/comp/cron/ccronexpr.cpp:426-430 | The first field, with an empty list of lower fields; whether the seconds are reset later. |
| `CronEngine.SearchClock` | main/comp/cron/ccronexpr.cpp:432-450 | Minutes and hours, with the recursive call when they move. |
| `CronEngine.SearchDay` | main/comp/cron/ccronexpr.cpp:452-461 | The day, with the recursive call when its number changes. |
| `CronEngine.SearchMonth` | main/comp/cron/ccronexpr.cpp:463-472 | The month, with the year cut-off in unsigned arithmetic and the recursive call. |
| `CronEngine.DoNextInPlace` | main/comp/cron/ccronexpr.cpp:399-487 | The recursive in-place search, with its code after an inner call, ends exactly where `CronSearch.DoNext` says. |
| `CronPrev.CronPrevGreatest` | main/comp/cron/ccronexpr.cpp:1171-1214 | For the fields of `CronPrev.CronPrevExact`, `cron_prev` always finds a match strictly before the start. |
| `CronPrev.BrokenSecondsFailBack` | main/comp/cron/ccronexpr.cpp:1107-1112 | A concrete start for every expression of `CronPrev.CronPrevExact` with a gap in its seconds and another restricted field: a search that starts inside the gap keeps the early second. |
| `CronPrev.NextOfPrev` | main/comp/cron/ccronexpr.cpp:904-1214 | The previous match, and forth again: the start itself when it matches, a later instant otherwise. |
| `CronPrev.DoPrevGreatest` | main/comp/cron/ccronexpr.cpp:1081-1169 | `do_prev` terminates on a match that is not after its start and passes over none. |
| `CronPrev.PrevIdxGreatest` | main/comp/cron/ccronexpr.cpp:1036-1060 | `find_prev` gives the greatest selected value at or before the current one, cyclically, although its second scan stops at the current value. |
| `CronBack.LevelBackward` | main/comp/cron/ccronexpr.cpp:1036-1060 | The calendar surgery of `find_prev` equals the index arithmetic, and no intermediate calendar is more than a day before its end. |
| `CronBack.PrevSetBit` | main/comp/cron/ccronexpr.cpp:950-961 | The loop finds the last selected value or reports that there is none. |
| `CronBack.ResetMax` | main/comp/cron/ccronexpr.cpp:980-1015 | In place on `struct tm`, for the clock fields. |
| `CronBack.ResetAllMax` | main/comp/cron/ccronexpr.cpp:1017-1030 | The loop over the resets list. |
| `CronBack.FindPrev` | main/comp/cron/ccronexpr.cpp:1036-1060 | In place: moves the calendar to where the closed form says, and returns the old value exactly when it is selected. |
| `CronBack.FindPrevDay` | main/comp/cron/ccronexpr.cpp:1062-1079 | In place: the loop of at most 366 days back, with the resets after every day. |
| `CronBack.SearchClockBack` | main/comp/cron/ccronexpr.cpp:1114-1132 | Minutes and hours, with the recursive call when they move. |
| `CronBack.SearchDayBack` | main/comp/cron/ccronexpr.cpp:1134-1143 | The day, with the recursive call when its number changes. |
| `CronBack.DoPrevInPlace` | main/comp/cron/ccronexpr.cpp:1081-1169 | The recursive in-place search ends exactly where `CronPrev.DoPrev` says. |
| `CronBack.CronPrevTime` | main/comp/cron/ccronexpr.cpp:1171-1214 | `cron_prev` in any fixed-offset zone returns what `CronPrev.CronPrev` says. |
| `CronParse.HitsSomething` | main/comp/cron/ccronexpr.cpp:740-817 | A list that is accepted selects at least one number, and only numbers within the bounds of its field. |
| `CronParse.SplitJoined` | main/comp/cron/ccronexpr.cpp:560-632 | Joining fields with the delimiter and splitting again gives the fields back. |
| `CronPrint.PrintedReads` | main/comp/cron/ccronexpr.cpp:547-817 | A list of entries in digits, printed, is read as what it means when all of it is within its bounds, and is an error otherwise. |
| `CronPrint.NamedReads` | main/comp/cron/ccronexpr.cpp:634-661 | A list in which numbers are written as names, in any case, becomes the list in digits. |
| `CronParse.NumberOfDigits` | main/comp/cron/ccronexpr.cpp:547-558 | A number in decimal digits is read as itself up to 0x7FFFFFFF, and is an error beyond. |
| `CronParse.NamesMean` | main/comp/cron/ccronexpr.cpp:634-661 | In a text of names and other characters, in any case of the letters, every name is replaced by its number and nothing else changes. |
| `CronPrint.DailyParses` | main/tools/config.cpp:178-186 | The text that `add_cron` writes is read as second 0 of that minute and hour, every day. |
| `CronPrint.DaysByName` | main/comp/cron/ccronexpr.cpp:883-885 | Each of the seven days, written out in upper and in lower case, selects its number. |
| `CronPrint.MonthsByName` | main/comp/cron/ccronexpr.cpp:819-841 | Each of the twelve months, written out in upper and in lower case, selects its number. |
| `CronParse.NumberNotations` | main/comp/cron/ccronexpr.cpp:547-560 | Hexadecimal, octal and signed numbers, by examples. |
| `CronParse.DigitMeans` | main/comp/cron/ccronexpr.cpp:547-560 | The digits of all bases, in either case. |
| `CronParse.SpaceIgnored` | main/comp/cron/ccronexpr.cpp:560-632 | White space counts in no field, wherever it stands. |
| `CronParser.CountFields` | main/comp/cron/ccronexpr.cpp:577-593 | The counting pass counts exactly the fields that the filling pass puts in. |
| `CronParser.SplitStr` | main/comp/cron/ccronexpr.cpp:560-632 | Both passes in place: the filling pass stays within the counted array and fills all of it. |
| `CronParser.RangeOf` | main/comp/cron/ccronexpr.cpp:674-738 | `get_range` with all its errors. |
| `CronParser.ReadItem` | main/comp/cron/ccronexpr.cpp:751-805 | One entry of a list, with or without a step. |
| `CronParser.SetSteps` | main/comp/cron/ccronexpr.cpp:763-806 | The loop sets exactly the bits of the range that the step hits. |
| `CronParser.SetNumberHits` | main/comp/cron/ccronexpr.cpp:740-817 | An error exactly when the list is not accepted; otherwise exactly the bits that some entry selects are set, and the others are as before. |
| `CronParser.StrReplace` | main/comp/cron/ccronexpr.cpp:508-545 | Counting and copying passes together replace every occurrence from the left. |
| `CronParser.ReplaceLength` | main/comp/cron/ccronexpr.cpp:522-534 | The memory that `str_replace` asks for is exactly what the result needs. |
| `CronParser.ReplaceOrdinals` | main/comp/cron/ccronexpr.cpp:634-661 | All names, one after the other. |
| `CronParser.Rotate` | main/comp/cron/ccronexpr.cpp:834-840 | The in-place shift of the months moves every bit down by one. |
| `CronParser.SetMonths` | main/comp/cron/ccronexpr.cpp:819-841 | Bit i is set exactly when month i + 1 is selected. |
| `CronParser.SetDays` | main/comp/cron/ccronexpr.cpp:843-890 | Sunday is bit 0, written as 0 or as 7. |
| `CronParser.ParsedIsNonEmpty` | main/comp/cron/ccronexpr.cpp:858-902 | A parse without an error gives the engine no empty field. |
| `Scheduler.StepValid` | main/comp/cron/cron.cpp:41-157 | Every single step keeps what `Scheduler.RunValid` says. |
| `Scheduler.LoopRoundValid` | main/comp/cron/cron.cpp:212-259 | A round of the loop does nothing before the first job is due, and otherwise fires just that job and plans it for later than now, with the same id. |
| `Scheduler.FindIsFirst` | main/comp/cron/jobs.cpp:97-135 | The job that removal is about is the first with the id. |
| `Scheduler.InsertStable` | main/comp/cron/jobs.cpp:54-66 | A job goes behind those that run no later and before those that run later. |
| `Scheduler.DailyPlan` | main/comp/cron/cron.cpp:123-147 | A job at m past h is planned for the next time the clock shows that. |
| `Scheduler.ClearedAll` | main/comp/cron/cron.cpp:69-78 | Destroying the first job until there is none leaves none. |
| `JobList.InsertNode` | main/comp/cron/jobs.cpp:54-66 | The recursive pointer insertion, on a chain of nodes: the new node is spliced in at the one right place. |
| `JobList.CronJobList.ListInsert` | main/comp/cron/jobs.cpp:68-95 | In place: the list is that of `Scheduler.Insert`, and an id is given out exactly to a job without one. |
| `JobList.CronJobList.Unlink` | main/comp/cron/jobs.cpp:104-111 | The relinking of a removal. |
| `JobList.CronJobList.ListRemove` | main/comp/cron/jobs.cpp:97-135 | In place: what `Scheduler.Remove` says, wherever that does not crash. |
| `JobList.CronJobList.Schedule` | main/comp/cron/cron.cpp:123-147 | In place, with the cron search, for all the starts that `CronEngine.CronNextTime` covers. |
| `JobList.CronJobList.Round` | main/comp/cron/cron.cpp:212-259 | In place: one round of the loop is `Scheduler.LoopRound`, with the same starts. |
| `JobList.CronJobList.Fire` | main/comp/cron/cron.cpp:233-246 | The branch that fires: the first job is taken off the list, planned anew and inserted again. |
| `JobList.CronJobList.ClearAll` | main/comp/cron/cron.cpp:69-78 | The loop ends with an empty list and the ids start again. |
| `DnsRound.RoundTrip` | managed_components/espressif__mdns/mdns.c:448-499 | The name is read back as in `DnsRound.RoundTripExactly` from its three conditions alone, whatever the match is made of. |
| `DnsRound.MatchReads` | managed_components/espressif__mdns/mdns.c:771-779 | A match that touches nothing at or behind the index, sets no flag, has no terminator inside a label and ends in a label reads as exactly the labels that it is to stand for: the writer's own test, on C strings and parts, is enough. |
| `DnsName.EarlierNamesKept` | managed_components/espressif__mdns/mdns.c:746-807 | Whatever could be read before the index reads the same after an append. |
| `DnsName.ReadLocal` | managed_components/espressif__mdns/mdns.c:448-499 | A reading depends only on the bytes it has looked at. |
| `DnsName.ReadWire` | managed_components/espressif__mdns/mdns.c:448-499 | The reader terminates, because a pointer must lead to before the run of labels it ends, and stays within the packet. |
| `DnsName.Find` | managed_components/espressif__mdns/mdns.c:754-792 | The writer points to the first place that reads as the name, or to none when there is none. |
| `DnsText.HostJoins` | managed_components/espressif__mdns/mdns.c:469-485 | Two labels before `local` that are no service are read as one host with a dot between them. |
| `DnsText.SpecialLabels` | managed_components/espressif__mdns/mdns.c:469-485 | The labels that the reader treats specially, as characters. |
| `DnsText.SameMeans` | managed_components/espressif__mdns/mdns.c:476-485 | Labels are the same when each byte is, or is the same letter in the other case. |
| `DnsText.WireBytes` | managed_components/espressif__mdns/mdns.c:448-499 | What a byte of a name means: end, length of a label, nothing allowed, or pointer. |
| `DnsText.NetworkOrder` | managed_components/espressif__mdns/mdns.c:508-515 | Numbers go out with the higher byte first. |
| `DnsText.TextIsRead` | managed_components/espressif__mdns/mdns.c:998-1014 | The data of a TXT record in a walked packet are counted and parsed as the items appended, as `TxtRecord.RoundTripExact` says. |
| `DnsRound.CrossingIsLost` | managed_components/espressif__mdns/mdns.c:755-807 | A match that was read at the index or behind it is lost: the pointer ends the reading or gets into a label. |
| `DnsStale.EndlessMatch` | managed_components/espressif__mdns/mdns.c:755-807 | The host `local` in an empty packet: its second label is taken for the first, and the name cannot be read. |
| `DnsStale.StraddlingMatch` | managed_components/espressif__mdns/mdns.c:755-807 | After `x.local` twice, the second time as a pointer to 12, with `esp32-a1b2c3.local` left behind it by an earlier packet: appending that host finds the last byte of the pointer as its length, and the new pointer overwrites the label it points to, so that the name reads as another one. |
| `DnsStale.SubtypeMatch` | managed_components/espressif__mdns/mdns.c:869-902 | After `x._sub._http._tcp.local`, the instance `x._http._tcp.local` is replaced by a pointer to it, and is read back as a subtype. |
| `DnsStale.ExcessMatch` | managed_components/espressif__mdns/mdns.c:755-807 | A packet state, not a run of the writer: a match of four labels and a jump behind them is read back as invalid, which is why the exact condition excludes it. |
| `DnsStale.CutMatch` | managed_components/espressif__mdns/mdns.c:755-807 | A packet state as well: a matched label with a terminator inside is read back although the pointer overwrites its end, which is why the exact statement asks for whole labels. |
| `DnsName.PartialNameCounts` | managed_components/espressif__mdns/mdns.c:793-801 | When a label fits and the next does not, the writer returns a length that is not zero although the name is incomplete. |
| `DnsCodec.ReadFqdn` | managed_components/espressif__mdns/mdns.c:448-499 | The loop with its name record filled in place is `ReadWire` followed by `TakeAll`. |
| `DnsCodec.FollowPointer` | managed_components/espressif__mdns/mdns.c:486-496 | The recursive call at a pointer. |
| `DnsCodec.NameRecord.File` | managed_components/espressif__mdns/mdns.c:469-485 | One label goes to the next part, to the host or to the subtype flag. |
| `DnsCodec.Writer.AppendU8` | managed_components/espressif__mdns/mdns.c:526-534 | In place, and nothing when there is no room. |
| `DnsCodec.Writer.AppendU16` | managed_components/espressif__mdns/mdns.c:545-553 | In place, and nothing when there is no room. |
| `DnsCodec.Writer.AppendString` | managed_components/espressif__mdns/mdns.c:638-648 | In place, and nothing when there is no room. |
| `DnsCodec.Writer.FindName` | managed_components/espressif__mdns/mdns.c:754-792 | The search loop with its reading back is `DnsName.Find`. |
| `DnsCodec.Writer.AppendFqdn` | managed_components/espressif__mdns/mdns.c:746-807 | The recursive writer in place is `DnsName.Append`. |
| `DnsClosed.HonestMessageIsClosed` | managed_components/espressif__mdns/mdns.c:746-807 | Honest matches end their first label before the index, for every append of any message. |
| `DnsPlaces.TailKnown` | managed_components/espressif__mdns/mdns.c:746-807 | Of the bytes that an append writes, whatever stands behind them, only the labels look like labels of the message's names, and each reads as the rest of its name. |
| `DnsPlaces.PlaceIsHonest` | managed_components/espressif__mdns/mdns.c:771-779 | A place of an earlier name that passes the writer's test for another name of the message touches nothing else and sets no flag. |
| `DnsResponder.FirstPacketWalks` | managed_components/espressif__mdns/mdns.c:1486-1530 | In the first packet, as the buffer behind the header is still zero, no matched label reaches over the index, so it is walked whatever it answers. |
| `DnsFresh.FreshIsClosed` | managed_components/espressif__mdns/mdns.c:1486-1530 | More generally, none does while no byte behind the header is in a label of the message. |
| `DnsResponder.SrvIsQuiet` | managed_components/espressif__mdns/mdns.c:1028-1088 | No label stands in the fixed bytes of SRV records; with labels of one byte the port must not be one from 288 to 383. |
| `DnsResponder.PtrIsQuiet` | managed_components/espressif__mdns/mdns.c:819-854 | Nor in those of PTR records. |
| `DnsResponder.QuestionIsQuiet` | managed_components/espressif__mdns/mdns.c:1197-1232 | Nor in those of questions. |
| `DnsWalk.DispatchStands` | managed_components/espressif__mdns/mdns.c:1486-1530 | Everything that was appended stands in the finished packet, though counts and lengths have been written over it later. |
| `DnsWalk.DispatchBegins` | managed_components/espressif__mdns/mdns.c:1486-1500 | Id and flags stand at the beginning of the finished packet. |
| `DnsFrame.HeaderHasNoName` | managed_components/espressif__mdns/mdns.c:746-807 | No name can be read starting in the header while a packet is built, so writing the counts breaks no pointer. |
| `DnsFrame.HeaderFree` | managed_components/espressif__mdns/mdns.c:508-515 | A name that reads behind the header does not depend on the header. |
| `DnsFrame.GapFree` | managed_components/espressif__mdns/mdns.c:586-616 | A name does not depend on the ten bytes before record data in which the length is filled in afterwards. |
| `DnsFrame.QuestionAppended` | managed_components/espressif__mdns/mdns.c:1197-1232 | A question whose match is honest, and whose length in eight bits is not 0, stands where it was appended. |
| `DnsFrame.RecordAppended` | managed_components/espressif__mdns/mdns.c:819-1191 | A record of any kind, its matches honest, stands where it was appended, with the length of its data. |
| `DnsFrame.RecordKept` | managed_components/espressif__mdns/mdns.c:819-1191 | It stands there still when bytes of the header or behind it have changed. |
| `DnsWalk.WalkWhole` | managed_components/espressif__mdns/mdns.c:3687-3811 | Whatever stands in a packet is walked completely, and read as what stands there. |
| `DnsDispatch.Dispatcher.AppendSection` | managed_components/espressif__mdns/mdns.c:1508-1530 | The loops over the records with their 8-bit counts, in place. |
| `DnsDispatch.Dispatcher.AppendRecord` | managed_components/espressif__mdns/mdns.c:819-1191 | The append functions of the record types, in place. |
| `DnsDispatch.Dispatcher.AppendEntries` | managed_components/espressif__mdns/mdns.c:998-1014 | The loop over the TXT entries, in place. |
| `DnsDispatch.Dispatcher.SetU16` | managed_components/espressif__mdns/mdns.c:508-515 | In place. |
| `DnsDispatch.Dispatcher.Dispatch` | managed_components/espressif__mdns/mdns.c:1486-1530 | Over the bytes that the previous packet left behind, in place. |
| `DnsDispatch.ParseQuestions` | managed_components/espressif__mdns/mdns.c:3687-3706 | The question loop. |
| `DnsDispatch.ParseRecords` | managed_components/espressif__mdns/mdns.c:3767-3791 | The record loop. |
| `TxQueue.InsertInv` | managed_components/espressif__mdns/mdns.c:1584-1602 | Scheduling keeps the invariant: the queue is sorted, its queued packets are a prefix, and the pending actions of packets that exist list exactly that prefix in order. |
| `TxQueue.RunInv` | managed_components/espressif__mdns/mdns.c:5271-5303 | So does a run of the scheduler. |
| `TxQueue.PopInv` | managed_components/espressif__mdns/mdns.c:5201-5212 | So does handling the head, which leaves no trace of it in queue and actions. |
| `TxQueue.KeepInv` | managed_components/espressif__mdns/mdns.c:1623-1643 | So does removing any packets. |
| `TxQueue.InvMeans` | managed_components/espressif__mdns/mdns.c:1584-1602 | What the invariant says, index by index. |
| `TxQueue.RunMeans` | managed_components/espressif__mdns/mdns.c:5271-5303 | After a run exactly those packets are queued for sending that were, or are due. |
| `PcbRun.ProbingEnds` | managed_components/espressif__mdns/mdns.c:5025-5080 | From the start of probing, with six such stretches: three probes and three announcements go out, and the pcb just answers. |
| `PcbRun.ProbeDispatched` | managed_components/espressif__mdns/mdns.c:5025-5044 | A first or second probe that is sent is put back for exactly 250 ms later, and the next state is reached. |
| `PcbRun.LastProbeDispatched` | managed_components/espressif__mdns/mdns.c:5046-5070 | A third probe that is sent leaves exactly one packet of the pcb, a new announcement for exactly 250 ms later. |
| `PcbRun.AnnouncementDispatched` | managed_components/espressif__mdns/mdns.c:5046-5070 | A first or second announcement that is sent is put back for exactly 1000 ms later. |
| `PcbRun.LastDispatched` | managed_components/espressif__mdns/mdns.c:5072-5080 | The third announcement leads to RUNNING with nothing put back; an answer is sent and gone. |
| `PcbRun.StartMeans` | managed_components/espressif__mdns/mdns.c:2309-2344 | Probing starts with one probe, for what was being probed and what is new, due after the delay. |
| `PcbRun.RestartMeans` | managed_components/espressif__mdns/mdns.c:2432-2450 | A restart probes for the given services only. |
| `PcbRun.UpMeans` | managed_components/espressif__mdns/mdns.c:4286-4300 | An interface that comes up probes for its names. |
| `PcbRun.RunningAnnounces` | managed_components/espressif__mdns/mdns.c:2413-2425 | A pcb that just answers announces with a new packet, due at once. |
| `PcbRun.OthersAnnounce` | managed_components/espressif__mdns/mdns.c:2389-2412 | A probing pcb probes for more, and one that announces and has a packet queued starts over. |
| `PcbRun.AnswerMeans` | managed_components/espressif__mdns/mdns.c:4219-4221 | An answer is queued for its delay past probing, and not before. |
| `PcbRun.ForgetMeans` | managed_components/espressif__mdns/mdns.c:2716-2795 | A forgotten service leaves the probe with one question less; the last one takes the probe with it. |
| `PcbRun.DownMeans` | managed_components/espressif__mdns/mdns.c:2938-2955 | An interface that goes down takes its packets with it. |
| `PcbMachine.StepValid` | managed_components/espressif__mdns/mdns.c:5158-5212 | Every step keeps what `PcbMachine.RunValid` says: time, scheduler, other actions, the head action, starting and restarting probes, announcing, answering, forgetting a service, interfaces going up, down and being duplicates. |
| `PcbMachine.ThirdProbe` | managed_components/espressif__mdns/mdns.c:5025-5053 | At the third dispatch two probes have gone out since the restart, and it keeps the distance to both. |
| `PcbMachine.SentIsLogged` | managed_components/espressif__mdns/mdns.c:5025-5053 | The dispatches since the last restart are the end of the log of all dispatches. |
| `PcbMachine.ForgetValid` | managed_components/espressif__mdns/mdns.c:2716-2795 | Removing a service from the scheduled packets keeps the invariant, also when it was the last one being probed. |
| `MdnsServer.Server.ScheduleTxPacket` | managed_components/espressif__mdns/mdns.c:1584-1602 | The list insertion in place. |
| `MdnsServer.Server.ClearPcbTxQueue` | managed_components/espressif__mdns/mdns.c:1623-1643 | The removal loop in place. |
| `MdnsServer.Server.SchedulerRun` | managed_components/espressif__mdns/mdns.c:5271-5303 | The two loops in place. |
| `MdnsServer.Server.InitPcbProbeNewService` | managed_components/espressif__mdns/mdns.c:2253-2300 | In place, with the merged service list. |
| `MdnsServer.Server.InitPcbProbe` | managed_components/espressif__mdns/mdns.c:2309-2344 | In place. |
| `MdnsServer.Server.TxHandlePacket` | managed_components/espressif__mdns/mdns.c:5025-5080 | The state switch in place. |
| `MdnsServer.Server.ExecuteAction` | managed_components/espressif__mdns/mdns.c:5201-5212 | The head action in place keeps the whole invariant. |
| `MdnsServer.FindUnlisted` | managed_components/espressif__mdns/mdns.c:2321-2336 | The services that are not yet being probed. |
| `MdnsServer.CopyServices` | managed_components/espressif__mdns/mdns.c:2256-2279 | The merged service list. |
| `Conflict.SrvTransitive` | managed_components/espressif__mdns/mdns.c:2840-2892 | The verdicts are transitive. |
| `Conflict.TxtTransitive` | managed_components/espressif__mdns/mdns.c:2897-2936 | The verdicts are transitive. |
| `Conflict.SrvWinnerByBytes` | managed_components/espressif__mdns/mdns.c:2840-2892 | In any domain: the longer data win, and of data of one length those that are greater at the first byte that differs. |
| `Conflict.VerdictMeans` | managed_components/espressif__mdns/mdns.c:2876-2891 | The same of any data. |
| `Conflict.VerdictOpposite` | managed_components/espressif__mdns/mdns.c:2876-2891 | Comparing lengths first and then bytes is antisymmetric and 0 only on equal data. |
| `TxtRecord.Misread` | managed_components/espressif__mdns/mdns.c:3536-3539 | Going on one byte too far, as after an entry without `=`, is never read as the remaining items. |
| `TxtForeign.Consists` | managed_components/espressif__mdns/mdns.c:3437-3459 | All data consist of such parts, and then are over, or run past the end. |
| `TxtForeign.ItemMeans` | managed_components/espressif__mdns/mdns.c:3464-3556 | The key of a part is up to its first `=`, and the value what follows, if anything does. |
| `TxtForeign.Written` | managed_components/espressif__mdns/mdns.c:652-681 | How items are written, byte by byte. |
| `TxtRecord.ItemsCountGet` | managed_components/espressif__mdns/mdns.c:3437-3459 | The counting loop. |
| `TxtRecord.ItemNameGetLen` | managed_components/espressif__mdns/mdns.c:3464-3475 | The name loop. |
| `TxtRecord.ResultTxtCreate` | managed_components/espressif__mdns/mdns.c:3480-3569 | The building loop. |
| `TxtRecord.ReadItem` | managed_components/espressif__mdns/mdns.c:3518-3556 | One round of it. |
| `DaliSearch.RoundMeans` | main/tools/dali_tool.cpp:326-404 | A round keeps the condition of `DaliSearch.SearchEndsExactly` either way, and under it leaves strictly fewer devices in the search. |
| `DaliSearch.RoundKept` | main/tools/dali_tool.cpp:269-309 | Withdrawn devices have a number that was free, recorded in its slot, and two have the same number exactly when they drew the same random address; the numbers given out are the lowest that were free, in the order of the random addresses; no other slot and no other device is touched. |
| `DaliSearch.FirstFreeMeans` | main/tools/dali_tool.cpp:10-19 | The number is that of the first free slot. |
| `DaliCommission.Commissioner.SendCompare` | main/tools/dali_tool.cpp:69-107 | After the bytes that are sent again the search register of every gear is the address under test, and the answer says whether some active device is at or below it (clause 11.7 of IEC 62386-102). |
| `DaliCommission.Commissioner.QUp` | main/tools/dali_tool.cpp:110-159 | The upward nibble search stops at the last value without an answer. |
| `DaliCommission.Commissioner.QDown` | main/tools/dali_tool.cpp:162-210 | The downward nibble search stops at the last value without an answer, or at zero. |
| `DaliCommission.Commissioner.FindBlock` | main/tools/dali_tool.cpp:212-243 | One byte: nothing answers at the value found, unless it is zero, and something at the next. |
| `DaliCommission.Commissioner.FindMinNumber` | main/tools/dali_tool.cpp:246-252 | The three bytes together are exactly the lowest active address less one, and zero for zero. |
| `DaliCommission.Commissioner.FindAddr` | main/tools/dali_tool.cpp:10-19 | The first free slot of the 64, or 200 when there is none. |
| `DaliCommission.Commissioner.AssignAddress` | main/tools/dali_tool.cpp:269-309 | Programs, verifies, withdraws and records. |
| `DaliCommission.Commissioner.AssignNext` | main/tools/dali_tool.cpp:311-324 | The following address, with the low byte wrapping. |
| `DaliCommission.Commissioner.AssignGroup` | main/tools/dali_tool.cpp:379-387 | The found address and up to three that follow it. |
| `DaliWire.FrameWritten` | main/comp/dali.cpp:199-253 | The waveform of a frame, level by level and in microseconds. |
| `DaliWire.PackageWritten` | main/comp/dali.cpp:238-253 | The bits of a package, the highest first, byte after byte. |
| `DaliWire.HighestFirst` | main/comp/dali.cpp:221-237 | What a number in bits is, the highest first. |
| `DaliWire.EdgeWithin` | main/comp/dali.cpp:390-420 | An edge within a frame, by the microseconds since the last one. |
| `DaliWire.RiseStarts` | main/comp/dali.cpp:356-388 | The rise that starts a frame, from 292 to 540 us after the fall. |
| `DaliWire.FallStarts` | main/comp/dali.cpp:314-355 | The fall that starts the timer, more than 1746 us after the last one within a second. |
| `DaliWire.AlarmComes` | main/comp/dali.cpp:271-292 | The alarm, 2164 us after the last edge. |
| `DaliLine.FrameIsDecoded` | main/comp/dali.cpp:307-420 | A frame of any number of bits, under the tolerances of `DaliLine.PackageArrives`: the word is their value in 32 bits, and the count, in eight, is twice their number, and one more when the last bit is 0. |
| `DaliLine.FrameArrives` | main/comp/dali.cpp:199-253 | The sender's own waveform is within the tolerances. |
| `DaliLine.Classified` | main/comp/dali.cpp:460-520 | Words with these counts are taken for the right bytes and type. |
| `DaliPort.Dali.SendByte` | main/comp/dali.cpp:221-237 | The shifting loop sends the eight bits from the top. |
| `DaliPort.Dali.Send` | main/comp/dali.cpp:238-253 | A start bit, the bytes of the package and the stop bits. |
| `DaliPort.Dali.IntHandler` | main/comp/dali.cpp:307-420 | The interrupt handler on its fields is the step function. |
| `DaliPort.Dali.TimerAlarm` | main/comp/dali.cpp:271-292 | The alarm posts what was collected. |
| `DaliPort.Dali.Listen` | main/comp/dali.cpp:271-420 | Any sequence of edges, with the alarms between them. |
| `Glob.StarCase` | main/comp/storage.cpp:261-289 | The star with its look-ahead and its recursive calls. |
| `Glob.TryFrom` | main/comp/storage.cpp:283-289 | The recursive calls from every place of the string but its end. |
| `Glob.ReadMember` | main/comp/storage.cpp:220-236 | One member of a bracket, a character or a range, quoted or not. |
| `GlobMeaning.QuotedInBracket` | main/comp/storage.cpp:221-229 | In a bracket a quoted character is for itself. |
| `GlobMeaning.MatchesCovers` | main/comp/storage.cpp:242-319 | Without backslashes the condition that a star leaves something always holds: a match is any cutting into pieces that fit. |
| `GlobMeaning.StarMeans` | main/comp/storage.cpp:261-289 | Without backslashes `*` is for any part of the string, but not for a dot at the beginning. |
| `GlobMeaning.QuestionMeans` | main/comp/storage.cpp:252-260 | `?` is for any character, but not for a dot at the beginning. |
| `GlobMeaning.ListMeans` | main/comp/storage.cpp:290-295 | `[abc]` is for one of its characters, `[!abc]` and `[^abc]` for one that is none of them. |
| `GlobMeaning.RangeMeans` | main/comp/storage.cpp:226-235 | `[a-z]` is for a character from the one to the other, both included. |
| `GlobMeaning.CharacterMeans` | main/comp/storage.cpp:305-315 | Any other character is for itself, in either case when case does not count. |
| `Glob.Rangematch` | main/comp/storage.cpp:204-239 | A bracket is matched, refused or unterminated as its members say. |
| `Rs485.CountWraps` | main/comp/rs485.cpp:55-58 | The count of frames is a byte: a message of 12801 bytes is sent as one frame of one, which completes it with 50 bytes; up to 14350 bytes the count is wrapped and completes too early, and from 12751 to 12800 bytes nothing is sent. |
| `Rs485.Reassembles` | main/comp/rs485.cpp:169-189 | Whatever was in the buffer: after each of these frames it holds the message up to that fragment, and zeros, and `paket_decode` returns true exactly at the last frame when the count of frames, as a byte, is below 32. |
| `Rs485.CompleteAtLast` | main/comp/rs485.cpp:184-186 | Of the frames of a message only the last can complete it, and it does exactly when the count, as a byte, is below 32. |
| `Rs485.Receiver.PaketDecode` | main/comp/rs485.cpp:169-189 | In place, and without a buffer nothing happens before a first frame. |
| `Rs485.Fragments` | main/comp/rs485.cpp:55-76 | The fragment loop, with its 8-bit count and 16-bit offsets, cuts the message into these frames. |
| `Rs485.FramesMean` | main/comp/rs485.cpp:55-72 | The frames of any message, in numbers: total, place and 50 bytes each, with the length in 16 binary digits and the number of frames in eight. |
| `Rs485.MarkMeans` | main/comp/rs485.cpp:183-183 | The receiver's mark is one binary digit, and nothing from 32 on. |

## Left out

Stated for fewer inputs, or more weakly, than one might expect:

- CronEngine.CronNextTime: starts before 1970 are not covered, because on the way the time may take the value -1 that `mktime` and the engine use for an error. With both day fields restricted, a start is not covered when an inner call ends on a time that does not match: the code then goes on with its next field, and `CronSearch.DoNext` does not. `CronDays.AlwaysMatches` says for which expressions that cannot happen.
- CronReach.AlwaysExact: for both day fields restricted at once, `CronDays.AlwaysMatches` says when the answer is a match, and nothing is stated about its being the first; the text formats the firmware writes leave both free.
- CronPrev.CronPrevExact: expressions that leave out a month are not covered; for those `last_day_of_month` mixes local time with `gmtime`, so that the day before the last one is taken in zones east of Greenwich.
- CronBack.CronPrevTime: only for matches from the second day of 1970 on, so that no time on the way is the -1 that stands for an error; for expressions that select every month, as above.
- CronBack.ResetMax: only the clock fields; the day and the month are reset only by a month that moves, which does not happen when every month is selected.
- CronParser.CronExpr.ParseExpr: bitsets are arrays of booleans, not of bytes; which error text is returned and which bits an error leaves behind is not stated; texts are ASCII.
- CronParse.NamesMean: names that touch each other or another capital letter are replaced as well by the code, but nothing is stated about the result.
- Scheduler.RunValid: a round of the loop is one step; a job is destroyed only when its removal works, as otherwise the code frees a job that is still listed (`Scheduler.RemoveExact` says when that is); an empty list, on which the loop reads through a null pointer, takes no loop step; job expressions are those with a match in every year for which `CronCorrect.CronNextExact` holds.
- JobList.CronJobList.Round: only from 1970 on, and from the starts that the cron engine covers.
- JobList.CronJobList.ListRemove: not where the code reads through a null pointer.
- DnsRound.RoundTripExactly: labels have bytes below 0xC0 and no "_sub", and the second label is a service, "local" or "arpa", as the reader would otherwise join it to the first. A match with a terminator inside a label, or with a pointer that the index cuts, is only covered in one direction, by `DnsRound.RoundTrip`; `DnsStale.CutMatch` shows that the other one fails there.
- DnsWalk.PacketWalks: only when every append succeeds; an append that does not fit leaves bytes behind that no count mentions. Names end with a label of at least three bytes. Answers are taken as the records they are turned into. The parser also leaves a packet early when it has only questions that are not its own.
- DnsHonest.MessageWalks: a packet with a match that reaches over the index is not covered, as its name may be lost (`DnsStale.StraddlingMatch`) or not (`DnsStale.CutMatch`). The length of a data name is at most 249 bytes in an SRV record.
- DnsResponder.ResponderIsClear: the reverse names of addresses are not among them.
- DnsDispatch.Dispatcher.Dispatch: when an append fails, only the failure is stated, and not which bytes it leaves behind.
- PcbMachine.RunValid: the hostname is set, allocation succeeds, packets are told apart by numbers that are never used again, the tick count does not wrap, the action queue is never full, probing starts with at least 120 ms delay on an interface that is up, and answers go out only past probing. Which of its questions a probe loses with a forgotten service, and whether it is freed, is left open; the loop over the scheduled packets is a step for each packet.
- PcbRun.UndisturbedProbing: while answers are queued for the pcb, services announced or forgotten, or the interface goes down, the number of announcements and the moments for which they are queued can change; then only `PcbMachine.RunValid` and the lemmas about single steps hold.
- TxtForeign.ForeignRecord: what is read behind a part without `=` that is not the last is not stated, as the reading goes on one byte too far there.
- DaliCommission.Commissioner.SearchDevice: the line is reliable, every active device hears and answers every COMPARE; repeats, timeouts and broken answers are not modelled. INITIALISE and RANDOMISE have been done and set which devices are active with which random address.
- DaliLine.PackageArrives: the frame timer shows more than 1746 us, as `DaliLine.FrameMissed` explains. Starting a timer that runs, which stops the firmware, is not modelled: it cannot happen from a waiting decoder with its timer halted.
- Conflict.TxtSidesAgree: for data that fits into a packet, as it has been received from one; the code could not encode more.
- TxtRecord.RoundTripExact: keys hold no zero byte, as they are C strings.
- Glob.Fnmatch: the path flags and FNM_NOESCAPE are not covered, as the firmware only uses FNM_PERIOD.
- Rs485.DeliveredExactly: each frame comes, in order; there is no statement about delivery, as a missing acknowledgement ends the sending without a repeat.

Not modelled:

- FreeRTOS tasks, semaphores, queues and timers, except for the order of the transmit and action queues.
- GPIO, ADC, SPI, I2C, display, Ethernet and Wi-Fi drivers, sockets, lwIP.
- JSON commands, HTTP pages, the mDNS console, configuration files: long lists of cases with a fact each.
- RS485 acknowledgement and the `##` pattern; the polling DALI decoders `dalie.cpp` and `_esend_receive`, which add nothing to the interrupt handler.
- TFTP, file listing and the rest of `storage.cpp`.
- mDNS search and browse results, reverse queries, collision of A and AAAA records, and failing allocations.
- Daylight saving time: the zone has a fixed offset.
