# dmtimer: the timing wheel, its timers, and the cron engine

A Dafny model of a game-server timer library: a five-level hierarchical timing wheel
(`CDMTimerModule`), the nodes that own timers (`CDMTimerNode`), the free-list allocator the timers live
in (`CDMRapidPool`, `CDynamicRapidPool`), the circular lists underneath (`dmlist.h`), and the cron
expression engine (`dmcroncpp.h`).

## How it is put together

| file | what it holds |
|---|---|
| `TimerElements.dfy`, `DmList.dfy` | one pool cell with its embedded list entry; the list operations on shared pointers, each proved against a sequence |
| `Wheel.dfy` | the slot arithmetic: where an element goes, when that slot is next emptied, why that is never too late |
| `Calendar.dfy` | the flat calendar the wheel stands for: timers keyed by due tick, no slots, no levels; its events and their runs |
| `CalendarLaws.dfy`, `PeriodLaws.dfy` | what every run of the calendar promises: delivery, kills, conservation, periods |
| `VirtualClock.dfy`, `ClockBook.dfy` | the 32-bit tick counter turned into a 64-bit clock with adjustable speed; the readings behind a history of the calendar |
| `RapidPool.dfy`, `DynamicPool.dfy` | the allocator |
| `TimerLists.dfy`, `TimerWheel.dfy` | the 512 list heads of tv1..tv5 and the cascades |
| `TimerLedger.dfy` | who owns what: cells, incarnations, lists and node maps, as values |
| `ClientCalls.dfy`, `StepFacts.dfy` | what each client call and each `Run` does, on values; what each event does to calendar and ledger together |
| `TimerSystem.dfy` | the module and its nodes: `Run`, the client calls, `UnInit` |
| `RunLaws.dfy` | what a client can rely on: what each call means in ticks, and that a `Run` makes all the calls of its callbacks |
| `Gregorian.dfy` | the calendar behind `mktime` |
| `CronNames.dfy`, `CronFields.dfy`, `CronTexts.dfy` | the names of days and months; the parser of cron expressions; which texts with numbers below 100 it accepts and what they mean, by arithmetic |
| `CronSearch.dfy`, `NextInstant.dfy` | the search for the next instant: in one field and among days, and in all fields together |
| `Reliability.dfy` | for which expressions what the search finds satisfies them, and for which it always finds something |
| `Leastness.dfy`, `MonthSlips.dfy` | whether what it finds is the next such instant, or an earlier one is passed over |
| `CronExamples.dfy` | four expressions that are answered wrongly |

`TimerModule` carries a ghost history `run` beside its real fields. `Valid()` says that this history is a
run of the flat calendar (`Calendar.IsRun`) whose last state the pointers, fields and maps agree with.
Every operation says in its contract by which events it extends the history, and an event may be
appended only where the calendar enables it: a timer can be called back only if its node still owns it and
its due tick is the current one, and a tick can end only when nothing is due at it any more. So each
theorem about all runs of the calendar in `CalendarLaws` and `PeriodLaws` holds of the module, whatever
levels of the wheel a timer has passed through and whatever its callbacks did. A callback is an arbitrary
finite sequence of client calls (`ClientOp`) on any node, and ends with an arbitrary answer `delay` of the cron
engine. Ticks, total time and incarnation numbers are unbounded in the ghost state; the real fields wrap
around at 32 and 64 bits as in the source.

`SetTimerCron` asks the modelled cron engine (`CronFields.SecondsToNext`) about the text it is given, after it has
fetched its cell, and a text the engine rejects costs that cell: `TimerModule.leaked` holds the cells lost in this
way, and the conservation law of `Valid()` is that the cells in use are those the ledger knows and, apart from them,
the leaked ones. The answers of the engine to a cron timer that goes on are arbitrary (`delays`), so the wheel is
shown to accept every value, also the one an invalid answer leads to.

## What turned out not to hold everywhere

- `SetTimerCron` on a text that is not empty and cannot be read, while a cell is free, loses that cell for good:
  `ClientCalls.LeaksExactly` says that away from the edge of time no other call does, `ClientCalls.RejectedText` gives
  an input, and `UnInit` leaves every pool full if and only if nothing leaked. Callbacks whose cron texts can all be
  read leak nothing (`Run`).
- A timer asked for 2^63 ticks or more ahead of `m_qwLastTime` counts as overdue and goes to the slot of the current
  tick: outside callbacks it is dispatched in the tick that is next handled, inside one 256 ticks later.
  `CalendarLaws.SetIsOnTime` gives the exact condition.
- An exact timer with period 0, or one set during dispatch for a time that has come, waits a whole turn of
  tv1 (256 ticks), because the current slot is already detached: `CalendarLaws.ExactIsOnTime`.
- A timer that is not exact compares wrapped 64-bit times, so around the wrap-around of the clock it can fall
  behind and fire again in the same `Run`: `CalendarLaws.InexactIsOnTime` gives the exact condition and
  `CalendarLaws.InexactAcrossWrap` an input. While `m_qwCurTime` plus the period stays below 2^63 it cannot happen
  (`CalendarLaws.EarlyClock`).
- Of every number in a cron expression only the low 8 bits count, so the minute `300`, which is out of range, is
  taken for minute 44 (`CronFields.ThreeHundred`); and a step so long that the 8-bit loop variable wraps around at
  once sets wrong bits (`50/230` in the minutes, say). `CronFields.EntryIsExact` compares what the code does with an
  entry with what its numbers, as they are written, denote, and gives the exact condition under which they agree;
  `CronFields.SmallNumbers` is the condition for numbers below 256.
- A day or month that is named twice in a field, as in `MON,MON`, is replaced by its number only once, so that the
  field cannot be read (`CronNames.TwoNames`, `CronFields.MondayTwiceRejected`).
- With both day fields of a cron expression restricted, `find_next` can take a day for unmoved that the search has
  left, because it compares day numbers. Then the time of day may be lost: `30 30 12 1 * 3`, asked on Sunday,
  1 January 2023 at 12:30:30, is answered by midnight of 1 February. Or the day itself does not fit: when the search
  gives up after 366 days across a 29 February it stands on the same day number again, so `0 0 0 13 * 5`, asked at the
  beginning of 14 August 2027, is answered by Monday, 14 August 2028 (`CronExamples.WrongAnswers`, texts
  included). `Reliability.Reliable` is the exact condition, on days alone and for 400 years only: wherever an unfit
  day can be mistaken for the first fitting day after it, or for the 366th, that day fits and second, minute and hour
  0 are allowed. Every valid answer to a reliable expression satisfies it (`NextInstant.CronNext`), and an expression
  that is not reliable is answered wrongly at some instant (`NextInstant.ReliableIsExact`). With one day field open an
  expression is reliable.
- With one day field open there is always an answer if and only if some allowed date comes every year
  (`Reliability.Yearly`, `NextInstant.CronNext`, `NextInstant.NoAnswer`): otherwise only 29 February can be asked for,
  and after that of 2096 the next lies beyond the year limit.
- `cron_next` need not answer with the next instant that satisfies the expression, for two reasons. A second that has to
  move within its minute is not put back when a higher field moves after it: asked on Saturday, 6 January 2024 at
  12:00:05, `0/10 * * ? * MON-FRI`, the text of test/dmtimercrontest, is answered by ten seconds past midnight on
  Monday (`CronExamples.LateOnMonday`). `Leastness.Hasty` is the exact condition, which looks only at where the first
  move leads, and `Leastness.GaplessIsNotHasty` says that seconds without gaps never meet it. And a month that does not
  have the day of the date is left for the month after it: asked at the beginning of 31 January 2001, `0 0 0 ? 2 *` is
  answered in March or later, if at all (`CronExamples.FebruaryPassed`). `Leastness.NeverSlips` is the exact condition on an
  expression with an open day field (`MonthSlips.SlipsExactly`). For an expression that is reliable and either allows
  all months or, with an open day field, never slips, the answer is the next instant if and only if the search is not
  hasty (`NextInstant.CronNext`).

## Model

| member | source | states |
|---|---|---|
| TimerElements.TimerElement.constructor | include/dmtimersink.h:76-97 | a cell is born with every field at rest and knows its pool and position for good |
| TimerElements.TimerElement.Reset | include/dmtimersink.h:85-97 | links, times, id, sink and the three flags all go back to their rest values |
| TimerElements.TimerElement.Assign | src/dmtimernode.cpp:48-49 | member-wise assignment copies the list links along with the data |
| TimerElements.TimerElement.Kill | include/dmtimersink.h:99-102 | killing is lazy: only the flag changes, links and data stay |
| DmList.InitListHead | include/dmlist.h:51-54 | the head becomes the ring of no entries |
| DmList.ListAdd | include/dmlist.h:63-88 | adding puts one entry in front of the sequence and keeps every other link of the ring consistent both ways |
| DmList.ListAddTail | include/dmlist.h:63-102 | adding at the tail appends one entry to the sequence |
| DmList.ListDel | include/dmlist.h:111-128 | deleting any entry removes exactly that position from the sequence |
| DmList.SizeTests | include/dmlist.h:198-226 | the emptiness and singleton tests on pointers agree with the length of the sequence |
| DmList.ListReplace | include/dmlist.h:140-146 | the whole sequence, if there is one, moves to the new head |
| DmList.ListReplaceInit | include/dmlist.h:148-152 | the whole sequence, also the empty one, moves to the new head, and the old head is left empty |
| DmList.ListSplice | include/dmlist.h:272-293 | splicing concatenates two sequences in front |
| DmList.ListSpliceTail | include/dmlist.h:300-305 | splicing at the tail concatenates them behind |
| DmList.ListCutPosition | include/dmlist.h:228-270 | the cut splits the sequence after the given entry into the two lists |
| DmList.CutThenSplice | include/dmlist.h:253-293 | cutting a list at an entry and splicing the part back restores the original list |
| Wheel.AddPlaces | src/dmtimermodule.cpp:15-60 | for every expiry and every tick, late, on time or clamped, the chosen slot is next visited no later than the element is due, and its due tick is never past |
| Wheel.SlotArithmetic | include/dmtimersink.h:40 | computing a slot index from the wrapped 64-bit time gives the index of the unwrapped time |
| Wheel.ClampPlaces | src/dmtimermodule.cpp:45-57 | an element beyond 2^32 - 1 ticks goes to a tv5 slot that is visited after now and before it is due |
| Wheel.FirstVisit | src/dmtimermodule.cpp:177-187 | among the ticks from the placement to the touch tick the element's slot is emptied at the touch tick and at no other |
| Wheel.CascadeChain | src/dmtimermodule.cpp:177-185 | the chain of short-circuit tests reaches each level exactly at the multiples of its slot width, also where m_qwLastTime wraps around |
| Wheel.CascadeKeepsDue | src/dmtimermodule.cpp:77-94 | adding an element again on the way down does not change the tick at which it is due |
| Wheel.LateIsNow | src/dmtimermodule.cpp:41-44 | an expiry that has passed, by at most 2^63 ticks, is due at the current tick, in its slot; while that slot is being dispatched, 256 ticks later |
| Wheel.CascadeProgress | src/dmtimermodule.cpp:45-57 | each cascade takes an element to a strictly finer level, or cuts a clamped wait by at least 2^32 - 2^26 ticks |
| Wheel.RelinksByLevel | src/dmtimermodule.cpp:21-57 | an element that is not clamped is relinked at most once per level above tv1 |
| Wheel.RelinkBound | src/dmtimermodule.cpp:15-94 | an element added D ticks ahead is relinked at most 4 + D / (2^32 - 2^26) times |
| Calendar.ExtendIsRun | src/dmtimermodule.cpp:167-245 | an enabled event makes a history longer and keeps it a history |
| Calendar.StepKeepsInv | src/dmtimermodule.cpp:167-245 | every enabled event keeps last <= cur <= total, no timer overdue, and each node map entry the one live owner of its id on a live node |
| Calendar.ReachableInv | src/dmtimermodule.cpp:167-245 | the same in every state of every run |
| CalendarLaws.SetIsOnTime | src/dmtimernode.cpp:147-148 | a timer is due exactly at boot time + first if and only if that is less than 2^63 ticks ahead |
| CalendarLaws.ExactIsOnTime | src/dmtimermodule.cpp:221-238 | after firing on time an exact timer is next due exactly one period later if and only if its period is in 1 .. 2^63 - 1 |
| CalendarLaws.InexactIsOnTime | src/dmtimermodule.cpp:221-238 | a timer that is not exact waits its period and past the current Run if and only if the branch taken on the wrapped times allows it |
| CalendarLaws.EarlyClock | src/dmtimermodule.cpp:225-228 | that condition holds as long as current time + period is below 2^63 |
| CalendarLaws.InexactAcrossWrap | src/dmtimermodule.cpp:225-228 | an input at the wrap-around for which it does not |
| CalendarLaws.CronIsOnTime | src/dmtimermodule.cpp:232-237 | after its callback a cron timer is next due the engine's answer, in seconds, after m_qwCurTime if and only if that is less than 2^63 ticks ahead |
| CalendarLaws.CronComesBack | src/dmtimermodule.cpp:215-238 | the same of the Return event of any run, for a timer that is still owned then; it keeps node, id and kind |
| CalendarLaws.Delivered | src/dmtimermodule.cpp:189-239 | in every run a timer stays as it is until it is handled, and it is handled at its due tick: never early, late or lost |
| CalendarLaws.NoDuplicate | src/dmtimermodule.cpp:189-239 | two handlings of one timer are at strictly increasing ticks, and after being dropped it is never handled again |
| CalendarLaws.TickIsExact | src/dmtimermodule.cpp:187-241 | during tick t exactly the timers due at t when it began are handled, each once, and called back exactly if still owned when reached, whatever the callbacks of that tick do |
| CalendarLaws.NeverAgain | src/dmtimermodule.cpp:195-219 | a timer its node no longer owns gets no further callback in any continuation |
| CalendarLaws.EndsExactly | src/dmtimernode.cpp:8-235 | the events that end an owned timer are KillTimer and SetTimer on its id, clearing and destruction of its node, and no others |
| CalendarLaws.KillSafety | src/dmtimernode.cpp:150-160 | after KillTimer, SetTimer on the same id, clearing or destruction of its node a timer is never called back |
| CalendarLaws.NoCallbackOnDeadNode | src/dmtimernode.cpp:8-11 | after the destructor no callback in any run is made on that node |
| CalendarLaws.Gone | src/dmtimermodule.cpp:195-199 | a released incarnation never comes back |
| CalendarLaws.Conservation | src/dmtimermodule.cpp:189-219 | every timer ever set is either pending or has been released exactly once |
| PeriodLaws.ExactProgress | src/dmtimermodule.cpp:221-230 | the callbacks of an un-killed exact timer so far are an initial part of f, f + p, f + 2p, ..., without gap |
| PeriodLaws.ExactFires | src/dmtimermodule.cpp:221-230 | between ticks it has fired exactly at all of f, f + p, f + 2p, ... before the current tick, however late or irregular the Run calls were |
| PeriodLaws.InexactFires | src/dmtimermodule.cpp:221-230 | consecutive callbacks of a timer that is not exact are at least its period apart, as long as each of them met the condition of InexactIsOnTime |
| PeriodLaws.EarlyClockKeepsUp | src/dmtimermodule.cpp:225-228 | they all meet it while current time + period is below 2^63 |
| PeriodLaws.QuietUntilNextRun | src/dmtimermodule.cpp:225-228 | after a callback, under the same condition, its next due tick is not before m_qwCurTime until Run is called again |
| PeriodLaws.InexactOncePerRun | src/dmtimermodule.cpp:167-245 | under the same condition there is a new call of Run between two of its callbacks |
| VirtualClock.DifferenceIsExact | src/dmtimermodule.cpp:260-262 | 32-bit subtraction of readings less than 2^32 ms apart loses nothing |
| VirtualClock.Drift | src/dmtimermodule.cpp:258-269 | at constant speed s the clock shows D * s / 10000 after D ms, short by less than one tick per sample and never ahead |
| VirtualClock.NoDrift | src/dmtimermodule.cpp:264 | it is exact if 10000 divides the speed |
| VirtualClock.KnownPaces | src/dmtimermodule.cpp:253-266 | at speed 10000 the clock shows the milliseconds that have passed, at 20000 twice as many, at 0 it stands still |
| VirtualClock.Monotone | src/dmtimermodule.cpp:266 | it never goes back, whatever the speed changes |
| ClockBook.BootIsTotal | src/dmtimermodule.cpp:258-269 | in every history the clock has moved by what its readings come to, and by nothing else |
| TimerSystem.TimerModule.ClockIsTotal | src/dmtimermodule.cpp:258-269 | at any time m_qwTotalTickCount is its first value plus what all readings since come to, modulo 2^64, so that the three laws above are about the module's clock |
| RapidPool.Pool.constructor | include/dmrapidpool.h:48-57 | all cells are unused, and the free list threads them all |
| RapidPool.Pool.FetchObj | include/dmrapidpool.h:63-82 | hands out a constructed cell not in use, the head of the free list; null exactly if none is free |
| RapidPool.Pool.ReleaseObj | include/dmrapidpool.h:84-101 | the cell becomes unused and the new head of the free list |
| RapidPool.Pool.FreeListWalk | include/dmrapidpool.h:48-101 | after any fetches and releases the walk along dwFlag takes m_nFreeCount hops through distinct unused slots, meets every unused slot and then reaches S, and every link fits 16 bits |
| RapidPool.Pool.FreeCount | include/dmrapidpool.h:103-109 | m_nFreeCount plus the cells in use is S |
| DynamicPool.GrowingPool.constructor | include/dmrapidpool.h:134-137 | one pool, nothing in use, an array of no pools |
| DynamicPool.GrowingPool.FetchNew | include/dmrapidpool.h:151-158 | a new pool goes to the next place of the array, so that grown pools stay a prefix |
| DynamicPool.GrowingPool.FetchObj | include/dmrapidpool.h:145-165 | a set allocator: a constructed cell not in use, and null if and only if all S * (I + 1) cells are in use |
| DynamicPool.GrowingPool.ReleaseObj | include/dmrapidpool.h:167-182 | the cell goes back to the free list of the very pool that produced it; null is ignored |
| DynamicPool.GrowingPool.FullPools | include/dmrapidpool.h:59-61 | every pool passes the assertion of its destructor if and only if nothing is in use |
| TimerLists.Lists.constructor | src/dmtimermodule.cpp:131-142 | 512 distinct heads, each an empty ring |
| TimerLists.Lists.AddTail | src/dmtimermodule.cpp:59 | linking an element appends it to its one slot and leaves all other 511 lists well formed and unchanged |
| TimerLists.Lists.Unlink | src/dmtimermodule.cpp:102-113 | unlinking an element, wherever it stands in its list, takes out exactly that position, with null links, and leaves the other lists alone |
| TimerLists.Lists.Detach | src/dmtimermodule.cpp:173-187 | one slot moves to the local head in one piece and is empty afterwards |
| TimerWheel.WheelState.ChooseSlot | src/dmtimermodule.cpp:17-57 | the branches with their masks, shifts and the 0xffffffff clamp compute the specified slot |
| TimerWheel.WheelState.AddTimerElement | src/dmtimermodule.cpp:15-60 | the element is in its slot, due when the calendar says; the wheel's placement invariant holds again; its relinks to come are bounded by 4 + D / (2^32 - 2^26) |
| TimerWheel.WheelState.Relink | src/dmtimermodule.cpp:84-91 | the walk over a list it never unlinks from visits each original entry exactly once, though relinking changes the links it follows |
| TimerWheel.WheelState.Cascade | src/dmtimermodule.cpp:77-94 | no element is lost or duplicated or gets another due tick; those of the slot are relinked exactly once, no other moves, and the slot is empty afterwards |
| TimerWheel.WheelState.CascadeAll | src/dmtimermodule.cpp:177-185 | afterwards no coarse level holds an element whose visit falls on this tick |
| TimerWheel.WheelState.BeginTick | src/dmtimermodule.cpp:173-187 | the work list then holds exactly elements due now, and everything else in the wheel is due later |
| TimerWheel.WheelState.TakeNext | src/dmtimermodule.cpp:189-193 | the element taken is due at this very tick, has been relinked as often as planned when it was added, and the work list has become shorter |
| TimerWheel.WheelState.EndTick | src/dmtimermodule.cpp:189-241 | with the work list empty the tick moves on and no element is left behind |
| TimerWheel.WheelState.NothingOverdue | src/dmtimermodule.cpp:167-245 | no linked element is ever overdue |
| TimerLedger.MappedCell | src/dmtimernode.cpp:150-160 | a node's map entry is the one un-erased cell with that node and id |
| TimerLedger.SetKeeps | src/dmtimernode.cpp:130-163 | setting a timer keeps the conservation law: cells in use that have not leaked, pending incarnations, linked cells, un-erased cells and map entries determine each other |
| TimerLedger.KillKeeps | src/dmtimernode.cpp:213-224 | so does killing one timer |
| TimerLedger.KillAllKeeps | src/dmtimernode.cpp:226-235 | so does killing all of a node |
| TimerLedger.DestroyKeeps | src/dmtimernode.cpp:8-11 | so does destroying a node |
| TimerLedger.FireKeeps | src/dmtimermodule.cpp:191-212 | during its callback the one cell in use that is in no list is that of the timer called |
| TimerLedger.DropKeeps | src/dmtimermodule.cpp:195-199 | releasing a killed element keeps the law |
| TimerLedger.ReturnReleases | src/dmtimermodule.cpp:215-219 | so does releasing one that was killed in its own callback |
| TimerLedger.ReturnRequeues | src/dmtimermodule.cpp:221-238 | so does putting the element back |
| TimerSystem.TimerNode.SetTimer | src/dmtimernode.cpp:130-163 | fails exactly if all cells are in use and then changes nothing; otherwise samples the clock and sets a timer at that reading + first under the id, with the given period, silencing the one it replaces; what that means in ticks RunLaws.SetTimerIsOnTime says |
| TimerSystem.TimerNode.SetTimerCron | src/dmtimernode.cpp:65-110 | an empty text or a lack of cells changes nothing; otherwise the engine's answer sets a timer that many seconds ahead, or, if it throws, one cell is lost and nothing else changes; it throws for every text that cannot be read and, away from the edge of time, for no other |
| RunLaws.ArmedIsOnTime | src/dmtimernode.cpp:141-160 | a timer set to fire so long after a reading of the clock is the one under its id, with its period and kind, and due exactly then if and only if that is less than 2^63 ticks away; no other timer and no other id changes |
| RunLaws.SetTimerIsOnTime | src/dmtimernode.cpp:130-163 | SetTimer makes a new timer that first fires qwFirst ticks after the call and has period qwCD and the given exactness, if and only if that is less than 2^63 ticks away; without a free cell it changes nothing |
| RunLaws.SetTimerCronIsOnTime | src/dmtimernode.cpp:65-110 | SetTimerCron makes a timer without period that first fires 1000 ticks after the call for each second to the engine's answer, or its cell is lost |
| RunLaws.CronTimerIsOnTime | src/dmtimernode.cpp:65-110 | from the text to the tick: for an orderly expression that is not searched hastily the timer first fires as many ticks after the call as there are milliseconds from time(0) to the next instant the expression allows, or there is none in the next four years |
| RunLaws.KillTimerIsExact | src/dmtimernode.cpp:213-224 | KillTimer takes this one timer away from its node and touches no other |
| RunLaws.KillTimersIsExact | src/dmtimernode.cpp:226-235 | clearing takes all timers of the node away and touches no other node |
| RunLaws.EndIsExact | src/dmtimernode.cpp:8-11 | so does the end of a node, which is dead from then on |
| RunLaws.NewNodeIsEmpty | src/dmtimernode.cpp:6 | a new node is the next one, lives and has no timers; the others go on living |
| RunLaws.SetSpeedCounts | src/dmtimermodule.cpp:253-266 | SetSpeed changes nothing but what later readings count, milliseconds at 10000, twice as much at 20000 |
| RunLaws.CopyFromIsExact | src/dmtimernode.cpp:34-63 | CopyFrom gives each timer of src, or as many as there are cells, one new twin under the same id with the same period, kinds and expiry, and changes nothing else |
| RunLaws.TwinIsOnTime | src/dmtimernode.cpp:48-50 | a twin is due when its original is, if that is due when its expiry says |
| ClientCalls.LeaksExactly | src/dmtimernode.cpp:74-84 | away from the edge of time a client call loses a cell if and only if it is SetTimerCron on a live node, with a free cell and a text that is not empty and cannot be read |
| ClientCalls.RejectedText | src/dmtimernode.cpp:74-84 | "x" is such a text: one cell more is in use, and neither timers nor history know it |
| ClientCalls.CarefulCallsKeep | src/dmtimernode.cpp:74-84 | a sequence of calls whose cron texts can all be read loses none |
| TimerSystem.TimerNode.KillTimer | src/dmtimernode.cpp:213-224 | the id is unmapped and its timer ends; an unknown id changes nothing |
| TimerSystem.TimerNode.KillTimers | src/dmtimernode.cpp:226-235 | every timer of the node ends |
| TimerSystem.TimerNode.End | src/dmtimernode.cpp:8-11 | every timer of the node ends and the node is dead |
| TimerSystem.TimerNode.CopyFrom | src/dmtimernode.cpp:34-63 | each timer of a node, which may be this one, gets exactly one twin here with the same id, period, kind and expiry, for as long as there are cells |
| TimerSystem.TimerModule.constructor | src/dmtimermodule.cpp:129-149 | a valid module at the clock's second reading, with the third as current time, no timers, and room for 50000 * 1001 |
| TimerSystem.TimerModule.GetBootTime | src/dmtimermodule.cpp:258-269 | the total grows by the scaled wrapped difference to the last reading, modulo 2^64 |
| TimerSystem.TimerModule.FetchElement | src/dmtimermodule.cpp:284-287 | a constructed cell that no list, map or ledger entry refers to, or null exactly if all are in use, the leaked ones included |
| TimerSystem.TimerModule.Apply | src/dmtimernode.cpp:8-235 | every client call keeps the module valid, makes no callback, does not touch the work list or the phase, and does to history and clock what the value-level specification of that call says |
| TimerSystem.TimerModule.Callback | src/dmtimermodule.cpp:203-210 | a callback body is its calls one after another, each from the state the last one left |
| TimerSystem.TimerModule.Reschedule | src/dmtimermodule.cpp:221-238 | the three ways to compute the next expiry, with their wrap-around; ExactIsOnTime, InexactIsOnTime and CronIsOnTime say what they are worth |
| TimerSystem.TimerModule.Requeue | src/dmtimermodule.cpp:221-238 | an element that survives its callback is back in the wheel, due when the calendar says |
| TimerSystem.TimerModule.DispatchOne | src/dmtimermodule.cpp:191-238 | one round either drops a killed element or fires, runs the callback's calls and returns; the work list gets shorter though callbacks add and kill timers |
| TimerSystem.TimerModule.DispatchAll | src/dmtimermodule.cpp:189-239 | the inner loop ends with the work list empty and counts the callbacks; each of its rounds drops a killed timer or is callback k of this Run, which makes the calls script(k) and is answered delays(k) |
| TimerSystem.TimerModule.TickOver | src/dmtimermodule.cpp:189-241 | with the work list empty no timer is due at the tick any more |
| TimerSystem.TimerModule.Run | src/dmtimermodule.cpp:167-245 | terminates whatever the callbacks do, ends with m_qwLastTime == m_qwCurTime at the sampled time (modulo 2^64 ticks) and nothing overdue, and returns the number of callbacks; all it does is read the clock and, tick by tick, begin the tick, drop killed timers or make callback k with the calls script(k) and the answer delays(k), and end the tick; it loses no cell if the cron texts of its callbacks can be read |
| RunLaws.CallbackIsMade | src/dmtimermodule.cpp:203-219 | callback k of a Run comes after k others: a timer fires, exactly the calls of script(k) are made in their order, and it returns with delays(k) |
| RunLaws.CallsAreQuiet | src/dmtimernode.cpp:8-235 | no client call makes a callback |
| RunLaws.KilledInCallback | src/dmtimermodule.cpp:195-219 | a timer that callback k of a Run kills gets no callback in the rest of that Run nor in any later one |
| TimerSystem.TimerModule.ReleaseSlot | src/dmtimermodule.cpp:62-75 | all elements of one slot go back to the pool, no other slot changes |
| TimerSystem.TimerModule.UnInit | src/dmtimermodule.cpp:151-165 | afterwards exactly the leaked cells are in use, so that every pool is entirely free if and only if there are none |
| Gregorian.NextYear | include/dmcroncpp.h:254-257 | the closed form for the first day of a year advances by the sum of the month lengths, leap years included |
| Gregorian.KnownMonths | include/dmcroncpp.h:254-257 | the lengths of the twelve months in leap years and others |
| Gregorian.KnownDays | include/dmcroncpp.h:254-257 | the day numbers around the end of February 2000 and 2100, and 1 January 1970 as the first |
| Gregorian.KnownInstants | include/dmcroncpp.h:254-257 | three midnights with their days of the week and their seconds since 1970 |
| Gregorian.NormKeepsStamp | include/dmcroncpp.h:254-257 | normalising a struct tm does not move the instant it stands for, whatever its fields hold |
| Gregorian.OneDatePerInstant | include/dmcroncpp.h:254-257 | normal dates are ordered as their instants, so the result of mktime is the only normal date for its instant |
| CronFields.JoinTokens | include/dmcroncpp.h:332-344 | splitting loses nothing but a last delimiter |
| CronFields.TokensOfJoin | include/dmcroncpp.h:332-344 | tokens that are not empty and free of the delimiter, joined by it, are what splitting gives back |
| CronFields.Split | include/dmcroncpp.h:332-344 | the getline loop finds exactly these tokens |
| CronFields.MakeRange | include/dmcroncpp.h:384-431 | accepts exactly the fields whose bounds can be read and, as read into 8 bits, lie in order within the limits, and returns them as read; CronTexts.EntryMeans says by arithmetic what that is |
| CronFields.SetSteps | include/dmcroncpp.h:464-501 | the 8-bit loop ends for every step from 1 to 255, stays within the bit set, and sets exactly the specified bits, also when it wraps around |
| CronFields.StepsExact | include/dmcroncpp.h:498-501 | these are the bits first, first + step, ... up to last if and only if the first step does not wrap around |
| CronFields.EntryIsExact | include/dmcroncpp.h:433-504 | the code accepts an entry as its numbers are written and sets exactly the bits of the values they denote, if and only if an entry in order has a step that neither wraps around nor, cut to 8 bits, comes too short, and an entry out of order is so modulo 256 as well |
| CronFields.SmallNumbers | include/dmcroncpp.h:355-365 | with all numbers below 256 this is so if and only if the entry is out of order or first - minimum + step is below 256 |
| CronFields.ThreeHundred | include/dmcroncpp.h:355-365 | "300" is out of range for a minute, and is accepted as minute 44 |
| CronFields.FieldIsUnion | include/dmcroncpp.h:433-504 | a comma list of entries that are in order as written and have short steps is accepted, and sets exactly the bits of the values that one of them denotes |
| CronFields.SetCronField | include/dmcroncpp.h:433-504 | succeeds exactly on readable lists and adds exactly the bits some entry sets |
| CronNames.ReplaceOrdinals | include/dmcroncpp.h:367-382 | the loop replaces each name once, where it first occurs, by its number |
| CronNames.NamesAreNumbers | include/dmcroncpp.h:367-382 | in a text of names kept apart by other characters, ranges and lists of any length, each name becomes its number where it first occurs, and nothing else changes |
| CronNames.TwoNames | include/dmcroncpp.h:367-382 | two names with a character between them become their numbers, but the same name a second time stays |
| CronNames.MondayToFriday | include/dmcroncpp.h:367-382 | "MON-FRI" becomes "1-5" |
| CronNames.NameIsNumber | include/dmcroncpp.h:367-382 | a text that is just the name of a day or month becomes its number |
| CronFields.MondayTwiceRejected | include/dmcroncpp.h:367-382 | "MON,MON" becomes "1,MON", which cannot be read |
| CronFields.OpenDayIsFree | include/dmcroncpp.h:506-549 | a star or a question mark for a day leaves that day field unrestricted |
| CronFields.NoSpaceNoReading | include/dmcroncpp.h:932-943 | no text without a space can be read |
| CronFields.MakeCron | include/dmcroncpp.h:922-962 | succeeds exactly on six readable fields, names of days and months included, and then every field of the result allows exactly what its text says and allows something; CronTexts.ExpressionMeans says by arithmetic what that is |
| CronFields.SecondsToNext | src/dmtimernode.cpp:82-84 | throws for every text that cannot be read and, away from the edge of time, for no other; a valid wait is positive, and leads to an instant the text allows if what it says is reliable, as with one day field open; where it misleads the wait is valid and wrong; it is valid if what the text says is unfailing; and if that is orderly it leads to the next instant exactly if the search is not hasty |
| CronTexts.EntryMeans | include/dmcroncpp.h:384-504 | an entry a, a-b, * or one of these with /s, with numbers below 100, is accepted if and only if a, b lie within the limits, a <= b and s > 0; it then sets exactly the bits of a, of a to b, or of every s-th value from the lower bound on, to the upper limit where no b is given |
| CronTexts.ListMeans | include/dmcroncpp.h:433-504 | a comma list of such entries is accepted if and only if all of them are, and allows exactly what one of them allows |
| CronTexts.TooMuch | include/dmcroncpp.h:402-463 | three numbers with minus signs or slashes between them, an empty entry, an empty field and a comma at the end are rejected |
| CronTexts.OddNumbers | include/dmcroncpp.h:355-365 | signs, blanks and trailing text as stoul takes them; what has no digits is rejected |
| CronTexts.FiveDigits | include/dmcroncpp.h:355-365 | digits count by their places |
| CronTexts.LargeNumbers | include/dmcroncpp.h:355-365 | 2^64 - 1 can be read and 2^64 cannot |
| CronTexts.SpaceDivides | include/dmcroncpp.h:932-943 | a space divides the fields of a text into those before and those after it, so that more spaces than one, or spaces at an end, do not matter |
| CronTexts.OneField | include/dmcroncpp.h:932-943 | what has no space in it is one field, or none if it is empty |
| CronTexts.SmallLetters | include/dmcroncpp.h:324-330 | of the letters a to z each is read as its capital, any other character as it is |
| CronTexts.DayNames | include/dmcroncpp.h:506-532 | the seven names of days are read as 0 to 6, also in small letters and in a range, and a question mark as a star |
| CronTexts.MonthNames | include/dmcroncpp.h:552-570 | the twelve names of months are read as 1 to 12 |
| CronTexts.NumbersStay | include/dmcroncpp.h:367-382 | a list of numbers is read as it stands, for days and months as well |
| CronTexts.ExpressionMeans | include/dmcroncpp.h:922-962 | six such lists, for which question marks and names may stand, can be read if and only if all their entries are within the limits of their field, and then say exactly the bit sets that the numbers give by arithmetic |
| CronTexts.SaysOne | include/dmcroncpp.h:922-962 | a text says one expression only |
| CronExamples.WorkdayText | test/dmtimercrontest/main.cpp:48 | "0/10 * * ? * MON-FRI" says every tenth second from Monday to Friday |
| CronSearch.NextSetBit | include/dmcroncpp.h:572-588 | the first bit set at or after the offset, or the invalid index if there is none |
| CronSearch.Tm.ToTime | include/dmcroncpp.h:254-257 | the fields become the normal date of their instant; the answer is that instant, or -1 if it cannot be expressed |
| CronSearch.Tm.AddToField | include/dmcroncpp.h:590-627 | adds to one field and normalises; fails exactly if mktime does |
| CronSearch.Tm.SetField | include/dmcroncpp.h:629-669 | sets one field and normalises; an assignment to tm_wday has no effect |
| CronSearch.Tm.ResetField | include/dmcroncpp.h:671-710 | puts one field to its least value and normalises |
| CronSearch.ResetAllFields | include/dmcroncpp.h:712-723 | rounds down exactly the marked fields of a normal date; fails only where time cannot be expressed |
| CronSearch.Lands | include/dmcroncpp.h:735-762 | a field that does not fit is left at a strictly later instant, at which, month aside, it fits, with the marked lower fields rounded down and the others kept |
| CronSearch.FindNextField | include/dmcroncpp.h:735-762 | leaves the date alone exactly if the field fits, else goes where Lands says; throws only at the edge of time |
| CronSearch.FittingDay | include/dmcroncpp.h:773-787 | if one day field is open a fitting day comes within a year, and within a week if only the day of the week is restricted |
| CronSearch.FindNextDay | include/dmcroncpp.h:764-790 | moves exactly if the current day does not fit, and then to the first fitting day or, if there is none, 366 days on; if one day field is open that limit is never reached and the day number tells whether it moved |
| CronSearch.AnyPair | include/dmcroncpp.h:773-787 | within two years any day of the month falls on any day of the week, so that no pair of day fields is never met |
| Leastness.SecondPasses | include/dmcroncpp.h:803-816 | a search for a second that carries passes over no instant that satisfies the expression, unless in the minute it ends in |
| Leastness.MinutePasses | include/dmcroncpp.h:818-841 | nor does a search for a minute |
| Leastness.HourPasses | include/dmcroncpp.h:843-866 | nor one for an hour |
| Leastness.DayPasses | include/dmcroncpp.h:868-890 | nor one for a day |
| Leastness.MonthPasses | include/dmcroncpp.h:892-916 | nor one for a month that does not slip |
| Leastness.TurnIsKept | include/dmcroncpp.h:834-890 | a nested search starts with nothing passed over, or, if the search is hasty, where it ends |
| Leastness.HastyPassesOver | include/dmcroncpp.h:803-816 | a hasty search ends after an instant that satisfies the expression, the first allowed second of the same minute |
| Leastness.NotHastyAfter | include/dmcroncpp.h:1019-1027 | a second after an instant that satisfies the expression no search is hasty |
| Leastness.GaplessIsNotHasty | include/dmcroncpp.h:803-816 | with a single allowed second, or several without a gap between them, no search is hasty |
| Leastness.OnlySeconds | include/dmcroncpp.h:803-816 | with an expression that restricts nothing but the seconds no search is hasty, so that its answer is the next instant whose second is allowed |
| Leastness.SlipsInSomeYear | include/dmcroncpp.h:892-916 | what holds of the months of 2000 and 2001 holds of those of all years |
| Reliability.TakenSatisfies | include/dmcroncpp.h:868-890 | an answer found by a day search that find_next did not notice satisfies the expression if and only if its day fits and second, minute and hour 0 are allowed |
| Reliability.ReliableForEver | include/dmcroncpp.h:868-890 | what holds of the days of 400 years holds of all: a day mistaken for the unfit day before it is harmless if the expression is reliable |
| Reliability.FreeIsReliable | include/dmcroncpp.h:773-787 | with one day field open an expression is reliable |
| Reliability.DayTurnWithin | include/dmcroncpp.h:868-890 | if one day field is open a search for a day does not push the search for a month to a later year |
| Reliability.MonthTurnWithin | include/dmcroncpp.h:892-916 | nor does a search for a month, even where a day that the month does not have leads into the month after it, if an allowed date comes every year |
| Reliability.OnlyLeapDays | include/dmcroncpp.h:892-916 | if none does, an instant that satisfies the expression lies on a 29 February |
| NextInstant.NearerToFit | include/dmcroncpp.h:771-787 | a day search that gives up is 366 days nearer to the first fitting day |
| NextInstant.LessUnsettled | include/dmcroncpp.h:834-890 | a nested search has a smaller measure, and no larger bound on its years, as soon as it starts later and settles a field |
| NextInstant.LessLeft | include/dmcroncpp.h:903-915 | a nested search within the year limit has less time left |
| NextInstant.MinuteStage | include/dmcroncpp.h:818-841 | the minute fits, or a nested search is due that starts later and has less to do |
| NextInstant.HourStage | include/dmcroncpp.h:843-866 | likewise for the hour |
| NextInstant.DayStage | include/dmcroncpp.h:868-890 | likewise for the day, told by its number |
| NextInstant.MonthStage | include/dmcroncpp.h:892-916 | likewise for the month, unless the year limit is passed |
| NextInstant.FindNext | include/dmcroncpp.h:792-919 | terminates for every expression, by the year limit of four alone; only moves forwards; a true answer satisfies all six field sets if the expression is reliable; the answer is true if all months are allowed, or if a day field is open and an allowed date comes every year; when second, minute and hour fit and the day is, or is taken for, unmoved in a fitting month, the answer is exactly that instant; throws only before 1970 or past the last year; in an orderly expression it passes over no instant that satisfies it unless it is hasty, and gives up only beyond the fourth year on |
| NextInstant.FirstAnswer | include/dmcroncpp.h:1007-1017 | for an orderly expression the first search gives the next instant if and only if it is not hasty |
| NextInstant.SecondAnswer | include/dmcroncpp.h:1019-1027 | from an instant that satisfies it, the search that starts a second later gives the next one |
| NextInstant.PassedOver | include/dmcroncpp.h:903-915 | where nothing but the month does not fit, what lies before the first of the month that the search leads to is not found |
| MonthSlips.NothingPassedOver | include/dmcroncpp.h:892-916 | if an expression never slips, nothing is passed over in this way |
| MonthSlips.SlipsPast | include/dmcroncpp.h:892-916 | an instant of the next allowed month is passed over if that month lacks the day at which the search starts |
| MonthSlips.SlipsExactly | include/dmcroncpp.h:892-916 | with an open day field a search for a month passes an instant over, asked at some instant away from the edge of time, if and only if the expression can slip |
| NextInstant.ReliableIsExact | include/dmcroncpp.h:989-1030 | an expression is reliable if and only if there is no instant, away from the edge of time, at which it misleads |
| NextInstant.InstantBack | include/dmcroncpp.h:254-267 | localtime of an instant followed by mktime is the identity, both ways |
| NextInstant.CronNext | include/dmcroncpp.h:989-1030 | a valid answer is strictly later than its argument, for every expression; it satisfies the expression if that is reliable, and is valid and wrong wherever the expression misleads; away from the edge of time it does not throw, is exact where a day is taken for unmoved, asked at t or, if t itself satisfies the expression, at t + 1, and is valid if the expression is unfailing; if the expression is orderly the answer is the least later instant that satisfies it, and an invalid one means that there is none to the end of the fourth year on, if and only if the search from t is not hasty; where a month is passed over it is not |
| NextInstant.NoAnswer | include/dmcroncpp.h:989-1030 | with a day field open and no allowed date that comes every year there is an instant without an answer |
| CronExamples.TimeLost | include/dmcroncpp.h:776-787 | an expression and a date for which the day found has the number of the day left, while the time of day is lost |
| CronExamples.DayLost | include/dmcroncpp.h:771-787 | an expression and a date for which the search gives up on the day number at which it began, a year later, and the day does not fit |
| CronExamples.WrongAnswers | include/dmcroncpp.h:989-1030 | make_cron and cron_next answer both texts with instants that do not satisfy what they say |
| CronExamples.LateOnMonday | include/dmcroncpp.h:803-816 | asked on a Saturday at five seconds past noon, "0/10 * * ? * MON-FRI" is answered ten seconds late |
| CronExamples.FebruaryPassed | include/dmcroncpp.h:892-916 | asked on 31 January, "0 0 0 ? 2 *" is answered by no instant of the February that follows |

## Left out

- The order among timers with the same due tick: a cascade can put an earlier timer behind a later one, and nothing depends on it.
- Payloads: `dm::any`, `std::function`, sink type names and the debug fields set around a callback are not modelled, so `SetTimerLambda` is `SetTimer`, and the overloads with fewer arguments are calls of the longest one.
- `GetTimerElapse`, `GetTimerRemain`, `GetTimerElement`, `GetCurTime`: plain look-ups that change nothing.
- The copy constructor and assignment of a node: they are the calls NewNode or KillTimers followed by CopyFrom.
- Re-entering `Run` from a callback, threads, and singletons.
- The operating system's clock and `time(0)`: their readings are parameters (`now`, `cur`).
- A node that is used after its destructor, and pointers left in node maps after `UnInit`.
- The poison values `list_del` leaves in the entry, which `RemoveTimerElement` overwrites at once; `hlist`, iteration macros, and the list operations that only combine others.
- List heads share the class of the elements that carry the links; of the casts between cell, element and entry only the identity remains.
- The two header fields of a pool cell that change (`dwUse`, `dwFlag`) are kept in sequences beside the cells; the assertions and aborts of the pool are proved unreachable rather than modelled, except `assert( 0 )` at include/dmrapidpool.h:163, which is reached exactly when all cells are in use and where the model returns null, and the one in the destructor, about which see `UnInit`.
- The wheel half of `CDMTimerModule` (`TimerWheel.WheelState`, `TimerLists.Lists`) is an object of its own, held by `TimerModule`.
- Overflow of the `int` that `Run` returns, after 2^31 callbacks in one call.
- Exceptions of the cron engine are answers (`ok`, `Err`); a throw leaves no bits or date anyone sees. A caller of `SetTimerCron` is taken to catch it: one that escapes from a callback ends `Run` in the middle of a tick, which is not modelled; nor is a throw of `Run` itself, which reads again only texts it has read before and so could throw at the edge of time alone.
- `std::toupper` beyond ASCII, `cron_oracle_traits`, `cron_quartz_traits`, printing and comparing expressions, time zones and daylight saving.
- The overload of `cron_next` on `std::tm`, which has the same body as the one on `time_t`.
- NextInstant.CronNext: whether the answer is the next instant is not decided for expressions that are not reliable, nor, with both day fields restricted, for those that do not allow all months, nor, for one that slips, at instants from which the search comes to a month only after other fields have moved; nor is it said for which of the latter there is always an answer.
