# Salon appointment book — a Dafny model

The salon program (MIMO COL Beauty) keeps two tables: clients (DNI, name, phone, note)
and appointments (DNI, client name, date, time, service). An operator picks a day on a
calendar coloured by how full each day is, sees the day's half-hour slots marked
OCUPADO or DISPONIBLE, picks a free slot, and answers a few dialogs to book it.

This project models the logic under the windows and the spreadsheet files:

- `Slots` — the fixed daily grid of 18 half-hour slots, 09:00 to 17:30 (`generar_horarios`).
- `Calendar` — the colour of each of the next 30 days. A day is orange when it has at
  least as many appointment rows as there are slots, and green otherwise (`obtener_colores_dias`).
  It also holds the check on the chosen date (`on_select`).
- `Booking` — the booking workflow (`schedule_cliente`). It has three parts:
  - `Book`, a function on the two tables that states the workflow;
  - `Store`, a class whose two `seq` fields are the tables, and whose `Schedule` method runs
    the workflow step by step with its early returns;
  - a `Consistent` invariant that the workflow keeps. Stored IDs are digits only, every
    appointment's ID has a client row, and no client holds two appointments at the same
    date and time.
- `DayView` — the loop that builds one entry `HH:MM - ESTADO` per slot, with Python's
  `str.split` semantics for reading an entry back. It also holds the choice of an entry
  (`seleccionar_hora`), which refuses an occupied slot and otherwise runs the workflow.

Dates are day numbers (`int`), and "today" is a parameter. Every dialog answer is an
`Option<string>`: `None` is a cancelled dialog. The tables are sequences of records in memory.

Two behaviours of the program are proved as lemmas rather than hidden:
- Duplicates are keyed on (DNI, date, time). The workflow therefore accepts a second client
  at an occupied slot; only the day list stops that.
- The day colour counts rows, not occupied slots. `FullnessCountsRows` shows a day that is
  orange while all but one of its slots are free. `FullDayIsOrange` shows that a day whose
  slots are all occupied is always orange.

The date check accepts today through today+30 with both ends included, as the code does,
although only today through today+29 get a colour.

## Model

| member | source | states |
|---|---|---|
| Slots.Pad2 | DEMO.py:20 | `{n:02d}` for n < 100 is the two decimal digits of n: tens digit, then units digit |
| Slots.SlotLabel | DEMO.py:20 | a slot text is five characters with ':' in the middle |
| Slots.HourTimes | DEMO.py:20 | the comprehension's (hour, minute) pairs from hour h on number two per remaining hour, each with an hour in [h, 18) and a minute below 60 |
| Slots.GenerateSlots | DEMO.py:19-20 | the grid has exactly 18 slots |
| Slots.HourTimesAt | DEMO.py:20 | pair 2q + r of the comprehension from hour h is (h + q, 30r): hours outer, minutes 0 then 30 inner |
| Slots.LabelParts | DEMO.py:20 | a slot text is the two hour digits, ':', then the two minute digits, and holds only digits and ':' |
| Slots.SlotAt | DEMO.py:20 | slot 2q + r is the text of hour 9 + q and minute 30r |
| Slots.MinuteDigits | DEMO.py:20 | the minutes 0 and 30 are written "00" and "30" |
| Slots.SlotShape | DEMO.py:20 | slot 2q + r is five characters `HH:MM`, HH the two digits of hour 9 + q, and MM "00" for r = 0, "30" for r = 1 |
| Slots.SlotsEnds | DEMO.py:19-20 | the first slot is "09:00" and the last is "17:30" |
| Slots.SlotsStrictlyIncreasing | DEMO.py:19-20 | the grid is strictly increasing in Python's string order, so no slot repeats |
| Slots.Pad2Less | DEMO.py:20 | zero-padding to two digits keeps the order of numbers below 100 in string order |
| Slots.SlotLabelLess | DEMO.py:20 | the zero-padded `HH:MM` texts are ordered as their (hour, minute) pairs |
| Slots.SlotPairLess | DEMO.py:20 | a slot that comes earlier in the comprehension is smaller in string order |
| Slots.SlotHasNoSpace | DEMO.py:20 | no slot text contains a space |
| Calendar.CountOn | DEMO.py:30-31 | a day's row count is never more than the number of rows |
| Calendar.CountOnRows | DEMO.py:30-31 | the count equals the number of row indices whose date is that day |
| Calendar.DayColour | DEMO.py:30-31 | a day is orange iff its row count is at least 18 (the number of slots), else green; an orange day implies the table has at least 18 rows. Further properties: `NoAppointmentsIsGreen`, `FullDayIsOrange`, `FullnessCountsRows` |
| Calendar.DayColours | DEMO.py:23-32 | the map has exactly 30 keys, today through today+29, and each day is orange iff its row count is at least the number of slots, else green |
| Calendar.NoAppointmentsIsGreen | DEMO.py:27-31 | a day with no appointments has count 0 and is green, so every day is green when the table is empty |
| Calendar.FullDayIsOrange | DEMO.py:31 | a day whose 18 slots all show as occupied is orange |
| Calendar.FullnessCountsRows | DEMO.py:30-31 | 18 or more rows at one time make a day orange even though every other slot of it is free |
| Calendar.OnSelect | DEMO.py:135-141 | a date is accepted iff today <= date <= today+30, both ends included; an accepted date yields that day's slot list, and a rejected one yields nothing |
| Booking.DniAccepted | DEMO.py:39-40 | an ID answer is accepted iff the dialog was not cancelled, the text is not empty and every character is a digit; a cancelled or empty answer is refused |
| Booking.Book | DEMO.py:35-70 | the attempt is invalid iff the ID is refused; the client table only grows, by at most one row; the appointment table only grows, by exactly one row when booked and none otherwise. Further properties: `BookRejectsInvalidDni`, `BookClientTable`, `BookDuplicateIff`, `BookAppends`, `BookPreservesConsistency` |
| Booking.FindClient | DEMO.py:44-45 | gives the index of the first client row with that ID, or None exactly when no row has it |
| Booking.HasBooking | DEMO.py:58-63 | true iff some appointment has that ID, date and time |
| Booking.BookRejectsInvalidDni | DEMO.py:39-42 | the attempt ends as invalid exactly when the ID is missing, empty or not all digits, and then neither table changes |
| Booking.BookClientTable | DEMO.py:44-55 | with a valid ID, an unknown ID appends exactly one row (ID, name, phone, note) to the client table, and a known ID leaves it unchanged |
| Booking.BookDuplicateIff | DEMO.py:58-65 | the attempt is a duplicate iff the ID is valid and that client already has an appointment at that date and time; another client's appointment there does not count; a non-booked attempt leaves the appointment table unchanged |
| Booking.BookAppends | DEMO.py:44-70 | a success appends one row (ID, name, date, time, service) at the end and keeps the earlier rows; the name is the answer for a new client, or the first matching client row's name |
| Booking.BookPreservesConsistency | DEMO.py:35-70 | the workflow keeps: all stored IDs are digits, every appointment's ID has a client row, no client has two appointments at one date and time |
| Booking.NewClientIsNeverDuplicate | DEMO.py:44-65 | in consistent tables a new client's attempt is always booked |
| Booking.DuplicateKeepsNewClientRow | DEMO.py:49-65 | if the tables hold an appointment at that date and time for an ID with no client row, that ID's attempt there is a duplicate, and the client row added before the check is kept |
| Booking.BookTwiceIsDuplicate | DEMO.py:58-65 | repeating a successful booking with the same ID, date and time is a duplicate and changes neither table |
| Booking.FirstBookingThenRepeat | DEMO.py:35-71 | in empty tables, ID 12345678 booking 09:00 with service "Corte" adds one client row and one appointment row, and repeating it is refused |
| Booking.Store.constructor | DEMO.py:13-16 | both tables start empty, which is consistent |
| Booking.Store.Schedule | DEMO.py:35-71 | the outcome and the new tables are those of `Book` on the old tables, and consistency is kept |
| DayView.BookedAt | DEMO.py:87 | a slot is occupied iff some appointment of any client has that date and time |
| DayView.Status | DEMO.py:87 | the state is OCUPADO or DISPONIBLE, and OCUPADO iff some appointment of any client has that date and time |
| DayView.Entry | DEMO.py:88 | the entry `hora - estado` is the time, then " - ", then the state, with nothing else |
| DayView.ListEntries | DEMO.py:86-88 | one entry `hora - estado` per slot, in slot order, with estado OCUPADO iff the slot is occupied |
| DayView.ListSlots | DEMO.py:74-88 | the day's list has one entry per grid slot, in grid order, with that slot's state |
| DayView.SplitFrom | DEMO.py:96 | Python's `split` from a partly read part: at least one part, and joining the parts with the separator gives back the read part followed by the rest of the text; the exact parts are pinned only for the entries the program builds (`SplitEntry`) |
| DayView.Split | DEMO.py:96 | Python's `str.split(sep)`: at least one part, and joining the parts with the separator gives back the text. The exact parts are pinned only for the entries the program builds: `SplitEntry` gives [hora, estado] for them, and `SplitWithoutSep` covers a text without spaces |
| DayView.SplitWithoutSep | DEMO.py:96 | a text with no space, read on from a partly read part, stays in that one part: the split yields a single part |
| DayView.SplitEntry | DEMO.py:88-96 | splitting `hora - estado` on " - " gives back exactly [hora, estado] when neither part contains a space |
| DayView.Select | DEMO.py:90-99 | the choice is "nothing selected" iff no entry is selected; a refused (OCUPADO) choice is an entry of the form `hora - OCUPADO`; a free choice is an entry `hora - estado` with that very time and a state other than OCUPADO. The contract gives no condition for an unreadable entry; the result is pinned exactly only for entries of a listing the program builds, by `SelectMatchesOccupancy` |
| DayView.SelectMatchesOccupancy | DEMO.py:86-99 | choosing slot k in a day's list is refused iff some appointment is at that date and slot; otherwise the choice is exactly that slot |
| DayView.SelectSlot | DEMO.py:90-101 | no selection, an unreadable entry or an OCUPADO entry changes nothing; a free entry runs the workflow on its time |
| DayView.BookedSlotIsOccupied | DEMO.py:87 | after a successful booking its slot shows as occupied on that day |

## Left out

- Windows, list boxes, buttons, message boxes and text prompts (DEMO.py:78-84, 103, 110-127, 143-158):
  answers are parameters, and the warnings are the `Outcome` and `Selection` values.
- Reading and writing the spreadsheet files, and creating them at startup (DEMO.py:12-16, 36-37, 52, 70, 75, 107):
  the tables are sequences in memory. The workflow's two writes are the two field updates of `Store.Schedule`.
  The client row is written before the duplicate check, so a duplicate keeps it.
- Type changes when a table is read back: the library may turn the ID column into
  numbers, so the text comparisons at DEMO.py:44 and DEMO.py:59 might not match. The model
  compares IDs as text.
- The clock and date formatting (DEMO.py:26-29, 131, 137): dates are day numbers and today
  is a parameter. Text dates are keys of the colour map in the program; distinct days give
  distinct keys, so the map has 30 entries in both.
- The calendar widget: its 50-day navigation limit and per-date colour tags (DEMO.py:114-133).
- Booking.DniAccepted: treats only ASCII '0'-'9' as digits; Python's `isdigit` also accepts
  other Unicode digit characters.
- The list shown for a day is built when the view opens. The table may change before a slot
  is chosen, so `DayView.SelectSlot` takes the list as a parameter and does not assume it is current.
- The main window (DEMO.py:146-158) holds no logic.
