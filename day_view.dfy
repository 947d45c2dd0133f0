/** The list of one day's slots with their state, and the choice of a slot from it
    (mostrar_turnos_por_dia and its seleccionar_hora). */
module DayView {
  import opened Wrappers
  import opened Records
  import opened Slots
  import Booking

  const Occupied := "OCUPADO"
  const Available := "DISPONIBLE"
  /** The separator between a slot's time and its state in a list entry. */
  const Sep := " - "

  /** Whether any appointment, of any client, is at that date and time. */
  function BookedAt(appts: seq<Appt>, date: Date, hora: string): (b: bool)
    ensures b <==> exists i | 0 <= i < |appts| :: appts[i].date == date && appts[i].time == hora
  {
    if appts == [] then false
    else
      var a := appts[|appts| - 1];
      (a.date == date && a.time == hora) || BookedAt(appts[..|appts| - 1], date, hora)
  }

  /** The state shown for a slot: OCUPADO iff an appointment of any client is there. */
  function Status(appts: seq<Appt>, date: Date, hora: string): (estado: string)
    ensures estado == Occupied || estado == Available
    ensures estado == Occupied <==>
      exists i | 0 <= i < |appts| :: appts[i].date == date && appts[i].time == hora
  {
    if BookedAt(appts, date, hora) then Occupied else Available
  }

  /** A list entry: `hora - estado`. */
  function Entry(hora: string, estado: string): (e: string)
    ensures |e| == |hora| + |Sep| + |estado|
    ensures e[..|hora|] == hora && e[|hora|..|hora| + |Sep|] == Sep && e[|hora| + |Sep|..] == estado
  {
    hora + Sep + estado
  }

  /** `labels` is the list shown for `date`: one entry per slot, in slot order. */
  predicate IsDayListing(labels: seq<string>, appts: seq<Appt>, date: Date)
  {
    |labels| == |GenerateSlots()| &&
    forall k | 0 <= k < |labels| ::
      labels[k] == Entry(GenerateSlots()[k], Status(appts, date, GenerateSlots()[k]))
  }

  /** Builds the entries for `horarios` one by one, in order, each with the state of its
      slot on `date`. */
  method ListEntries(appts: seq<Appt>, date: Date, horarios: seq<string>) returns (labels: seq<string>)
    ensures |labels| == |horarios|
    ensures forall k | 0 <= k < |horarios| :: labels[k] == Entry(horarios[k], Status(appts, date, horarios[k]))
  {
    labels := [];
    for k := 0 to |horarios|
      invariant |labels| == k
      invariant forall j | 0 <= j < k :: labels[j] == Entry(horarios[j], Status(appts, date, horarios[j]))
    {
      var hora := horarios[k];
      var estado := if BookedAt(appts, date, hora) then Occupied else Available;
      assert estado == Status(appts, date, hora);
      var e := Entry(hora, estado);
      ghost var prev := labels;
      labels := labels + [e];
      forall j | 0 <= j < k + 1
        ensures labels[j] == Entry(horarios[j], Status(appts, date, horarios[j]))
      {
        if j < k {
          assert labels[j] == prev[j];
        }
      }
    }
  }

  /** The list shown for `date`: the day's slot grid with each slot's state. */
  method ListSlots(appts: seq<Appt>, date: Date) returns (labels: seq<string>)
    ensures IsDayListing(labels, appts, date)
  {
    labels := ListEntries(appts, date, GenerateSlots());
  }

  /** Python's `sep.join(parts)`. */
  function Join(parts: seq<string>, sep: string): string
  {
    if |parts| == 0 then ""
    else if |parts| == 1 then parts[0]
    else parts[0] + sep + Join(parts[1..], sep)
  }

  /** Python's `s.split(sep)` with the part read so far in `cur`: cut at every leftmost,
      non-overlapping occurrence of `sep`. */
  function SplitFrom(s: string, sep: string, cur: string): (parts: seq<string>)
    requires |sep| > 0
    ensures |parts| >= 1
    ensures Join(parts, sep) == cur + s
    decreases |s|
  {
    if |s| < |sep| then [cur + s]
    else if s[..|sep|] == sep then
      var rest := SplitFrom(s[|sep|..], sep, "");
      assert Join([cur] + rest, sep) == cur + s by {
        assert ([cur] + rest)[1..] == rest;
        assert "" + s[|sep|..] == s[|sep|..];
        assert s == s[..|sep|] + s[|sep|..];
      }
      [cur] + rest
    else
      assert cur + [s[0]] + s[1..] == cur + s;
      SplitFrom(s[1..], sep, cur + [s[0]])
  }

  /** Python's `s.split(sep)`: joining the parts back with `sep` gives `s`. */
  function Split(s: string, sep: string): (parts: seq<string>)
    requires |sep| > 0
    ensures |parts| >= 1 && Join(parts, sep) == s
  {
    assert "" + s == s;
    SplitFrom(s, sep, "")
  }

  predicate NoSpace(s: string)
  {
    forall i | 0 <= i < |s| :: s[i] != ' '
  }

  lemma {:induction false} SplitWithoutSep(b: string, cur: string)
    requires NoSpace(b)
    ensures SplitFrom(b, Sep, cur) == [cur + b]
    decreases |b|
  {
    if |b| >= |Sep| {
      assert b[..|Sep|][0] == b[0] != Sep[0];
      assert NoSpace(b[1..]);
      SplitWithoutSep(b[1..], cur + [b[0]]);
      assert cur + [b[0]] + b[1..] == cur + b;
    }
  }

  lemma {:induction false} SplitEntryFrom(a: string, b: string, cur: string)
    requires NoSpace(a) && NoSpace(b)
    ensures SplitFrom(a + Sep + b, Sep, cur) == [cur + a, b]
    decreases |a|
  {
    var s := a + Sep + b;
    if |a| == 0 {
      assert s == Sep + b;
      assert s[..|Sep|] == Sep && s[|Sep|..] == b;
      SplitWithoutSep(b, "");
      assert "" + b == b && cur + a == cur;
    } else {
      assert s[..|Sep|][0] == a[0] != Sep[0];
      assert s[1..] == a[1..] + Sep + b;
      assert NoSpace(a[1..]);
      SplitEntryFrom(a[1..], b, cur + [a[0]]);
      assert cur + [a[0]] + a[1..] == cur + a;
    }
  }

  /** Splitting an entry on the separator gives back the time and the state it was built
      from, when neither contains a space. */
  lemma SplitEntry(hora: string, estado: string)
    requires NoSpace(hora) && NoSpace(estado)
    ensures Split(Entry(hora, estado), Sep) == [hora, estado]
  {
    SplitEntryFrom(hora, estado, "");
    assert "" + hora == hora;
  }

  /** What choosing an entry leads to: the "Seleccioná un horario" warning, an entry
      that does not split into two parts (Python raises ValueError), the "Ocupado" warning,
      or the booking workflow for the entry's time. */
  datatype Selection = NoSelection | Unreadable | Taken | Free(hora: string)

  /** The choice of entry `sel` (None when nothing is selected) in the listing. */
  function Select(labels: seq<string>, sel: Option<nat>): (r: Selection)
    requires sel.Some? ==> sel.value < |labels|
    ensures r == NoSelection <==> sel.None?
    ensures r.Taken? ==> exists hora :: labels[sel.value] == Entry(hora, Occupied)
    ensures r.Free? ==> exists estado :: labels[sel.value] == Entry(r.hora, estado) && estado != Occupied
  {
    match sel
    case None => NoSelection
    case Some(k) =>
      var parts := Split(labels[k], Sep);
      if |parts| != 2 then Unreadable
      else
        assert labels[k] == Entry(parts[0], parts[1]) by {
          assert parts[1..] == [parts[1]];
          assert Join(parts[1..], Sep) == parts[1];
          assert Join(parts, Sep) == parts[0] + Sep + parts[1];
        }
        if parts[1] == Occupied then Taken
        else Free(parts[0])
  }

  /** In the list shown for a day, choosing the entry of slot k is refused exactly when some
      appointment, of any client, is at that date and slot; otherwise it books exactly that
      slot. */
  lemma SelectMatchesOccupancy(labels: seq<string>, appts: seq<Appt>, date: Date, k: nat)
    requires IsDayListing(labels, appts, date) && k < |labels|
    ensures Select(labels, Some(k)) ==
      if exists i | 0 <= i < |appts| :: appts[i].date == date && appts[i].time == GenerateSlots()[k]
      then Taken
      else Free(GenerateSlots()[k])
  {
    var hora := GenerateSlots()[k];
    SlotHasNoSpace(k);
    SplitEntry(hora, Status(appts, date, hora));
  }

  /** Choosing an entry from the listing: a refused choice changes nothing; a free slot
      runs the booking workflow for that slot. */
  method SelectSlot(store: Booking.Store, date: Date, labels: seq<string>, sel: Option<nat>,
                    answers: Booking.Answers)
    returns (choice: Selection, outcome: Option<Booking.Outcome>)
    requires sel.Some? ==> sel.value < |labels|
    modifies store
    ensures choice == Select(labels, sel)
    ensures choice.Free? ==>
      && outcome.Some?
      && (outcome.value, store.Contents()) == Booking.Book(old(store.Contents()), date, choice.hora, answers)
    ensures !choice.Free? ==> outcome == None && store.Contents() == old(store.Contents())
  {
    if sel.None? {
      return NoSelection, None;
    }
    var texto := labels[sel.value];
    var parts := Split(texto, Sep);
    if |parts| != 2 {
      return Unreadable, None;
    }
    var hora, estado := parts[0], parts[1];
    if estado == Occupied {
      return Taken, None;
    }
    var o := store.Schedule(date, hora, answers);
    return Free(hora), Some(o);
  }

  /** After a successful booking its slot shows as occupied on that day. */
  lemma BookedSlotIsOccupied(t: Booking.Tables, date: Date, time: string, a: Booking.Answers)
    requires Booking.Book(t, date, time, a).0 == Booking.Booked
    ensures BookedAt(Booking.Book(t, date, time, a).1.appts, date, time)
  {
    Booking.BookAppends(t, date, time, a);
    assert Booking.Book(t, date, time, a).1.appts[|t.appts|].date == date;
  }
}
