/** The booking workflow (schedule_cliente): validate the client ID, find or add the
    client, refuse a repeated (ID, date, time) booking, append the appointment. */
module Booking {
  import opened Wrappers
  import opened Records

  /** The answers the operator gives to the workflow's dialogs, in the order asked:
      ID, then name, phone and note (asked only for a new client), then the service. */
  datatype Answers = Answers(
    dni: Option<string>,
    name: Option<string>,
    phone: Option<string>,
    note: Option<string>,
    service: Option<string>)

  /** How a booking attempt ends: the "DNI inválido" warning, the "Duplicado" warning,
      or the success notice. */
  datatype Outcome = InvalidDni | Duplicate | Booked

  /** The contents of the two tables. */
  datatype Tables = Tables(clients: seq<Client>, appts: seq<Appt>)

  predicate IsDigit(c: char)
  {
    '0' <= c <= '9'
  }

  /** Python's `s.isdigit()` over ASCII: non-empty and digits only. */
  predicate AllDigits(s: string)
  {
    |s| > 0 && forall i | 0 <= i < |s| :: IsDigit(s[i])
  }

  /** The ID check: a cancelled or empty answer, or one with a non-digit, is refused. */
  function DniAccepted(answer: Option<string>): (ok: bool)
    ensures ok <==> (answer.Some? && |answer.value| > 0 &&
                     forall i | 0 <= i < |answer.value| :: '0' <= answer.value[i] <= '9')
    ensures answer == None || answer == Some("") ==> !ok
  {
    match answer
    case None => false
    case Some(s) => AllDigits(s)
  }

  /** The first client row with the given ID, by index. */
  function FindClient(clients: seq<Client>, dni: string): (r: Option<nat>)
    ensures r.None? <==> forall i | 0 <= i < |clients| :: clients[i].dni != dni
    ensures r.Some? ==> r.value < |clients| && clients[r.value].dni == dni
    ensures r.Some? ==> forall i | 0 <= i < r.value :: clients[i].dni != dni
  {
    if clients == [] then None
    else if clients[0].dni == dni then Some(0)
    else match FindClient(clients[1..], dni)
      case None => None
      case Some(j) => Some(j + 1)
  }

  /** Whether the client already holds an appointment at that date and time. */
  function HasBooking(appts: seq<Appt>, dni: string, date: Date, time: string): (b: bool)
    ensures b <==> exists i | 0 <= i < |appts| ::
      appts[i].dni == dni && appts[i].date == date && appts[i].time == time
  {
    if appts == [] then false
    else
      var a := appts[|appts| - 1];
      (a.dni == dni && a.date == date && a.time == time) ||
      HasBooking(appts[..|appts| - 1], dni, date, time)
  }

  /** The whole workflow on the two tables, for a slot `time` on day `date`. */
  function Book(t: Tables, date: Date, time: string, a: Answers): (r: (Outcome, Tables))
    ensures r.0 == InvalidDni <==> !DniAccepted(a.dni)
    ensures t.clients <= r.1.clients && |r.1.clients| <= |t.clients| + 1
    ensures t.appts <= r.1.appts && |r.1.appts| == |t.appts| + (if r.0 == Booked then 1 else 0)
  {
    if !DniAccepted(a.dni) then (InvalidDni, t)
    else
      var dni := a.dni.value;
      var found := FindClient(t.clients, dni);
      var clients := if found.None? then t.clients + [Client(dni, a.name, a.phone, a.note)] else t.clients;
      var name := if found.None? then a.name else t.clients[found.value].name;
      if HasBooking(t.appts, dni, date, time) then (Duplicate, Tables(clients, t.appts))
      else (Booked, Tables(clients, t.appts + [Appt(dni, name, date, time, a.service)]))
  }

  predicate HasClient(clients: seq<Client>, dni: string)
  {
    exists j | 0 <= j < |clients| :: clients[j].dni == dni
  }

  /** What the two tables keep when only this workflow writes them: every stored ID is
      all digits, every appointment's ID has a client row, and no client holds two
      appointments at the same date and time. */
  predicate Consistent(t: Tables)
  {
    && (forall j | 0 <= j < |t.clients| :: AllDigits(t.clients[j].dni))
    && (forall i | 0 <= i < |t.appts| :: AllDigits(t.appts[i].dni))
    && (forall i | 0 <= i < |t.appts| :: HasClient(t.clients, t.appts[i].dni))
    && (forall i, j | 0 <= i < j < |t.appts| ::
          !(t.appts[i].dni == t.appts[j].dni && t.appts[i].date == t.appts[j].date &&
            t.appts[i].time == t.appts[j].time))
  }

  /** An ID that is missing, empty or not all digits ends the workflow with both tables unchanged. */
  lemma BookRejectsInvalidDni(t: Tables, date: Date, time: string, a: Answers)
    ensures Book(t, date, time, a).0 == InvalidDni <==> !DniAccepted(a.dni)
    ensures !DniAccepted(a.dni) ==> Book(t, date, time, a).1 == t
  {
  }

  /** With an accepted ID: an unknown ID gets exactly one new client row at the end of the
      client table, built from the answers; a known ID leaves the client table unchanged. */
  lemma BookClientTable(t: Tables, date: Date, time: string, a: Answers)
    requires DniAccepted(a.dni)
    ensures var t' := Book(t, date, time, a).1;
      if HasClient(t.clients, a.dni.value)
      then t'.clients == t.clients
      else t'.clients == t.clients + [Client(a.dni.value, a.name, a.phone, a.note)]
  {
  }

  /** The attempt is refused as a duplicate exactly when that client already holds an
      appointment at that date and time; an appointment of another client at the same slot
      does not stop it. A refused attempt leaves the appointment table unchanged. */
  lemma BookDuplicateIff(t: Tables, date: Date, time: string, a: Answers)
    ensures Book(t, date, time, a).0 == Duplicate <==>
      DniAccepted(a.dni) &&
      exists i | 0 <= i < |t.appts| ::
        t.appts[i].dni == a.dni.value && t.appts[i].date == date && t.appts[i].time == time
    ensures Book(t, date, time, a).0 != Booked ==> Book(t, date, time, a).1.appts == t.appts
  {
  }

  /** A successful booking appends one row at the end of the appointment table, leaves the
      earlier rows as they were, and copies the name from the first client row with that ID
      (or from the answer, for a new client). */
  lemma BookAppends(t: Tables, date: Date, time: string, a: Answers)
    requires Book(t, date, time, a).0 == Booked
    ensures DniAccepted(a.dni)
    ensures var t' := Book(t, date, time, a).1;
      |t'.appts| == |t.appts| + 1 &&
      t'.appts[..|t.appts|] == t.appts &&
      var row := t'.appts[|t.appts|];
      row.dni == a.dni.value && row.date == date && row.time == time && row.service == a.service &&
      (!HasClient(t.clients, a.dni.value) ==> row.client == a.name) &&
      (HasClient(t.clients, a.dni.value) ==>
        exists j | 0 <= j < |t.clients| ::
          t.clients[j].dni == a.dni.value && row.client == t.clients[j].name &&
          forall i | 0 <= i < j :: t.clients[i].dni != a.dni.value)
  {
    var t' := Book(t, date, time, a).1;
    assert t'.appts[..|t.appts|] == t.appts;
    var found := FindClient(t.clients, a.dni.value);
    if found.Some? {
      var j := found.value;
      assert t.clients[j].dni == a.dni.value && t'.appts[|t.appts|].client == t.clients[j].name;
    }
  }

  /** The workflow keeps the tables consistent. */
  lemma BookPreservesConsistency(t: Tables, date: Date, time: string, a: Answers)
    ensures Consistent(t) ==> Consistent(Book(t, date, time, a).1)
  {
    if Consistent(t) && DniAccepted(a.dni) {
      var dni := a.dni.value;
      var t' := Book(t, date, time, a).1;
      assert HasClient(t'.clients, dni) by {
        var found := FindClient(t.clients, dni);
        if found.None? {
          assert t'.clients[|t.clients|].dni == dni;
        } else {
          assert t'.clients[found.value].dni == dni;
        }
      }
      forall i | 0 <= i < |t.appts|
        ensures HasClient(t'.clients, t.appts[i].dni)
      {
        var j :| 0 <= j < |t.clients| && t.clients[j].dni == t.appts[i].dni;
        assert t'.clients[j] == t.clients[j];
      }
      forall j | 0 <= j < |t'.clients|
        ensures AllDigits(t'.clients[j].dni)
      {
        if j < |t.clients| {
          assert t'.clients[j] == t.clients[j];
        }
      }
    }
  }

  /** In consistent tables an unknown ID has no appointments, so a new client is never
      refused as a duplicate. */
  lemma NewClientIsNeverDuplicate(t: Tables, date: Date, time: string, a: Answers)
    requires Consistent(t) && DniAccepted(a.dni) && !HasClient(t.clients, a.dni.value)
    ensures Book(t, date, time, a).0 == Booked
  {
    forall i | 0 <= i < |t.appts|
      ensures t.appts[i].dni != a.dni.value
    {
      assert HasClient(t.clients, t.appts[i].dni);
    }
  }

  /** When the stored tables are not consistent (an appointment whose ID has no client row),
      an unknown ID can be refused as a duplicate, and the client row added before the check
      stays. */
  lemma DuplicateKeepsNewClientRow(t: Tables, date: Date, time: string, a: Answers)
    requires DniAccepted(a.dni) && !HasClient(t.clients, a.dni.value)
    requires exists i | 0 <= i < |t.appts| ::
      t.appts[i].dni == a.dni.value && t.appts[i].date == date && t.appts[i].time == time
    ensures Book(t, date, time, a) ==
      (Duplicate, Tables(t.clients + [Client(a.dni.value, a.name, a.phone, a.note)], t.appts))
  {
  }

  /** Repeating a successful booking with the same ID, date and time is refused as a
      duplicate and changes neither table, whatever the other answers are. */
  lemma BookTwiceIsDuplicate(t: Tables, date: Date, time: string, a: Answers, a2: Answers)
    requires Book(t, date, time, a).0 == Booked
    requires a2.dni == a.dni
    ensures var t' := Book(t, date, time, a).1;
      Book(t', date, time, a2) == (Duplicate, t')
  {
    var t' := Book(t, date, time, a).1;
    var dni := a.dni.value;
    assert t'.appts[|t.appts|].dni == dni;
    assert HasBooking(t'.appts, dni, date, time);
    assert HasClient(t'.clients, dni) by {
      var found := FindClient(t.clients, dni);
      if found.None? {
        assert t'.clients[|t.clients|].dni == dni;
      } else {
        assert t'.clients[found.value].dni == dni;
      }
    }
  }

  /** A new client with ID 12345678 books 09:00 on day d in empty tables: one client row and
      one appointment row are added; the same request again is refused as a duplicate. */
  lemma FirstBookingThenRepeat(d: Date, name: Option<string>, phone: Option<string>)
    ensures var a := Answers(Some("12345678"), name, phone, None, Some("Corte"));
      var r := Book(Tables([], []), d, "09:00", a);
      && r == (Booked, Tables([Client("12345678", name, phone, None)],
                              [Appt("12345678", name, d, "09:00", Some("Corte"))]))
      && Book(r.1, d, "09:00", a) == (Duplicate, r.1)
  {
    var a := Answers(Some("12345678"), name, phone, None, Some("Corte"));
    assert DniAccepted(a.dni) by {
      assert forall i | 0 <= i < 8 :: IsDigit("12345678"[i]);
    }
    assert FindClient([], "12345678") == None;
    assert !HasBooking([], "12345678", d, "09:00");
    var c, x := Client("12345678", name, phone, None), Appt("12345678", name, d, "09:00", Some("Corte"));
    assert [] + [c] == [c] && [] + [x] == [x];
    assert Book(Tables([], []), d, "09:00", a) == (Booked, Tables([c], [x]));
    BookTwiceIsDuplicate(Tables([], []), d, "09:00", a, a);
  }

  /** The two stored tables, held in memory. */
  class Store {
    var clients: seq<Client>
    var appts: seq<Appt>

    /** Both tables start empty, with only their column headers. */
    constructor ()
      ensures clients == [] && appts == []
      ensures Consistent(Contents())
    {
      clients := [];
      appts := [];
    }

    function Contents(): Tables
      reads this
    {
      Tables(clients, appts)
    }

    /** Runs the booking workflow for slot `time` on day `date` with the operator's answers. */
    method Schedule(date: Date, time: string, a: Answers) returns (outcome: Outcome)
      modifies this
      ensures (outcome, Contents()) == Book(old(Contents()), date, time, a)
      ensures old(Consistent(Contents())) ==> Consistent(Contents())
    {
      BookPreservesConsistency(Contents(), date, time, a);
      if a.dni.None? || a.dni.value == "" || !AllDigits(a.dni.value) {
        return InvalidDni;
      }
      var dni := a.dni.value;
      var found := FindClient(clients, dni);
      var name: Option<string>;
      if found.None? {
        clients := clients + [Client(dni, a.name, a.phone, a.note)];
        name := a.name;
      } else {
        name := clients[found.value].name;
      }
      if HasBooking(appts, dni, date, time) {
        return Duplicate;
      }
      appts := appts + [Appt(dni, name, date, time, a.service)];
      return Booked;
    }
  }
}
