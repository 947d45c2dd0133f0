/** The calendar: the colour of each of the next 30 days (obtener_colores_dias) and the
    check on the chosen date before its slots are shown (on_select). */
module Calendar {
  import opened Wrappers
  import opened Records
  import opened Slots
  import DayView

  /** "orange": the day has at least as many appointments as slots; "green": otherwise. */
  datatype Colour = Orange | Green

  /** Number of days coloured, starting today. */
  const Horizon: nat := 30
  /** A chosen date may be at most this many days after today. */
  const SelectHorizon: nat := 30

  /** The number of appointment rows on day d. */
  function CountOn(appts: seq<Appt>, d: Date): (n: nat)
    ensures n <= |appts|
  {
    if appts == [] then 0
    else CountOn(appts[..|appts| - 1], d) + (if appts[|appts| - 1].date == d then 1 else 0)
  }

  /** The indices of the rows on day d. */
  ghost function RowsOn(appts: seq<Appt>, d: Date): set<nat>
  {
    set i: nat | i < |appts| && appts[i].date == d
  }

  /** The count is the number of rows whose date is d. */
  lemma {:induction false} CountOnRows(appts: seq<Appt>, d: Date)
    ensures CountOn(appts, d) == |RowsOn(appts, d)|
  {
    if appts != [] {
      var n := |appts| - 1;
      var p := appts[..n];
      CountOnRows(p, d);
      if appts[n].date == d {
        assert RowsOn(appts, d) == RowsOn(p, d) + {n};
        assert n !in RowsOn(p, d);
      } else {
        assert RowsOn(appts, d) == RowsOn(p, d);
      }
    } else {
      assert RowsOn(appts, d) == {};
    }
  }

  /** The colour of day d. */
  function DayColour(appts: seq<Appt>, d: Date): (c: Colour)
    ensures c == Orange <==> CountOn(appts, d) >= 18
    ensures c == Orange ==> |appts| >= 18
  {
    if CountOn(appts, d) >= |GenerateSlots()| then Orange else Green
  }

  /** Colours today and the 29 days after it, one day at a time. */
  method DayColours(appts: seq<Appt>, today: Date) returns (colours: map<Date, Colour>)
    ensures forall d :: d in colours <==> today <= d < today + Horizon
    ensures |colours| == Horizon
    ensures forall d | d in colours :: colours[d] == DayColour(appts, d)
  {
    colours := map[];
    var horarios := GenerateSlots();
    for i := 0 to Horizon
      invariant forall d :: d in colours <==> today <= d < today + i
      invariant |colours| == i
      invariant forall d | d in colours :: colours[d] == DayColour(appts, d)
    {
      var dia := today + i;
      var n := CountOn(appts, dia);
      ghost var prev := colours;
      colours := colours[dia := if n >= |horarios| then Orange else Green];
      forall d
        ensures d in colours <==> today <= d < today + (i + 1)
      {
        assert d in colours <==> d in prev || d == dia;
      }
    }
  }

  /** A day without appointments is green; in particular every day is green when the
      appointment table is empty. */
  lemma {:induction false} NoAppointmentsIsGreen(appts: seq<Appt>, d: Date)
    requires forall i | 0 <= i < |appts| :: appts[i].date != d
    ensures CountOn(appts, d) == 0 && DayColour(appts, d) == Green
  {
    if appts != [] {
      NoAppointmentsIsGreen(appts[..|appts| - 1], d);
    }
  }

  /** The distinct times of the rows on day d. */
  ghost function TimesOn(appts: seq<Appt>, d: Date): set<string>
  {
    if appts == [] then {}
    else
      var last := appts[|appts| - 1];
      TimesOn(appts[..|appts| - 1], d) + (if last.date == d then {last.time} else {})
  }

  lemma {:induction false} TimesOnContains(appts: seq<Appt>, d: Date, i: nat)
    requires i < |appts| && appts[i].date == d
    ensures appts[i].time in TimesOn(appts, d)
  {
    if i < |appts| - 1 {
      TimesOnContains(appts[..|appts| - 1], d, i);
    }
  }

  lemma {:induction false} CountCoversTimes(appts: seq<Appt>, d: Date)
    ensures CountOn(appts, d) >= |TimesOn(appts, d)|
  {
    if appts != [] {
      CountCoversTimes(appts[..|appts| - 1], d);
    }
  }

  /** The set of a sequence's elements. */
  ghost function Elems(s: seq<string>): set<string>
  {
    if s == [] then {} else Elems(s[..|s| - 1]) + {s[|s| - 1]}
  }

  lemma {:induction false} ElemsDistinct(s: seq<string>)
    requires forall i, j | 0 <= i < j < |s| :: s[i] != s[j]
    ensures |Elems(s)| == |s|
    ensures forall i | 0 <= i < |s| :: s[i] in Elems(s)
  {
    if s != [] {
      var p := s[..|s| - 1];
      ElemsDistinct(p);
      assert s[|s| - 1] !in Elems(p) by {
        if s[|s| - 1] in Elems(p) {
          ElemsMember(p, s[|s| - 1]);
          assert false;
        }
      }
      forall i | 0 <= i < |s|
        ensures s[i] in Elems(s)
      {
        if i < |s| - 1 {
          assert s[i] == p[i];
        }
      }
    }
  }

  lemma {:induction false} ElemsMember(s: seq<string>, x: string)
    requires x in Elems(s)
    ensures exists i | 0 <= i < |s| :: s[i] == x
  {
    if s[|s| - 1] != x {
      ElemsMember(s[..|s| - 1], x);
      var i :| 0 <= i < |s| - 1 && s[..|s| - 1][i] == x;
      assert s[i] == x;
    }
  }

  lemma SubsetCard(a: set<string>, b: set<string>)
    requires a <= b
    ensures |a| <= |b|
  {
    assert b == a + (b - a);
    assert a * (b - a) == {};
  }

  /** A day on which every slot shows as occupied is orange. */
  lemma FullDayIsOrange(appts: seq<Appt>, d: Date)
    requires forall k | 0 <= k < |GenerateSlots()| :: DayView.BookedAt(appts, d, GenerateSlots()[k])
    ensures DayColour(appts, d) == Orange
  {
    var slots := GenerateSlots();
    SlotsStrictlyIncreasing();
    ElemsDistinct(slots);
    forall x | x in Elems(slots)
      ensures x in TimesOn(appts, d)
    {
      ElemsMember(slots, x);
      var k :| 0 <= k < |slots| && slots[k] == x;
      assert DayView.BookedAt(appts, d, slots[k]);
      var i :| 0 <= i < |appts| && appts[i].date == d && appts[i].time == x;
      TimesOnContains(appts, d, i);
    }
    SubsetCard(Elems(slots), TimesOn(appts, d));
    CountCoversTimes(appts, d);
  }

  /** The colour counts rows, not occupied slots: enough rows at one time make a day orange
      while every other slot of it is still free (possible when different clients book the
      same slot). */
  lemma FullnessCountsRows(appts: seq<Appt>, d: Date, hora: string)
    requires |appts| >= |GenerateSlots()|
    requires forall i | 0 <= i < |appts| :: appts[i].date == d && appts[i].time == hora
    ensures DayColour(appts, d) == Orange
    ensures forall k | 0 <= k < |GenerateSlots()| ::
      GenerateSlots()[k] != hora ==> !DayView.BookedAt(appts, d, GenerateSlots()[k])
  {
    CountAllOn(appts, d);
  }

  lemma {:induction false} CountAllOn(appts: seq<Appt>, d: Date)
    requires forall i | 0 <= i < |appts| :: appts[i].date == d
    ensures CountOn(appts, d) == |appts|
  {
    if appts != [] {
      CountAllOn(appts[..|appts| - 1], d);
    }
  }

  /** The date check on the chosen day: outside today to today+30, both ends included,
      nothing is shown; inside, the day's slot list is. */
  method OnSelect(appts: seq<Appt>, today: Date, d: Date) returns (listing: Option<seq<string>>)
    ensures listing.Some? <==> today <= d <= today + SelectHorizon
    ensures listing.Some? ==> DayView.IsDayListing(listing.value, appts, d)
  {
    if d < today || d > today + SelectHorizon {
      return None;
    }
    var labels := DayView.ListSlots(appts, d);
    return Some(labels);
  }
}
