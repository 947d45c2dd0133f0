/** The fixed grid of half-hour slots offered every day (generar_horarios). */
module Slots {

  /** The first bookable hour and the hour the last slot ends in. */
  const FirstHour: nat := 9
  const EndHour: nat := 18

  function Digit(n: nat): (c: char)
    requires n < 10
    ensures '0' <= c <= '9'
  {
    (48 + n) as char
  }

  /** `n` written with at least two digits, as Python's `{n:02d}` does for n < 100. */
  function Pad2(n: nat): (s: string)
    requires n < 100
    ensures |s| == 2 && '0' <= s[0] <= '9' && '0' <= s[1] <= '9'
    ensures (s[0] as int - '0' as int) * 10 + (s[1] as int - '0' as int) == n
  {
    [Digit(n / 10), Digit(n % 10)]
  }

  /** The text `HH:MM` of a slot. */
  function SlotLabel(h: nat, m: nat): (s: string)
    requires h < 100 && m < 100
    ensures |s| == 5 && s[2] == ':'
  {
    Pad2(h) + ":" + Pad2(m)
  }

  /** The (hour, minute) pairs of hours h, h+1, ..., 17, two per hour, in the order of the
      nested comprehension `for h in range(h, 18) for m in (0, 30)`. */
  function HourTimes(h: nat): (r: seq<(nat, nat)>)
    requires FirstHour <= h <= EndHour
    ensures |r| == 2 * (EndHour - h)
    ensures forall k | 0 <= k < |r| :: h <= r[k].0 < EndHour && r[k].1 < 60
    decreases EndHour - h
  {
    if h == EndHour then [] else [(h, 0), (h, 30)] + HourTimes(h + 1)
  }

  /** The day's slots, 09:00 to 17:30: each pair of the comprehension written as `HH:MM`. */
  function GenerateSlots(): (r: seq<string>)
    ensures |r| == 18
  {
    var times := HourTimes(FirstHour);
    seq(|times|, k requires 0 <= k < |times| => SlotLabel(times[k].0, times[k].1))
  }

  /** Pair 2q + r from hour h on is hour h + q, minute 30r. */
  lemma {:induction false} HourTimesAt(h: nat, q: nat, r: nat)
    requires FirstHour <= h <= EndHour && r < 2 && 2 * q + r < 2 * (EndHour - h)
    ensures HourTimes(h)[2 * q + r] == (h + q, 30 * r)
    decreases q
  {
    if q > 0 {
      var rest := HourTimes(h + 1);
      assert HourTimes(h)[2 * q + r] == rest[2 * (q - 1) + r];
      HourTimesAt(h + 1, q - 1, r);
    }
  }

  /** The parts of a slot text: hour digits, colon, minute digits. */
  lemma LabelParts(h: nat, m: nat)
    requires h < 100 && m < 100
    ensures var s := SlotLabel(h, m);
      s[..2] == Pad2(h) && s[2] == ':' && s[3..] == Pad2(m) &&
      forall i | 0 <= i < |s| :: s[i] == ':' || '0' <= s[i] <= '9'
  {
    var s := SlotLabel(h, m);
    assert s == Pad2(h) + [':'] + Pad2(m);
  }

  /** Slot 2q + r is hour 9 + q, on the hour for r = 0 and at half past for r = 1. */
  lemma SlotAt(q: nat, r: nat)
    requires q < EndHour - FirstHour && r < 2
    ensures 2 * q + r < |GenerateSlots()|
    ensures GenerateSlots()[2 * q + r] == SlotLabel(FirstHour + q, 30 * r)
  {
    HourTimesAt(FirstHour, q, r);
  }

  /** Every slot reads `HH:00` or `HH:30`, HH being its hour (09 to 17) in two digits. */
  lemma SlotShape(q: nat, r: nat)
    requires q < EndHour - FirstHour && r < 2
    ensures var s := GenerateSlots()[2 * q + r];
      |s| == 5 && s[2] == ':' && s[..2] == Pad2(FirstHour + q) &&
      s[3..] == (if r == 0 then "00" else "30")
  {
    SlotAt(q, r);
    LabelParts(FirstHour + q, 30 * r);
    MinuteDigits(r);
  }

  lemma MinuteDigits(r: nat)
    requires r < 2
    ensures Pad2(30 * r) == if r == 0 then "00" else "30"
  {
    if r == 0 {
      assert Pad2(0) == "00";
    } else {
      assert Pad2(30) == "30";
    }
  }

  /** The grid starts at 09:00 and ends at 17:30. */
  lemma SlotsEnds()
    ensures GenerateSlots()[0] == "09:00"
    ensures GenerateSlots()[|GenerateSlots()| - 1] == "17:30"
  {
    SlotAt(0, 0);
    SlotAt(8, 1);
    assert Pad2(9) == "09" && Pad2(0) == "00" && Pad2(17) == "17" && Pad2(30) == "30";
  }

  /** Python's ordering of strings: by code point, a proper prefix first. */
  predicate LexLess(a: string, b: string)
  {
    if |a| == 0 then |b| > 0
    else if |b| == 0 then false
    else if a[0] != b[0] then a[0] < b[0]
    else LexLess(a[1..], b[1..])
  }

  lemma {:induction false} LexLessIrreflexive(a: string)
    ensures !LexLess(a, a)
  {
    if |a| > 0 {
      LexLessIrreflexive(a[1..]);
    }
  }

  /** Comparing two strings that start with prefixes of equal length: the prefixes
      decide unless they are equal. */
  lemma {:induction false} LexLessAppend(x: string, y: string, x': string, y': string)
    requires |x| == |x'|
    ensures LexLess(x + y, x' + y') == if x == x' then LexLess(y, y') else LexLess(x, x')
  {
    if |x| == 0 {
      assert x + y == y && x' + y' == y';
    } else {
      assert (x + y)[0] == x[0] && (x' + y')[0] == x'[0];
      if x[0] == x'[0] {
        assert (x + y)[1..] == x[1..] + y && (x' + y')[1..] == x'[1..] + y';
        LexLessAppend(x[1..], y, x'[1..], y');
        assert x == x' <==> x[1..] == x'[1..] by {
          if x[1..] == x'[1..] {
            assert x == [x[0]] + x[1..] && x' == [x'[0]] + x'[1..];
          }
        }
      }
    }
  }

  lemma Pad2Less(a: nat, b: nat)
    requires a < b < 100
    ensures LexLess(Pad2(a), Pad2(b)) && Pad2(a) != Pad2(b)
  {
    var p, q := Pad2(a), Pad2(b);
    if a / 10 == b / 10 {
      assert a % 10 < b % 10;
      assert p[1] < q[1];
      assert p[1..] == [p[1]] && q[1..] == [q[1]];
    } else {
      assert a / 10 < b / 10;
      assert p[0] < q[0];
    }
  }

  /** Slot texts are ordered as the (hour, minute) pairs they show. */
  lemma SlotLabelLess(h1: nat, m1: nat, h2: nat, m2: nat)
    requires h1 < 100 && m1 < 100 && h2 < 100 && m2 < 100
    requires h1 < h2 || (h1 == h2 && m1 < m2)
    ensures LexLess(SlotLabel(h1, m1), SlotLabel(h2, m2))
  {
    assert SlotLabel(h1, m1) == Pad2(h1) + (":" + Pad2(m1));
    assert SlotLabel(h2, m2) == Pad2(h2) + (":" + Pad2(m2));
    LexLessAppend(Pad2(h1), ":" + Pad2(m1), Pad2(h2), ":" + Pad2(m2));
    if h1 < h2 {
      Pad2Less(h1, h2);
    } else {
      LexLessAppend(":", Pad2(m1), ":", Pad2(m2));
      Pad2Less(m1, m2);
    }
  }

  lemma SlotPairLess(qi: nat, ri: nat, qj: nat, rj: nat)
    requires qi < EndHour - FirstHour && ri < 2 && qj < EndHour - FirstHour && rj < 2
    requires qi < qj || (qi == qj && ri < rj)
    ensures LexLess(GenerateSlots()[2 * qi + ri], GenerateSlots()[2 * qj + rj])
  {
    SlotAt(qi, ri);
    SlotAt(qj, rj);
    SlotLabelLess(FirstHour + qi, 30 * ri, FirstHour + qj, 30 * rj);
  }

  /** The grid is strictly increasing in Python's string order, hence free of repeats. */
  lemma SlotsStrictlyIncreasing()
    ensures forall i, j | 0 <= i < j < |GenerateSlots()| :: LexLess(GenerateSlots()[i], GenerateSlots()[j])
    ensures forall i, j | 0 <= i < j < |GenerateSlots()| :: GenerateSlots()[i] != GenerateSlots()[j]
  {
    var s := GenerateSlots();
    forall i, j | 0 <= i < j < |s|
      ensures LexLess(s[i], s[j]) && s[i] != s[j]
    {
      var qi, ri, qj, rj := i / 2, i % 2, j / 2, j % 2;
      assert i == 2 * qi + ri && j == 2 * qj + rj;
      assert qi < qj || (qi == qj && ri < rj);
      SlotPairLess(qi, ri, qj, rj);
      LexLessIrreflexive(s[i]);
    }
  }

  /** No slot text contains a space: its characters are digits and one colon. */
  lemma SlotHasNoSpace(k: nat)
    requires k < 18
    ensures forall i | 0 <= i < |GenerateSlots()[k]| :: GenerateSlots()[k][i] != ' '
  {
    var q, r := k / 2, k % 2;
    assert k == 2 * q + r;
    SlotAt(q, r);
    LabelParts(FirstHour + q, 30 * r);
  }
}
