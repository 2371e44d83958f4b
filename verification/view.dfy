/** Listing the reservations: nothing to list is reported as such;
    otherwise the reservations are ordered by date, then time, and numbered
    from 1 in that order. A null date or time sorts after every real one
    (pandas' default placement of missing values, which the listing code
    relies on without stating it). */
module View {
  import opened Wrappers
  import opened Calendar
  import opened Text
  import opened Formats
  import opened Reservations

  /** Earlier date; a null date comes after every real date. */
  predicate DateBefore(a: Option<Date>, b: Option<Date>) {
    a.Some? && (b.None? || Before(a.value, b.value))
  }

  /** Same or earlier time; a null time comes after every real time. */
  predicate TimeNotAfter(a: Option<TimeOfDay>, b: Option<TimeOfDay>) {
    b.None? || (a.Some? && a.value <= b.value)
  }

  /** `a` may be listed before `b`: ordered by date, then by time. */
  predicate ListedNoLater(a: Reservation, b: Reservation) {
    DateBefore(a.date, b.date) || (a.date == b.date && TimeNotAfter(a.time, b.time))
  }

  lemma ListedNoLaterTotal(a: Reservation, b: Reservation)
    ensures ListedNoLater(a, b) || ListedNoLater(b, a)
  {
    if a.date.Some? && b.date.Some? {
      BeforeIsStrictTotalOrder(a.date.value, b.date.value, a.date.value);
    }
  }

  lemma ListedNoLaterTransitive(a: Reservation, b: Reservation, c: Reservation)
    requires ListedNoLater(a, b) && ListedNoLater(b, c)
    ensures ListedNoLater(a, c)
  {
    if a.date.Some? && b.date.Some? && c.date.Some? {
      BeforeIsStrictTotalOrder(a.date.value, b.date.value, c.date.value);
    }
  }

  predicate Sorted(s: seq<Reservation>) {
    forall i, j :: 0 <= i < j < |s| ==> ListedNoLater(s[i], s[j])
  }

  /** `y` may come before every element of `t`. */
  predicate NoLaterThanAll(y: Reservation, t: seq<Reservation>) {
    forall k :: 0 <= k < |t| ==> ListedNoLater(y, t[k])
  }

  lemma {:induction false} NoLaterThanPermutation(y: Reservation, t: seq<Reservation>,
                                                  x: Reservation, u: seq<Reservation>)
    requires NoLaterThanAll(y, t) && ListedNoLater(y, x)
    requires multiset(u) == multiset(t) + multiset{x}
    ensures NoLaterThanAll(y, u)
  {
    forall k | 0 <= k < |u|
      ensures ListedNoLater(y, u[k])
    {
      assert u[k] in multiset(u);
      if u[k] != x {
        assert u[k] in multiset(t);
        var m :| 0 <= m < |t| && t[m] == u[k];
      }
    }
  }

  /** Inserting into a sorted sequence, before the first element the new
      one may precede. */
  function Insert(x: Reservation, s: seq<Reservation>): (r: seq<Reservation>)
    requires Sorted(s)
    ensures Sorted(r)
    ensures multiset(r) == multiset(s) + multiset{x}
    decreases |s|
  {
    if |s| == 0 then [x]
    else if ListedNoLater(x, s[0]) then
      assert forall k :: 0 <= k < |s| ==> ListedNoLater(x, s[k]) by {
        forall k | 0 <= k < |s| ensures ListedNoLater(x, s[k]) {
          if k > 0 { ListedNoLaterTransitive(x, s[0], s[k]); }
        }
      }
      assert s == [s[0]] + s[1..];
      [x] + s
    else
      var rest := Insert(x, s[1..]);
      ListedNoLaterTotal(x, s[0]);
      NoLaterThanPermutation(s[0], s[1..], x, rest);
      assert s == [s[0]] + s[1..];
      [s[0]] + rest
  }

  /** Insertion sort by date, then time. */
  function Sort(s: seq<Reservation>): (r: seq<Reservation>)
    ensures Sorted(r)
    ensures multiset(r) == multiset(s)
    decreases |s|
  {
    if |s| == 0 then []
    else
      assert s == [s[0]] + s[1..];
      Insert(s[0], Sort(s[1..]))
  }

  /** One listed line: its 1-based position and the reservation. */
  datatype Entry = Entry(index: nat, reservation: Reservation)

  /** The outcome of viewing: nothing to list, or the numbered lines. */
  datatype Listing = NoReservations | Lines(entries: seq<Entry>)

  function ReservationsOf(entries: seq<Entry>): (s: seq<Reservation>)
    ensures |s| == |entries|
    ensures forall i :: 0 <= i < |s| ==> s[i] == entries[i].reservation
  {
    seq(|entries|, i requires 0 <= i < |entries| => entries[i].reservation)
  }

  /** Number the lines 1..n in the order given. */
  function Numbered(s: seq<Reservation>): (entries: seq<Entry>)
    ensures ReservationsOf(entries) == s
    ensures forall i :: 0 <= i < |entries| ==> entries[i].index == i + 1
  {
    var e := seq(|s|, i requires 0 <= i < |s| => Entry(i + 1, s[i]));
    assert ReservationsOf(e) == s;
    e
  }

  /** `view_reservations`: the empty signal exactly for an empty collection;
      otherwise each reservation as many times as it is stored, ordered by
      date then time, numbered 1..n after ordering. */
  function ViewReservations(c: seq<Reservation>): (v: Listing)
    ensures v.NoReservations? <==> |c| == 0
    ensures v.Lines? ==>
      && |v.entries| == |c|
      && (forall i :: 0 <= i < |v.entries| ==> v.entries[i].index == i + 1)
      && Sorted(ReservationsOf(v.entries))
      && multiset(ReservationsOf(v.entries)) == multiset(c)
  {
    if |c| == 0 then NoReservations
    else Lines(Numbered(Sort(c)))
  }

  /** A collection already in listing order is listed as it stands. */
  lemma {:induction false} SortKeepsSorted(s: seq<Reservation>)
    requires Sorted(s)
    ensures Sort(s) == s
    decreases |s|
  {
    if |s| > 0 {
      assert Sorted(s[1..]);
      SortKeepsSorted(s[1..]);
      if |s| > 1 {
        assert ListedNoLater(s[0], s[1..][0]);
      }
      assert s == [s[0]] + s[1..];
    }
  }

  /** Listing twice in a row: sorting is idempotent. */
  lemma SortIdempotent(s: seq<Reservation>)
    ensures Sort(Sort(s)) == Sort(s)
  {
    SortKeepsSorted(Sort(s));
  }

  /** Reservations with a null date are listed after every dated one. */
  lemma NullDatesListedLast(c: seq<Reservation>, i: nat, j: nat)
    requires ViewReservations(c).Lines?
    requires i < j < |ViewReservations(c).entries|
    requires ViewReservations(c).entries[i].reservation.date.None?
    ensures ViewReservations(c).entries[j].reservation.date.None?
  {
    var s := ReservationsOf(ViewReservations(c).entries);
    assert ListedNoLater(s[i], s[j]);
  }

  /** The first booking in an empty book is listed alone, as line 1, with
      exactly the fields that were entered. */
  lemma FirstBookingListedAlone(today: Date, name: string, dateText: string,
                                timeText: string, guestsText: string)
    requires AddReservation([], today, name, dateText, timeText, guestsText).Ok?
    ensures ViewReservations(AddReservation([], today, name, dateText, timeText, guestsText).value)
      == Lines([Entry(1, Reservation(name, Some(ParseDate(dateText).value),
                                     Some(ParseTime(timeText).value),
                                     Some(ParseInt(guestsText).value)))])
  {
    var c := AddReservation([], today, name, dateText, timeText, guestsText).value;
    assert c == [c[0]];
    assert Sort(c) == c by {
      assert Sort(c[1..]) == [];
    }
  }
}
