/** The show list page: which shows are past, the order in which the list
    shows them, and which entries link to their journal page.
    A show's `date` is a day number. The page reads the date string as UTC
    midnight of that day, and compares it with `today`, the instant of
    today's LOCAL midnight, in minutes since the epoch. */
module Shows {
  import opened Wrappers
  import opened ShowData

  // ---------------------------------------------------------------------
  // Past or upcoming
  // ---------------------------------------------------------------------

  const MinutesPerDay: int := 1440

  /** The instant of local midnight starting `localDay`, in a zone whose
      local time is `utcOffset` minutes ahead of UTC (negative west of UTC). */
  function LocalMidnight(localDay: int, utcOffset: int): (r: int)
    ensures (r + utcOffset) / MinutesPerDay == localDay
    ensures (r + utcOffset) % MinutesPerDay == 0
  {
    localDay * MinutesPerDay - utcOffset
  }

  /** A show is past when the instant its date string denotes (UTC midnight
      of its day) is strictly before today's local midnight; that is, when
      the show's day is no later than the UTC day holding the last minute
      before today's local midnight. */
  predicate IsShowPast(date: int, today: int)
    ensures IsShowPast(date, today) <==> date <= (today - 1) / MinutesPerDay
  {
    var q := (today - 1) / MinutesPerDay;
    assert q * MinutesPerDay <= today - 1 < q * MinutesPerDay + MinutesPerDay;
    assert date <= q ==> date * MinutesPerDay <= q * MinutesPerDay;
    assert date > q ==> date * MinutesPerDay >= q * MinutesPerDay + MinutesPerDay;
    date * MinutesPerDay < today
  }

  /** The classification in a real time zone (offsets lie strictly within one
      day of UTC). At UTC and east of it, a show is past exactly when its day
      is before the local day. West of UTC, a show dated today is already
      past, because UTC midnight of today falls on the previous local evening.
      In every zone being past is closed downwards. */
  lemma PastBoundary(date: int, earlier: int, localDay: int, utcOffset: int)
    requires -MinutesPerDay < utcOffset < MinutesPerDay
    requires earlier <= date
    ensures var today := LocalMidnight(localDay, utcOffset);
      && (utcOffset >= 0 ==> (IsShowPast(date, today) <==> date < localDay))
      && (utcOffset < 0 ==> (IsShowPast(date, today) <==> date <= localDay))
      && (utcOffset >= 0 ==> !IsShowPast(localDay, today))
      && (utcOffset < 0 ==> IsShowPast(localDay, today) && !IsShowPast(localDay + 1, today))
      && IsShowPast(localDay - 1, today)
      && (IsShowPast(date, today) ==> IsShowPast(earlier, today))
  {
    var today := LocalMidnight(localDay, utcOffset);
    if date < localDay {
      assert date * MinutesPerDay <= localDay * MinutesPerDay - MinutesPerDay;
    } else if date == localDay {
    } else {
      assert date * MinutesPerDay >= localDay * MinutesPerDay + MinutesPerDay;
    }
    assert earlier * MinutesPerDay <= date * MinutesPerDay;
  }

  /** In Detroit on daylight time (four hours behind UTC), a show dated
      today is listed as past and links to its journal page. */
  lemma SameDayShowInDetroitIsPast(show: Show, localDay: int)
    requires show.date == localDay
    ensures var today := LocalMidnight(localDay, -240);
      IsShowPast(show.date, today) && RenderItem(show, today).link == Some("/shows/" + show.slug)
  {
    PastBoundary(show.date, show.date, localDay, -240);
  }

  // ---------------------------------------------------------------------
  // The comparator
  // ---------------------------------------------------------------------

  /** The comparator handed to the sort, on the two dates it reads: an
      upcoming show comes before a past one, upcoming shows by ascending date,
      past shows by descending date. Negative means "a first". The source
      subtracts the two instants in milliseconds; the difference of day
      numbers has the same sign. */
  function CompareDates(dateA: int, dateB: int, today: int): (r: int)
    ensures r <= 0 <==> ShownNoLater(dateA, dateB, today)
    ensures r == 0 <==> dateA == dateB
  {
    var pastA := IsShowPast(dateA, today);
    var pastB := IsShowPast(dateB, today);
    if pastA != pastB then
      (if pastA then 1 else -1)
    else if !pastA then
      dateA - dateB
    else
      dateB - dateA
  }

  /** The comparator on show records; it looks at nothing but their dates. */
  function Compare(a: Show, b: Show, today: int): (r: int)
    ensures r <= 0 <==> ShownNoLater(a.date, b.date, today)
    ensures r == 0 <==> a.date == b.date
  {
    CompareDates(a.date, b.date, today)
  }

  function Sign(x: int): int
  {
    if x < 0 then -1 else if x > 0 then 1 else 0
  }

  /** The intended display order of two dates, stated group by group without
      the comparator's arithmetic. */
  predicate ShownNoLater(dateA: int, dateB: int, today: int)
  {
    var pastA := IsShowPast(dateA, today);
    var pastB := IsShowPast(dateB, today);
    || (!pastA && pastB)
    || (!pastA && !pastB && dateA <= dateB)
    || (pastA && pastB && dateB <= dateA)
  }

  /** The comparator puts `a` first or ties exactly when the display order does.
      The first ensures restates, for readers, that of `CompareDates`; the
      second adds the strict case. */
  lemma CompareAgreesWithDisplayOrder(dateA: int, dateB: int, today: int)
    ensures CompareDates(dateA, dateB, today) <= 0 <==> ShownNoLater(dateA, dateB, today)
    ensures CompareDates(dateA, dateB, today) < 0 <==>
              ShownNoLater(dateA, dateB, today) && dateA != dateB
  {
  }

  /** A comparator the sort can rely on: zero on equal dates and only there,
      antisymmetric in sign, and transitive. */
  lemma CompareIsConsistent(x: int, y: int, z: int, today: int)
    ensures CompareDates(x, x, today) == 0
    ensures CompareDates(x, y, today) == 0 <==> x == y
    ensures Sign(CompareDates(x, y, today)) == -Sign(CompareDates(y, x, today))
    ensures CompareDates(x, y, today) == -CompareDates(y, x, today)
    ensures CompareDates(x, y, today) <= 0 && CompareDates(y, z, today) <= 0 ==>
              CompareDates(x, z, today) <= 0
  {
  }

  /** Two dates that each come no later than the other are the same date. */
  lemma CompareNoLaterBothWays(x: int, y: int, today: int)
    requires CompareDates(x, y, today) <= 0 && CompareDates(y, x, today) <= 0
    ensures x == y
  {
  }

  // ---------------------------------------------------------------------
  // Ordered lists
  // ---------------------------------------------------------------------

  /** Every show comes no later than each one after it, by the comparator. */
  ghost predicate Ordered(s: seq<Show>, today: int)
  {
    forall i, j :: 0 <= i < j < |s| ==> Compare(s[i], s[j], today) <= 0
  }

  /** Every upcoming show precedes every past show. */
  ghost predicate UpcomingBeforePast(s: seq<Show>, today: int)
  {
    forall i, j ::
      (0 <= i < |s| && 0 <= j < |s| && !IsShowPast(s[i].date, today) && IsShowPast(s[j].date, today))
      ==> i < j
  }

  /** Upcoming shows are soonest first. */
  ghost predicate UpcomingAscending(s: seq<Show>, today: int)
  {
    forall i, j ::
      (0 <= i < j < |s| && !IsShowPast(s[i].date, today) && !IsShowPast(s[j].date, today))
      ==> s[i].date <= s[j].date
  }

  /** Past shows are most recent first. */
  ghost predicate PastDescending(s: seq<Show>, today: int)
  {
    forall i, j ::
      (0 <= i < j < |s| && IsShowPast(s[i].date, today) && IsShowPast(s[j].date, today))
      ==> s[j].date <= s[i].date
  }

  /** Being ordered by the comparator is the same as the three group rules. */
  lemma OrderedIffGroupRules(s: seq<Show>, today: int)
    ensures Ordered(s, today) <==>
      UpcomingBeforePast(s, today) && UpcomingAscending(s, today) && PastDescending(s, today)
  {
    if UpcomingBeforePast(s, today) && UpcomingAscending(s, today) && PastDescending(s, today) {
      forall i, j | 0 <= i < j < |s| ensures Compare(s[i], s[j], today) <= 0 {
        CompareAgreesWithDisplayOrder(s[i].date, s[j].date, today);
      }
    }
  }

  // ---------------------------------------------------------------------
  // The sort
  // ---------------------------------------------------------------------

  /** Inserts `x` in front of the first element it does not come after.
      Placing it before ties keeps a stable order when the list is built
      from the back. */
  function Insert(x: Show, t: seq<Show>, today: int): (r: seq<Show>)
    ensures multiset(r) == multiset(t) + multiset{x}
    ensures |r| == |t| + 1
  {
    if t == [] then [x]
    else if Compare(x, t[0], today) <= 0 then [x] + t
    else
      assert t == [t[0]] + t[1..];
      [t[0]] + Insert(x, t[1..], today)
  }

  lemma {:induction false} InsertOrdered(x: Show, t: seq<Show>, today: int)
    requires Ordered(t, today)
    ensures Ordered(Insert(x, t, today), today)
  {
    if t == [] {
    } else if Compare(x, t[0], today) <= 0 {
      var r := [x] + t;
      forall i, j | 0 <= i < j < |r| ensures Compare(r[i], r[j], today) <= 0 {
        if i == 0 && j > 1 {
          CompareIsConsistent(x.date, t[0].date, r[j].date, today);
        }
      }
    } else {
      InsertOrdered(x, t[1..], today);
      var tail := Insert(x, t[1..], today);
      var r := [t[0]] + tail;
      CompareIsConsistent(x.date, t[0].date, x.date, today);
      InsertKeepsLowerBound(t[0], x, t[1..], today);
      forall i, j | 0 <= i < j < |r| ensures Compare(r[i], r[j], today) <= 0 {
        if i == 0 {
          assert r[j] == tail[j - 1];
        } else {
          assert r[i] == tail[i - 1] && r[j] == tail[j - 1];
        }
      }
    }
  }

  /** A show that comes no later than `x` and every show of `t` comes no
      later than every show of `Insert(x, t, today)`. */
  lemma {:induction false} InsertKeepsLowerBound(y: Show, x: Show, t: seq<Show>, today: int)
    requires Compare(y, x, today) <= 0
    requires forall k :: 0 <= k < |t| ==> Compare(y, t[k], today) <= 0
    ensures forall j :: 0 <= j < |Insert(x, t, today)| ==> Compare(y, Insert(x, t, today)[j], today) <= 0
  {
    if t != [] && Compare(x, t[0], today) > 0 {
      InsertKeepsLowerBound(y, x, t[1..], today);
      var r := Insert(x, t, today);
      assert r == [t[0]] + Insert(x, t[1..], today);
      forall j | 0 < j < |r| ensures Compare(y, r[j], today) <= 0 {
        assert r[j] == Insert(x, t[1..], today)[j - 1];
      }
    }
  }

  /** The list of shows as the page lists them: a sorted copy of the input.
      The input itself is a value and so is left unchanged. */
  function SortedShows(shows: seq<Show>, today: int): (r: seq<Show>)
    ensures multiset(r) == multiset(shows)
    ensures |r| == |shows|
    ensures Ordered(r, today)
  {
    if shows == [] then []
    else
      var rest := SortedShows(shows[1..], today);
      InsertOrdered(shows[0], rest, today);
      assert shows == [shows[0]] + shows[1..];
      Insert(shows[0], rest, today)
  }

  /** The three group rules hold of the sorted list. */
  lemma SortedShowsGroupRules(shows: seq<Show>, today: int)
    ensures var r := SortedShows(shows, today);
      && multiset(r) == multiset(shows)
      && UpcomingBeforePast(r, today)
      && UpcomingAscending(r, today)
      && PastDescending(r, today)
  {
    OrderedIffGroupRules(SortedShows(shows, today), today);
  }

  // ---------------------------------------------------------------------
  // The order of dates does not depend on the sorting algorithm
  // ---------------------------------------------------------------------

  function Dates(s: seq<Show>): (d: seq<int>)
    ensures |d| == |s|
    ensures forall i :: 0 <= i < |s| ==> d[i] == s[i].date
  {
    if s == [] then [] else [s[0].date] + Dates(s[1..])
  }

  lemma MultisetTail<T>(s: seq<T>)
    requires s != []
    ensures multiset(s[1..]) == multiset(s) - multiset{s[0]}
    ensures s[0] in multiset(s)
  {
    assert s == [s[0]] + s[1..];
  }

  lemma MultisetRemoveAt<T>(s: seq<T>, k: nat)
    requires k < |s|
    ensures multiset(s[..k] + s[k + 1..]) == multiset(s) - multiset{s[k]}
  {
    assert s == s[..k] + [s[k]] + s[k + 1..];
  }

  lemma MultisetCancel<T>(a: multiset<T>, b: multiset<T>, v: T)
    requires v in a && v in b
    requires a - multiset{v} == b - multiset{v}
    ensures a == b
  {
    assert a == (a - multiset{v}) + multiset{v};
    assert b == (b - multiset{v}) + multiset{v};
  }

  lemma DatesRemoveAt(t: seq<Show>, k: nat)
    requires k < |t|
    ensures Dates(t[..k] + t[k + 1..]) == Dates(t)[..k] + Dates(t)[k + 1..]
  {
    var u := t[..k] + t[k + 1..];
    assert |Dates(u)| == |Dates(t)[..k] + Dates(t)[k + 1..]|;
    forall i | 0 <= i < |u| ensures Dates(u)[i] == (Dates(t)[..k] + Dates(t)[k + 1..])[i] {
      if i < k { assert u[i] == t[i]; } else { assert u[i] == t[i + 1]; }
    }
  }

  lemma {:induction false} DatesMultiset(s: seq<Show>, t: seq<Show>)
    requires multiset(s) == multiset(t)
    ensures multiset(Dates(s)) == multiset(Dates(t))
    decreases |s|
  {
    if s == [] {
      assert |t| == |multiset(t)| == 0;
    } else {
      var x := s[0];
      MultisetTail(s);
      var k :| 0 <= k < |t| && t[k] == x;
      var t' := t[..k] + t[k + 1..];
      MultisetRemoveAt(t, k);
      DatesMultiset(s[1..], t');
      DatesRemoveAt(t, k);
      MultisetRemoveAt(Dates(t), k);
      MultisetTail(Dates(s));
      assert Dates(s)[1..] == Dates(s[1..]);
      assert x.date in multiset(Dates(t)) by { assert Dates(t)[k] == x.date; }
      MultisetCancel(multiset(Dates(s)), multiset(Dates(t)), x.date);
    }
  }

  /** A list of dates ordered by the comparator. */
  ghost predicate DatesOrdered(d: seq<int>, today: int)
  {
    forall i, j :: 0 <= i < j < |d| ==> CompareDates(d[i], d[j], today) <= 0
  }

  lemma {:induction false} DatesOrderedUnique(d: seq<int>, e: seq<int>, today: int)
    requires DatesOrdered(d, today) && DatesOrdered(e, today)
    requires multiset(d) == multiset(e)
    ensures d == e
    decreases |d|
  {
    if d == [] {
      assert |e| == |multiset(e)| == 0;
    } else {
      assert e != [] by { assert |e| == |multiset(e)| == |multiset(d)| == |d|; }
      assert d[0] in multiset(e) && e[0] in multiset(d);
      FirstIsLeast(e, d[0], today);
      FirstIsLeast(d, e[0], today);
      CompareNoLaterBothWays(d[0], e[0], today);
      MultisetTail(d);
      MultisetTail(e);
      DatesOrderedUnique(d[1..], e[1..], today);
    }
  }

  lemma FirstIsLeast(d: seq<int>, x: int, today: int)
    requires DatesOrdered(d, today)
    requires x in multiset(d)
    ensures CompareDates(d[0], x, today) <= 0
  {
    var j :| 0 <= j < |d| && d[j] == x;
    if j == 0 {
      CompareIsConsistent(x, x, x, today);
    }
  }

  /** Any ordered permutation of the shows lists the same dates in the same
      positions as the modelled sort does, so the choice of sorting algorithm
      only matters among shows that share a date. */
  lemma AnyOrderedPermutationHasSameDates(shows: seq<Show>, r: seq<Show>, today: int)
    requires multiset(r) == multiset(shows)
    requires Ordered(r, today)
    ensures Dates(r) == Dates(SortedShows(shows, today))
  {
    var s := SortedShows(shows, today);
    DatesMultiset(r, s);
    DatesOrderedUnique(Dates(r), Dates(s), today);
  }

  // ---------------------------------------------------------------------
  // Rendering the list
  // ---------------------------------------------------------------------

  /** One rendered entry: the show, whether it carries the past-show style,
      and the journal link it is wrapped in, if any. */
  datatype ShowItem = ShowItem(show: Show, past: bool, link: Option<string>)

  /** The route of a show's journal page. */
  function JournalRoute(slug: string): (r: string)
    ensures |r| == |slug| + 7
    ensures r[..7] == "/shows/" && r[7..] == slug
  {
    "/shows/" + slug
  }

  /** The entry for one show: styled and wrapped in a link to its journal
      page exactly when it is past. */
  function RenderItem(show: Show, today: int): (r: ShowItem)
    ensures r.show == show
    ensures r.past <==> IsShowPast(show.date, today)
    ensures r.link.Some? <==> r.past
    ensures r.link.Some? ==> r.link.value == "/shows/" + show.slug
  {
    var past := IsShowPast(show.date, today);
    ShowItem(show, past, if past then Some(JournalRoute(show.slug)) else None)
  }

  /** The rendered list, which is the sorted copy mapped entry by entry. */
  function RenderShows(shows: seq<Show>, today: int): (r: seq<ShowItem>)
    ensures |r| == |shows|
    ensures forall i :: 0 <= i < |r| ==> r[i].show == SortedShows(shows, today)[i]
    ensures forall i :: 0 <= i < |r| ==> (r[i].link.Some? <==> IsShowPast(r[i].show.date, today))
    ensures forall i, j :: 0 <= i < |r| && 0 <= j < |r| && r[i].link.None? && r[j].link.Some? ==> i < j
  {
    var sorted := SortedShows(shows, today);
    SortedShowsGroupRules(shows, today);
    seq(|sorted|, i requires 0 <= i < |sorted| => RenderItem(sorted[i], today))
  }

  /** An entry links to `/shows/<slug>` exactly when its show is past, and
      upcoming entries come before past ones. */
  lemma RenderedLinkIffPast(shows: seq<Show>, today: int)
    ensures var r := RenderShows(shows, today);
      && (forall i :: 0 <= i < |r| ==>
            && r[i].show == SortedShows(shows, today)[i]
            && (r[i].past <==> IsShowPast(r[i].show.date, today))
            && (r[i].link.Some? <==> r[i].past)
            && (r[i].link.Some? ==> r[i].link.value == "/shows/" + r[i].show.slug))
      && (forall i, j :: 0 <= i < |r| && 0 <= j < |r| && !r[i].past && r[j].past ==> i < j)
  {
    SortedShowsGroupRules(shows, today);
  }
}
