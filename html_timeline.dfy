/**
 * The ordering and the per-date layout of the HTML timeline (src/block.ts):
 * `sortDates`, and the header text, era suffix and left/right alternation
 * computed by `buildHtmlTimeline` for each date. The DOM elements themselves
 * are not modelled: a date container is its header text, its side and the
 * notes whose cards it lists.
 */
module HtmlTimeline {
  import opened JsBuiltins
  import opened Types
  import Bst
  import opened NoteIds
  import opened Timeline

  // ---------------------------------------------------------------------------
  // sortDates
  // ---------------------------------------------------------------------------

  /** `x` may come before `y`: ascending order for `sortDirection`, descending otherwise. */
  predicate Before(x: int, y: int, ascending: bool) {
    if ascending then x <= y else y <= x
  }

  predicate Ordered(s: seq<int>, ascending: bool) {
    forall i, j :: 0 <= i < j < |s| ==> Before(s[i], s[j], ascending)
  }

  /**
   * `sortDates`: sorts the array in place with the comparator `d1 - d2`
   * (ascending) when `sortDirection` is true and `d2 - d1` (descending)
   * otherwise. The result is the same array, ordered and holding the same
   * values.
   */
  method SortDates(timelineDates: array<int>, sortDirection: bool)
    modifies timelineDates
    ensures Ordered(timelineDates[..], sortDirection)
    ensures multiset(timelineDates[..]) == multiset(old(timelineDates[..]))
  {
    var a := timelineDates;
    var i := 0;
    while i < a.Length
      invariant 0 <= i <= a.Length
      invariant Ordered(a[..i], sortDirection)
      invariant multiset(a[..]) == multiset(old(a[..]))
    {
      var j := i;
      InsertionStart(a[..], i, sortDirection);
      while j > 0 && !Before(a[j - 1], a[j], sortDirection)
        invariant 0 <= j <= i
        invariant SortedBut(a[..], i, j, sortDirection)
        invariant multiset(a[..]) == multiset(old(a[..]))
      {
        ghost var before := a[..];
        a[j - 1], a[j] := a[j], a[j - 1];
        SwapStep(before, a[..], i, j, sortDirection);
        j := j - 1;
      }
      InsertionDone(a[..], i, j, sortDirection);
      i := i + 1;
    }
    assert a[..a.Length] == a[..];
  }

  /**
   * While the element that started at `i` moves left and sits at `j`: the
   * others among `s[..i + 1]` are in order, and it comes before all those
   * already passed.
   */
  predicate SortedBut(s: seq<int>, i: int, j: int, ascending: bool)
    requires 0 <= j <= i < |s|
  {
    && (forall m, n :: 0 <= m < n <= i && m != j && n != j ==> Before(s[m], s[n], ascending))
    && (forall n :: j < n <= i ==> Before(s[j], s[n], ascending))
  }

  lemma InsertionStart(s: seq<int>, i: int, ascending: bool)
    requires 0 <= i < |s| && Ordered(s[..i], ascending)
    ensures SortedBut(s, i, i, ascending)
  {
    forall m, n | 0 <= m < n <= i && m != i && n != i ensures Before(s[m], s[n], ascending) {
      assert s[m] == s[..i][m] && s[n] == s[..i][n];
    }
  }

  lemma SwapStep(s: seq<int>, t: seq<int>, i: int, j: int, ascending: bool)
    requires 0 < j <= i < |s| && SortedBut(s, i, j, ascending) && !Before(s[j - 1], s[j], ascending)
    requires t == s[j - 1 := s[j]][j := s[j - 1]]
    ensures SortedBut(t, i, j - 1, ascending)
    ensures multiset(t) == multiset(s)
  {
    forall m, n | 0 <= m < n <= i && m != j - 1 && n != j - 1 ensures Before(t[m], t[n], ascending) {
      if m == j {
        assert t[m] == s[j - 1] && t[n] == s[n];
        assert Before(s[j - 1], s[n], ascending);
      } else if n == j {
        assert t[n] == s[j - 1] && t[m] == s[m];
      } else {
        assert t[m] == s[m] && t[n] == s[n];
      }
    }
  }

  lemma InsertionDone(s: seq<int>, i: int, j: int, ascending: bool)
    requires 0 <= j <= i < |s| && SortedBut(s, i, j, ascending)
    requires j == 0 || Before(s[j - 1], s[j], ascending)
    ensures Ordered(s[..i + 1], ascending)
  {
    forall m, n | 0 <= m < n <= i ensures Before(s[m], s[n], ascending) {
      if n == j && m < j - 1 {
        assert Before(s[m], s[j - 1], ascending);
      }
    }
  }

  /** Two ascending sequences holding the same values are equal. */
  lemma {:induction false} SortedUnique(s: seq<int>, t: seq<int>)
    requires Bst.Sorted(s) && Bst.Sorted(t) && multiset(s) == multiset(t)
    ensures s == t
  {
    assert |s| == |multiset(s)| == |multiset(t)| == |t|;
    if s != [] {
      assert s[0] in multiset(s) && t[0] in multiset(t);
      SortedHeadIsLeast(s, t[0]);
      SortedHeadIsLeast(t, s[0]);
      assert s[0] == t[0];
      TailMultiset(s);
      TailMultiset(t);
      assert multiset(s[1..]) == multiset(t[1..]);
      SortedTail(s);
      SortedTail(t);
      SortedUnique(s[1..], t[1..]);
      assert s == [s[0]] + s[1..] && t == [t[0]] + t[1..];
    }
  }

  lemma TailMultiset(s: seq<int>)
    requires s != []
    ensures multiset(s[1..]) == multiset(s) - multiset{s[0]}
  {
    assert s == [s[0]] + s[1..];
  }

  lemma SortedHeadIsLeast(s: seq<int>, x: int)
    requires Bst.Sorted(s) && x in multiset(s)
    ensures s[0] <= x
  {
    var i :| 0 <= i < |s| && s[i] == x;
  }

  lemma SortedTail(s: seq<int>)
    requires Bst.Sorted(s) && s != []
    ensures Bst.Sorted(s[1..])
  {
    forall i, j | 0 <= i < j < |s| - 1 ensures s[1..][i] <= s[1..][j] {
      assert s[1..][i] == s[i + 1] && s[1..][j] == s[j + 1];
    }
  }

  /** A descending sequence read backwards is ascending, with the same values. */
  lemma ReverseOrdered(s: seq<int>)
    requires Ordered(s, false)
    ensures Bst.Sorted(Reverse(s)) && multiset(Reverse(s)) == multiset(s)
  {
    var r := Reverse(s);
    forall i, j | 0 <= i < j < |r| ensures r[i] <= r[j] {
      assert r[i] == s[|s| - 1 - i] && r[j] == s[|s| - 1 - j];
    }
    ReverseMultiset(s);
  }

  lemma {:induction false} ReverseMultiset(s: seq<int>)
    ensures multiset(Reverse(s)) == multiset(s)
  {
    if s != [] {
      var r := Reverse(s);
      ReverseMultiset(s[1..]);
      assert r == Reverse(s[1..]) + [s[0]] by {
        var t := Reverse(s[1..]) + [s[0]];
        assert |r| == |t|;
        forall k | 0 <= k < |r| ensures r[k] == t[k] {
          if k < |r| - 1 {
            assert t[k] == Reverse(s[1..])[k] == s[1..][|s| - 2 - k];
          }
        }
      }
      assert s == [s[0]] + s[1..];
    }
  }

  /**
   * On the ids `getTimelineData` returns (strictly increasing), sorting
   * ascending changes nothing and sorting descending reverses them.
   */
  lemma SortedDatesFromIndex(dates: seq<int>, sorted: seq<int>, sortDirection: bool)
    requires StrictlyIncreasing(dates)
    requires Ordered(sorted, sortDirection) && multiset(sorted) == multiset(dates)
    ensures sorted == if sortDirection then dates else Reverse(dates)
  {
    assert Bst.Sorted(dates);
    if sortDirection {
      assert Bst.Sorted(sorted) by {
        forall i, j | 0 <= i < j < |sorted| ensures sorted[i] <= sorted[j] {
          assert Before(sorted[i], sorted[j], true);
        }
      }
      SortedUnique(sorted, dates);
    } else {
      ReverseOrdered(sorted);
      SortedUnique(Reverse(sorted), dates);
      ReverseReverse(sorted);
    }
  }

  lemma ReverseReverse(s: seq<int>)
    ensures Reverse(Reverse(s)) == s
  {
    var r := Reverse(Reverse(s));
    forall k | 0 <= k < |s| ensures r[k] == s[k] {
      assert r[k] == Reverse(s)[|s| - 1 - k];
    }
  }

  // ---------------------------------------------------------------------------
  // Header text and era
  // ---------------------------------------------------------------------------

  predicate AllZeros(s: string) {
    forall i :: 0 <= i < |s| ==> s[i] == '0'
  }

  /** The position of the last occurrence of `c` in `s`. */
  function LastIndexOf(s: string, c: char): (r: Option<nat>)
    ensures r.None? <==> c !in s
    ensures r.Some? ==> r.value < |s| && s[r.value] == c && c !in s[r.value + 1..]
  {
    if s == [] then None
    else if s[|s| - 1] == c then Some(|s| - 1)
    else
      var r := LastIndexOf(s[..|s| - 1], c);
      assert s == s[..|s| - 1] + [s[|s| - 1]];
      if r.Some? then
        assert s[r.value + 1..] == s[..|s| - 1][r.value + 1..] + [s[|s| - 1]];
        r
      else r
  }

  /**
   * `replace(/-0*$/g, '')`: drops a trailing '-' followed only by zeros. The
   * only '-' that can start such a suffix is the last one.
   */
  function StripDashZeros(s: string): (r: string)
    ensures |r| <= |s| && r == s[..|r|]
    ensures r != s ==> s[|r|] == '-' && AllZeros(s[|r| + 1..])
  {
    match LastIndexOf(s, '-')
    case Some(k) => if AllZeros(s[k + 1..]) then s[..k] else s
    case None => s
  }

  /**
   * The regular expression's meaning: either the text ends with '-' and then
   * only zeros and exactly that suffix is removed, or it has no such suffix
   * and is left as it is.
   */
  lemma StripDashZerosMatches(s: string)
    ensures var r := StripDashZeros(s);
      && |r| <= |s| && r == s[..|r|]
      && (r != s ==> s[|r|] == '-' && AllZeros(s[|r| + 1..]))
      && (r == s ==> forall k :: 0 <= k < |s| && s[k] == '-' ==> !AllZeros(s[k + 1..]))
  {
    var r := StripDashZeros(s);
    if r == s {
      forall k | 0 <= k < |s| && s[k] == '-' ensures !AllZeros(s[k + 1..]) {
        var last := LastIndexOf(s, '-');
        if k < last.value {
          assert s[k + 1..][last.value - k - 1] == '-';
        }
      }
    }
  }

  /** The header text: the date with `-0*` stripped from its end three times. */
  function HeaderText(date: string): (h: string)
    ensures |h| <= |date| && h == date[..|h|]
  {
    StripDashZeros(StripDashZeros(StripDashZeros(date)))
  }

  /** What the header loses is a run of dashes and zeros at the end of the date. */
  lemma HeaderTextIsPrefix(date: string)
    ensures var h := HeaderText(date);
      |h| <= |date| && h == date[..|h|]
      && forall i :: |h| <= i < |date| ==> date[i] == '-' || date[i] == '0'
  {
    var s1 := StripDashZeros(date);
    var s2 := StripDashZeros(s1);
    var s3 := StripDashZeros(s2);
    StrippedTail(date);
    StrippedTail(s1);
    StrippedTail(s2);
    forall i | |s3| <= i < |date| ensures date[i] == '-' || date[i] == '0' {
      if i < |s2| {
        assert date[i] == s1[i] == s2[i];
      } else if i < |s1| {
        assert date[i] == s1[i];
      }
    }
  }

  /** One strip removes only dashes and zeros. */
  lemma StrippedTail(s: string)
    ensures var r := StripDashZeros(s);
      forall i :: |r| <= i < |s| ==> s[i] == '-' || s[i] == '0'
  {
    var r := StripDashZeros(s);
    if r != s {
      forall i | |r| < i < |s| ensures s[i] == '0' {
        assert s[i] == s[|r| + 1..][i - |r| - 1];
      }
    }
  }

  /** A date without a `-0*` ending keeps its full text, so "1776-07-04" is its own header. */
  lemma HeaderKeepsDate(date: string)
    requires forall k :: 0 <= k < |date| && date[k] == '-' ==> !AllZeros(date[k + 1..])
    ensures HeaderText(date) == date
  {
    var last := LastIndexOf(date, '-');
  }

  /** A zero day is dropped: `year-month-00` (month not all zeros) has the header `year-month`. */
  lemma HeaderDropsZeroDay(yearMonth: string, day: string)
    requires forall k :: 0 <= k < |yearMonth| && yearMonth[k] == '-' ==> !AllZeros(yearMonth[k + 1..])
    requires AllZeros(day)
    ensures HeaderText(yearMonth + "-" + day) == yearMonth
  {
    var s := yearMonth + "-" + day;
    var k := |yearMonth|;
    assert s[k] == '-' && s[k + 1..] == day;
    var last := LastIndexOf(s, '-');
    assert '-' !in s[k + 1..];
    assert '-' in s;
    assert last == Some(k);
    assert s[..k] == yearMonth;
    HeaderKeepsDate(yearMonth);
  }

  /** `era[Number(!header.startsWith('-'))]`: the BCE suffix exactly for headers starting with '-'. */
  function EraSuffix(header: string, era: Era): (r: string)
    ensures HasLeadingDash(header) ==> r == era.beforeCommonEra
    ensures !HasLeadingDash(header) ==> r == era.commonEra
  {
    var index := if !HasLeadingDash(header) then 1 else 0;
    if index == 0 then era.beforeCommonEra else era.commonEra
  }

  /** The header shown for a date: header text, a space, the era suffix. */
  function DateHeader(date: string, era: Era): (r: string)
    ensures var h := HeaderText(date);
      r == h + " " + (if HasLeadingDash(h) then era.beforeCommonEra else era.commonEra)
  {
    var text := HeaderText(date);
    text + " " + EraSuffix(text, era)
  }

  /** A BCE date keeps its leading '-' (a year is not all zeros) and gets the BCE suffix. */
  lemma BceHeader(date: string, era: Era)
    requires HasLeadingDash(date)
    requires exists k :: 1 <= k < |date| && date[k] != '-' && date[k] != '0'
    ensures HasLeadingDash(HeaderText(date))
    ensures DateHeader(date, era) == HeaderText(date) + " " + era.beforeCommonEra
  {
    HeaderTextIsPrefix(date);
    var h := HeaderText(date);
    var k :| 1 <= k < |date| && date[k] != '-' && date[k] != '0';
    assert |h| > k;
    assert h[0] == date[0];
  }

  // ---------------------------------------------------------------------------
  // buildHtmlTimeline
  // ---------------------------------------------------------------------------

  /** `timeline-left` / `timeline-right` (the right ones also right-align their header). */
  datatype Side = Left | Right

  /** One `timeline-container`: its header text, its side, and the notes shown as cards. */
  datatype DateContainer = DateContainer(header: string, side: Side, cards: seq<CardContainer>)

  /** Every date has a non-empty list of notes (otherwise reading the first note's date throws). */
  predicate Renderable(timelineNotes: TimelineNotes, timelineDates: seq<int>) {
    forall k :: 0 <= k < |timelineDates| ==> timelineDates[k] in timelineNotes && timelineNotes[timelineDates[k]] != []
  }

  /**
   * The `k`-th container (counting from 0) for a date with notes `notes`: on
   * the left for even `k` and on the right for odd `k`, headed by the date of
   * the first note, listing all the notes in order.
   */
  predicate ShowsDate(c: DateContainer, k: nat, notes: seq<CardContainer>, era: Era)
    requires notes != []
  {
    && c.side == (if k % 2 == 0 then Left else Right)
    && c.header == DateHeader(notes[0].date, era)
    && c.cards == notes
  }

  /**
   * `buildHtmlTimeline`: one container per date, in the given order, with
   * containers alternating left and right with the running `eventCount`.
   */
  method BuildHtmlTimeline(timelineNotes: TimelineNotes, timelineDates: seq<int>, settings: Settings)
    returns (containers: seq<DateContainer>)
    requires Renderable(timelineNotes, timelineDates)
    ensures |containers| == |timelineDates|
    ensures forall k :: 0 <= k < |containers| ==>
      ShowsDate(containers[k], k, timelineNotes[timelineDates[k]], settings.era)
  {
    var eventCount := 0;
    containers := [];
    for i := 0 to |timelineDates|
      invariant eventCount == i == |containers|
      invariant forall k :: 0 <= k < i ==>
        ShowsDate(containers[k], k, timelineNotes[timelineDates[k]], settings.era)
    {
      var date := timelineDates[i];
      var c := RenderDate(timelineNotes[date], eventCount, settings.era);
      containers := containers + [c];
      eventCount := eventCount + 1;
    }
  }

  /**
   * The container of one date: the header text of the first note's date with
   * its era suffix, the side given by the running count, and the note cards.
   */
  method RenderDate(notes: seq<CardContainer>, eventCount: nat, era: Era) returns (c: DateContainer)
    requires notes != []
    ensures ShowsDate(c, eventCount, notes, era)
  {
    var text := HeaderText(notes[0].date);
    var suffix := EraSuffix(text, era);
    var header := text + " " + suffix;
    var side := if eventCount % 2 == 0 then Left else Right;
    c := DateContainer(header, side, notes);
  }

  /** What `getTimelineData` returns can always be rendered. */
  lemma TimelineDataRenderable(fileList: seq<FileEntry>, settings: Settings, resolveImage: ImageResolver,
                               timelineNotes: TimelineNotes, timelineDates: seq<int>)
    requires forall d :: d in timelineDates <==> d in timelineNotes
    requires forall d :: d in timelineNotes ==>
      var notes := NotesWithId(fileList, settings, resolveImage, d);
      notes != [] && timelineNotes[d] == if settings.sortDirection then Reverse(notes) else notes
    ensures Renderable(timelineNotes, timelineDates)
  {
    forall k | 0 <= k < |timelineDates| ensures timelineDates[k] in timelineNotes && timelineNotes[timelineDates[k]] != [] {
      var d := timelineDates[k];
      var notes := NotesWithId(fileList, settings, resolveImage, d);
      assert d in timelineNotes;
      assert |timelineNotes[d]| == |notes|;
    }
  }
}
