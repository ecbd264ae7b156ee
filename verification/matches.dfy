/** The calendar's derived views (App.tsx:119-126): which matches are still to
    be played, which results are shown, the next-match banner, and which side
    of a result is emphasised (App.tsx:416-444). `now` is a parameter. */
module Matches {
  import opened Types
  import opened Seqs

  /** Both carousels show at most this many matches (`slice(0, 10)`). */
  const DisplayLimit: nat := 10

  /** `new Date(m.date) >= now`. */
  function StartsAtOrAfter(now: Timestamp): Match -> bool
  {
    (m: Match) => m.date >= now
  }

  /** `new Date(m.date) < now`. */
  function StartsBefore(now: Timestamp): Match -> bool
  {
    (m: Match) => m.date < now
  }

  /** Every match is no earlier than the ones after it. */
  ghost predicate NewestFirst(s: seq<Match>)
  {
    forall i, j :: 0 <= i < j < |s| ==> s[i].date >= s[j].date
  }

  /** Every match is no later than the ones after it (the order the backend is asked for). */
  ghost predicate OldestFirst(s: seq<Match>)
  {
    forall i, j :: 0 <= i < j < |s| ==> s[i].date <= s[j].date
  }

  // ---------------------------------------------------------------------------
  // Sorting the results newest first by date, keeping ties in input order.
  // ---------------------------------------------------------------------------

  /** Places `x` in front of the first match of `s` that is not newer than it. */
  function InsertNewestFirst(x: Match, s: seq<Match>): (r: seq<Match>)
    requires NewestFirst(s)
    ensures NewestFirst(r)
    ensures forall k :: 0 <= k < |r| ==> r[k].date <= x.date || (|s| > 0 && r[k].date <= s[0].date)
  {
    if |s| == 0 || x.date >= s[0].date then
      [x] + s
    else
      var rest := InsertNewestFirst(x, s[1..]);
      assert forall k :: 0 <= k < |rest| ==> rest[k].date <= s[0].date;
      [s[0]] + rest
  }

  /** Inserting adds exactly one copy of `x` and loses nothing. */
  lemma {:induction false} InsertAddsOne(x: Match, s: seq<Match>)
    requires NewestFirst(s)
    ensures multiset(InsertNewestFirst(x, s)) == multiset(s) + multiset{x}
  {
    if |s| > 0 && x.date < s[0].date {
      InsertAddsOne(x, s[1..]);
      assert s == [s[0]] + s[1..];
    }
  }

  /** Insertion sort, newest match first; matches on the same date keep their input order. */
  function SortNewestFirst(s: seq<Match>): (r: seq<Match>)
    ensures NewestFirst(r)
    ensures multiset(r) == multiset(s)
  {
    if |s| == 0 then []
    else
      var rest := SortNewestFirst(s[1..]);
      InsertAddsOne(s[0], rest);
      assert s == [s[0]] + s[1..];
      InsertNewestFirst(s[0], rest)
  }

  function OnDate(d: Timestamp): Match -> bool
  {
    (m: Match) => m.date == d
  }

  lemma {:induction false} InsertKeepsTies(x: Match, s: seq<Match>, d: Timestamp)
    requires NewestFirst(s)
    ensures Filter(InsertNewestFirst(x, s), OnDate(d))
         == if x.date == d then [x] + Filter(s, OnDate(d)) else Filter(s, OnDate(d))
  {
    if |s| == 0 || x.date >= s[0].date {
      assert ([x] + s)[1..] == s;
    } else {
      InsertKeepsTies(x, s[1..], d);
      var rest := InsertNewestFirst(x, s[1..]);
      assert ([s[0]] + rest)[1..] == rest;
    }
  }

  /** The sort is stable: the matches of any one date come out in the order they went in. */
  lemma {:induction false} SortIsStable(s: seq<Match>, d: Timestamp)
    ensures Filter(SortNewestFirst(s), OnDate(d)) == Filter(s, OnDate(d))
  {
    if |s| > 0 {
      SortIsStable(s[1..], d);
      InsertKeepsTies(s[0], SortNewestFirst(s[1..]), d);
    }
  }

  // ---------------------------------------------------------------------------
  // The two carousels and the banner.
  // ---------------------------------------------------------------------------

  /** "Próximos Jogos": the matches not yet started, in input order, at most ten. */
  function Upcoming(matches: seq<Match>, now: Timestamp): (r: seq<Match>)
    ensures |r| == Min(DisplayLimit, |Filter(matches, StartsAtOrAfter(now))|)
    ensures r == Filter(matches, StartsAtOrAfter(now))[..|r|]
    ensures forall i :: 0 <= i < |r| ==> r[i].date >= now && r[i] in matches
  {
    FilterCounts(matches, StartsAtOrAfter(now));
    var all := Filter(matches, StartsAtOrAfter(now));
    all[..Min(DisplayLimit, |all|)]
  }

  /** "Resultados": the matches already started, newest first, at most ten. */
  function Past(matches: seq<Match>, now: Timestamp): (r: seq<Match>)
    ensures |r| == Min(DisplayLimit, |Filter(matches, StartsBefore(now))|)
    ensures r == SortNewestFirst(Filter(matches, StartsBefore(now)))[..|r|]
    ensures NewestFirst(r)
    ensures forall i :: 0 <= i < |r| ==> r[i].date < now
    ensures multiset(r) <= multiset(matches)
  {
    var sorted := SortNewestFirst(Filter(matches, StartsBefore(now)));
    PlayedSorted(matches, now);
    PrefixKeepsShape(sorted, Min(DisplayLimit, |sorted|), matches, now);
    sorted[..Min(DisplayLimit, |sorted|)]
  }

  lemma PrefixKeepsShape(s: seq<Match>, k: nat, matches: seq<Match>, now: Timestamp)
    requires k <= |s|
    requires NewestFirst(s) && multiset(s) <= multiset(matches)
    requires forall i :: 0 <= i < |s| ==> s[i].date < now
    ensures NewestFirst(s[..k]) && multiset(s[..k]) <= multiset(matches)
    ensures forall i :: 0 <= i < k ==> s[..k][i].date < now
  {
    PrefixMultiset(s, k);
  }

  /** The sorted played matches all started before `now` and come from the input. */
  lemma PlayedSorted(matches: seq<Match>, now: Timestamp)
    ensures forall i :: 0 <= i < |SortNewestFirst(Filter(matches, StartsBefore(now)))| ==>
              SortNewestFirst(Filter(matches, StartsBefore(now)))[i].date < now
    ensures multiset(SortNewestFirst(Filter(matches, StartsBefore(now)))) <= multiset(matches)
  {
    var played := Filter(matches, StartsBefore(now));
    var sorted := SortNewestFirst(played);
    FilterCounts(matches, StartsBefore(now));
    forall i | 0 <= i < |sorted| ensures sorted[i].date < now {
      assert sorted[i] in multiset(played);
    }
  }

  /** The banner: the first match of the input that has not started, if any. */
  function NextMatch(matches: seq<Match>, now: Timestamp): (r: Option<Match>)
    ensures r.None? <==> forall m :: m in matches ==> m.date < now
    ensures r.Some? ==> r.value.date >= now
    ensures r.Some? ==> exists i :: 0 <= i < |matches| && matches[i] == r.value &&
                          forall j :: 0 <= j < i ==> matches[j].date < now
  {
    FilterCounts(matches, StartsAtOrAfter(now));
    var up := Upcoming(matches, now);
    if |up| == 0 then None
    else
      FilterHead(matches, StartsAtOrAfter(now));
      Some(up[0])
  }

  // ---------------------------------------------------------------------------
  // Properties relating the views.
  // ---------------------------------------------------------------------------

  /** Before truncation the two filters split the matches: every match is in
      exactly one of them, with every copy accounted for. */
  lemma UpcomingAndPastPartition(matches: seq<Match>, now: Timestamp)
    ensures multiset(Filter(matches, StartsAtOrAfter(now))) + multiset(Filter(matches, StartsBefore(now)))
         == multiset(matches)
    ensures forall m :: m in matches ==>
      (m in Filter(matches, StartsAtOrAfter(now)) <==> m !in Filter(matches, StartsBefore(now)))
    ensures forall m :: m in Upcoming(matches, now) ==> m !in Past(matches, now)
  {
    FilterCounts(matches, StartsAtOrAfter(now));
    FilterCounts(matches, StartsBefore(now));
    var up := multiset(Filter(matches, StartsAtOrAfter(now)));
    var past := multiset(Filter(matches, StartsBefore(now)));
    assert forall m :: (up + past)[m] == multiset(matches)[m];
  }

  /** With ten or fewer matches to come, the carousel shows every one of them. */
  lemma UpcomingCompleteBelowLimit(matches: seq<Match>, now: Timestamp)
    requires |Filter(matches, StartsAtOrAfter(now))| <= DisplayLimit
    ensures forall m :: m in matches && m.date >= now ==> m in Upcoming(matches, now)
  {
    FilterCounts(matches, StartsAtOrAfter(now));
  }

  /** The results carousel holds the most recent played matches: any played
      match left out is no newer than every match shown. */
  lemma PastIsMostRecent(matches: seq<Match>, now: Timestamp)
    ensures forall m, k ::
              m in matches && m.date < now && m !in Past(matches, now) && 0 <= k < |Past(matches, now)| ==>
                m.date <= Past(matches, now)[k].date
  {
    var played := Filter(matches, StartsBefore(now));
    var sorted := SortNewestFirst(played);
    var r := Past(matches, now);
    FilterCounts(matches, StartsBefore(now));
    forall m, k | m in matches && m.date < now && m !in r && 0 <= k < |r|
      ensures m.date <= r[k].date
    {
      var j := PositionOf(sorted, m);
      assert r == sorted[..|r|];
      assert j >= |r| by {
        assert forall t :: 0 <= t < |r| ==> r[t] == sorted[t];
      }
      assert r[k] == sorted[k];
    }
  }

  /** A position at which `x` occurs in `s`. */
  lemma PositionOf(s: seq<Match>, x: Match) returns (j: nat)
    requires x in multiset(s)
    ensures j < |s| && s[j] == x
  {
    j :| 0 <= j < |s| && s[j] == x;
  }

  /** The matches come ordered by date from the backend (App.tsx:98); then the
      upcoming carousel is in date order and the banner shows the soonest match. */
  lemma UpcomingSoonestFirst(matches: seq<Match>, now: Timestamp)
    requires OldestFirst(matches)
    ensures OldestFirst(Upcoming(matches, now))
    ensures NextMatch(matches, now).Some? ==>
      forall m :: m in matches && m.date >= now ==> NextMatch(matches, now).value.date <= m.date
  {
    FilterKeepsOldestFirst(matches, StartsAtOrAfter(now));
    if NextMatch(matches, now).Some? {
      NextIsSoonest(matches, now);
    }
  }

  /** Filtering a list in date order leaves it in date order. */
  lemma FilterKeepsOldestFirst(matches: seq<Match>, p: Match -> bool)
    requires OldestFirst(matches)
    ensures OldestFirst(Filter(matches, p))
  {
    var all := Filter(matches, p);
    var idx := FilterIsSubsequence(matches, p);
    forall i, j | 0 <= i < j < |all| ensures all[i].date <= all[j].date {
      assert matches[idx[i]] == all[i] && matches[idx[j]] == all[j];
    }
  }

  /** On a list in date order, the first match to come is the soonest one. */
  lemma NextIsSoonest(matches: seq<Match>, now: Timestamp)
    requires OldestFirst(matches)
    requires NextMatch(matches, now).Some?
    ensures forall m :: m in matches && m.date >= now ==> NextMatch(matches, now).value.date <= m.date
  {
    var next := NextMatch(matches, now).value;
    var i :| 0 <= i < |matches| && matches[i] == next && forall j :: 0 <= j < i ==> matches[j].date < now;
    forall m | m in matches && m.date >= now ensures next.date <= m.date {
      var k :| 0 <= k < |matches| && matches[k] == m;
      assert k >= i;
    }
  }

  // ---------------------------------------------------------------------------
  // Result emphasis.
  // ---------------------------------------------------------------------------

  /** Which team names of a result are drawn in the highlight colour. */
  datatype Emphasis = Emphasis(home: bool, guest: bool)

  /** `a! > b!` on two possibly absent scores: an absent score is `undefined`,
      and any comparison with `undefined` is false. */
  predicate Beats(a: Option<int>, b: Option<int>)
  {
    match (a, b)
    case (Some(x), Some(y)) => x > y
    case _ => false
  }

  function ResultEmphasis(m: Match): (e: Emphasis)
    ensures e.home <==> m.scoreHome.Some? && m.scoreGuest.Some? && m.scoreHome.value > m.scoreGuest.value
    ensures e.guest <==> m.scoreHome.Some? && m.scoreGuest.Some? && m.scoreGuest.value > m.scoreHome.value
  {
    Emphasis(Beats(m.scoreHome, m.scoreGuest), Beats(m.scoreGuest, m.scoreHome))
  }

  /** At most one side is emphasised; on a draw or a missing score neither is;
      and with both scores known and different exactly one is. */
  lemma EmphasisIsExclusive(m: Match)
    ensures !(ResultEmphasis(m).home && ResultEmphasis(m).guest)
    ensures m.scoreHome.None? || m.scoreGuest.None? || m.scoreHome == m.scoreGuest
      ==> ResultEmphasis(m) == Emphasis(false, false)
    ensures m.scoreHome.Some? && m.scoreGuest.Some? && m.scoreHome != m.scoreGuest
      ==> ResultEmphasis(m).home != ResultEmphasis(m).guest
  {
  }
}
