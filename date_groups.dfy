/** `group_by_date`: (path, time) pairs are stably sorted by time and then
    cut into maximal runs with the same calendar date. A time is a naive
    local datetime: a date and a time of day, ordered date first, as Python
    orders `datetime` values. */
module DateGroups {

  const MicrosPerDay: int := 86_400_000_000

  /** Microseconds since midnight. */
  newtype TimeOfDay = x: int | 0 <= x < MicrosPerDay

  /** A naive local `datetime`; `date` counts days. */
  datatype DateTime = DateTime(date: int, clock: TimeOfDay)

  /** `a <= b` on datetimes. */
  predicate NotAfter(a: DateTime, b: DateTime) {
    a.date < b.date || (a.date == b.date && a.clock <= b.clock)
  }

  /** `a < b` on datetimes. */
  predicate Before(a: DateTime, b: DateTime) {
    !NotAfter(b, a)
  }

  /** `datetime.date()`, as a day number. */
  function Day(t: DateTime): int {
    t.date
  }

  datatype TimedPath = TimedPath(path: string, time: DateTime)

  /** One entry of the resulting dictionary: a date and its paths. */
  datatype DateGroup = DateGroup(date: int, paths: seq<string>)

  predicate SortedByTime(s: seq<TimedPath>) {
    forall i, j :: 0 <= i < j < |s| ==> NotAfter(s[i].time, s[j].time)
  }

  function PathsOf(s: seq<TimedPath>): seq<string> {
    if s == [] then [] else [s[0].path] + PathsOf(s[1..])
  }

  lemma SortedSuffix(s: seq<TimedPath>, n: nat)
    requires SortedByTime(s) && n <= |s|
    ensures SortedByTime(s[n..])
  {
    forall i, j | 0 <= i < j < |s| - n ensures NotAfter(s[n..][i].time, s[n..][j].time) {
      assert s[n..][i] == s[i + n] && s[n..][j] == s[j + n];
    }
  }

  /** Inserts `x` into a sorted sequence after every element whose time is not
      later than its own. */
  function Insert(s: seq<TimedPath>, x: TimedPath): (r: seq<TimedPath>)
    ensures |r| == |s| + 1
  {
    if s == [] then [x]
    else if Before(x.time, s[0].time) then [x] + s
    else [s[0]] + Insert(s[1..], x)
  }

  /** Insertion keeps the sequence sorted and adds `x` once. */
  lemma {:induction false} InsertFacts(s: seq<TimedPath>, x: TimedPath)
    requires SortedByTime(s)
    ensures SortedByTime(Insert(s, x))
    ensures multiset(Insert(s, x)) == multiset(s) + multiset{x}
  {
    if s == [] {
    } else if Before(x.time, s[0].time) {
      InsertFront(s, x);
    } else {
      SortedSuffix(s, 1);
      InsertFacts(s[1..], x);
      var tail := Insert(s[1..], x);
      assert Insert(s, x) == [s[0]] + tail;
      assert s == [s[0]] + s[1..];
      forall i | 0 <= i < |s[1..]| ensures NotAfter(s[0].time, s[1..][i].time) {
        assert s[1..][i] == s[i + 1];
      }
      InsertBound(s[1..], x, s[0].time);
      SortedCons(s[0], tail);
    }
  }

  lemma InsertFront(s: seq<TimedPath>, x: TimedPath)
    requires SortedByTime(s) && s != [] && Before(x.time, s[0].time)
    ensures SortedByTime(Insert(s, x))
    ensures multiset(Insert(s, x)) == multiset(s) + multiset{x}
  {
    var r := [x] + s;
    assert Insert(s, x) == r;
    forall i, j | 0 <= i < j < |r| ensures NotAfter(r[i].time, r[j].time) {
      assert r[j] == s[j - 1];
      if i > 0 {
        assert r[i] == s[i - 1];
      } else {
        assert NotAfter(s[0].time, s[j - 1].time);
      }
    }
  }

  /** A sorted sequence after an entry no later than any of it is sorted. */
  lemma SortedCons(y: TimedPath, t: seq<TimedPath>)
    requires SortedByTime(t) && forall k :: 0 <= k < |t| ==> NotAfter(y.time, t[k].time)
    ensures SortedByTime([y] + t)
  {
    var r := [y] + t;
    forall i, j | 0 <= i < j < |r| ensures NotAfter(r[i].time, r[j].time) {
      assert r[j] == t[j - 1];
      if i > 0 {
        assert r[i] == t[i - 1];
      }
    }
  }

  /** A lower bound of the sequence and of `x` bounds the insertion too. */
  lemma {:induction false} InsertBound(s: seq<TimedPath>, x: TimedPath, t: DateTime)
    requires forall i :: 0 <= i < |s| ==> NotAfter(t, s[i].time)
    requires NotAfter(t, x.time)
    ensures forall k :: 0 <= k < |Insert(s, x)| ==> NotAfter(t, Insert(s, x)[k].time)
  {
    if s != [] {
      if Before(x.time, s[0].time) {
        var r := [x] + s;
        assert Insert(s, x) == r;
        forall k | 0 <= k < |r| ensures NotAfter(t, r[k].time) {
          if k > 0 { assert r[k] == s[k - 1]; }
        }
      } else {
        var tail := Insert(s[1..], x);
        forall i | 0 <= i < |s[1..]| ensures NotAfter(t, s[1..][i].time) {
          assert s[1..][i] == s[i + 1];
        }
        InsertBound(s[1..], x, t);
        var r := [s[0]] + tail;
        assert Insert(s, x) == r;
        forall k | 0 <= k < |r| ensures NotAfter(t, r[k].time) {
          if k > 0 { assert r[k] == tail[k - 1]; }
        }
      }
    }
  }

  /** Python's `sorted(..., key=time)`: a stable sort by time. Any two stable
      sorts agree, so insertion sort stands for it. */
  function SortByTime(s: seq<TimedPath>): (r: seq<TimedPath>)
    ensures |r| == |s|
  {
    if s == [] then []
    else Insert(SortByTime(s[..|s| - 1]), s[|s| - 1])
  }

  /** The sort's result is sorted and a permutation of its input. */
  lemma {:induction false} SortFacts(s: seq<TimedPath>)
    ensures SortedByTime(SortByTime(s))
    ensures multiset(SortByTime(s)) == multiset(s)
    decreases |s|
  {
    if s != [] {
      var init, x := s[..|s| - 1], s[|s| - 1];
      assert s == init + [x];
      SortFacts(init);
      InsertFacts(SortByTime(init), x);
    }
  }

  /** The entries with time exactly `t`, in order. */
  function AtTime(s: seq<TimedPath>, t: DateTime): seq<TimedPath> {
    if s == [] then [] else (if s[0].time == t then [s[0]] else []) + AtTime(s[1..], t)
  }

  /** The entries dated `d`, in order. */
  function OnDay(s: seq<TimedPath>, d: int): seq<TimedPath> {
    if s == [] then [] else (if Day(s[0].time) == d then [s[0]] else []) + OnDay(s[1..], d)
  }

  /** The first entry dated `d` is an entry of the input. */
  lemma {:induction false} OnDayHead(s: seq<TimedPath>, d: int)
    requires OnDay(s, d) != []
    ensures exists i :: 0 <= i < |s| && s[i] == OnDay(s, d)[0]
  {
    if Day(s[0].time) != d {
      OnDayHead(s[1..], d);
      var i :| 0 <= i < |s[1..]| && s[1..][i] == OnDay(s[1..], d)[0];
      assert s[i + 1] == s[1..][i];
    }
  }

  lemma {:induction false} AtTimeAppend(a: seq<TimedPath>, b: seq<TimedPath>, t: DateTime)
    ensures AtTime(a + b, t) == AtTime(a, t) + AtTime(b, t)
  {
    if a == [] {
      assert a + b == b;
    } else {
      assert (a + b)[1..] == a[1..] + b;
      AtTimeAppend(a[1..], b, t);
    }
  }

  lemma {:induction false} OnDayAppend(a: seq<TimedPath>, b: seq<TimedPath>, d: int)
    ensures OnDay(a + b, d) == OnDay(a, d) + OnDay(b, d)
  {
    if a == [] {
      assert a + b == b;
    } else {
      var h := if Day(a[0].time) == d then [a[0]] else [];
      assert (a + b)[0] == a[0] && (a + b)[1..] == a[1..] + b;
      OnDayAppend(a[1..], b, d);
      assert OnDay(a + b, d) == h + (OnDay(a[1..], d) + OnDay(b, d));
      assert h + (OnDay(a[1..], d) + OnDay(b, d)) == (h + OnDay(a[1..], d)) + OnDay(b, d);
    }
  }

  lemma {:induction false} PathsOfAppend(a: seq<TimedPath>, b: seq<TimedPath>)
    ensures PathsOf(a + b) == PathsOf(a) + PathsOf(b)
  {
    if a == [] {
      assert a + b == b;
    } else {
      assert (a + b)[1..] == a[1..] + b;
      PathsOfAppend(a[1..], b);
    }
  }

  lemma {:induction false} AtTimeNone(s: seq<TimedPath>, t: DateTime)
    requires forall i :: 0 <= i < |s| ==> s[i].time != t
    ensures AtTime(s, t) == []
  {
    if s != [] {
      AtTimeNone(s[1..], t);
    }
  }

  /** Inserting `x` appends it to the entries with its own time. */
  lemma {:induction false} InsertAtTime(s: seq<TimedPath>, x: TimedPath, t: DateTime)
    requires SortedByTime(s)
    ensures AtTime(Insert(s, x), t) == if x.time == t then AtTime(s, t) + [x] else AtTime(s, t)
  {
    if s == [] {
      assert AtTime([x], t) == (if x.time == t then [x] else []) + AtTime([], t);
    } else if Before(x.time, s[0].time) {
      InsertAtTimeFront(s, x, t);
    } else {
      SortedSuffix(s, 1);
      InsertAtTime(s[1..], x, t);
      var tail := Insert(s[1..], x);
      assert Insert(s, x) == [s[0]] + tail;
      assert ([s[0]] + tail)[0] == s[0] && ([s[0]] + tail)[1..] == tail;
    }
  }

  /** An `x` earlier than every entry shares its time with none of them. */
  lemma InsertAtTimeFront(s: seq<TimedPath>, x: TimedPath, t: DateTime)
    requires SortedByTime(s) && s != [] && Before(x.time, s[0].time)
    ensures AtTime(Insert(s, x), t) == if x.time == t then AtTime(s, t) + [x] else AtTime(s, t)
  {
    assert Insert(s, x) == [x] + s;
    assert ([x] + s)[0] == x && ([x] + s)[1..] == s;
    if x.time == t {
      forall i | 0 <= i < |s| ensures s[i].time != t {
        assert NotAfter(s[0].time, s[i].time);
      }
      AtTimeNone(s, t);
    }
  }

  /** Stability: the entries sharing a timestamp keep their input order. */
  lemma {:induction false} SortIsStable(s: seq<TimedPath>, t: DateTime)
    ensures AtTime(SortByTime(s), t) == AtTime(s, t)
    decreases |s|
  {
    if s != [] {
      var init, x := s[..|s| - 1], s[|s| - 1];
      assert s == init + [x];
      assert SortByTime(s) == Insert(SortByTime(init), x);
      SortIsStable(init, t);
      InsertAtTimeSorted(init, x, t);
      AtTimeAppend(init, [x], t);
      assert AtTime([x], t) == (if x.time == t then [x] else []) + AtTime([], t);
    }
  }

  lemma InsertAtTimeSorted(init: seq<TimedPath>, x: TimedPath, t: DateTime)
    ensures AtTime(Insert(SortByTime(init), x), t) == if x.time == t then AtTime(SortByTime(init), t) + [x] else AtTime(SortByTime(init), t)
  {
    SortFacts(init);
    InsertAtTime(SortByTime(init), x, t);
  }

  /** Inserting `x` inserts it among the entries of its own date. */
  lemma {:induction false} InsertOnDay(s: seq<TimedPath>, x: TimedPath, d: int)
    requires SortedByTime(s)
    ensures OnDay(Insert(s, x), d) == if Day(x.time) == d then Insert(OnDay(s, d), x) else OnDay(s, d)
  {
    if s == [] {
      assert OnDay([x], d) == (if Day(x.time) == d then [x] else []) + OnDay([], d);
    } else if Before(x.time, s[0].time) {
      InsertOnDayFront(s, x, d);
    } else {
      SortedSuffix(s, 1);
      InsertOnDay(s[1..], x, d);
      InsertOnDayBehind(s, x, d);
    }
  }

  /** `x` goes in front of a sorted sequence, so also in front of its
      entries of any date. */
  lemma InsertOnDayFront(s: seq<TimedPath>, x: TimedPath, d: int)
    requires SortedByTime(s) && s != [] && Before(x.time, s[0].time)
    ensures OnDay(Insert(s, x), d) == if Day(x.time) == d then Insert(OnDay(s, d), x) else OnDay(s, d)
  {
    var o := OnDay(s, d);
    assert Insert(s, x) == [x] + s;
    assert ([x] + s)[0] == x && ([x] + s)[1..] == s;
    if Day(x.time) == d && o != [] {
      assert Before(x.time, o[0].time) by {
        OnDayHead(s, d);
        var i :| 0 <= i < |s| && s[i] == o[0];
        assert NotAfter(s[0].time, s[i].time);
      }
      assert Insert(o, x) == [x] + o;
    }
  }

  /** `x` goes after the first entry: the result follows from the tail's. */
  lemma InsertOnDayBehind(s: seq<TimedPath>, x: TimedPath, d: int)
    requires s != [] && !Before(x.time, s[0].time)
    requires OnDay(Insert(s[1..], x), d) == if Day(x.time) == d then Insert(OnDay(s[1..], d), x) else OnDay(s[1..], d)
    ensures OnDay(Insert(s, x), d) == if Day(x.time) == d then Insert(OnDay(s, d), x) else OnDay(s, d)
  {
    var tail := Insert(s[1..], x);
    assert Insert(s, x) == [s[0]] + tail;
    assert ([s[0]] + tail)[0] == s[0] && ([s[0]] + tail)[1..] == tail;
    var o, o' := OnDay(s, d), OnDay(s[1..], d);
    if Day(s[0].time) == d {
      assert o == [s[0]] + o';
      assert o[0] == s[0] && o[1..] == o';
    } else {
      assert o == o';
    }
  }

  /** Taking the entries of one date commutes with the stable sort: a date's
      group is its entries sorted by time, ties in input order. */
  lemma {:induction false} OnDayOfSorted(s: seq<TimedPath>, d: int)
    ensures OnDay(SortByTime(s), d) == SortByTime(OnDay(s, d))
    decreases |s|
  {
    if s != [] {
      var init, x := s[..|s| - 1], s[|s| - 1];
      assert s == init + [x];
      assert SortByTime(s) == Insert(SortByTime(init), x);
      OnDayOfSorted(init, d);
      SortFacts(init);
      InsertOnDay(SortByTime(init), x, d);
      OnDayAppend(init, [x], d);
      assert OnDay([x], d) == (if Day(x.time) == d then [x] else []) + OnDay([], d);
      if Day(x.time) == d {
        var o := OnDay(init, d) + [x];
        assert o[..|o| - 1] == OnDay(init, d) && o[|o| - 1] == x;
        assert SortByTime(o) == Insert(SortByTime(OnDay(init, d)), x);
      } else {
        assert OnDay(init, d) + [] == OnDay(init, d);
      }
    }
  }

  lemma PathsOfCons(y: TimedPath, t: seq<TimedPath>)
    ensures PathsOf([y] + t) == [y.path] + PathsOf(t)
  {
    assert ([y] + t)[0] == y && ([y] + t)[1..] == t;
  }

  /** Insertion adds the path of `x` once. */
  lemma {:induction false} InsertPaths(s: seq<TimedPath>, x: TimedPath)
    ensures multiset(PathsOf(Insert(s, x))) == multiset(PathsOf(s)) + multiset{x.path}
  {
    if s == [] {
      PathsOfCons(x, []);
      assert Insert(s, x) == [x] + [];
    } else if Before(x.time, s[0].time) {
      PathsOfCons(x, s);
      assert Insert(s, x) == [x] + s;
    } else {
      var tail := Insert(s[1..], x);
      assert Insert(s, x) == [s[0]] + tail;
      InsertPaths(s[1..], x);
      PathsOfCons(s[0], tail);
      PathsOfCons(s[0], s[1..]);
      assert s == [s[0]] + s[1..];
    }
  }

  /** Sorting moves paths but keeps each one as often as it was there. */
  lemma {:induction false} SortKeepsPaths(s: seq<TimedPath>)
    ensures multiset(PathsOf(SortByTime(s))) == multiset(PathsOf(s))
    decreases |s|
  {
    if s != [] {
      var init, x := s[..|s| - 1], s[|s| - 1];
      assert s == init + [x];
      SortKeepsPaths(init);
      InsertPaths(SortByTime(init), x);
      PathsOfAppend(init, [x]);
      assert PathsOf([x]) == [x.path] + PathsOf([]);
    }
  }

  /** The number of leading entries dated `d`. */
  function TakeDay(s: seq<TimedPath>, d: int): (n: nat)
    ensures n <= |s|
    ensures s != [] && Day(s[0].time) == d ==> n >= 1
  {
    if s == [] || Day(s[0].time) != d then 0 else 1 + TakeDay(s[1..], d)
  }

  /** The leading entries counted all have date `d`, and the next one does
      not. */
  lemma {:induction false} TakeDayIsRun(s: seq<TimedPath>, d: int)
    ensures forall i :: 0 <= i < TakeDay(s, d) ==> Day(s[i].time) == d
    ensures TakeDay(s, d) < |s| ==> Day(s[TakeDay(s, d)].time) != d
    decreases |s|
  {
    if s != [] && Day(s[0].time) == d {
      TakeDayIsRun(s[1..], d);
      forall i | 1 <= i < TakeDay(s, d) ensures Day(s[i].time) == d {
        assert s[i] == s[1..][i - 1];
      }
      if TakeDay(s, d) < |s| {
        assert s[TakeDay(s, d)] == s[1..][TakeDay(s[1..], d)];
      }
    }
  }

  /** `itertools.groupby` by date: maximal runs of equal date, in order. */
  function Runs(s: seq<TimedPath>): seq<DateGroup>
    decreases |s|
  {
    if s == [] then []
    else
      var d := Day(s[0].time);
      var n := TakeDay(s, d);
      [DateGroup(d, PathsOf(s[..n]))] + Runs(s[n..])
  }

  function Concat(groups: seq<DateGroup>): seq<string> {
    if groups == [] then [] else groups[0].paths + Concat(groups[1..])
  }

  function Days(s: seq<TimedPath>): set<int> {
    set i | 0 <= i < |s| :: Day(s[i].time)
  }

  function GroupDates(groups: seq<DateGroup>): set<int> {
    set k | 0 <= k < |groups| :: groups[k].date
  }

  /** The groups hold every path once, in sorted order. */
  lemma {:induction false} RunsConcat(s: seq<TimedPath>)
    ensures Concat(Runs(s)) == PathsOf(s)
    decreases |s|
  {
    if s != [] {
      var n := TakeDay(s, Day(s[0].time));
      RunsConcat(s[n..]);
      assert s == s[..n] + s[n..];
      PathsOfAppend(s[..n], s[n..]);
      var g := Runs(s);
      assert g[1..] == Runs(s[n..]);
    }
  }

  lemma {:induction false} OnDayAll(s: seq<TimedPath>, d: int)
    requires forall i :: 0 <= i < |s| ==> Day(s[i].time) == d
    ensures OnDay(s, d) == s
  {
    if s != [] {
      OnDayAll(s[1..], d);
      assert s == [s[0]] + s[1..];
    }
  }

  lemma {:induction false} OnDayNone(s: seq<TimedPath>, d: int)
    requires forall i :: 0 <= i < |s| ==> Day(s[i].time) != d
    ensures OnDay(s, d) == []
  {
    if s != [] {
      OnDayNone(s[1..], d);
    }
  }

  /** When no entry after the run has its date, the run is the whole of
      that date's subsequence. */
  lemma TakeDayOnDay(s: seq<TimedPath>, d: int)
    requires forall i :: TakeDay(s, d) <= i < |s| ==> Day(s[i].time) != d
    ensures OnDay(s, d) == s[..TakeDay(s, d)]
  {
    var n := TakeDay(s, d);
    var a, b := s[..n], s[n..];
    TakeDayIsRun(s, d);
    assert s == a + b;
    forall i | 0 <= i < |a| ensures Day(a[i].time) == d {
      assert a[i] == s[i];
    }
    forall i | 0 <= i < |b| ensures Day(b[i].time) != d {
      assert b[i] == s[n + i];
    }
    OnDayAll(a, d);
    OnDayNone(b, d);
    OnDayAppend(a, b, d);
  }

  /** After the first run of a sorted sequence the rest is still sorted, and
      every later entry has a later date. */
  lemma RunsSplit(s: seq<TimedPath>)
    requires SortedByTime(s) && s != []
    ensures SortedByTime(s[TakeDay(s, Day(s[0].time))..])
    ensures forall i :: TakeDay(s, Day(s[0].time)) <= i < |s| ==> Day(s[i].time) > Day(s[0].time)
  {
    var n := TakeDay(s, Day(s[0].time));
    TakeDayIsRun(s, Day(s[0].time));
    SortedSuffix(s, n);
    forall i | n <= i < |s| ensures Day(s[i].time) > Day(s[0].time) {
      assert NotAfter(s[0].time, s[n].time) && NotAfter(s[n].time, s[i].time);
    }
  }

  lemma LaterDays(s: seq<TimedPath>, n: nat, d: int)
    requires n <= |s| && forall i :: n <= i < |s| ==> Day(s[i].time) > d
    ensures forall e :: e in Days(s[n..]) ==> e > d
  {
    forall e | e in Days(s[n..]) ensures e > d {
      var i :| 0 <= i < |s[n..]| && Day(s[n..][i].time) == e;
      assert s[n..][i] == s[n + i];
    }
  }

  /** The group dates are exactly the dates of the input. */
  lemma {:induction false} RunsDates(s: seq<TimedPath>)
    ensures GroupDates(Runs(s)) == Days(s)
    decreases |s|
  {
    if s != [] {
      var d := Day(s[0].time);
      var n := TakeDay(s, d);
      var rest := s[n..];
      var g := Runs(s);
      assert g == [DateGroup(d, PathsOf(s[..n]))] + Runs(rest);
      TakeDayIsRun(s, d);
      RunsDates(rest);
      DaysSplit(s, n, d);
      GroupDatesCons(DateGroup(d, PathsOf(s[..n])), Runs(rest));
    }
  }

  /** The dates of a sequence whose first `n` entries, at least one, are
      dated `d`. */
  lemma DaysSplit(s: seq<TimedPath>, n: nat, d: int)
    requires 0 < n <= |s| && forall i :: 0 <= i < n ==> Day(s[i].time) == d
    ensures Days(s) == {d} + Days(s[n..])
  {
    var rest := s[n..];
    forall i | 0 <= i < |s| ensures Day(s[i].time) in {d} + Days(rest) {
      if i >= n { assert s[i] == rest[i - n]; }
    }
    forall e | e in Days(rest) ensures e in Days(s) {
      var i :| 0 <= i < |rest| && Day(rest[i].time) == e;
      assert s[n + i] == rest[i];
    }
    assert Day(s[0].time) in Days(s);
  }

  lemma GroupDatesCons(g0: DateGroup, g': seq<DateGroup>)
    ensures GroupDates([g0] + g') == {g0.date} + GroupDates(g')
  {
    var g := [g0] + g';
    forall e | e in GroupDates(g') ensures e in GroupDates(g) {
      var k :| 0 <= k < |g'| && g'[k].date == e;
      assert g[k + 1] == g'[k];
    }
    forall k | 0 <= k < |g| ensures g[k].date in {g0.date} + GroupDates(g') {
      if k > 0 { assert g[k] == g'[k - 1]; }
    }
    assert g[0].date == g0.date;
  }

  /** On sorted input the group dates are strictly ascending. */
  lemma {:induction false} RunsAscending(s: seq<TimedPath>)
    requires SortedByTime(s)
    ensures forall k, k' :: 0 <= k < k' < |Runs(s)| ==> Runs(s)[k].date < Runs(s)[k'].date
    decreases |s|
  {
    if s != [] {
      var d := Day(s[0].time);
      var n := TakeDay(s, d);
      var rest := s[n..];
      var g := Runs(s);
      var g' := Runs(rest);
      assert g == [DateGroup(d, PathsOf(s[..n]))] + g';
      RunsSplit(s);
      LaterDays(s, n, d);
      RunsAscending(rest);
      RunsDates(rest);
      forall k, k' | 0 <= k < k' < |g| ensures g[k].date < g[k'].date {
        assert g[k'] == g'[k' - 1];
        assert g[k'].date in Days(rest) by {
          assert g[k'].date in GroupDates(g');
        }
        if k > 0 { assert g[k] == g'[k - 1]; }
      }
    }
  }

  /** Entries of other dates in front do not change a date's entries. */
  lemma OnDaySkip(s: seq<TimedPath>, n: nat, e: int)
    requires n <= |s| && forall i :: 0 <= i < n ==> Day(s[i].time) != e
    ensures OnDay(s, e) == OnDay(s[n..], e)
  {
    assert s == s[..n] + s[n..];
    OnDayNone(s[..n], e);
    OnDayAppend(s[..n], s[n..], e);
  }

  /** On sorted input group `k` holds exactly the paths of its date, and is
      not empty. */
  lemma {:induction false} RunPaths(s: seq<TimedPath>, k: nat)
    requires SortedByTime(s) && k < |Runs(s)|
    ensures Runs(s)[k].paths == PathsOf(OnDay(s, Runs(s)[k].date))
    ensures Runs(s)[k].paths != []
    decreases |s|
  {
    var d := Day(s[0].time);
    var n := TakeDay(s, d);
    var rest := s[n..];
    var g' := Runs(rest);
    assert Runs(s) == [DateGroup(d, PathsOf(s[..n]))] + g';
    RunsSplit(s);
    if k == 0 {
      TakeDayOnDay(s, d);
      assert s[..n] == [s[0]] + s[..n][1..];
    } else {
      RunPaths(rest, k - 1);
      var e := g'[k - 1].date;
      RunsDates(rest);
      assert e in GroupDates(g');
      LaterDays(s, n, d);
      TakeDayIsRun(s, d);
      OnDaySkip(s, n, e);
    }
  }

  lemma TakeDayStep(s: seq<TimedPath>, j: nat, d: int)
    requires j < |s| && Day(s[j].time) == d
    ensures TakeDay(s[j..], d) == 1 + TakeDay(s[j + 1..], d)
  {
    assert s[j..][1..] == s[j + 1..];
  }

  lemma PathsOfSnoc(s: seq<TimedPath>, i: nat, j: nat)
    requires i <= j < |s|
    ensures PathsOf(s[i..j + 1]) == PathsOf(s[i..j]) + [s[j].path]
  {
    assert s[i..j + 1] == s[i..j] + [s[j]];
    PathsOfAppend(s[i..j], [s[j]]);
    assert PathsOf([s[j]]) == [s[j].path] + PathsOf([]);
  }

  /** One turn of the outer loop: the run starting at `i` ends at `j`. */
  lemma RunsStep(s: seq<TimedPath>, i: nat, j: nat)
    requires i < j <= |s|
    requires TakeDay(s[i..], Day(s[i].time)) == j - i
    ensures Runs(s[i..]) == [DateGroup(Day(s[i].time), PathsOf(s[i..j]))] + Runs(s[j..])
  {
    var rest := s[i..];
    assert rest[..j - i] == s[i..j];
    assert rest[j - i..] == s[j..];
  }

  /** The inner loop of `group_by_date`: collects the paths of the run that
      starts at `i` and returns where the next run starts. */
  method TakeRun(s: seq<TimedPath>, i: nat) returns (j: nat, paths: seq<string>)
    requires i < |s|
    ensures i < j <= |s| && j - i == TakeDay(s[i..], Day(s[i].time))
    ensures paths == PathsOf(s[i..j])
  {
    var date := Day(s[i].time);
    paths := [];
    j := i;
    while j < |s| && Day(s[j].time) == date
      invariant i <= j <= |s|
      invariant TakeDay(s[i..], date) == (j - i) + TakeDay(s[j..], date)
      invariant paths == PathsOf(s[i..j])
    {
      TakeDayStep(s, j, date);
      PathsOfSnoc(s, i, j);
      paths := paths + [s[j].path];
      j := j + 1;
    }
  }

  /** `group_by_date`: sorts the pairs, then turns each run of one date into
      an entry date -> paths. */
  method GroupByDate(contents: seq<TimedPath>) returns (groups: seq<DateGroup>)
    ensures groups == Runs(SortByTime(contents))
  {
    var sorted := SortByTime(contents);
    groups := [];
    var i := 0;
    while i < |sorted|
      invariant 0 <= i <= |sorted|
      invariant groups + Runs(sorted[i..]) == Runs(sorted)
    {
      var j, paths := TakeRun(sorted, i);
      RunsStep(sorted, i, j);
      groups := groups + [DateGroup(Day(sorted[i].time), paths)];
      i := j;
    }
    assert sorted[i..] == [];
  }

  /** What `group_by_date` promises: dates come out strictly ascending, so no
      date is a key twice; the keys are exactly the dates of the input; each
      date's paths are its entries stably sorted by time; and together the
      groups hold every input path, as often as the input does. */
  lemma GroupByDateCorrect(contents: seq<TimedPath>)
    ensures var g := Runs(SortByTime(contents));
      (forall k, k' :: 0 <= k < k' < |g| ==> g[k].date < g[k'].date) &&
      GroupDates(g) == Days(contents) &&
      (forall k :: 0 <= k < |g| ==>
        (g[k].paths != [] && g[k].paths == PathsOf(SortByTime(OnDay(contents, g[k].date))))) &&
      multiset(Concat(g)) == multiset(PathsOf(contents))
  {
    var sorted := SortByTime(contents);
    var g := Runs(sorted);
    SortFacts(contents);
    RunsAscending(sorted);
    RunsDates(sorted);
    SortKeepsDays(contents);
    RunsConcat(sorted);
    SortKeepsPaths(contents);
    forall k | 0 <= k < |g|
      ensures g[k].paths != [] && g[k].paths == PathsOf(SortByTime(OnDay(contents, g[k].date)))
    {
      GroupPaths(contents, k);
    }
  }

  /** Group `k` of the sorted input is its date's entries, stably sorted. */
  lemma GroupPaths(contents: seq<TimedPath>, k: nat)
    requires k < |Runs(SortByTime(contents))|
    ensures var g := Runs(SortByTime(contents));
      g[k].paths != [] && g[k].paths == PathsOf(SortByTime(OnDay(contents, g[k].date)))
  {
    SortFacts(contents);
    RunPaths(SortByTime(contents), k);
    OnDayOfSorted(contents, Runs(SortByTime(contents))[k].date);
  }

  /** Sorting keeps the set of dates. */
  lemma SortKeepsDays(s: seq<TimedPath>)
    ensures Days(SortByTime(s)) == Days(s)
  {
    var sorted := SortByTime(s);
    SortFacts(s);
    forall e | e in Days(sorted) ensures e in Days(s) {
      var i :| 0 <= i < |sorted| && Day(sorted[i].time) == e;
      assert sorted[i] in multiset(s);
      var j :| 0 <= j < |s| && s[j] == sorted[i];
    }
    forall e | e in Days(s) ensures e in Days(sorted) {
      var i :| 0 <= i < |s| && Day(s[i].time) == e;
      assert s[i] in multiset(sorted);
      var j :| 0 <= j < |sorted| && sorted[j] == s[i];
    }
  }

  const Hour: TimeOfDay := 3_600_000_000

  /** Three photos over two days, listed out of order: 2024-01-01 (day 19723)
      10:00 and 15:00, and 2024-01-02 09:00. */
  function ExampleA(): TimedPath { TimedPath("a", DateTime(19723, 10 * Hour)) }
  function ExampleB(): TimedPath { TimedPath("b", DateTime(19723, 15 * Hour)) }
  function ExampleC(): TimedPath { TimedPath("c", DateTime(19724, 9 * Hour)) }

  lemma ExampleSort()
    ensures SortByTime([ExampleC(), ExampleB(), ExampleA()]) == [ExampleA(), ExampleB(), ExampleC()]
  {
    var a, b, c := ExampleA(), ExampleB(), ExampleC();
    assert [c, b, a][..2] == [c, b] && [c, b][..1] == [c] && [c][..0] == [];
    assert SortByTime([c]) == [c];
    assert SortByTime([c, b]) == Insert([c], b) == [b, c];
    assert Insert([b, c], a) == [a, b, c];
  }

  lemma ExampleRuns()
    ensures Runs([ExampleA(), ExampleB(), ExampleC()]) == [DateGroup(19723, ["a", "b"]), DateGroup(19724, ["c"])]
  {
    var a, b, c := ExampleA(), ExampleB(), ExampleC();
    var s := [a, b, c];
    assert s[1..] == [b, c] && [b, c][1..] == [c] && [c][1..] == [];
    assert TakeDay([c], 19723) == 0;
    assert TakeDay([b, c], 19723) == 1;
    assert TakeDay(s, 19723) == 2;
    assert s[..2] == [a, b] && s[2..] == [c];
    assert [a, b][1..] == [b] && [b][1..] == [];
    assert PathsOf([b]) == [b.path] + PathsOf([]);
    assert PathsOf([a, b]) == [a.path] + PathsOf([b]);
    assert TakeDay([c], 19724) == 1;
    assert [c][..1] == [c];
    assert PathsOf([c]) == [c.path] + PathsOf([]);
    assert Runs([c]) == [DateGroup(19724, PathsOf([c]))] + Runs([]);
    assert Runs(s) == [DateGroup(19723, PathsOf([a, b]))] + Runs([c]);
    assert a.path == "a" && b.path == "b" && c.path == "c";
    assert PathsOf([a, b]) == ["a", "b"] && PathsOf([c]) == ["c"];
  }

  /** The grouping of the example: one entry per day, the first day's photos
      in time order. */
  lemma TwoDaysExample()
    ensures Runs(SortByTime([ExampleC(), ExampleB(), ExampleA()])) == [DateGroup(19723, ["a", "b"]), DateGroup(19724, ["c"])]
  {
    ExampleSort();
    ExampleRuns();
  }
}
