/**
 * The streak engine of a habit. From its check-ins, its target per day and
 * the current instant it computes
 *   - the current streak: the number of consecutive done days ending today,
 *     or ending yesterday while today is not yet done;
 *   - the longest streak: the longest run of consecutive done days.
 * A day is done when some check-in on it reached the target.
 *
 * As in the source, the engine keeps done days as a set of day keys
 * (`toISODateOnly` strings), walks backwards by parsing and re-formatting
 * keys, and finds runs by sorting the keys as strings. The specification is
 * stated on day numbers (`DoneDays`); `Date.DayKey` being injective and, for
 * four-digit years, order-preserving connects the two.
 */
module Streaks {

  import opened Wrappers
  import opened Records
  import Date

  // ---------------------------------------------------------------------------
  // Done days

  predicate IsDone(c: Checkin, target: int)
  {
    c.count >= target
  }

  /** The source's `doneDays`: keys of the check-ins that reached the target. */
  function DoneKeys(cs: seq<Checkin>, target: int): set<string>
  {
    set c | c in cs && IsDone(c, target) :: Date.ToISODateOnly(c.date)
  }

  /** The same days as day numbers: the model's reference set of done days. */
  function DoneDays(cs: seq<Checkin>, target: int): set<int>
  {
    set c | c in cs && IsDone(c, target) :: Date.DayOf(c.date)
  }

  ghost predicate Injective(key: int -> string)
  {
    forall a, b :: key(a) == key(b) ==> a == b
  }

  function Image(days: set<int>, key: int -> string): set<string>
  {
    set d | d in days :: key(d)
  }

  /** The keys of a set of days. */
  function KeyImage(days: set<int>): set<string>
  {
    Image(days, Date.DayKey)
  }

  lemma DayKeyIsInjective()
    ensures Injective(Date.DayKey)
  {
    forall a, b | Date.DayKey(a) == Date.DayKey(b) ensures a == b {
      Date.DayKeyInjective(a, b);
    }
  }

  lemma NonEmptyHasMember(s: set<int>)
    requires s != {}
    ensures exists x :: x in s
  {
    assert (forall x :: x !in s) ==> s == {};
  }

  lemma ImageIntro(days: set<int>, key: int -> string, d: int)
    requires d in days
    ensures key(d) in Image(days, key)
  {
  }

  lemma ImageMember(days: set<int>, key: int -> string, d: int)
    requires Injective(key)
    ensures key(d) in Image(days, key) <==> d in days
  {
  }

  lemma {:induction false} ImageSize(days: set<int>, key: int -> string)
    requires Injective(key)
    ensures |Image(days, key)| == |days|
    decreases |days|
  {
    if days != {} {
      NonEmptyHasMember(days);
      var x :| x in days;
      var rest := days - {x};
      ImageSize(rest, key);
      assert Image(days, key) == Image(rest, key) + {key(x)};
      ImageMember(rest, key, x);
    }
  }

  lemma ImageOfMapped(cs: seq<Checkin>, target: int, f: int -> int, key: int -> string)
    ensures (set c | c in cs && IsDone(c, target) :: key(f(c.date)))
      == Image(set c | c in cs && IsDone(c, target) :: f(c.date), key)
  {
    var mapped := set c | c in cs && IsDone(c, target) :: f(c.date);
    forall k | k in (set c | c in cs && IsDone(c, target) :: key(f(c.date)))
      ensures k in Image(mapped, key)
    {
      var c :| c in cs && IsDone(c, target) && key(f(c.date)) == k;
      assert f(c.date) in mapped;
      ImageIntro(mapped, key, f(c.date));
    }
    forall k | k in Image(mapped, key)
      ensures k in (set c | c in cs && IsDone(c, target) :: key(f(c.date)))
    {
      var d :| d in mapped && key(d) == k;
      var c :| c in cs && IsDone(c, target) && f(c.date) == d;
    }
  }

  /** `checkins.filter(c => c.count >= target).map(c => toISODateOnly(c.date))`. */
  function DoneKeyList(cs: seq<Checkin>, target: int): (r: seq<string>)
    ensures |r| <= |cs|
    ensures forall k :: k in r <==> k in DoneKeys(cs, target)
  {
    if cs == [] then []
    else
      var rest := DoneKeyList(cs[..|cs| - 1], target);
      var c := cs[|cs| - 1];
      assert forall x :: x in cs <==> x in cs[..|cs| - 1] || x == c by {
        assert cs == cs[..|cs| - 1] + [c];
      }
      if IsDone(c, target) then rest + [Date.ToISODateOnly(c.date)] else rest
  }

  /** The key set is the image of the day set. */
  lemma DoneKeysAreImage(cs: seq<Checkin>, target: int)
    ensures DoneKeys(cs, target) == KeyImage(DoneDays(cs, target))
  {
    ImageOfMapped(cs, target, Date.DayOf, Date.DayKey);
  }

  /** A day number is done iff its key is a done key. */
  lemma KeyImageMember(days: set<int>, d: int)
    ensures Date.DayKey(d) in KeyImage(days) <==> d in days
  {
    DayKeyIsInjective();
    ImageMember(days, Date.DayKey, d);
  }

  /** The key of an invalid Date is never a done key. */
  lemma InvalidKeyNotDone(days: set<int>)
    ensures Date.InvalidDateKey !in KeyImage(days)
  {
    if Date.InvalidDateKey in KeyImage(days) {
      var d :| d in days && Date.DayKey(d) == Date.InvalidDateKey;
      Date.KeyNotInvalid(d);
    }
  }

  /** Distinct done days have distinct keys: the key set has as many elements as the day set. */
  lemma KeyImageSize(days: set<int>)
    ensures |KeyImage(days)| == |days|
  {
    DayKeyIsInjective();
    ImageSize(days, Date.DayKey);
  }

  /**
   * A key is done iff some check-in on that UTC day reached the target; so
   * several check-ins of one day contribute a single key, and the number of
   * done keys is the number of done days.
   */
  lemma DoneKeysSpec(cs: seq<Checkin>, target: int, t: int)
    ensures Date.ToISODateOnly(t) in DoneKeys(cs, target)
      <==> exists i :: 0 <= i < |cs| && IsDone(cs[i], target) && Date.DayOf(cs[i].date) == Date.DayOf(t)
    ensures |DoneKeys(cs, target)| == |DoneDays(cs, target)|
  {
    DoneKeysAreImage(cs, target);
    KeyImageSize(DoneDays(cs, target));
    var k := Date.ToISODateOnly(t);
    if k in DoneKeys(cs, target) {
      var c :| c in cs && IsDone(c, target) && Date.ToISODateOnly(c.date) == k;
      Date.ISOEqualIffSameDay(c.date, t);
      var i :| 0 <= i < |cs| && cs[i] == c;
    }
  }

  /** Adding a done check-in on a day that is already done changes nothing. */
  lemma SameDayCollapses(cs: seq<Checkin>, target: int, c: Checkin, i: int)
    requires 0 <= i < |cs| && IsDone(cs[i], target) && IsDone(c, target)
    requires Date.DayOf(cs[i].date) == Date.DayOf(c.date)
    ensures DoneKeys(cs + [c], target) == DoneKeys(cs, target)
    ensures DoneDays(cs + [c], target) == DoneDays(cs, target)
  {
    Date.ISOEqualIffSameDay(cs[i].date, c.date);
    assert cs[i] in cs;
  }

  /** Reordering the check-ins changes neither the done keys nor the done days. */
  lemma ReorderingKeepsDoneDays(cs1: seq<Checkin>, cs2: seq<Checkin>, target: int)
    requires multiset(cs1) == multiset(cs2)
    ensures DoneKeys(cs1, target) == DoneKeys(cs2, target)
    ensures DoneDays(cs1, target) == DoneDays(cs2, target)
  {
    forall c ensures c in cs1 <==> c in cs2 {
      assert c in cs1 <==> c in multiset(cs1);
      assert c in cs2 <==> c in multiset(cs2);
    }
  }

  // ---------------------------------------------------------------------------
  // `Array.from(new Set(keys)).sort()`

  predicate Distinct<T(==)>(s: seq<T>)
  {
    forall i, j :: 0 <= i < j < |s| ==> s[i] != s[j]
  }

  /** The elements of `s` in order of first occurrence, as a JavaScript Set iterates them. */
  function Dedup(s: seq<string>): (r: seq<string>)
    ensures Distinct(r) && forall x :: x in r <==> x in s
  {
    if s == [] then []
    else
      var p := Dedup(s[..|s| - 1]);
      var x := s[|s| - 1];
      assert forall y :: y in s <==> y in s[..|s| - 1] || y == x by {
        assert s == s[..|s| - 1] + [x];
      }
      if x in p then p else p + [x]
  }

  predicate LexSorted(s: seq<string>)
  {
    forall i, j :: 0 <= i < j < |s| ==> Date.LexLess(s[i], s[j])
  }

  function InsertLex(x: string, r: seq<string>): (res: seq<string>)
    requires LexSorted(r) && x !in r
    ensures LexSorted(res) && |res| == |r| + 1
    ensures forall y :: y in res <==> y == x || y in r
  {
    if r == [] then [x]
    else if Date.LexLess(x, r[0]) then
      assert forall j :: 0 <= j < |r| ==> Date.LexLess(x, r[j]) by {
        forall j | 0 < j < |r| ensures Date.LexLess(x, r[j]) {
          Date.LexTransitive(x, r[0], r[j]);
        }
      }
      [x] + r
    else
      Date.LexTotal(x, r[0]);
      var tail := InsertLex(x, r[1..]);
      assert forall y :: y in r <==> y == r[0] || y in r[1..] by {
        assert r == [r[0]] + r[1..];
      }
      assert forall j :: 0 <= j < |tail| ==> Date.LexLess(r[0], tail[j]) by {
        forall j | 0 <= j < |tail| ensures Date.LexLess(r[0], tail[j]) {
          assert tail[j] in tail;
          if tail[j] != x {
            var k :| 0 <= k < |r[1..]| && r[1..][k] == tail[j];
            assert r[k + 1] == tail[j];
          }
        }
      }
      [r[0]] + tail
  }

  /** JavaScript's default `sort()` of distinct strings: the unique strictly ascending arrangement. */
  function SortLex(s: seq<string>): (r: seq<string>)
    requires Distinct(s)
    ensures LexSorted(r) && |r| == |s| && forall y :: y in r <==> y in s
  {
    if s == [] then []
    else
      var x := s[|s| - 1];
      assert forall y :: y in s <==> y in s[..|s| - 1] || y == x by {
        assert s == s[..|s| - 1] + [x];
      }
      InsertLex(x, SortLex(s[..|s| - 1]))
  }

  // ---------------------------------------------------------------------------
  // Runs of consecutive days: the reference definitions

  /** Every day of `[first, first + len)` is done. */
  predicate IsRun(days: set<int>, first: int, len: nat)
  {
    forall k :: first <= k < first + len ==> k in days
  }

  /** The number of consecutive done days ending at day `k`. */
  function RunEndingAt(days: set<int>, k: int): nat
    decreases |days|
  {
    if k in days then 1 + RunEndingAt(days - {k}, k - 1) else 0
  }

  /** The day the current streak is counted back from: today if done, otherwise yesterday. */
  function Anchor(days: set<int>, today: int): int
  {
    if today in days then today else today - 1
  }

  function CurrentStreak(days: set<int>, today: int): nat
  {
    RunEndingAt(days, Anchor(days, today))
  }

  function Max(a: nat, b: nat): nat
  {
    if a >= b then a else b
  }

  /** The largest `len <= n` such that some run of `len` done days exists. */
  ghost function LongestUpTo(days: set<int>, n: nat): nat
  {
    if n == 0 then 0
    else if exists a :: IsRun(days, a, n) then n
    else LongestUpTo(days, n - 1)
  }

  /** The length of the longest run of consecutive done days (no run is longer than `|days|`). */
  ghost function LongestStreak(days: set<int>): nat
  {
    LongestUpTo(days, |days|)
  }

  lemma RunExtend(days: set<int>, first: int, len: nat)
    requires IsRun(days, first + 1, len) && first in days
    ensures IsRun(days, first, len + 1)
  {
  }

  /** A run of `len` done days has no more than `|days|` days. */
  lemma {:induction false} RunBound(days: set<int>, first: int, len: nat)
    requires IsRun(days, first, len)
    ensures len <= |days|
    decreases len
  {
    if len > 0 {
      var last := first + len - 1;
      assert last in days;
      RunBound(days - {last}, first, len - 1);
    }
  }

  /** `RunEndingAt(days, k)` is the length of the maximal run of done days ending at `k`. */
  lemma {:induction false} RunEndingAtSpec(days: set<int>, k: int)
    ensures var n := RunEndingAt(days, k);
      IsRun(days, k - n + 1, n) && k - n !in days && n <= |days|
    decreases |days|
  {
    if k in days {
      var rest := days - {k};
      RunEndingAtSpec(rest, k - 1);
      var m := RunEndingAt(rest, k - 1);
      assert IsRun(days, k - m, m + 1) by {
        forall j | k - m <= j < k - m + m + 1 ensures j in days {
          if j < k {
            assert j in rest;
          }
        }
      }
      assert |rest| == |days| - 1;
    }
  }

  lemma {:induction false} RunEndingAtAtLeast(days: set<int>, k: int, len: nat)
    requires IsRun(days, k - len + 1, len)
    ensures RunEndingAt(days, k) >= len
    decreases len
  {
    if len > 0 {
      assert k in days;
      RunEndingAtAtLeast(days - {k}, k - 1, len - 1);
    }
  }

  /** A run ending at `k` that cannot be extended backwards has length `RunEndingAt(days, k)`. */
  lemma RunUnique(days: set<int>, k: int, n: nat)
    requires IsRun(days, k - n + 1, n) && k - n !in days
    ensures RunEndingAt(days, k) == n
  {
    RunEndingAtAtLeast(days, k, n);
    RunEndingAtSpec(days, k);
    var m := RunEndingAt(days, k);
    assert m > n ==> k - n in days;
  }

  /** Removing a later day does not change the run ending at an earlier day. */
  lemma RunEndingBelow(days: set<int>, x: int, k: int)
    requires k < x
    ensures RunEndingAt(days - {x}, k) == RunEndingAt(days, k)
  {
    RunEndingAtSpec(days, k);
    RunUnique(days - {x}, k, RunEndingAt(days, k));
  }

  lemma {:induction false} LongestUpToSpec(days: set<int>, n: nat)
    ensures LongestUpTo(days, n) <= n
    ensures exists a :: IsRun(days, a, LongestUpTo(days, n))
    ensures forall a, len: nat :: LongestUpTo(days, n) < len <= n ==> !IsRun(days, a, len)
  {
    if n == 0 {
      assert IsRun(days, 0, 0);
    } else if !exists a :: IsRun(days, a, n) {
      LongestUpToSpec(days, n - 1);
    }
  }

  /**
   * `LongestStreak(days)` bounds every run of done days and is itself the
   * length of one; it is 0 exactly when no day is done, and at most the
   * number of done days.
   */
  lemma LongestStreakSpec(days: set<int>)
    ensures forall a, len: nat :: IsRun(days, a, len) ==> len <= LongestStreak(days)
    ensures exists a :: IsRun(days, a, LongestStreak(days))
    ensures LongestStreak(days) == 0 <==> days == {}
    ensures LongestStreak(days) <= |days|
  {
    LongestUpToSpec(days, |days|);
    forall a, len: nat | IsRun(days, a, len) ensures len <= LongestStreak(days) {
      RunBound(days, a, len);
    }
    if days != {} {
      NonEmptyHasMember(days);
      var x :| x in days;
      assert IsRun(days, x, 1);
    }
  }

  /** Where a longest run starts. */
  lemma LongestRunStart(days: set<int>) returns (a: int)
    ensures IsRun(days, a, LongestStreak(days))
  {
    LongestStreakSpec(days);
    a :| IsRun(days, a, LongestStreak(days));
  }

  /**
   * The current streak is the maximal run of done days ending at the anchor;
   * it is 0 when the anchor is not done, and never exceeds the longest streak.
   */
  lemma CurrentStreakSpec(days: set<int>, today: int)
    ensures var a, n := Anchor(days, today), CurrentStreak(days, today);
      IsRun(days, a - n + 1, n) && a - n !in days
    ensures Anchor(days, today) !in days ==> CurrentStreak(days, today) == 0
    ensures CurrentStreak(days, today) <= LongestStreak(days) <= |days|
  {
    var a := Anchor(days, today);
    RunEndingAtSpec(days, a);
    LongestStreakSpec(days);
  }

  /** Done = {yesterday} gives 1; done = {today, yesterday, the day before} gives 3. */
  lemma CurrentStreakExamples(today: int)
    ensures CurrentStreak({today - 1}, today) == 1
    ensures CurrentStreak({today, today - 1, today - 2}, today) == 3
  {
    RunUnique({today - 1}, today - 1, 1);
    RunUnique({today, today - 1, today - 2}, today, 3);
  }

  /** Done = {D, D+1, D+4} gives a longest streak of 2. */
  lemma LongestStreakExample(d: int)
    ensures LongestStreak({d, d + 1, d + 4}) == 2
  {
    var days := {d, d + 1, d + 4};
    LongestStreakSpec(days);
    assert IsRun(days, d, 2);
    var a :| IsRun(days, a, LongestStreak(days));
    assert LongestStreak(days) >= 3 ==> a in days && a + 1 in days && a + 2 in days;
  }

  // ---------------------------------------------------------------------------
  // Runs over a sorted sequence of days: what the longest-streak loop computes

  predicate StrictlyIncreasing(s: seq<int>)
  {
    forall i, j :: 0 <= i < j < |s| ==> s[i] < s[j]
  }

  /** Length of the run of consecutive days ending at position `j` of `ds`. */
  function RunAt(ds: seq<int>, j: nat): nat
    requires j < |ds|
  {
    if j == 0 then 1
    else if ds[j] - ds[j - 1] == 1 then RunAt(ds, j - 1) + 1
    else 1
  }

  function MaxRunAt(ds: seq<int>, i: nat): nat
    requires i <= |ds|
  {
    if i == 0 then 0 else Max(MaxRunAt(ds, i - 1), RunAt(ds, i - 1))
  }

  lemma {:induction false} MaxRunAtBounds(ds: seq<int>, i: nat)
    requires i <= |ds|
    ensures forall j :: 0 <= j < i ==> RunAt(ds, j) <= MaxRunAt(ds, i)
    ensures i == 0 ==> MaxRunAt(ds, i) == 0
    ensures i > 0 ==> exists j :: 0 <= j < i && MaxRunAt(ds, i) == RunAt(ds, j)
  {
    if i > 0 {
      MaxRunAtBounds(ds, i - 1);
    }
  }

  /** Over the sorted done days, the run at a position is the run of done days ending there. */
  lemma {:induction false} SortedRunAt(ds: seq<int>, days: set<int>, j: nat)
    requires StrictlyIncreasing(ds) && (forall x :: x in ds <==> x in days)
    requires j < |ds|
    ensures RunAt(ds, j) == RunEndingAt(days, ds[j])
  {
    var x := ds[j];
    assert RunEndingAt(days, x) == 1 + RunEndingAt(days - {x}, x - 1);
    if j > 0 && ds[j] - ds[j - 1] == 1 {
      SortedRunAt(ds, days, j - 1);
      RunEndingBelow(days, x, x - 1);
    } else {
      forall i | 0 <= i < |ds| ensures ds[i] != x - 1 {
        if i < j - 1 {
          assert ds[i] < ds[j - 1];
        }
      }
      assert x - 1 !in days;
      assert RunEndingAt(days - {x}, x - 1) == 0;
    }
  }

  /** So the maximum over the sorted done days is the longest streak. */
  lemma SortedLongest(ds: seq<int>, days: set<int>)
    requires StrictlyIncreasing(ds) && (forall x :: x in ds <==> x in days)
    ensures MaxRunAt(ds, |ds|) == LongestStreak(days)
  {
    MaxRunAtBounds(ds, |ds|);
    LongestStreakSpec(days);
    if |ds| > 0 {
      var j :| 0 <= j < |ds| && MaxRunAt(ds, |ds|) == RunAt(ds, j);
      SortedRunAt(ds, days, j);
      RunEndingAtSpec(days, ds[j]);
    }
    var len := LongestStreak(days);
    var a := LongestRunStart(days);
    if len > 0 {
      assert a + len - 1 in days;
      assert a + len - 1 in ds;
      var j :| 0 <= j < |ds| && ds[j] == a + len - 1;
      SortedRunAt(ds, days, j);
      RunEndingAtAtLeast(days, a + len - 1, len);
    }
  }

  /** The day a key parses to (0 for a key `startOfUTCDate` rejects). */
  function KeyDay(k: string): int
  {
    match Date.StartOfUTCDate(k)
    case None => 0
    case Some(t) => Date.DayOf(t)
  }

  function DaysOfKeys(keys: seq<string>): (ds: seq<int>)
    ensures |ds| == |keys| && forall i :: 0 <= i < |keys| ==> ds[i] == KeyDay(keys[i])
  {
    seq(|keys|, i requires 0 <= i < |keys| => KeyDay(keys[i]))
  }

  /** When every done day has a four-digit year, the sorted keys are the done days in order. */
  lemma SortedKeysAreDays(keys: seq<string>, days: set<int>)
    requires LexSorted(keys) && (forall k :: k in keys <==> k in KeyImage(days))
    requires forall d :: d in days ==> Date.FourDigitYear(d)
    ensures var ds := DaysOfKeys(keys);
      StrictlyIncreasing(ds) && (forall x :: x in ds <==> x in days)
      && forall i :: 0 <= i < |keys| ==> Date.StartOfUTCDate(keys[i]) == Some(ds[i] * 86400000)
  {
    var ds := DaysOfKeys(keys);
    forall i | 0 <= i < |keys|
      ensures Date.FourDigitYear(ds[i]) && keys[i] == Date.DayKey(ds[i])
      ensures Date.StartOfUTCDate(keys[i]) == Some(ds[i] * 86400000)
    {
      assert keys[i] in KeyImage(days);
      var d :| d in days && Date.DayKey(d) == keys[i];
      Date.KeyRoundTrip(d);
      Date.DayOfMidnight(d);
    }
    forall i, j | 0 <= i < j < |ds| ensures ds[i] < ds[j] {
      Date.KeyOrder(ds[i], ds[j]);
    }
    forall x | x in days ensures x in ds {
      assert Date.DayKey(x) in KeyImage(days);
      var i :| 0 <= i < |keys| && keys[i] == Date.DayKey(x);
      Date.DayKeyInjective(ds[i], x);
    }
    forall x | x in ds ensures x in days {
      var i :| 0 <= i < |ds| && ds[i] == x;
      KeyImageMember(days, x);
    }
  }

  // ---------------------------------------------------------------------------
  // computeStreaks

  /**
   * The done keys as the two loops see them: the key of a day is done iff the
   * day is, and the key of an invalid Date never is.
   */
  ghost predicate KeysOfDays(doneDays: set<string>, days: set<int>)
  {
    (forall d {:trigger Date.DayKey(d)} :: Date.DayKey(d) in doneDays <==> d in days)
    && Date.InvalidDateKey !in doneDays
  }

  lemma KeyImageKeysOfDays(days: set<int>)
    ensures KeysOfDays(KeyImage(days), days)
  {
    forall d ensures Date.DayKey(d) in KeyImage(days) <==> d in days {
      KeyImageMember(days, d);
    }
    InvalidKeyNotDone(days);
  }

  /** The key the walk looks up is done iff the cursor is valid and its day is done. */
  lemma WalkKey(doneDays: set<string>, days: set<int>, cursor: Option<int>, d: int)
    requires KeysOfDays(doneDays, days)
    requires cursor.Some? ==> cursor.value == d * 86400000
    ensures Date.KeyOfDate(cursor) in doneDays <==> cursor.Some? && d in days
  {
    if cursor.Some? {
      Date.KeyOfMidnight(d);
    }
  }

  /** When the looked-up key is not done, the walk has counted the whole run ending at the anchor. */
  lemma WalkStops(doneDays: set<string>, days: set<int>, cursor: Option<int>, anchor: int, n: nat)
    requires KeysOfDays(doneDays, days)
    requires cursor.Some? ==> cursor.value == (anchor - n) * 86400000
    requires IsRun(days, anchor - n + 1, n) && Date.KeyOfDate(cursor) !in doneDays
    ensures cursor.Some? ==> n == RunEndingAt(days, anchor)
  {
    WalkKey(doneDays, days, cursor, anchor - n);
    if cursor.Some? {
      assert anchor - n !in days;
      RunUnique(days, anchor, n);
    }
  }

  /** When it is done, the run is one day longer and still fits in the done days. */
  lemma WalkContinues(doneDays: set<string>, days: set<int>, cursor: Option<int>, anchor: int, n: nat)
    requires KeysOfDays(doneDays, days)
    requires cursor.Some? ==> cursor.value == (anchor - n) * 86400000
    requires IsRun(days, anchor - n + 1, n) && Date.KeyOfDate(cursor) in doneDays
    ensures cursor.Some? && IsRun(days, anchor - n, n + 1) && n + 1 <= |days|
  {
    WalkKey(doneDays, days, cursor, anchor - n);
    RunExtend(days, anchor - n, n);
    RunBound(days, anchor - n, n + 1);
  }

  /**
   * The first block of `computeStreaks`: starting at the midnight parsed from
   * the anchor's key, count days backwards while their key is done. The walk
   * counts the maximal run of done days ending at the anchor; when the
   * anchor's key does not parse, the cursor is an invalid Date and the count
   * is 0.
   */
  method WalkBack(doneDays: set<string>, start: string, ghost days: set<int>, ghost anchor: int)
    returns (current: nat)
    requires KeysOfDays(doneDays, days) && start == Date.DayKey(anchor)
    ensures current == (if Date.FourDigitYear(anchor) then RunEndingAt(days, anchor) else 0)
  {
    current := 0;
    var cursor := Date.StartOfUTCDate(start);
    if Date.FourDigitYear(anchor) {
      Date.KeyRoundTrip(anchor);
    } else {
      Date.KeyOutsideRejected(anchor);
    }
    while true
      invariant cursor.None? ==> current == 0 && !Date.FourDigitYear(anchor)
      invariant cursor.Some? ==> Date.FourDigitYear(anchor) && cursor.value == (anchor - current) * 86400000
      invariant IsRun(days, anchor - current + 1, current)
      decreases |days| - current
    {
      var key := Date.KeyOfDate(cursor);
      if key !in doneDays {
        WalkStops(doneDays, days, cursor, anchor, current);
        break;
      }
      WalkContinues(doneDays, days, cursor, anchor, current);
      current := current + 1;
      cursor := Some(cursor.value - 86400000);
    }
  }

  /** Whether key `cur` parses to the day after key `prev`; an unparsable key never does. */
  predicate NextDayKey(prev: string, cur: string)
  {
    var p := Date.StartOfUTCDate(prev);
    var c := Date.StartOfUTCDate(cur);
    p.Some? && c.Some? && c.value - p.value == 86400000
  }

  /** The run counter of the longest-streak scan after position `j` of `keys`. */
  function KeyRunAt(keys: seq<string>, j: nat): nat
    requires j < |keys|
  {
    if j == 0 then 1
    else if NextDayKey(keys[j - 1], keys[j]) then KeyRunAt(keys, j - 1) + 1
    else 1
  }

  /** The best run of the scan over the first `i` keys. */
  function KeyMaxRunAt(keys: seq<string>, i: nat): nat
    requires i <= |keys|
  {
    if i == 0 then 0 else Max(KeyMaxRunAt(keys, i - 1), KeyRunAt(keys, i - 1))
  }

  /** Consecutive sorted keys are one day apart exactly when their days are. */
  lemma GapStep(keys: seq<string>, ds: seq<int>, i: nat)
    requires |ds| == |keys| && 0 < i < |keys|
    requires forall j :: 0 <= j < |keys| ==> Date.StartOfUTCDate(keys[j]) == Some(ds[j] * 86400000)
    ensures NextDayKey(keys[i - 1], keys[i]) <==> ds[i] - ds[i - 1] == 1
  {
    assert Date.StartOfUTCDate(keys[i - 1]) == Some(ds[i - 1] * 86400000);
    assert Date.StartOfUTCDate(keys[i]) == Some(ds[i] * 86400000);
  }

  /** Over keys that parse to `ds`, the scan's runs are the runs of `ds`. */
  lemma {:induction false} KeyRunsAreRuns(keys: seq<string>, ds: seq<int>, j: nat)
    requires |ds| == |keys| && j < |keys|
    requires forall j :: 0 <= j < |keys| ==> Date.StartOfUTCDate(keys[j]) == Some(ds[j] * 86400000)
    ensures KeyRunAt(keys, j) == RunAt(ds, j)
  {
    if j > 0 {
      GapStep(keys, ds, j);
      KeyRunsAreRuns(keys, ds, j - 1);
    }
  }

  lemma {:induction false} KeyMaxRunsAreRuns(keys: seq<string>, ds: seq<int>, i: nat)
    requires |ds| == |keys| && i <= |keys|
    requires forall j :: 0 <= j < |keys| ==> Date.StartOfUTCDate(keys[j]) == Some(ds[j] * 86400000)
    ensures KeyMaxRunAt(keys, i) == MaxRunAt(ds, i)
  {
    if i > 0 {
      KeyMaxRunsAreRuns(keys, ds, i - 1);
      KeyRunsAreRuns(keys, ds, i - 1);
    }
  }

  /** When every done day has a four-digit year, the scan over the sorted keys finds the longest streak. */
  lemma SortedKeysLongest(keys: seq<string>, days: set<int>)
    requires LexSorted(keys) && (forall k :: k in keys <==> k in KeyImage(days))
    requires forall d :: d in days ==> Date.FourDigitYear(d)
    ensures KeyMaxRunAt(keys, |keys|) == LongestStreak(days)
  {
    var ds := DaysOfKeys(keys);
    SortedKeysAreDays(keys, days);
    KeyMaxRunsAreRuns(keys, ds, |keys|);
    SortedLongest(ds, days);
  }

  /**
   * The second block of `computeStreaks`: one pass over the done keys in
   * string order, extending the run when a key's midnight is exactly one day
   * after the previous key's and restarting it otherwise. When every done day
   * has a four-digit year the result is the longest streak.
   */
  method LongestRun(dates: seq<string>, ghost days: set<int>) returns (longest: nat)
    requires LexSorted(dates) && forall k :: k in dates <==> k in KeyImage(days)
    ensures (forall d :: d in days ==> Date.FourDigitYear(d)) ==> longest == LongestStreak(days)
  {
    longest := 0;
    var run: nat := 0;
    var prev: Option<string> := None;
    for i := 0 to |dates|
      invariant prev == (if i == 0 then None else Some(dates[i - 1]))
      invariant i > 0 ==> run == KeyRunAt(dates, i - 1)
      invariant longest == KeyMaxRunAt(dates, i)
    {
      var d := dates[i];
      if prev.None? {
        run := 1;
      } else {
        var prevTime := Date.StartOfUTCDate(prev.value);
        var curTime := Date.StartOfUTCDate(d);
        // an unparsable key gives NaN, and a NaN difference is never one day
        if prevTime.Some? && curTime.Some? && curTime.value - prevTime.value == 86400000 {
          run := run + 1;
        } else {
          run := 1;
        }
      }
      if run > longest {
        longest := run;
      }
      prev := Some(d);
    }
    if forall d :: d in days ==> Date.FourDigitYear(d) {
      SortedKeysLongest(dates, days);
    }
  }

  /**
   * `computeStreaks(checkins, targetPerDay)` at instant `now`. The current
   * streak is exact whenever the anchor day has a four-digit year (otherwise
   * its key does not parse back and the walk stops at once); the longest
   * streak is exact whenever every done day has a four-digit year.
   */
  method ComputeStreaks(checkins: seq<Checkin>, targetPerDay: int, now: int)
    returns (current: nat, longest: nat)
    ensures var days := DoneDays(checkins, targetPerDay);
      current == (if Date.FourDigitYear(Anchor(days, Date.DayOf(now))) then CurrentStreak(days, Date.DayOf(now)) else 0)
    ensures var days := DoneDays(checkins, targetPerDay);
      (forall d :: d in days ==> Date.FourDigitYear(d)) ==> longest == LongestStreak(days)
  {
    var doneDays := DoneKeys(checkins, targetPerDay);
    ghost var days := DoneDays(checkins, targetPerDay);
    DoneKeysAreImage(checkins, targetPerDay);
    KeyImageKeysOfDays(days);

    var today := Date.ToISODateOnly(now);
    var yesterday := Date.ToISODateOnly(now - 86400000);
    Date.DayOfPreviousDay(now);
    var start := if today in doneDays then today else yesterday;
    current := WalkBack(doneDays, start, days, Anchor(days, Date.DayOf(now)));

    var dates := SortLex(Dedup(DoneKeyList(checkins, targetPerDay)));
    longest := LongestRun(dates, days);
  }
}
