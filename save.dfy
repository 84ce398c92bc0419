/** The highlight-list bookkeeping of code/save/save.py: keyed first-occurrence
    deduplication, the "new items whose key is not old" difference, and the
    choice of the snapshot file whose date is nearest to today. */
module Save {
  import opened Wrappers
  import opened Text

  // ---------------------------------------------------------------------------
  // Deduplication and difference
  // ---------------------------------------------------------------------------

  /** The key values carried by a list of items. `key` is `item.get(key)`: an
      item lacking the field has the key value standing for `None`. */
  function KeySetOf<T, K>(items: seq<T>, key: T -> K): set<K> {
    set i | 0 <= i < |items| :: key(items[i])
  }

  lemma KeySetOfSnoc<T, K>(items: seq<T>, x: T, key: T -> K)
    ensures KeySetOf(items + [x], key) == KeySetOf(items, key) + {key(x)}
  {
    var all := items + [x];
    assert forall i :: 0 <= i < |items| ==> all[i] == items[i];
    assert all[|items|] == x;
  }

  /** The first item for each key value, in input order. */
  function Dedup<T, K(==)>(items: seq<T>, key: T -> K): seq<T>
    decreases |items|
  {
    if items == [] then []
    else
      var init := items[..|items| - 1];
      var x := items[|items| - 1];
      if key(x) in KeySetOf(init, key) then Dedup(init, key) else Dedup(init, key) + [x]
  }

  /** The positions in `items` of the items `Dedup` keeps. */
  function DedupPositions<T, K(==)>(items: seq<T>, key: T -> K): seq<nat>
    decreases |items|
  {
    if items == [] then []
    else
      var init := items[..|items| - 1];
      var x := items[|items| - 1];
      if key(x) in KeySetOf(init, key) then DedupPositions(init, key)
      else DedupPositions(init, key) + [|items| - 1]
  }

  /** `merge_and_deduplicate(old_list, new_list, key)`. */
  method MergeAndDeduplicate<T, K(==)>(olds: seq<T>, news: seq<T>, key: T -> K) returns (merged: seq<T>)
    ensures merged == Dedup(olds + news, key)
  {
    var items := olds + news;
    var seen: set<K> := {};
    merged := [];
    for k := 0 to |items|
      invariant seen == KeySetOf(items[..k], key)
      invariant merged == Dedup(items[..k], key)
    {
      assert items[..k + 1][..k] == items[..k];
      KeySetOfSnoc(items[..k], items[k], key);
      assert items[..k + 1] == items[..k] + [items[k]];
      var item := items[k];
      var kv := key(item);
      if kv !in seen {
        seen := seen + {kv};
        merged := merged + [item];
      }
    }
    assert items[..|items|] == items;
  }

  /** The kept items are exactly the items at strictly increasing positions,
      each the first occurrence of its key. */
  lemma {:induction false} DedupIsFirstOccurrences<T, K>(items: seq<T>, key: T -> K)
    ensures var r := Dedup(items, key);
      var ps := DedupPositions(items, key);
      |ps| == |r|
      && (forall t :: 0 <= t < |ps| ==> ps[t] < |items| && items[ps[t]] == r[t])
      && (forall s, t :: 0 <= s < t < |ps| ==> ps[s] < ps[t])
      && (forall t, j :: 0 <= t < |ps| && 0 <= j < ps[t] ==> key(items[j]) != key(r[t]))
    decreases |items|
  {
    if items != [] {
      var init := items[..|items| - 1];
      DedupIsFirstOccurrences(init, key);
      assert forall j :: 0 <= j < |init| ==> items[j] == init[j];
      var x := items[|items| - 1];
      if key(x) !in KeySetOf(init, key) {
        var ps := DedupPositions(items, key);
        var r := Dedup(items, key);
        forall j | 0 <= j < |items| - 1 ensures key(items[j]) != key(x) {
          assert key(init[j]) in KeySetOf(init, key);
        }
        assert ps[|ps| - 1] == |items| - 1 && r[|r| - 1] == x;
      }
    }
  }

  /** Kept keys are pairwise distinct, and every input key value is kept. */
  lemma {:induction false} DedupKeys<T, K>(items: seq<T>, key: T -> K)
    ensures var r := Dedup(items, key);
      (forall s, t :: 0 <= s < t < |r| ==> key(r[s]) != key(r[t]))
      && KeySetOf(r, key) == KeySetOf(items, key)
    decreases |items|
  {
    if items != [] {
      var init := items[..|items| - 1];
      var x := items[|items| - 1];
      DedupKeys(init, key);
      assert items == init + [x];
      KeySetOfSnoc(init, x, key);
      var r0 := Dedup(init, key);
      if key(x) !in KeySetOf(init, key) {
        KeySetOfSnoc(r0, x, key);
        var r := r0 + [x];
        forall s, t | 0 <= s < t < |r| ensures key(r[s]) != key(r[t]) {
          if t == |r0| {
            assert r[s] == r0[s];
            assert key(r0[s]) in KeySetOf(r0, key);
          } else {
            assert r[s] == r0[s] && r[t] == r0[t];
          }
        }
      }
    }
  }

  /** `diff_new_vs_old`: the new items whose key is not among the old keys. */
  function DiffNewVsOld<T, K(==)>(olds: seq<T>, news: seq<T>, key: T -> K): (r: seq<T>)
    ensures |r| <= |news|
    ensures forall x :: x in r ==> x in news && key(x) !in KeySetOf(olds, key)
    ensures forall x :: x in news && key(x) !in KeySetOf(olds, key) ==> x in r
    decreases |news|
  {
    if news == [] then []
    else
      var rest := DiffNewVsOld(olds, news[1..], key);
      assert forall x :: x in news[1..] ==> x in news;
      if key(news[0]) in KeySetOf(olds, key) then rest else [news[0]] + rest
  }

  /** The difference is an order-preserving filter: it distributes over
      concatenation, so it keeps relative order and never deduplicates. */
  lemma {:induction false} DiffConcat<T, K>(olds: seq<T>, a: seq<T>, b: seq<T>, key: T -> K)
    ensures DiffNewVsOld(olds, a + b, key) == DiffNewVsOld(olds, a, key) + DiffNewVsOld(olds, b, key)
    decreases |a|
  {
    if a != [] {
      assert (a + b)[1..] == a[1..] + b;
      DiffConcat(olds, a[1..], b, key);
    } else {
      assert a + b == b;
    }
  }

  /** Each new item survives as often as it occurs in the new list, or not at all. */
  lemma {:induction false} DiffMultiplicity<T, K>(olds: seq<T>, news: seq<T>, key: T -> K, x: T)
    ensures multiset(DiffNewVsOld(olds, news, key))[x] ==
      if key(x) in KeySetOf(olds, key) then 0 else multiset(news)[x]
    decreases |news|
  {
    if news != [] {
      DiffMultiplicity(olds, news[1..], key, x);
      assert news == [news[0]] + news[1..];
    }
  }

  /** Appending the difference to the old list adds exactly the missing keys:
      deduplicating old + new and old + difference keep the same key values. */
  lemma DiffCoversMerge<T, K>(olds: seq<T>, news: seq<T>, key: T -> K)
    ensures KeySetOf(Dedup(olds + news, key), key)
         == KeySetOf(olds, key) + KeySetOf(DiffNewVsOld(olds, news, key), key)
  {
    DedupKeys(olds + news, key);
    var d := DiffNewVsOld(olds, news, key);
    forall k | k in KeySetOf(olds + news, key)
      ensures k in KeySetOf(olds, key) + KeySetOf(d, key)
    {
      var i :| 0 <= i < |olds + news| && key((olds + news)[i]) == k;
      if i < |olds| {
        assert (olds + news)[i] == olds[i];
      } else {
        var x := news[i - |olds|];
        assert (olds + news)[i] == x;
        if k !in KeySetOf(olds, key) {
          assert x in d;
          var j :| 0 <= j < |d| && d[j] == x;
        }
      }
    }
    forall k | k in KeySetOf(olds, key) + KeySetOf(d, key)
      ensures k in KeySetOf(olds + news, key)
    {
      if k in KeySetOf(olds, key) {
        var i :| 0 <= i < |olds| && key(olds[i]) == k;
        assert (olds + news)[i] == olds[i];
      } else {
        var j :| 0 <= j < |d| && key(d[j]) == k;
        assert d[j] in news;
        var i :| 0 <= i < |news| && news[i] == d[j];
        assert (olds + news)[|olds| + i] == news[i];
      }
    }
  }

  // ---------------------------------------------------------------------------
  // Snapshot choice
  // ---------------------------------------------------------------------------

  predicate IsLeapYear(y: int) {
    (y % 4 == 0 && y % 100 != 0) || y % 400 == 0
  }

  function DaysInMonth(y: int, m: int): (n: int)
    requires 1 <= m <= 12
    ensures 28 <= n <= 31
  {
    if m == 2 then (if IsLeapYear(y) then 29 else 28)
    else if m == 4 || m == 6 || m == 9 || m == 11 then 30
    else 31
  }

  /** A calendar date, as `datetime.date` holds it. */
  datatype Date = Date(year: int, month: int, day: int)

  predicate ValidDate(d: Date) {
    1 <= d.year <= 9999 && 1 <= d.month <= 12 && 1 <= d.day <= DaysInMonth(d.year, d.month)
  }

  function DaysBeforeYear(y: int): int {
    var p := y - 1;
    365 * p + p / 4 - p / 100 + p / 400
  }

  function DaysBeforeMonth(y: int, m: int): (n: int)
    requires 1 <= m <= 12
    ensures n >= 0
    decreases m
  {
    if m == 1 then 0 else DaysBeforeMonth(y, m - 1) + DaysInMonth(y, m - 1)
  }

  /** `date.toordinal()`: day 1 is 0001-01-01. Day differences of dates are
      differences of ordinals. */
  function Ordinal(d: Date): int
    requires ValidDate(d)
  {
    DaysBeforeYear(d.year) + DaysBeforeMonth(d.year, d.month) + d.day
  }

  /** Consecutive days of a month have consecutive ordinals, and the first day of
      a month follows the last day of the one before. */
  lemma OrdinalNextDay(d: Date)
    requires ValidDate(d)
    ensures d.day < DaysInMonth(d.year, d.month) ==>
      Ordinal(d.(day := d.day + 1)) == Ordinal(d) + 1
    ensures d.day == DaysInMonth(d.year, d.month) && d.month < 12 ==>
      Ordinal(Date(d.year, d.month + 1, 1)) == Ordinal(d) + 1
  {
  }

  function DigitValue(c: char): int
    requires IsDigit(c)
  {
    c as int - '0' as int
  }

  /** Two characters matching `%d`'s two-character alternatives `3[01]`,
      `[12]\d`, `0[1-9]` and ` [1-9]` (the same for `%m` with `1[0-2]|0[1-9]`):
      the value they denote, if any. */
  function TwoDigitField(a: char, b: char, allowSpace: bool): Option<int> {
    if IsDigit(a) && IsDigit(b) then Some(10 * DigitValue(a) + DigitValue(b))
    else if allowSpace && a == ' ' && IsDigit(b) then Some(DigitValue(b))
    else None
  }

  /** `datetime.strptime(s, "%Y-%m-%d").date()` for a ten-character string:
      four digits, a dash, a month 01..12, a dash, a day 01..31 (or a space and a
      digit), and the result must be a real calendar date with year >= 1. */
  function ParseIsoDate(s: string): (r: Option<Date>)
    ensures r.Some? ==> ValidDate(r.value)
  {
    if |s| != 10 || s[4] != '-' || s[7] != '-' then None
    else if !(IsDigit(s[0]) && IsDigit(s[1]) && IsDigit(s[2]) && IsDigit(s[3])) then None
    else
      var y := 1000 * DigitValue(s[0]) + 100 * DigitValue(s[1]) + 10 * DigitValue(s[2]) + DigitValue(s[3]);
      match (TwoDigitField(s[5], s[6], false), TwoDigitField(s[8], s[9], true))
      case (Some(m), Some(d)) =>
        var date := Date(y, m, d);
        if 1 <= m <= 12 && 1 <= d <= 31 && ValidDate(date) then Some(date) else None
      case _ => None
  }

  /** `len("2025-09-18.json")`. */
  const SnapshotNameLength := 15

  /** The listing filter: names ending in `.json` of the dated length. */
  predicate IsSnapshotName(f: string) {
    EndsWith(f, ".json") && |f| == SnapshotNameLength
  }

  /** The date a listed name stands for, when it is a snapshot name that parses. */
  function SnapshotDate(f: string): (r: Option<Date>)
    ensures r.Some? ==> IsSnapshotName(f) && ValidDate(r.value)
  {
    if IsSnapshotName(f) then ParseIsoDate(f[..|f| - 5]) else None
  }

  /** `abs((today - file_date).days)`. */
  function Distance(today: int, d: Date): nat
    requires ValidDate(d)
  {
    var diff := today - Ordinal(d);
    if diff < 0 then -diff else diff
  }

  /** How far the snapshot a listed name stands for lies from `today`, or `None`
      when the name is skipped. */
  function SnapshotDistance(today: int, f: string): Option<nat> {
    match SnapshotDate(f)
    case Some(d) => Some(Distance(today, d))
    case None => None
  }

  /** The first position whose key is smallest among the positions that have a
      key. */
  predicate IsFirstClosest(names: seq<string>, key: string -> Option<nat>, i: nat) {
    i < |names| && key(names[i]).Some?
    && (forall j :: 0 <= j < |names| && key(names[j]).Some? ==> key(names[i]).value <= key(names[j]).value)
    && (forall j :: 0 <= j < i && key(names[j]).Some? ==> key(names[i]).value < key(names[j]).value)
  }

  /** The scan that keeps the first strictly closer candidate. */
  method FirstClosest(names: seq<string>, key: string -> Option<nat>) returns (chosen: Option<nat>)
    ensures chosen.None? <==> forall j :: 0 <= j < |names| ==> key(names[j]).None?
    ensures chosen.Some? ==> IsFirstClosest(names, key, chosen.value)
  {
    chosen := None;
    var closestDiff: nat := 0;
    for k := 0 to |names|
      invariant chosen.None? <==> forall j :: 0 <= j < k ==> key(names[j]).None?
      invariant chosen.Some? ==>
        var i := chosen.value;
        i < k && key(names[i]) == Some(closestDiff)
        && (forall j :: 0 <= j < k && key(names[j]).Some? ==> closestDiff <= key(names[j]).value)
        && (forall j :: 0 <= j < i && key(names[j]).Some? ==> closestDiff < key(names[j]).value)
    {
      var fileDiff := key(names[k]);
      if fileDiff.Some? {
        var diff := fileDiff.value;
        if chosen.None? || diff < closestDiff {
          closestDiff := diff;
          chosen := Some(k);
        }
      }
    }
  }

  /** The snapshot-choice loop of `load_latest_dict_list` (and of its duplicate
      `load_dict_list`): the position in the listing of the file to load, or
      `None` — and then `[]` is returned — when the folder is missing or no
      name is a parsable snapshot name. `today` is the ordinal of `date.today()`;
      among equally distant snapshots the first listed wins. */
  method ChooseSnapshot(folderExists: bool, names: seq<string>, today: int) returns (chosen: Option<nat>)
    ensures !folderExists ==> chosen.None?
    ensures folderExists ==>
      (chosen.None? <==> forall j :: 0 <= j < |names| ==> SnapshotDate(names[j]).None?)
    ensures chosen.Some? ==>
      IsFirstClosest(names, f => SnapshotDistance(today, f), chosen.value) && SnapshotDate(names[chosen.value]).Some?
  {
    if !folderExists {
      return None;
    }
    chosen := FirstClosest(names, f => SnapshotDistance(today, f));
  }
}
