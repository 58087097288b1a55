/** The order charts: orders tallied by status, by shop (the five largest shops) and by
    month (the six latest months), the share of each bar, and the summary figures beside
    the charts. */
module OrderCharts {
  import opened Wrappers
  import opened Text
  import Seqs
  import opened Orders

  /** How often `k` occurs in `s`. */
  function Count(s: seq<string>, k: string): nat
  {
    if s == [] then 0 else Count(s[..|s| - 1], k) + (if s[|s| - 1] == k then 1 else 0)
  }

  lemma {:induction false} CountAbsent(s: seq<string>, k: string)
    requires k !in s
    ensures Count(s, k) == 0
  {
    if s != [] {
      CountAbsent(s[..|s| - 1], k);
    }
  }

  /** A tally dictionary: its keys in insertion order and the count under each key.
      `Object.keys` lists integer-like keys first, in ascending numeric order, and the
      other keys in insertion order; the model keeps insertion order for every key. */
  datatype Tally = Tally(keys: seq<string>, counts: map<string, nat>)

  /** The tally `reduce((acc, x) => { acc[key] = (acc[key] || 0) + 1 })` builds over a
      sequence of keys: its key list names each dictionary key exactly once. */
  function TallyOf(s: seq<string>): (t: Tally)
    ensures Seqs.NoDup(t.keys)
    ensures forall k :: k in t.keys <==> k in t.counts
  {
    if s == [] then Tally([], map[])
    else
      var t := TallyOf(s[..|s| - 1]);
      var k := s[|s| - 1];
      if k in t.counts then Tally(t.keys, t.counts[k := t.counts[k] + 1])
      else Tally(t.keys + [k], t.counts[k := 1])
  }

  /** The tally has a key for each distinct element, counting how often it occurs. */
  lemma {:induction false} TallyCounts(s: seq<string>)
    ensures forall k :: k in TallyOf(s).counts <==> k in s
    ensures forall k :: k in TallyOf(s).counts ==> TallyOf(s).counts[k] == Count(s, k)
  {
    if s != [] {
      var init := s[..|s| - 1];
      TallyCounts(init);
      assert s == init + [s[|s| - 1]];
      var t, r, last := TallyOf(init), TallyOf(s), s[|s| - 1];
      assert r == if last in t.counts then Tally(t.keys, t.counts[last := t.counts[last] + 1])
                  else Tally(t.keys + [last], t.counts[last := 1]);
      forall k | k in r.counts ensures r.counts[k] == Count(s, k) {
        assert Count(s, k) == Count(init, k) + (if last == k then 1 else 0);
        if k != last {
          assert k in t.counts;
        } else if last !in t.counts {
          CountAbsent(init, last);
        }
      }
    }
  }

  /** The reduce itself: one pass over the keys, bumping the count of each. */
  method TallyKeys(s: seq<string>) returns (keys: seq<string>, counts: map<string, nat>)
    ensures Tally(keys, counts) == TallyOf(s)
  {
    keys, counts := [], map[];
    for i := 0 to |s|
      invariant Tally(keys, counts) == TallyOf(s[..i])
    {
      assert s[..i + 1][..i] == s[..i];
      var k := s[i];
      if k in counts {
        counts := counts[k := counts[k] + 1];
      } else {
        keys := keys + [k];
        counts := counts[k := 1];
      }
    }
    assert s[..|s|] == s;
  }

  /** The sum of a column of counts. */
  function Total(data: seq<nat>): nat
  {
    if data == [] then 0 else Total(data[..|data| - 1]) + data[|data| - 1]
  }

  /** `Object.values(counts)`: the counts in key order. */
  function Values(t: Tally): (data: seq<nat>)
    requires forall k :: k in t.keys ==> k in t.counts
    ensures |data| == |t.keys|
  {
    seq(|t.keys|, i requires 0 <= i < |t.keys| => t.counts[t.keys[i]])
  }

  lemma {:induction false} TotalBump(data: seq<nat>, j: int)
    requires 0 <= j < |data|
    ensures Total(data[j := data[j] + 1]) == Total(data) + 1
  {
    var d := data[j := data[j] + 1];
    if j < |data| - 1 {
      assert d[..|d| - 1] == data[..|data| - 1][j := data[j] + 1];
      TotalBump(data[..|data| - 1], j);
    } else {
      assert d[..|d| - 1] == data[..|data| - 1];
    }
  }

  /** Bumping the count of a listed key adds one to the total. */
  lemma ValuesBump(t: Tally, j: int)
    requires forall k :: k in t.keys <==> k in t.counts
    requires Seqs.NoDup(t.keys) && 0 <= j < |t.keys|
    ensures Total(Values(Tally(t.keys, t.counts[t.keys[j] := t.counts[t.keys[j]] + 1])))
            == Total(Values(t)) + 1
  {
    var before := Values(t);
    var after := Values(Tally(t.keys, t.counts[t.keys[j] := t.counts[t.keys[j]] + 1]));
    assert after == before[j := before[j] + 1];
    TotalBump(before, j);
  }

  /** Listing a new key with count 1 adds one to the total. */
  lemma ValuesAppend(t: Tally, k: string)
    requires forall k :: k in t.keys <==> k in t.counts
    requires k !in t.counts
    ensures Total(Values(Tally(t.keys + [k], t.counts[k := 1]))) == Total(Values(t)) + 1
  {
    var after := Values(Tally(t.keys + [k], t.counts[k := 1]));
    assert after[..|after| - 1] == Values(t);
  }

  /** Every element is tallied exactly once: the counts add up to the number of keys
      tallied. */
  lemma {:induction false} TallyTotal(s: seq<string>)
    ensures Total(Values(TallyOf(s))) == |s|
  {
    if s != [] {
      var init := s[..|s| - 1];
      var k := s[|s| - 1];
      TallyTotal(init);
      var t := TallyOf(init);
      if k in t.counts {
        var j :| 0 <= j < |t.keys| && t.keys[j] == k;
        assert TallyOf(s) == Tally(t.keys, t.counts[t.keys[j] := t.counts[t.keys[j]] + 1]);
        ValuesBump(t, j);
      } else {
        assert TallyOf(s) == Tally(t.keys + [k], t.counts[k := 1]);
        ValuesAppend(t, k);
      }
    }
  }

  /** The bars of a chart: a label and a value each. */
  datatype ChartData = ChartData(labels: seq<string>, data: seq<nat>)

  /** The status-chart labels; a key other than the three known ones is shown as is. */
  function StatusLabel(key: string): string
  {
    if key == "valide" then "Valid\U{00E9}es"
    else if key == "refuse" then "Refus\U{00E9}es"
    else if key == "en_attente" then "En Attente"
    else key
  }

  /** Each order's status key, `statut_validation || 'en_attente'`. */
  function StatusKeys(orders: seq<Order>): (keys: seq<string>)
    ensures |keys| == |orders|
  {
    seq(|orders|, i requires 0 <= i < |orders| => StatusKey(orders[i].statutValidation))
  }

  /** `getStatusChartData`: one bar per status key, in first-occurrence order, labelled
      for display. The bars add up to the number of orders, and each bar counts the orders
      with that key. */
  function StatusChart(orders: seq<Order>): (c: ChartData)
    ensures |c.labels| == |c.data|
    ensures Total(c.data) == |orders|
  {
    var t := TallyOf(StatusKeys(orders));
    TallyTotal(StatusKeys(orders));
    ChartData(seq(|t.keys|, i requires 0 <= i < |t.keys| => StatusLabel(t.keys[i])), Values(t))
  }

  /** `total > 0 ? (value / total) * 100 : 0`: a bar's share of the chart, in percent. */
  function Percentage(value: nat, total: nat): (p: real)
    ensures total == 0 ==> p == 0.0
    ensures value <= total ==> 0.0 <= p <= 100.0
  {
    if total > 0 then (value as real / total as real) * 100.0 else 0.0
  }

  /** Each bar's share of a total: the shares of a column of counts. */
  function Shares(data: seq<nat>, total: nat): (r: seq<real>)
    ensures |r| == |data|
  {
    seq(|data|, i requires 0 <= i < |data| => Percentage(data[i], total))
  }

  lemma {:induction false} SharesSum(data: seq<nat>, total: nat)
    requires total > 0
    ensures Seqs.Sum(Shares(data, total)) == (Total(data) as real / total as real) * 100.0
  {
    if data != [] {
      var n := |data| - 1;
      SharesSum(data[..n], total);
      assert Shares(data, total)[..n] == Shares(data[..n], total);
      var a, b, t := Total(data[..n]) as real, data[n] as real, total as real;
      assert Total(data) as real == a + b;
      DivAdd(a, b, t);
    }
  }

  lemma DivAdd(a: real, b: real, t: real)
    requires t > 0.0
    ensures (a / t) * 100.0 + (b / t) * 100.0 == ((a + b) / t) * 100.0
  {
    assert a / t + b / t == (a + b) / t;
  }

  lemma DivSelf(t: real)
    requires t > 0.0
    ensures (t / t) * 100.0 == 100.0
  {
  }

  /** The shares of the bars add up to 100 whenever there is anything to show. */
  lemma PercentagesSumTo100(data: seq<nat>)
    requires Total(data) > 0
    ensures Seqs.Sum(Shares(data, Total(data))) == 100.0
  {
    SharesSum(data, Total(data));
    DivSelf(Total(data) as real);
  }

  /** Each order's shop key, `publisher_shop_name || 'Inconnu'`. */
  function ShopKey(o: Order): string
  {
    if o.publisherShopName.None? || o.publisherShopName.value == "" then "Inconnu"
    else o.publisherShopName.value
  }

  function ShopKeys(orders: seq<Order>): (keys: seq<string>)
    ensures |keys| == |orders|
  {
    seq(|orders|, i requires 0 <= i < |orders| => ShopKey(orders[i]))
  }

  /** `Object.entries(counts)`: key and count pairs in the tally's insertion order (which
      differs from `Object.entries` for integer-like keys). */
  function Entries(t: Tally): (e: seq<(string, nat)>)
    requires forall k :: k in t.keys ==> k in t.counts
    ensures |e| == |t.keys|
  {
    seq(|t.keys|, i requires 0 <= i < |t.keys| => (t.keys[i], t.counts[t.keys[i]]))
  }

  /** `([, a], [, b]) => b - a`: larger counts first. */
  function ByCountDesc(): ((string, nat), (string, nat)) -> bool
  {
    (a: (string, nat), b: (string, nat)) => a.1 > b.1
  }

  lemma ByCountDescOrder()
    ensures Seqs.StrictWeakOrder(ByCountDesc())
  {
  }

  /** The shop tally sorted by decreasing count, before the cut. */
  function RankedShops(orders: seq<Order>): seq<(string, nat)>
  {
    Seqs.SortBy(Entries(TallyOf(ShopKeys(orders))), ByCountDesc())
  }

  /** `getShopsChartData`'s ranking: the sorted tally cut to its first five entries. */
  function TopShops(orders: seq<Order>): (top: seq<(string, nat)>)
    ensures |top| <= 5
    ensures |top| == if |TallyOf(ShopKeys(orders)).keys| < 5 then |TallyOf(ShopKeys(orders)).keys| else 5
  {
    Seqs.Take(RankedShops(orders), 5)
  }

  /** The ranking holds the tally's entries in non-increasing count order. */
  lemma RankedSorted(orders: seq<Order>)
    ensures multiset(RankedShops(orders)) == multiset(Entries(TallyOf(ShopKeys(orders))))
    ensures forall i, j :: 0 <= i < j < |RankedShops(orders)| ==>
              RankedShops(orders)[i].1 >= RankedShops(orders)[j].1
  {
    var ranked := RankedShops(orders);
    ByCountDescOrder();
    Seqs.SortByIsSorted(Entries(TallyOf(ShopKeys(orders))), ByCountDesc());
    forall i, j | 0 <= i < j < |ranked| ensures ranked[i].1 >= ranked[j].1 {
      assert !ByCountDesc()(ranked[j], ranked[i]);
    }
  }

  /** An entry of a ranking left out of its prefix has a count no larger than any kept. */
  lemma DroppedRanksLower(ranked: seq<(string, nat)>, top: seq<(string, nat)>, e: (string, nat), i: int)
    requires top <= ranked
    requires forall a, b :: 0 <= a < b < |ranked| ==> ranked[a].1 >= ranked[b].1
    requires e in ranked && e !in top && 0 <= i < |top|
    ensures top[i].1 >= e.1
  {
    var j :| 0 <= j < |ranked| && ranked[j] == e;
    assert forall k :: 0 <= k < |top| ==> top[k] == ranked[k];
    assert j >= |top|;
  }

  /** The top five are real tally entries in non-increasing count order, and every shop
      left out has a count no larger than any shop kept. */
  lemma TopShopsRanked(orders: seq<Order>)
    ensures forall i :: 0 <= i < |TopShops(orders)| ==>
              TopShops(orders)[i] in Entries(TallyOf(ShopKeys(orders)))
    ensures forall i, j :: 0 <= i < j < |TopShops(orders)| ==>
              TopShops(orders)[i].1 >= TopShops(orders)[j].1
    ensures forall e, i :: (e in Entries(TallyOf(ShopKeys(orders))) && e !in TopShops(orders)
                            && 0 <= i < |TopShops(orders)|) ==> TopShops(orders)[i].1 >= e.1
  {
    var entries := Entries(TallyOf(ShopKeys(orders)));
    var ranked := RankedShops(orders);
    var top := TopShops(orders);
    RankedSorted(orders);
    forall i | 0 <= i < |top| ensures top[i] in entries {
      assert top[i] == ranked[i];
      assert ranked[i] in multiset(ranked);
    }
    forall e, i | e in entries && e !in top && 0 <= i < |top| ensures top[i].1 >= e.1 {
      assert e in multiset(ranked);
      DroppedRanksLower(ranked, top, e, i);
    }
  }

  /** The labels and the values of a list of entries, as two columns. */
  function Columns(entries: seq<(string, nat)>): (c: ChartData)
    ensures |c.labels| == |c.data| == |entries|
    ensures forall i :: 0 <= i < |entries| ==> c.labels[i] == entries[i].0 && c.data[i] == entries[i].1
  {
    ChartData(seq(|entries|, i requires 0 <= i < |entries| => entries[i].0),
              seq(|entries|, i requires 0 <= i < |entries| => entries[i].1))
  }

  /** `getShopsChartData`: the five largest shops and their counts. */
  function ShopsChart(orders: seq<Order>): ChartData
  {
    Columns(TopShops(orders))
  }

  /** An entry of a tally is a key that occurs, paired with the number of its occurrences. */
  lemma EntryCounts(s: seq<string>, e: (string, nat))
    requires e in Entries(TallyOf(s))
    ensures e.0 in s && e.1 == Count(s, e.0)
  {
    TallyCounts(s);
    var t := TallyOf(s);
    var i :| 0 <= i < |t.keys| && Entries(t)[i] == e;
    assert t.keys[i] in t.counts;
  }

  /** The shop chart has one bar for each of the five largest shops, or for every shop
      when there are fewer; each bar is a shop name and its number of orders, and the bars
      come in non-increasing order. */
  lemma ShopsChartMeaning(orders: seq<Order>)
    ensures var c := ShopsChart(orders);
            var n := |TallyOf(ShopKeys(orders)).keys|;
            && |c.labels| == |c.data| == (if n < 5 then n else 5)
            && (forall i :: 0 <= i < |c.data| ==>
                  c.labels[i] in ShopKeys(orders) && c.data[i] == Count(ShopKeys(orders), c.labels[i]))
            && (forall i, j :: 0 <= i < j < |c.data| ==> c.data[i] >= c.data[j])
  {
    var top := TopShops(orders);
    var c := ShopsChart(orders);
    TopShopsRanked(orders);
    forall i | 0 <= i < |c.data|
      ensures c.labels[i] in ShopKeys(orders) && c.data[i] == Count(ShopKeys(orders), c.labels[i])
    {
      EntryCounts(ShopKeys(orders), top[i]);
    }
  }

  /** A date's local year and month (`getMonth`, from 0), as the caller's calendar
      reads it. */
  datatype YearMonth = YearMonth(year: int, month: int)

  /** `${getFullYear()}-${String(getMonth() + 1).padStart(2, '0')}`; an Invalid Date
      gives `NaN-NaN`. */
  function MonthKey(ym: Option<YearMonth>): string
  {
    if ym.None? then "NaN-NaN"
    else IntToString(ym.value.year) + "-" + PadStart2(IntToString(ym.value.month + 1))
  }

  /** For a year from 0 and a month from 0 to 11, the key is the year's digits, `-`, and
      two digits reading as the month counted from 1. */
  lemma MonthKeyReadsBack(year: nat, month: nat)
    requires month < 12
    ensures var parts := Split(MonthKey(Some(YearMonth(year, month))), '-');
            && |parts| == 2
            && AllDigits(parts[0]) && DigitsValue(parts[0]) == year
            && |parts[1]| == 2 && AllDigits(parts[1]) && DigitsValue(parts[1]) == month + 1
  {
    var ys, ms := NatToString(year), PadStart2(NatToString(month + 1));
    assert MonthKey(Some(YearMonth(year, month))) == ys + ['-'] + ms;
    NatToStringValue(year);
    PadStart2Value(month + 1);
    SplitDigitGroups(ys, ms, '-');
  }

  function MonthKeys(orders: seq<Order>, localMonth: string -> Option<YearMonth>): (keys: seq<string>)
    ensures |keys| == |orders|
  {
    seq(|orders|, i requires 0 <= i < |orders| => MonthKey(localMonth(orders[i].createdAt)))
  }

  /** `a.localeCompare(b) < 0`, as the order of character codes. */
  predicate StrLess(a: string, b: string)
  {
    if a == [] then b != []
    else if b == [] then false
    else if a[0] != b[0] then a[0] < b[0]
    else StrLess(a[1..], b[1..])
  }

  lemma {:induction false} StrLessTrans(a: string, b: string, c: string)
    requires StrLess(a, b) && StrLess(b, c)
    ensures StrLess(a, c)
  {
    if a != [] && a[0] == b[0] && b[0] == c[0] {
      StrLessTrans(a[1..], b[1..], c[1..]);
    }
  }

  lemma {:induction false} StrLessTotal(a: string, b: string)
    ensures StrLess(a, b) || a == b || StrLess(b, a)
    ensures !(StrLess(a, b) && StrLess(b, a))
  {
    if a != [] && b != [] && a[0] == b[0] {
      StrLessTotal(a[1..], b[1..]);
      assert a == [a[0]] + a[1..] && b == [b[0]] + b[1..];
    }
  }

  /** `([a], [b]) => a.localeCompare(b)`: earlier keys first. */
  function ByKey(): ((string, nat), (string, nat)) -> bool
  {
    (a: (string, nat), b: (string, nat)) => StrLess(a.0, b.0)
  }

  lemma ByKeyOrder()
    ensures Seqs.StrictWeakOrder(ByKey())
  {
    forall a: (string, nat) ensures !ByKey()(a, a) {
      StrLessTotal(a.0, a.0);
    }
    forall a: (string, nat), b: (string, nat), c: (string, nat) | ByKey()(a, b) && ByKey()(b, c)
      ensures ByKey()(a, c)
    {
      StrLessTrans(a.0, b.0, c.0);
    }
    forall a: (string, nat), b: (string, nat), c: (string, nat) | !ByKey()(a, b) && !ByKey()(b, c)
      ensures !ByKey()(a, c)
    {
      StrLessTotal(a.0, b.0);
      StrLessTotal(b.0, c.0);
      StrLessTotal(a.0, c.0);
      if StrLess(a.0, c.0) {
        if b.0 == a.0 {
        } else if c.0 == b.0 {
        } else {
          StrLessTrans(c.0, b.0, a.0);
        }
      }
    }
  }

  /** The month tally sorted by key, before the cut. */
  function SortedMonths(orders: seq<Order>, localMonth: string -> Option<YearMonth>): seq<(string, nat)>
  {
    Seqs.SortBy(Entries(TallyOf(MonthKeys(orders, localMonth))), ByKey())
  }

  /** `getMonthlyChartData`'s buckets: the sorted tally cut to its last six entries. */
  function LastMonths(orders: seq<Order>, localMonth: string -> Option<YearMonth>): (last: seq<(string, nat)>)
    ensures |last| <= 6
    ensures |last| == if |TallyOf(MonthKeys(orders, localMonth)).keys| < 6
                      then |TallyOf(MonthKeys(orders, localMonth)).keys| else 6
  {
    Seqs.TakeLast(SortedMonths(orders, localMonth), 6)
  }

  /** The keys of a permutation of entries with distinct keys are distinct too. */
  lemma PermutationKeysDistinct(sorted: seq<(string, nat)>, entries: seq<(string, nat)>)
    requires multiset(sorted) == multiset(entries)
    requires forall i, j :: 0 <= i < j < |entries| ==> entries[i].0 != entries[j].0
    ensures forall i, j :: 0 <= i < j < |sorted| ==> sorted[i].0 != sorted[j].0
  {
    assert Seqs.NoDup(entries);
    forall i, j | 0 <= i < j < |sorted| ensures sorted[i].0 != sorted[j].0 {
      DistinctIndices(sorted, entries, i, j);
      assert sorted[i] in multiset(entries) && sorted[j] in multiset(entries);
      var a :| 0 <= a < |entries| && entries[a] == sorted[i];
      var b :| 0 <= b < |entries| && entries[b] == sorted[j];
      assert a != b;
    }
  }

  /** In a sequence sorted by distinct keys, the last `n` entries come in strictly
      ascending key order, each after every entry before them. */
  lemma TakeLastGreatest(sorted: seq<(string, nat)>, n: nat)
    requires Seqs.SortedBy(sorted, ByKey())
    requires forall i, j :: 0 <= i < j < |sorted| ==> sorted[i].0 != sorted[j].0
    ensures var last := Seqs.TakeLast(sorted, n);
            && (forall i, j :: 0 <= i < j < |last| ==> StrLess(last[i].0, last[j].0))
            && (forall j, i :: 0 <= j < |sorted| - |last| && 0 <= i < |last| ==> StrLess(sorted[j].0, last[i].0))
  {
    var last := Seqs.TakeLast(sorted, n);
    var off := |sorted| - |last|;
    forall i, j | 0 <= i < j < |last| ensures StrLess(last[i].0, last[j].0) {
      assert !ByKey()(sorted[off + j], sorted[off + i]);
      StrLessTotal(last[i].0, last[j].0);
    }
    forall j, i | 0 <= j < off && 0 <= i < |last| ensures StrLess(sorted[j].0, last[i].0) {
      assert !ByKey()(sorted[off + i], sorted[j]);
      StrLessTotal(sorted[j].0, last[i].0);
    }
  }

  /** An element of `s` that `TakeLast` drops sits before the kept ones. */
  lemma DroppedComesFirst<T>(s: seq<T>, n: nat, e: T)
    requires e in s && e !in Seqs.TakeLast(s, n)
    ensures exists j :: 0 <= j < |s| - |Seqs.TakeLast(s, n)| && s[j] == e
  {
    var last := Seqs.TakeLast(s, n);
    var j :| 0 <= j < |s| && s[j] == e;
    assert forall k :: |s| - |last| <= k < |s| ==> s[k] == last[k - (|s| - |last|)];
    assert j < |s| - |last|;
  }

  /** The last six of entries with distinct keys sorted by key are some of the entries,
      in ascending key order, each with a key after the key of every entry left out. */
  lemma LatestOfSorted(entries: seq<(string, nat)>)
    requires forall i, j :: 0 <= i < j < |entries| ==> entries[i].0 != entries[j].0
    ensures var last := Seqs.TakeLast(Seqs.SortBy(entries, ByKey()), 6);
            && (forall i :: 0 <= i < |last| ==> last[i] in entries)
            && (forall i, j :: 0 <= i < j < |last| ==> StrLess(last[i].0, last[j].0))
            && (forall e, i :: e in entries && e !in last && 0 <= i < |last| ==> StrLess(e.0, last[i].0))
  {
    var sorted := Seqs.SortBy(entries, ByKey());
    var last := Seqs.TakeLast(sorted, 6);
    var off := |sorted| - |last|;
    ByKeyOrder();
    Seqs.SortByIsSorted(entries, ByKey());
    PermutationKeysDistinct(sorted, entries);
    TakeLastGreatest(sorted, 6);
    forall i | 0 <= i < |last| ensures last[i] in entries {
      assert last[i] == sorted[off + i];
      assert sorted[off + i] in multiset(sorted);
    }
    forall e, i | e in entries && e !in last && 0 <= i < |last| ensures StrLess(e.0, last[i].0) {
      assert e in multiset(entries);
      assert e in sorted;
      DroppedComesFirst(sorted, 6, e);
    }
  }

  /** The kept months are real tally entries in ascending key order, with a key after
      the key of every month left out. */
  lemma LastMonthsLatest(orders: seq<Order>, localMonth: string -> Option<YearMonth>)
    ensures forall i :: 0 <= i < |LastMonths(orders, localMonth)| ==>
              LastMonths(orders, localMonth)[i] in Entries(TallyOf(MonthKeys(orders, localMonth)))
    ensures forall i, j :: 0 <= i < j < |LastMonths(orders, localMonth)| ==>
              StrLess(LastMonths(orders, localMonth)[i].0, LastMonths(orders, localMonth)[j].0)
    ensures forall e, i :: (e in Entries(TallyOf(MonthKeys(orders, localMonth)))
                            && e !in LastMonths(orders, localMonth)
                            && 0 <= i < |LastMonths(orders, localMonth)|) ==>
              StrLess(e.0, LastMonths(orders, localMonth)[i].0)
  {
    var entries := Entries(TallyOf(MonthKeys(orders, localMonth)));
    assert LastMonths(orders, localMonth) == Seqs.TakeLast(Seqs.SortBy(entries, ByKey()), 6);
    LatestOfSorted(entries);
  }

  /** Two positions of a permutation of a duplicate-free sequence hold different values. */
  lemma DistinctIndices<T>(sorted: seq<T>, entries: seq<T>, i: int, j: int)
    requires multiset(sorted) == multiset(entries) && Seqs.NoDup(entries)
    requires 0 <= i < |sorted| && 0 <= j < |sorted| && i != j
    ensures sorted[i] != sorted[j]
  {
    if sorted[i] == sorted[j] {
      var x := sorted[i];
      assert multiset(sorted)[x] >= 2 by {
        MultisetTwo(sorted, i, j);
      }
      Seqs.NoDupOnce(entries, x);
    }
  }

  lemma MultisetTwo<T>(s: seq<T>, i: int, j: int)
    requires 0 <= i < |s| && 0 <= j < |s| && i != j && s[i] == s[j]
    ensures multiset(s)[s[i]] >= 2
  {
    var lo, hi := if i < j then i else j, if i < j then j else i;
    assert s == s[..lo] + [s[lo]] + s[lo + 1..hi] + [s[hi]] + s[hi + 1..];
  }

  /** `getMonthlyChartData`: the six latest months and their counts (the label is the
      key; its locale rendering is not modelled). */
  function MonthlyChart(orders: seq<Order>, localMonth: string -> Option<YearMonth>): ChartData
  {
    Columns(LastMonths(orders, localMonth))
  }

  /** The monthly chart has one bar for each of the six latest months, or for every month
      when there are fewer; each bar is a month key and its number of orders, and the keys
      ascend. */
  lemma MonthlyChartMeaning(orders: seq<Order>, localMonth: string -> Option<YearMonth>)
    ensures var c := MonthlyChart(orders, localMonth);
            var keys := MonthKeys(orders, localMonth);
            var n := |TallyOf(keys).keys|;
            && |c.labels| == |c.data| == (if n < 6 then n else 6)
            && (forall i :: 0 <= i < |c.data| ==> c.labels[i] in keys && c.data[i] == Count(keys, c.labels[i]))
            && (forall i, j :: 0 <= i < j < |c.labels| ==> StrLess(c.labels[i], c.labels[j]))
  {
    var last := LastMonths(orders, localMonth);
    var c := MonthlyChart(orders, localMonth);
    var keys := MonthKeys(orders, localMonth);
    LastMonthsLatest(orders, localMonth);
    forall i | 0 <= i < |c.data| ensures c.labels[i] in keys && c.data[i] == Count(keys, c.labels[i]) {
      EntryCounts(keys, last[i]);
    }
  }

  /** "Shops actifs": `new Set(commandes.map(c => c.publisher_shop_name)).size`, a
      missing name counting as one more value. */
  function DistinctShops(orders: seq<Order>): nat
  {
    |set i | 0 <= i < |orders| :: orders[i].publisherShopName|
  }

  /** The names of a list of orders are the names of all but the last, and the last. */
  lemma ShopNamesSnoc(orders: seq<Order>)
    requires orders != []
    ensures (set i | 0 <= i < |orders| :: orders[i].publisherShopName)
            == (set i | 0 <= i < |orders| - 1 :: orders[i].publisherShopName)
               + {orders[|orders| - 1].publisherShopName}
  {
    var last := |orders| - 1;
    var a := set i | 0 <= i < last :: orders[i].publisherShopName;
    var b := set i | 0 <= i < |orders| :: orders[i].publisherShopName;
    forall x | x in b ensures x in a + {orders[last].publisherShopName} {
      var i :| 0 <= i < |orders| && orders[i].publisherShopName == x;
      if i < last {
        assert x in a;
      }
    }
    assert orders[last].publisherShopName in b;
  }

  /** There are never more distinct shop names than orders, and at least one when there
      is an order. */
  lemma {:induction false} DistinctShopsBounds(orders: seq<Order>)
    ensures DistinctShops(orders) <= |orders|
    ensures orders != [] ==> DistinctShops(orders) >= 1
  {
    if orders != [] {
      var init := orders[..|orders| - 1];
      DistinctShopsBounds(init);
      ShopNamesSnoc(orders);
      assert (set i | 0 <= i < |init| :: init[i].publisherShopName)
             == (set i | 0 <= i < |orders| - 1 :: orders[i].publisherShopName);
    }
  }
}
