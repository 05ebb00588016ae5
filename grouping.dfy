/**
 * The date-grouped views of TodoView.tsx, `getFutureGroups` and `getHistoryGroups`:
 * a loop files each task into a dictionary of arrays under its key, and the
 * dictionary's entries (in key insertion order, which is JavaScript's order for
 * non-numeric keys) are then sorted by key.
 */
module Grouping {
  import opened Wrappers
  import opened Seqs
  import opened Sorting
  import opened Text
  import opened Calendar
  import opened Types
  import opened Todos

  /** One `[key, tasks]` pair of `Object.entries(groups)`. */
  type Entry = (string, seq<TodoItem>)

  function KeyIs(keyOf: TodoItem -> string, k: string): TodoItem -> bool {
    (t: TodoItem) => keyOf(t) == k
  }

  predicate DistinctKeys(es: seq<Entry>) {
    forall i, j :: 0 <= i < j < |es| ==> es[i].0 != es[j].0
  }

  /** Each group holds exactly the items of `prefix` with its key, and every item has a group. */
  ghost predicate GroupsOf(prefix: seq<TodoItem>, keyOf: TodoItem -> string, groups: map<string, seq<TodoItem>>) {
    && (forall k :: k in groups ==> groups[k] != [] && groups[k] == Filter(prefix, KeyIs(keyOf, k)))
    && (forall i :: 0 <= i < |prefix| ==> keyOf(prefix[i]) in groups)
  }

  /** One step of the loop: `t` is pushed onto its key's group, which is created when missing. */
  lemma GroupStep(prefix: seq<TodoItem>, t: TodoItem, keyOf: TodoItem -> string,
                  groups: map<string, seq<TodoItem>>, next: map<string, seq<TodoItem>>)
    requires GroupsOf(prefix, keyOf, groups)
    requires next == if keyOf(t) in groups then groups[keyOf(t) := groups[keyOf(t)] + [t]]
                     else groups[keyOf(t) := [t]]
    ensures GroupsOf(prefix + [t], keyOf, next)
  {
    forall k' | k' in next ensures next[k'] != [] && next[k'] == Filter(prefix + [t], KeyIs(keyOf, k')) {
      GroupStepAt(prefix, t, keyOf, groups, next, k');
    }
    forall i | 0 <= i < |prefix + [t]| ensures keyOf((prefix + [t])[i]) in next {
      if i < |prefix| {
        assert keyOf(prefix[i]) in groups;
      }
    }
  }

  lemma GroupStepAt(prefix: seq<TodoItem>, t: TodoItem, keyOf: TodoItem -> string,
                    groups: map<string, seq<TodoItem>>, next: map<string, seq<TodoItem>>, k': string)
    requires GroupsOf(prefix, keyOf, groups)
    requires next == if keyOf(t) in groups then groups[keyOf(t) := groups[keyOf(t)] + [t]]
                     else groups[keyOf(t) := [t]]
    requires k' in next
    ensures next[k'] != [] && next[k'] == Filter(prefix + [t], KeyIs(keyOf, k'))
  {
    FilterSnoc(prefix, t, KeyIs(keyOf, k'));
    if k' == keyOf(t) && k' !in groups {
      forall i | 0 <= i < |prefix| ensures !KeyIs(keyOf, k')(prefix[i]) {
        assert keyOf(prefix[i]) in groups;
      }
      FilterNone(prefix, KeyIs(keyOf, k'));
    }
  }

  /**
   * The `forEach` loop: `if (!groups[key]) groups[key] = []; groups[key].push(t)`.
   * `keys` records the order in which keys were first seen. Each group is non-empty and
   * holds exactly the items with its key, in list order; every item's key has a group.
   */
  method GroupByKey(items: seq<TodoItem>, keyOf: TodoItem -> string)
    returns (keys: seq<string>, groups: map<string, seq<TodoItem>>)
    ensures forall i, j :: 0 <= i < j < |keys| ==> keys[i] != keys[j]
    ensures forall k :: k in groups <==> k in keys
    ensures GroupsOf(items, keyOf, groups)
  {
    keys, groups := [], map[];
    ghost var seen: seq<TodoItem> := [];
    var n := 0;
    while n < |items|
      invariant 0 <= n <= |items| && seen == items[..n]
      invariant forall i, j :: 0 <= i < j < |keys| ==> keys[i] != keys[j]
      invariant forall k :: k in groups <==> k in keys
      invariant GroupsOf(seen, keyOf, groups)
    {
      var t := items[n];
      var k := keyOf(t);
      ghost var before := groups;
      if k !in groups {
        keys := keys + [k];
        groups := groups[k := [t]];
      } else {
        groups := groups[k := groups[k] + [t]];
      }
      GroupStep(seen, t, keyOf, before, groups);
      seen := seen + [t];
      n := n + 1;
    }
    assert seen == items;
  }

  /** `Object.entries(groups)` for the keys in insertion order. */
  function Entries(keys: seq<string>, groups: map<string, seq<TodoItem>>): (es: seq<Entry>)
    requires forall i :: 0 <= i < |keys| ==> keys[i] in groups
    ensures |es| == |keys|
    ensures forall i :: 0 <= i < |keys| ==> es[i] == (keys[i], groups[keys[i]])
  {
    if keys == [] then [] else Entries(keys[..|keys| - 1], groups) + [(keys[|keys| - 1], groups[keys[|keys| - 1]])]
  }

  /** A reordering of entries with distinct keys has distinct keys and the same entries. */
  lemma PermutedEntries(es: seq<Entry>, r: seq<Entry>)
    requires DistinctKeys(es)
    requires multiset(r) == multiset(es)
    ensures DistinctKeys(r)
    ensures forall e :: e in r <==> e in es
  {
    forall e ensures e in r <==> e in es {
      assert e in r <==> multiset(r)[e] > 0;
    }
    forall i, j | 0 <= i < j < |r| ensures r[i].0 != r[j].0 {
      if r[i].0 == r[j].0 {
        assert r[i] in es && r[j] in es;
        var a :| 0 <= a < |es| && es[a] == r[i];
        var b :| 0 <= b < |es| && es[b] == r[j];
        assert a == b;
        TwoOccurrences(r, i, j);
        DistinctOnce(es, r[i]);
      }
    }
  }

  /**
   * The entries of a grouping, in any order: distinct keys, each group the items with
   * its key, and a group for every item's key.
   */
  lemma ReorderedGroups(items: seq<TodoItem>, keyOf: TodoItem -> string, keys: seq<string>,
                        groups: map<string, seq<TodoItem>>, r: seq<Entry>)
    requires forall i, j :: 0 <= i < j < |keys| ==> keys[i] != keys[j]
    requires forall k :: k in groups <==> k in keys
    requires GroupsOf(items, keyOf, groups)
    requires multiset(r) == multiset(Entries(keys, groups))
    ensures DistinctKeys(r)
    ensures forall i :: 0 <= i < |r| ==> r[i].1 != [] && r[i].1 == Filter(items, KeyIs(keyOf, r[i].0))
    ensures forall t :: t in items ==> exists i :: 0 <= i < |r| && r[i].0 == keyOf(t)
  {
    var es := Entries(keys, groups);
    PermutedEntries(es, r);
    ReorderedContents(items, keyOf, keys, groups, r);
    ReorderedCoverage(items, keyOf, keys, groups, r);
  }

  lemma ReorderedContents(items: seq<TodoItem>, keyOf: TodoItem -> string, keys: seq<string>,
                          groups: map<string, seq<TodoItem>>, r: seq<Entry>)
    requires forall k :: k in groups <==> k in keys
    requires GroupsOf(items, keyOf, groups)
    requires multiset(r) == multiset(Entries(keys, groups))
    ensures forall i :: 0 <= i < |r| ==> r[i].1 != [] && r[i].1 == Filter(items, KeyIs(keyOf, r[i].0))
  {
    var es := Entries(keys, groups);
    forall i | 0 <= i < |r| ensures r[i].1 != [] && r[i].1 == Filter(items, KeyIs(keyOf, r[i].0)) {
      assert r[i] in multiset(es);
      var a :| 0 <= a < |es| && es[a] == r[i];
      assert r[i].0 in groups && r[i].1 == groups[r[i].0];
    }
  }

  lemma ReorderedCoverage(items: seq<TodoItem>, keyOf: TodoItem -> string, keys: seq<string>,
                          groups: map<string, seq<TodoItem>>, r: seq<Entry>)
    requires forall k :: k in groups <==> k in keys
    requires GroupsOf(items, keyOf, groups)
    requires multiset(r) == multiset(Entries(keys, groups))
    ensures forall t :: t in items ==> exists i :: 0 <= i < |r| && r[i].0 == keyOf(t)
  {
    var es := Entries(keys, groups);
    forall t | t in items ensures exists i :: 0 <= i < |r| && r[i].0 == keyOf(t) {
      var m :| 0 <= m < |items| && items[m] == t;
      assert keyOf(t) in groups;
      var a :| 0 <= a < |keys| && keys[a] == keyOf(t);
      assert es[a] in multiset(r);
      var i :| 0 <= i < |r| && r[i] == es[a];
    }
  }

  // ---------- future groups ----------

  function DateOf(t: TodoItem): string {
    t.date
  }

  /** `a[0].localeCompare(b[0]) <= 0`. */
  predicate KeyAscending(a: Entry, b: Entry) {
    LexCompare(a.0, b.0) <= 0
  }

  lemma KeyAscendingTotalPreorder()
    ensures IsTotalPreorder(KeyAscending)
  {
    LexLeTotalOrder();
    assert forall a, b :: KeyAscending(a, b) == LexLe(a.0, b.0);
  }

  /**
   * `getFutureGroups`: one entry per date after today, in strictly ascending date order,
   * each holding exactly the tasks of that date in list order; every future task is
   * under its date's entry.
   */
  method GetFutureGroups(todos: seq<TodoItem>, todayStr: string) returns (r: seq<Entry>)
    ensures forall i, j :: 0 <= i < j < |r| ==> LexLt(r[i].0, r[j].0)
    ensures forall i :: 0 <= i < |r| ==>
              LexLt(todayStr, r[i].0) && r[i].1 != [] && r[i].1 == Filter(todos, DatedOn(r[i].0))
    ensures forall t :: t in todos && LexLt(todayStr, t.date) ==> exists i :: 0 <= i < |r| && r[i].0 == t.date
  {
    var future := FutureTodos(todos, todayStr);
    var keys, groups := GroupByKey(future, DateOf);
    var es := Entries(keys, groups);
    r := SortBy(es, KeyAscending);
    KeyAscendingTotalPreorder();
    SortByCorrect(es, KeyAscending);
    ReorderedGroups(future, DateOf, keys, groups, r);
    forall i, j | 0 <= i < j < |r| ensures LexLt(r[i].0, r[j].0) {
      assert KeyAscending(r[i], r[j]);
      LexTrichotomy(r[i].0, r[j].0);
    }
    forall i | 0 <= i < |r|
      ensures LexLt(todayStr, r[i].0) && r[i].1 != [] && r[i].1 == Filter(todos, DatedOn(r[i].0))
    {
      FutureGroupContents(todos, todayStr, r[i].0, r[i].1);
    }
    forall t | t in todos && LexLt(todayStr, t.date) ensures exists i :: 0 <= i < |r| && r[i].0 == t.date {
      FutureTodosOrder(todos, todayStr);
      assert multiset(future)[t] > 0;
      assert t in future && DateOf(t) == t.date;
    }
  }

  /** Two tasks are tied by the date order exactly when they carry the same date. */
  lemma DateLeEquiv(p: TodoItem, y: TodoItem)
    ensures EquivTo(DateLe, p)(y) <==> y.date == p.date
  {
    assert EquivTo(DateLe, p)(y) == (DateLe(y, p) && DateLe(p, y));
    assert DateLe(y, p) == !LexLt(p.date, y.date) && DateLe(p, y) == !LexLt(y.date, p.date);
    LexTrichotomy(y.date, p.date);
    LexIrreflexive(y.date);
  }

  /**
   * The group of a date `k` in the future list is the list's tasks dated `k`, in list
   * order: the date sort is stable and `k` lies after today.
   */
  lemma FutureGroupContents(todos: seq<TodoItem>, todayStr: string, k: string, g: seq<TodoItem>)
    requires g != [] && g == Filter(FutureTodos(todos, todayStr), KeyIs(DateOf, k))
    ensures LexLt(todayStr, k) && g == Filter(todos, DatedOn(k))
  {
    var after := Filter(todos, DatedAfter(todayStr));
    var fut := FutureTodos(todos, todayStr);
    var p := g[0];
    FutureGroupWitness(todos, todayStr, k, g);
    DateLeTotalPreorder();
    SortByCorrect(after, DateLe);
    assert Filter(fut, EquivTo(DateLe, p)) == Filter(after, EquivTo(DateLe, p));
    KeyIsTiedDates(fut, k, p);
    TiedDatesDatedOn(after, k, p);
    FutureDatedOn(todos, todayStr, k);
  }

  /** A member of a non-empty future group lies after today and carries the group's date. */
  lemma FutureGroupWitness(todos: seq<TodoItem>, todayStr: string, k: string, g: seq<TodoItem>)
    requires g != [] && g == Filter(FutureTodos(todos, todayStr), KeyIs(DateOf, k))
    ensures g[0].date == k && LexLt(todayStr, k)
  {
    var after := Filter(todos, DatedAfter(todayStr));
    var fut := FutureTodos(todos, todayStr);
    var p := g[0];
    assert p in g && KeyIs(DateOf, k)(p);
    assert p in fut;
    DateLeTotalPreorder();
    SortByCorrect(after, DateLe);
    assert multiset(fut)[p] > 0;
    assert p in after;
  }

  /** Keying by date `k` selects the tasks tied with a task dated `k` under the date order. */
  lemma KeyIsTiedDates(s: seq<TodoItem>, k: string, p: TodoItem)
    requires p.date == k
    ensures Filter(s, KeyIs(DateOf, k)) == Filter(s, EquivTo(DateLe, p))
  {
    forall i | 0 <= i < |s| ensures KeyIs(DateOf, k)(s[i]) == EquivTo(DateLe, p)(s[i]) {
      assert KeyIs(DateOf, k)(s[i]) == (DateOf(s[i]) == k);
      DateLeEquiv(p, s[i]);
    }
    FilterExt(s, KeyIs(DateOf, k), EquivTo(DateLe, p));
  }

  /** The tasks tied with a task dated `k` under the date order are the tasks dated `k`. */
  lemma TiedDatesDatedOn(s: seq<TodoItem>, k: string, p: TodoItem)
    requires p.date == k
    ensures Filter(s, EquivTo(DateLe, p)) == Filter(s, DatedOn(k))
  {
    forall i | 0 <= i < |s| ensures EquivTo(DateLe, p)(s[i]) == DatedOn(k)(s[i]) {
      DateLeEquiv(p, s[i]);
    }
    FilterExt(s, EquivTo(DateLe, p), DatedOn(k));
  }

  /** For a date `k` after today, the tasks after today dated `k` are all the tasks dated `k`. */
  lemma FutureDatedOn(todos: seq<TodoItem>, todayStr: string, k: string)
    requires LexLt(todayStr, k)
    ensures Filter(Filter(todos, DatedAfter(todayStr)), DatedOn(k)) == Filter(todos, DatedOn(k))
  {
    forall x ensures DatedOn(k)(x) == (DatedAfter(todayStr)(x) && DatedOn(k)(x)) {
    }
    FilterFilter(todos, DatedAfter(todayStr), DatedOn(k), DatedOn(k));
  }

  // ---------- history groups ----------

  const TodayLabel := "今天"
  const YesterdayLabel := "昨天"
  const TodaySortKey := "9999-99-99"
  const YesterdaySortKey := "9999-99-98"

  /** The group key of a completed task: today's and yesterday's dates become labels. */
  function HistoryKey(todayStr: string, yesterdayStr: string): TodoItem -> string {
    (t: TodoItem) => if t.date == todayStr then TodayLabel else if t.date == yesterdayStr then YesterdayLabel else t.date
  }

  /** The string a key is sorted by: the labels sort above every date. */
  function SortKey(k: string): string {
    if k == TodayLabel then TodaySortKey else if k == YesterdayLabel then YesterdaySortKey else k
  }

  /** `dateB.localeCompare(dateA) <= 0`: descending by sort key. */
  predicate KeyDescending(a: Entry, b: Entry) {
    LexCompare(SortKey(b.0), SortKey(a.0)) <= 0
  }

  lemma KeyDescendingTotalPreorder()
    ensures IsTotalPreorder(KeyDescending)
  {
    LexLeTotalOrder();
    assert forall a, b :: KeyDescending(a, b) == LexLe(SortKey(b.0), SortKey(a.0));
  }

  /** Strings that agree on their first `n` characters and then differ upward are ordered. */
  lemma {:induction false} LexLtAt(a: string, b: string, n: nat)
    requires n < |a| && n < |b| && a[..n] == b[..n] && a[n] < b[n]
    ensures LexLt(a, b)
    decreases n
  {
    if n > 0 {
      assert a[0] == a[..n][0] && b[0] == b[..n][0];
      assert a[1..][..n - 1] == a[..n][1..] && b[1..][..n - 1] == b[..n][1..];
      LexLtAt(a[1..], b[1..], n - 1);
    }
  }

  /** Every `YYYY-MM-DD` date sorts below the yesterday key, since no month reaches 99. */
  lemma IsoDateBelowLabels(d: string)
    requires ParseIsoDate(d).Some?
    ensures LexLt(d, YesterdaySortKey)
  {
    var y := YesterdaySortKey;
    var m := d[5..7];
    assert m[..1] == [d[5]] && [d[5]][..0] == [];
    assert DigitsValue(m) == 10 * DigitValue(d[5]) + DigitValue(d[6]);
    assert d[5] < '9';
    assert IsDigit(d[0]) && IsDigit(d[1]) && IsDigit(d[2]) && IsDigit(d[3]) by {
      assert d[..4][0] == d[0] && d[..4][1] == d[1] && d[..4][2] == d[2] && d[..4][3] == d[3];
    }
    if d[0] != '9' {
      LexLtAt(d, y, 0);
    } else if d[1] != '9' {
      assert d[..1] == y[..1];
      LexLtAt(d, y, 1);
    } else if d[2] != '9' {
      assert d[..2] == y[..2];
      LexLtAt(d, y, 2);
    } else if d[3] != '9' {
      assert d[..3] == y[..3];
      LexLtAt(d, y, 3);
    } else {
      assert d[..5] == y[..5];
      LexLtAt(d, y, 5);
    }
  }

  lemma LabelKeysOrdered()
    ensures LexLt(YesterdaySortKey, TodaySortKey)
  {
    assert YesterdaySortKey[..9] == TodaySortKey[..9];
    LexLtAt(YesterdaySortKey, TodaySortKey, 9);
  }

  /**
   * `getHistoryGroups`: the completed tasks grouped under "今天", "昨天" or their date,
   * each group exactly the completed tasks with that key in list order, keys distinct and
   * in descending sort-key order. When every completed task carries a well-formed date,
   * "今天" comes first and only "今天" may precede "昨天" (keys being distinct, at most once).
   */
  method GetHistoryGroups(todos: seq<TodoItem>, today: Date) returns (r: seq<Entry>)
    requires Valid(today)
    ensures DistinctKeys(r)
    ensures forall i, j :: 0 <= i < j < |r| ==> LexLe(SortKey(r[j].0), SortKey(r[i].0))
    ensures forall i :: 0 <= i < |r| ==>
              r[i].1 != []
              && r[i].1 == Filter(CompletedTodos(todos), KeyIs(HistoryKey(FormatDate(today), FormatDate(PrevDay(today))), r[i].0))
    ensures forall t :: t in CompletedTodos(todos) ==>
              exists i :: 0 <= i < |r| && r[i].0 == HistoryKey(FormatDate(today), FormatDate(PrevDay(today)))(t)
    ensures (forall t :: t in CompletedTodos(todos) ==> ParseIsoDate(t.date).Some?) ==>
              (forall i :: 0 <= i < |r| && r[i].0 == TodayLabel ==> i == 0)
              && (forall i, j :: 0 <= j < i < |r| && r[i].0 == YesterdayLabel ==> r[j].0 == TodayLabel)
  {
    var todayStr := FormatDate(today);
    var yesterdayStr := FormatDate(PrevDay(today));
    var done := CompletedTodos(todos);
    var hk := HistoryKey(todayStr, yesterdayStr);
    var keys, groups := GroupByKey(done, hk);
    var es := Entries(keys, groups);
    r := SortBy(es, KeyDescending);
    KeyDescendingTotalPreorder();
    SortByCorrect(es, KeyDescending);
    ReorderedGroups(done, hk, keys, groups, r);
    forall i, j | 0 <= i < j < |r| ensures LexLe(SortKey(r[j].0), SortKey(r[i].0)) {
      assert KeyDescending(r[i], r[j]);
    }
    HistoryLabelsLead(done, todayStr, yesterdayStr, r);
  }

  /** Groups of well-dated tasks, in descending key order: "今天" first, then "昨天". */
  lemma HistoryLabelsLead(done: seq<TodoItem>, todayStr: string, yesterdayStr: string, r: seq<Entry>)
    requires DistinctKeys(r)
    requires forall i, j :: 0 <= i < j < |r| ==> LexLe(SortKey(r[j].0), SortKey(r[i].0))
    requires forall i :: 0 <= i < |r| ==>
               r[i].1 != [] && r[i].1 == Filter(done, KeyIs(HistoryKey(todayStr, yesterdayStr), r[i].0))
    ensures (forall t :: t in done ==> ParseIsoDate(t.date).Some?) ==>
              (forall i :: 0 <= i < |r| && r[i].0 == TodayLabel ==> i == 0)
              && (forall i, j :: 0 <= j < i < |r| && r[i].0 == YesterdayLabel ==> r[j].0 == TodayLabel)
  {
    if forall t :: t in done ==> ParseIsoDate(t.date).Some? {
      forall i | 0 <= i < |r| && r[i].0 != TodayLabel && r[i].0 != YesterdayLabel
        ensures LexLt(SortKey(r[i].0), YesterdaySortKey)
      {
        HistoryKeyIsDate(done, HistoryKey(todayStr, yesterdayStr), todayStr, yesterdayStr, r[i].0, r[i].1);
      }
      LabelKeysOrdered();
      LabelsOrdered(r);
    }
  }

  /** A group under a key other than the two labels is keyed by the date of its tasks. */
  lemma HistoryKeyIsDate(done: seq<TodoItem>, hk: TodoItem -> string, todayStr: string, yesterdayStr: string,
                         k: string, g: seq<TodoItem>)
    requires hk == HistoryKey(todayStr, yesterdayStr)
    requires forall t :: t in done ==> ParseIsoDate(t.date).Some?
    requires k != TodayLabel && k != YesterdayLabel
    requires g != [] && g == Filter(done, KeyIs(hk, k))
    ensures LexLt(SortKey(k), YesterdaySortKey)
  {
    assert g[0] in g && KeyIs(hk, k)(g[0]);
    assert g[0] in done && hk(g[0]) == k;
    assert g[0].date == k;
    IsoDateBelowLabels(g[0].date);
  }

  /** In a descending list with distinct keys whose other keys are dates, the labels lead. */
  lemma LabelsOrdered(r: seq<Entry>)
    requires DistinctKeys(r)
    requires forall i, j :: 0 <= i < j < |r| ==> LexLe(SortKey(r[j].0), SortKey(r[i].0))
    requires forall i :: 0 <= i < |r| && r[i].0 != TodayLabel && r[i].0 != YesterdayLabel
               ==> LexLt(SortKey(r[i].0), YesterdaySortKey)
    requires LexLt(YesterdaySortKey, TodaySortKey)
    ensures forall i :: 0 <= i < |r| && r[i].0 == TodayLabel ==> i == 0
    ensures forall i, j :: 0 <= j < i < |r| && r[i].0 == YesterdayLabel ==> r[j].0 == TodayLabel
  {
    forall i | 0 <= i < |r| && r[i].0 == TodayLabel ensures i == 0 {
      if i > 0 {
        var k := r[0].0;
        LexTrichotomy(SortKey(k), TodaySortKey);
        if k == YesterdayLabel {
        } else {
          LexTransitive(SortKey(k), YesterdaySortKey, TodaySortKey);
        }
      }
    }
    forall i, j | 0 <= j < i < |r| && r[i].0 == YesterdayLabel ensures r[j].0 == TodayLabel {
      LexTrichotomy(SortKey(r[j].0), YesterdaySortKey);
    }
  }
}
