/**
  The in-memory rate history: for every `FROM/TO` key, the rates observed
  at each timestamp. Timestamps are integers counting nanoseconds; the
  clock is a parameter of the operations that read it.
 */
module History {
  import opened Wrappers
  import opened Errors
  import opened Text
  import Ordering

  /** The retention window, 24 hours, in nanoseconds. */
  const Retention: int := 24 * 60 * 60 * 1_000_000_000

  /** Rates of one pair by timestamp. */
  type Series = map<int, real>

  /** Series by `FROM/TO` key. */
  type Store = map<string, Series>

  /** One row of a base currency's history: every target's rate at one timestamp. */
  datatype Row = Row(stamp: int, rates: map<string, real>)

  /** What a history query returns: the base, the time of the query, the rows in time order. */
  datatype RateHistory = RateHistory(base: string, asOf: int, rows: seq<Row>)

  /** The key a pair is stored under: both codes upper-cased, joined by a slash. */
  function PairKey(from: string, to: string): (k: string)
    ensures '/' in k
  {
    var k := Upper(from) + "/" + Upper(to);
    assert k[|Upper(from)|] == '/';
    k
  }

  /** Every key carries the separator, as every key written by `StoreRate` does. */
  predicate WellFormed(h: Store) {
    forall k :: k in h ==> '/' in k
  }

  /** The empty store the service starts with. */
  const Empty: Store := map[]

  /** Drop the entries strictly older than 24 hours before `clock`; an entry exactly at the cutoff stays. */
  function Prune(s: Series, clock: int): (r: Series)
    ensures forall t :: t in r <==> t in s && clock - Retention <= t
    ensures forall t :: t in r ==> r[t] == s[t]
  {
    map t | t in s && !(t < clock - Retention) :: s[t]
  }

  /**
    Record `rate` for the pair at time `stamp`, then prune that pair against
    a second reading of the clock, `clock`. The two readings are separate
    parameters because the service reads the wall clock twice.
   */
  function StoreRate(h: Store, from: string, to: string, rate: real, stamp: int, clock: int): (r: Store)
    ensures r.Keys == h.Keys + {PairKey(from, to)}
    ensures forall k :: k in h && k != PairKey(from, to) ==> r[k] == h[k]
    ensures var key := PairKey(from, to);
      forall t :: t in r[key] <==> (t == stamp || (key in h && t in h[key])) && clock - Retention <= t
    ensures var key := PairKey(from, to);
      forall t :: t in r[key] ==> r[key][t] == if t == stamp then rate else h[key][t]
    ensures WellFormed(h) ==> WellFormed(r)
  {
    var key := PairKey(from, to);
    var series := if key in h then h[key] else map[];
    h[key := Prune(series[stamp := rate], clock)]
  }

  /** One change the service makes to its history: recording a rate, or clearing everything. */
  datatype Change =
    | Record(from: string, to: string, rate: real, stamp: int, clock: int)
    | ClearAll

  function ApplyChange(h: Store, c: Change): Store {
    match c
    case Record(from, to, rate, stamp, clock) => StoreRate(h, from, to, rate, stamp, clock)
    case ClearAll => Clear(h)
  }

  /** The history after a sequence of changes, applied in order. */
  function Replay(h: Store, changes: seq<Change>): Store
    decreases |changes|
  {
    if |changes| == 0 then h else Replay(ApplyChange(h, changes[0]), changes[1..])
  }

  lemma {:induction false} ReplayKeepsWellFormed(h: Store, changes: seq<Change>)
    requires WellFormed(h)
    ensures WellFormed(Replay(h, changes))
    decreases |changes|
  {
    if |changes| > 0 {
      ReplayKeepsWellFormed(ApplyChange(h, changes[0]), changes[1..]);
    }
  }

  /** Every store the service can reach, from empty by any sequence of recordings and clearings, is well formed. */
  lemma ReachableIsWellFormed(changes: seq<Change>)
    ensures WellFormed(Replay(Empty, changes))
  {
    ReplayKeepsWellFormed(Empty, changes);
  }

  /** An entry survives a later recording of its pair exactly when it is at most a day older than that clock reading. */
  lemma RetentionIsExactlyOneDay(h: Store, from: string, to: string, t0: int, r0: real, r1: real, stamp: int)
    requires t0 != stamp
    ensures var h1 := StoreRate(StoreRate(h, from, to, r0, t0, t0), from, to, r1, stamp, stamp);
      t0 in h1[PairKey(from, to)] <==> stamp - Retention <= t0
  {
  }

  /** The part of a key after its first slash (the whole key if there is none). */
  function Target(key: string): string {
    key[IndexOf(key, '/') + 1..]
  }

  /** The part of a key before its first slash. */
  function Base(key: string): string
    requires '/' in key
  {
    key[..IndexOf(key, '/')]
  }

  /** The key whose target is `c`, among the keys that start with `prefix`. */
  function KeyOf(prefix: string, c: string): string
    requires '/' in prefix
  {
    prefix[..IndexOf(prefix, '/') + 1] + c
  }

  lemma TargetOfKeyOf(prefix: string, c: string)
    requires '/' in prefix
    ensures Target(KeyOf(prefix, c)) == c
  {
    var j := IndexOf(prefix, '/');
    var k := KeyOf(prefix, c);
    assert k[..j + 1] == prefix[..j + 1];
    assert prefix[..j + 1] <= k;
    IndexOfUnderPrefix(k, prefix[..j + 1], '/');
    assert prefix[..j + 1][j] == '/';
    assert IndexOf(prefix[..j + 1], '/') == j;
  }

  lemma KeyOfTarget(k: string, prefix: string)
    requires '/' in prefix && prefix <= k
    ensures KeyOf(prefix, Target(k)) == k
  {
    IndexOfUnderPrefix(k, prefix, '/');
    var j := IndexOf(prefix, '/');
    assert k[..j + 1] == prefix[..j + 1];
    assert k == k[..j + 1] + k[j + 1..];
  }

  /** The `(key, timestamp)` entries of the keys that start with `prefix`. */
  function Entries(h: Store, prefix: string): set<(string, int)> {
    set k, t | k in h && prefix <= k && t in h[k] :: (k, t)
  }

  /** Two keys under the same prefix with the same target are the same key. */
  lemma TargetsAreDistinct(prefix: string, k1: string, k2: string)
    requires '/' in prefix && prefix <= k1 && prefix <= k2
    requires Target(k1) == Target(k2)
    ensures k1 == k2
  {
    KeyOfTarget(k1, prefix);
    KeyOfTarget(k2, prefix);
  }

  /**
    `rows` consolidates the entries `E` of `h` under `prefix`: each entry's
    rate sits in the row of its own timestamp under its target, every rate
    in a row comes from an entry in `E`, and no row is empty.
   */
  ghost predicate Consolidates(h: Store, prefix: string, E: set<(string, int)>, rows: map<int, map<string, real>>)
    requires '/' in prefix
    requires E <= Entries(h, prefix)
  {
    && (forall k, t :: (k, t) in E ==> t in rows && Target(k) in rows[t] && rows[t][Target(k)] == h[k][t])
    && (forall t, c :: t in rows && c in rows[t] ==> (KeyOf(prefix, c), t) in E)
    && (forall t :: t in rows ==> rows[t] != map[])
  }

  /** Consolidation determines the rows completely. */
  lemma ConsolidationIsUnique(h: Store, prefix: string, E: set<(string, int)>, r1: map<int, map<string, real>>, r2: map<int, map<string, real>>)
    requires '/' in prefix && E <= Entries(h, prefix)
    requires Consolidates(h, prefix, E, r1) && Consolidates(h, prefix, E, r2)
    ensures r1 == r2
  {
    forall t, c | t in r1 && c in r1[t]
      ensures t in r2 && c in r2[t] && r2[t][c] == r1[t][c]
    {
      TargetOfKeyOf(prefix, c);
    }
    forall t, c | t in r2 && c in r2[t]
      ensures t in r1 && c in r1[t]
    {
      TargetOfKeyOf(prefix, c);
    }
    forall t | t in r1
      ensures t in r2 && r1[t] == r2[t]
    {
      var c :| c in r1[t];
    }
    forall t | t in r2
      ensures t in r1
    {
      var c :| c in r2[t];
    }
  }

  /** The timestamps that have at least one entry under `prefix`. */
  function Stamps(h: Store, prefix: string): set<int> {
    set k, t | k in h && prefix <= k && t in h[k] :: t
  }

  /** The rows of `h` for keys starting with `prefix`: the reference definition of a consolidated history. */
  function Rows(h: Store, prefix: string): map<int, map<string, real>>
    requires '/' in prefix
  {
    map t | t in Stamps(h, prefix) :: RowAt(h, prefix, t)
  }

  lemma RowsConsolidate(h: Store, prefix: string)
    requires '/' in prefix
    ensures Consolidates(h, prefix, Entries(h, prefix), Rows(h, prefix))
  {
    var rows := Rows(h, prefix);
    ColumnsAreStored(h, prefix);
    forall k, t | (k, t) in Entries(h, prefix)
      ensures t in rows && Target(k) in rows[t] && rows[t][Target(k)] == h[k][t]
    {
      assert t in Stamps(h, prefix);
      assert Target(k) in Columns(h, prefix, t);
      KeyOfTarget(k, prefix);
    }
    forall t, c | t in rows && c in rows[t]
      ensures (KeyOf(prefix, c), t) in Entries(h, prefix)
    {
      assert c in Columns(h, prefix, t);
    }
    forall t | t in rows
      ensures rows[t] != map[]
    {
      var k :| k in h && prefix <= k && t in h[k];
      assert Target(k) in Columns(h, prefix, t);
      assert Target(k) in rows[t];
    }
  }

  /** The targets that have a rate at time `t`. */
  function Columns(h: Store, prefix: string, t: int): set<string> {
    set k | k in h && prefix <= k && t in h[k] :: Target(k)
  }

  lemma ColumnsAreStored(h: Store, prefix: string)
    requires '/' in prefix
    ensures forall t, c :: c in Columns(h, prefix, t) ==>
      var k := KeyOf(prefix, c); k in h && prefix <= k && t in h[k]
  {
    forall t, c | c in Columns(h, prefix, t)
      ensures var k := KeyOf(prefix, c); k in h && prefix <= k && t in h[k]
    {
      var k :| k in h && prefix <= k && t in h[k] && Target(k) == c;
      KeyOfTarget(k, prefix);
    }
  }

  /** Every target's rate at time `t`. */
  function RowAt(h: Store, prefix: string, t: int): map<string, real>
    requires '/' in prefix
  {
    ColumnsAreStored(h, prefix);
    map c | c in Columns(h, prefix, t) :: h[KeyOf(prefix, c)][t]
  }

  /** Adding one more entry to a consolidation: put its rate in its timestamp's row, creating the row if needed. */
  lemma ConsolidateStep(h: Store, prefix: string, E: set<(string, int)>, rows: map<int, map<string, real>>, key: string, t: int)
    requires '/' in prefix && E <= Entries(h, prefix)
    requires Consolidates(h, prefix, E, rows)
    requires (key, t) in Entries(h, prefix) && (key, t) !in E
    ensures E + {(key, t)} <= Entries(h, prefix)
    ensures var row := if t in rows then rows[t] else map[];
      Consolidates(h, prefix, E + {(key, t)}, rows[t := row[Target(key) := h[key][t]]])
  {
    var row := if t in rows then rows[t] else map[];
    var rows' := rows[t := row[Target(key) := h[key][t]]];
    var E' := E + {(key, t)};
    forall k, s | (k, s) in E'
      ensures s in rows' && Target(k) in rows'[s] && rows'[s][Target(k)] == h[k][s]
    {
      if (k, s) != (key, t) && s == t {
        if Target(k) == Target(key) {
          TargetsAreDistinct(prefix, k, key);
        }
      }
    }
    forall s, c | s in rows' && c in rows'[s]
      ensures (KeyOf(prefix, c), s) in E'
    {
      if s == t && c == Target(key) {
        KeyOfTarget(key, prefix);
      }
    }
  }

  /**
    The service's own consolidation loop: visit the stored keys in whatever
    order the map yields them; for each key that starts with `prefix`, put
    every one of its rates into the row of its timestamp, under its target,
    creating the row on first use. The result is the reference `Rows`.
   */
  method Consolidate(h: Store, prefix: string) returns (rows: map<int, map<string, real>>)
    requires '/' in prefix
    ensures rows == Rows(h, prefix)
  {
    rows := map[];
    var pending := h.Keys;
    ghost var E: set<(string, int)> := {};
    while pending != {}
      invariant pending <= h.Keys
      invariant E <= Entries(h, prefix)
      invariant forall k, t :: (k, t) in E ==> k !in pending
      invariant forall k, t :: k in h && k !in pending && prefix <= k && t in h[k] ==> (k, t) in E
      invariant Consolidates(h, prefix, E, rows)
      decreases |pending|
    {
      var key :| key in pending;
      pending := pending - {key};
      if prefix <= key {
        var target := Target(key);
        var series := h[key];
        var todo := series.Keys;
        while todo != {}
          invariant todo <= series.Keys
          invariant E <= Entries(h, prefix)
          invariant forall k, t :: (k, t) in E ==> k !in pending && (k == key ==> t !in todo)
          invariant forall k, t :: k in h && k !in pending && k != key && prefix <= k && t in h[k] ==> (k, t) in E
          invariant forall t :: t in series && t !in todo ==> (key, t) in E
          invariant Consolidates(h, prefix, E, rows)
          decreases |todo|
        {
          Ordering.Inhabited(todo);
          var t :| t in todo;
          todo := todo - {t};
          ConsolidateStep(h, prefix, E, rows, key, t);
          var row := if t in rows then rows[t] else map[];
          rows := rows[t := row[target := series[t]]];
          E := E + {(key, t)};
        }
      }
    }
    assert E == Entries(h, prefix);
    RowsConsolidate(h, prefix);
    ConsolidationIsUnique(h, prefix, E, rows, Rows(h, prefix));
  }

  function RowsAlong(stamps: seq<int>, rows: map<int, map<string, real>>): (r: seq<Row>)
    requires forall i :: 0 <= i < |stamps| ==> stamps[i] in rows
    ensures |r| == |stamps|
    ensures forall i :: 0 <= i < |r| ==> r[i].stamp == stamps[i] && r[i].rates == rows[stamps[i]]
  {
    seq(|stamps|, i requires 0 <= i < |stamps| => Row(stamps[i], rows[stamps[i]]))
  }

  /** Rows laid along an ascending listing of a map's stamps are the map's rows in time order. */
  lemma RowsAlongListing(stamps: seq<int>, rows: map<int, map<string, real>>)
    requires Ordering.Increasing(stamps)
    requires forall i :: 0 <= i < |stamps| ==> stamps[i] in rows
    requires forall t :: t in rows ==> t in stamps
    ensures var r := RowsAlong(stamps, rows);
      && (forall i, j :: 0 <= i < j < |r| ==> r[i].stamp < r[j].stamp)
      && (forall i :: 0 <= i < |r| ==> r[i].stamp in rows && r[i].rates == rows[r[i].stamp])
      && (forall t :: t in rows ==> exists i :: 0 <= i < |r| && r[i].stamp == t)
  {
    var r := RowsAlong(stamps, rows);
    forall t | t in rows
      ensures exists i :: 0 <= i < |r| && r[i].stamp == t
    {
      var i :| 0 <= i < |stamps| && stamps[i] == t;
      assert r[i].stamp == t;
    }
  }

  /** The history rows of a consolidation, one per timestamp, in ascending time order. */
  function OrderedRows(rows: map<int, map<string, real>>): (r: seq<Row>)
    ensures |r| == |rows|
    ensures forall i, j :: 0 <= i < j < |r| ==> r[i].stamp < r[j].stamp
    ensures forall i :: 0 <= i < |r| ==> r[i].stamp in rows && r[i].rates == rows[r[i].stamp]
    ensures forall t :: t in rows ==> exists i :: 0 <= i < |r| && r[i].stamp == t
  {
    var stamps := Ordering.SortInts(rows.Keys);
    assert |rows.Keys| == |rows|;
    RowsAlongListing(stamps, rows);
    RowsAlong(stamps, rows)
  }

  /**
    The history of one base currency: every stored rate of every pair whose
    key starts with the upper-cased base and a slash, grouped into one row
    per distinct timestamp, in ascending time order. No pruning happens here.
    Fails when there is not a single such rate.
   */
  function GetRateHistory(h: Store, base: string, now: int): (r: Result<RateHistory, Failure>)
    ensures var prefix := Upper(base) + "/";
      r.Failure? <==> forall k :: k in h && prefix <= k ==> h[k] == map[]
    ensures r.Failure? ==> r.error == NoHistory(Upper(base))
    ensures r.Success? ==> r.value.base == Upper(base) && r.value.asOf == now
  {
    var upper := Upper(base);
    var prefix := upper + "/";
    HistoryPrefix(base);
    var rows := Rows(h, prefix);
    RowsEmptyIffNoEntries(h, prefix);
    if rows == map[] then
      Failure(NoHistory(upper))
    else
      Success(RateHistory(upper, now, OrderedRows(rows)))
  }

  lemma HistoryPrefix(base: string)
    ensures '/' in Upper(base) + "/"
  {
    assert (Upper(base) + "/")[|Upper(base)|] == '/';
  }

  lemma RowsEmptyIffNoEntries(h: Store, prefix: string)
    requires '/' in prefix
    ensures Rows(h, prefix) == map[] <==> forall k :: k in h && prefix <= k ==> h[k] == map[]
  {
    RowsConsolidate(h, prefix);
    if Rows(h, prefix) != map[] {
      SomeRowHasAnEntry(h, prefix, Rows(h, prefix));
    } else {
      forall k | k in h && prefix <= k
        ensures h[k] == map[]
      {
        EntriesHaveRows(h, prefix, Rows(h, prefix), k);
        assert |h[k]| == |h[k].Keys| == 0;
      }
    }
  }

  lemma SomeRowHasAnEntry(h: Store, prefix: string, rows: map<int, map<string, real>>)
    requires '/' in prefix
    requires Consolidates(h, prefix, Entries(h, prefix), rows)
    requires rows != map[]
    ensures exists k :: k in h && prefix <= k && h[k] != map[]
  {
    assert |rows.Keys| == |rows| > 0;
    Ordering.Inhabited(rows.Keys);
    var t :| t in rows;
    var c :| c in rows[t];
    assert (KeyOf(prefix, c), t) in Entries(h, prefix);
  }

  lemma EntriesHaveRows(h: Store, prefix: string, rows: map<int, map<string, real>>, k: string)
    requires '/' in prefix
    requires Consolidates(h, prefix, Entries(h, prefix), rows)
    requires k in h && prefix <= k
    ensures h[k].Keys <= rows.Keys
  {
    forall t | t in h[k]
      ensures t in rows
    {
      assert (k, t) in Entries(h, prefix);
    }
  }

  /** History rows are in strictly ascending timestamp order, and none is empty. */
  lemma HistoryRowsAscend(h: Store, base: string, now: int)
    ensures var r := GetRateHistory(h, base, now);
      r.Success? ==>
        && (forall i, j :: 0 <= i < j < |r.value.rows| ==> r.value.rows[i].stamp < r.value.rows[j].stamp)
        && (forall i :: 0 <= i < |r.value.rows| ==> r.value.rows[i].rates != map[])
  {
    if GetRateHistory(h, base, now).Success? {
      var prefix := Upper(base) + "/";
      HistoryPrefix(base);
      RowsConsolidate(h, prefix);
    }
  }

  /**
    Every stored rate under the base, however old, appears in the row of its
    own timestamp under its target currency: rows merge only rates stamped
    with exactly the same time.
   */
  lemma HistoryHasEveryRate(h: Store, base: string, now: int)
    ensures var r := GetRateHistory(h, base, now); var prefix := Upper(base) + "/";
      r.Success? ==>
        forall k, t :: k in h && prefix <= k && t in h[k] ==>
          exists i :: 0 <= i < |r.value.rows| && r.value.rows[i].stamp == t
            && Target(k) in r.value.rows[i].rates && r.value.rows[i].rates[Target(k)] == h[k][t]
  {
    if GetRateHistory(h, base, now).Success? {
      var prefix := Upper(base) + "/";
      HistoryPrefix(base);
      assert GetRateHistory(h, base, now).value.rows == OrderedRows(Rows(h, prefix));
      forall k, t | k in h && prefix <= k && t in h[k]
        ensures var out := OrderedRows(Rows(h, prefix));
          exists i :: 0 <= i < |out| && out[i].stamp == t && Target(k) in out[i].rates && out[i].rates[Target(k)] == h[k][t]
      {
        OrderedRowsHoldEntry(h, prefix, k, t);
      }
    }
  }

  lemma OrderedRowsHoldEntry(h: Store, prefix: string, k: string, t: int)
    requires '/' in prefix
    requires k in h && prefix <= k && t in h[k]
    ensures var out := OrderedRows(Rows(h, prefix));
      exists i :: 0 <= i < |out| && out[i].stamp == t && Target(k) in out[i].rates && out[i].rates[Target(k)] == h[k][t]
  {
    RowsConsolidate(h, prefix);
    var rows := Rows(h, prefix);
    var out := OrderedRows(rows);
    assert (k, t) in Entries(h, prefix);
    var i :| 0 <= i < |out| && out[i].stamp == t;
    assert out[i].rates == rows[t];
  }

  /** Every rate in a history row is the rate stored for that target at that row's timestamp. */
  lemma HistoryHasOnlyStoredRates(h: Store, base: string, now: int)
    ensures var r := GetRateHistory(h, base, now); var prefix := Upper(base) + "/";
      r.Success? ==>
        forall i, c :: 0 <= i < |r.value.rows| && c in r.value.rows[i].rates ==>
          var k := KeyOf(prefix, c);
          k in h && prefix <= k && r.value.rows[i].stamp in h[k]
            && r.value.rows[i].rates[c] == h[k][r.value.rows[i].stamp]
  {
    if GetRateHistory(h, base, now).Success? {
      var prefix := Upper(base) + "/";
      HistoryPrefix(base);
      RowsConsolidate(h, prefix);
      var rows := Rows(h, prefix);
      var out := GetRateHistory(h, base, now).value.rows;
      assert out == OrderedRows(rows);
      forall i, c | 0 <= i < |out| && c in out[i].rates
        ensures var k := KeyOf(prefix, c);
          k in h && prefix <= k && out[i].stamp in h[k] && out[i].rates[c] == h[k][out[i].stamp]
      {
        var t := out[i].stamp;
        assert (KeyOf(prefix, c), t) in Entries(h, prefix);
        TargetOfKeyOf(prefix, c);
      }
    }
  }

  /** The rate recorded at the most recent timestamp of the pair; fails when the pair has no rate. */
  function LatestRate(h: Store, from: string, to: string): (r: Result<real, Failure>)
    ensures var key := PairKey(from, to);
      r.Failure? <==> key !in h || h[key] == map[]
    ensures r.Failure? ==> r.error == NoHistory(PairKey(from, to))
    ensures r.Success? ==> var s := h[PairKey(from, to)];
      exists t :: t in s && r.value == s[t] && forall u :: u in s ==> u <= t
  {
    var key := PairKey(from, to);
    if key !in h || h[key] == map[] then Failure(NoHistory(key))
    else
      var s := h[key];
      assert |s.Keys| == |s| > 0;
      var latest := Ordering.MaxOf(s.Keys);
      Success(s[latest])
  }

  /** The distinct base currencies that have a stored pair, in ascending order. */
  function BaseCurrencies(h: Store): (r: seq<string>)
    requires WellFormed(h)
    ensures Ordering.IncreasingStrings(r)
    ensures forall i, j :: 0 <= i < j < |r| ==> r[i] != r[j]
    ensures forall b :: b in r <==> exists k :: k in h && Base(k) == b
  {
    var r := Ordering.SortStrings(set k | k in h :: Base(k));
    forall i, j | 0 <= i < j < |r|
      ensures r[i] != r[j]
    {
      LessIrreflexive(r[i]);
    }
    r
  }

  /** Every stored key once, in the map's own (unspecified) order. */
  method CurrencyPairs(h: Store) returns (r: seq<string>)
    ensures forall k :: k in r <==> k in h
    ensures forall i, j :: 0 <= i < j < |r| ==> r[i] != r[j]
  {
    r := [];
    var pending := h.Keys;
    while pending != {}
      invariant pending <= h.Keys
      invariant forall k :: k in r <==> k in h && k !in pending
      invariant forall i, j :: 0 <= i < j < |r| ==> r[i] != r[j]
      decreases |pending|
    {
      var k :| k in pending;
      r := r + [k];
      pending := pending - {k};
    }
  }

  /** Forget every pair. */
  function Clear(h: Store): (r: Store)
    ensures forall k :: k !in r
  {
    map[]
  }

  /** After clearing, no query finds anything. */
  lemma ClearForgetsEverything(h: Store, base: string, from: string, to: string, now: int)
    ensures GetRateHistory(Clear(h), base, now) == Failure(NoHistory(Upper(base)))
    ensures LatestRate(Clear(h), from, to) == Failure(NoHistory(PairKey(from, to)))
    ensures BaseCurrencies(Clear(h)) == []
  {
  }

  /**
    A rate recorded at a timestamp no earlier than any other of its pair and
    within the window of the pruning clock is the latest rate of that pair.
   */
  lemma RecordedRateIsLatest(h: Store, from: string, to: string, rate: real, stamp: int, clock: int)
    requires PairKey(from, to) in h ==> forall t :: t in h[PairKey(from, to)] ==> t <= stamp
    requires clock - Retention <= stamp
    ensures LatestRate(StoreRate(h, from, to, rate, stamp, clock), from, to) == Success(rate)
  {
    var h' := StoreRate(h, from, to, rate, stamp, clock);
    var s := h'[PairKey(from, to)];
    assert stamp in s;
    var r := LatestRate(h', from, to);
    var t :| t in s && r.value == s[t] && forall u :: u in s ==> u <= t;
    assert t == stamp;
  }

  /** A pair key starts with its upper-cased base and a slash; what follows is the upper-cased quote code. */
  lemma PairKeyParts(from: string, to: string)
    requires '/' !in from
    ensures Upper(from) + "/" <= PairKey(from, to)
    ensures Target(PairKey(from, to)) == Upper(to)
  {
    var key := PairKey(from, to);
    var prefix := Upper(from) + "/";
    assert key[..|prefix|] == prefix;
    assert '/' !in Upper(from) by {
      forall i | 0 <= i < |from|
        ensures Upper(from)[i] != '/'
      {
      }
    }
    IndexOfUnderPrefix(key, prefix, '/');
    assert prefix[|Upper(from)|] == '/';
    assert prefix[..|Upper(from)|] == Upper(from);
    assert IndexOf(prefix, '/') == |Upper(from)|;
    assert key[|prefix|..] == Upper(to);
  }

  /** A recorded rate that survives pruning shows up in its base currency's history, in the row of its timestamp. */
  lemma RecordedRateIsInHistory(h: Store, from: string, to: string, rate: real, stamp: int, clock: int, now: int)
    requires clock - Retention <= stamp
    requires '/' !in from
    ensures var r := GetRateHistory(StoreRate(h, from, to, rate, stamp, clock), from, now);
      && r.Success?
      && exists i :: 0 <= i < |r.value.rows| && r.value.rows[i].stamp == stamp
           && Upper(to) in r.value.rows[i].rates && r.value.rows[i].rates[Upper(to)] == rate
  {
    var h' := StoreRate(h, from, to, rate, stamp, clock);
    var key := PairKey(from, to);
    PairKeyParts(from, to);
    assert stamp in h'[key];
    assert GetRateHistory(h', from, now).Success?;
    HistoryHasEveryRate(h', from, now);
  }
}
