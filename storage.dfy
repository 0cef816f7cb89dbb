/**
 * Session history of src/storage.rs: the persisted record of one completed
 * session, the statistics folded from a list of records, and the history
 * manager that keeps records and an index of their keys in a string-to-string
 * key-value store.
 */
module Storage {
  import opened Wrappers

  /** One completed session, frozen at the time it was saved. */
  datatype SessionRecord = SessionRecord(
    wpm: real,
    accuracy: real,
    timestamp: string,
    elapsedSeconds: nat,
    exerciseText: string)

  /** The aggregate shown on the statistics tab. */
  datatype Statistics = Statistics(
    totalSessions: nat,
    bestWpm: real,
    averageWpm: real,
    bestAccuracy: real,
    averageAccuracy: real,
    totalPracticeTime: nat)

  /** `Statistics::default()`: every field zero. */
  const DefaultStatistics := Statistics(0, 0.0, 0.0, 0.0, 0.0, 0)

  /** `f64::max` on numbers (NaN is not modelled). */
  function Max(a: real, b: real): (m: real)
    ensures m >= a && m >= b && (m == a || m == b)
  {
    if a >= b then a else b
  }

  /** `fold(0.0, f64::max)`: the largest value, or zero when that is larger. */
  function BestOf(xs: seq<real>): (m: real)
    ensures m >= 0.0
    ensures forall i :: 0 <= i < |xs| ==> xs[i] <= m
    ensures m == 0.0 || exists i :: 0 <= i < |xs| && xs[i] == m
  {
    if xs == [] then 0.0 else Max(BestOf(xs[..|xs| - 1]), xs[|xs| - 1])
  }

  /** `sum::<f64>()`, added from the left. */
  function Sum(xs: seq<real>): real
  {
    if xs == [] then 0.0 else Sum(xs[..|xs| - 1]) + xs[|xs| - 1]
  }

  /** `sum::<u64>()`. */
  function SumNat(xs: seq<nat>): (total: nat)
    ensures forall i :: 0 <= i < |xs| ==> xs[i] <= total
  {
    if xs == [] then 0 else SumNat(xs[..|xs| - 1]) + xs[|xs| - 1]
  }

  /** A sum of values that are all at most `bound` is at most `bound` times their number; `MeanAtMostBest` uses it with the best value as the bound. */
  lemma {:induction false} SumAtMost(xs: seq<real>, bound: real)
    requires forall i :: 0 <= i < |xs| ==> xs[i] <= bound
    ensures Sum(xs) <= bound * (|xs| as real)
  {
    if xs != [] {
      SumAtMost(xs[..|xs| - 1], bound);
    }
  }

  /** For a positive count `n`, `a * n <= b * n` gives `a <= b`: the last step of `MeanAtMostBest`. */
  lemma CancelCount(a: real, b: real, n: real)
    requires n > 0.0 && a * n <= b * n
    ensures a <= b
  {
  }

  /** The arithmetic mean of a non-empty list. */
  function Mean(xs: seq<real>): (m: real)
    requires xs != []
    ensures m * (|xs| as real) == Sum(xs)
  {
    Sum(xs) / (|xs| as real)
  }

  /** The mean never exceeds the largest value. */
  lemma MeanAtMostBest(xs: seq<real>)
    requires xs != []
    ensures Mean(xs) <= BestOf(xs)
  {
    var n := |xs| as real;
    var best := BestOf(xs);
    var mean := Mean(xs);
    SumAtMost(xs, best);
    assert mean * n == Sum(xs) <= best * n;
    CancelCount(mean, best, n);
  }

  function Wpms(records: seq<SessionRecord>): (xs: seq<real>)
    ensures |xs| == |records| && forall i :: 0 <= i < |xs| ==> xs[i] == records[i].wpm
  {
    seq(|records|, i requires 0 <= i < |records| => records[i].wpm)
  }

  function Accuracies(records: seq<SessionRecord>): (xs: seq<real>)
    ensures |xs| == |records| && forall i :: 0 <= i < |xs| ==> xs[i] == records[i].accuracy
  {
    seq(|records|, i requires 0 <= i < |records| => records[i].accuracy)
  }

  function ElapsedTimes(records: seq<SessionRecord>): (xs: seq<nat>)
    ensures |xs| == |records| && forall i :: 0 <= i < |xs| ==> xs[i] == records[i].elapsedSeconds
  {
    seq(|records|, i requires 0 <= i < |records| => records[i].elapsedSeconds)
  }

  /** `Statistics::from_records`. */
  function FromRecords(records: seq<SessionRecord>): (s: Statistics)
    ensures records == [] ==> s == DefaultStatistics
    ensures s.totalSessions == |records|
    ensures s.totalPracticeTime == SumNat(ElapsedTimes(records))
    ensures s.bestWpm >= 0.0 && forall i :: 0 <= i < |records| ==> records[i].wpm <= s.bestWpm
    ensures s.bestWpm == 0.0 || exists i :: 0 <= i < |records| && records[i].wpm == s.bestWpm
    ensures s.bestAccuracy >= 0.0 && forall i :: 0 <= i < |records| ==> records[i].accuracy <= s.bestAccuracy
    ensures s.bestAccuracy == 0.0 || exists i :: 0 <= i < |records| && records[i].accuracy == s.bestAccuracy
    ensures records != [] ==> s.averageWpm == Mean(Wpms(records))
    ensures records != [] ==> s.averageAccuracy == Mean(Accuracies(records))
  {
    if records == [] then DefaultStatistics
    else
      Statistics(
        |records|,
        BestOf(Wpms(records)),
        Mean(Wpms(records)),
        BestOf(Accuracies(records)),
        Mean(Accuracies(records)),
        SumNat(ElapsedTimes(records)))
  }

  lemma SumSnoc(xs: seq<real>, x: real)
    ensures Sum(xs + [x]) == Sum(xs) + x
  {
    assert (xs + [x])[..|xs|] == xs;
  }

  lemma SumNatSnoc(xs: seq<nat>, x: nat)
    ensures SumNat(xs + [x]) == SumNat(xs) + x
  {
    assert (xs + [x])[..|xs|] == xs;
  }

  lemma BestOfSnoc(xs: seq<real>, x: real)
    ensures BestOf(xs + [x]) == Max(BestOf(xs), x)
  {
    assert (xs + [x])[..|xs|] == xs;
  }

  /** The mean never exceeds the best value. */
  lemma AverageAtMostBest(records: seq<SessionRecord>)
    requires records != []
    ensures FromRecords(records).averageWpm <= FromRecords(records).bestWpm
    ensures FromRecords(records).averageAccuracy <= FromRecords(records).bestAccuracy
  {
    MeanAtMostBest(Wpms(records));
    MeanAtMostBest(Accuracies(records));
  }

  /** A mean is its list's total over its length: the step `MeanSnoc` takes once the total is known. */
  lemma MeanOfTotal(ys: seq<real>, total: real)
    requires ys != [] && Sum(ys) == total
    ensures Mean(ys) == total / (|ys| as real)
  {
  }

  /** Appending a value: the mean becomes the old sum plus the value, over one more count. */
  lemma MeanSnoc(xs: seq<real>, x: real)
    ensures Mean(xs + [x]) == (Sum(xs) + x) / ((|xs| + 1) as real)
  {
    SumSnoc(xs, x);
    MeanOfTotal(xs + [x], Sum(xs) + x);
    assert |xs + [x]| == |xs| + 1;
  }

  /** Adding one record to the history: one more session, its time added, its values taken into the best. */
  lemma AppendRecord(records: seq<SessionRecord>, r: SessionRecord)
    ensures FromRecords(records + [r]).totalSessions == FromRecords(records).totalSessions + 1
    ensures FromRecords(records + [r]).totalPracticeTime == FromRecords(records).totalPracticeTime + r.elapsedSeconds
    ensures FromRecords(records + [r]).bestWpm == Max(FromRecords(records).bestWpm, r.wpm)
    ensures FromRecords(records + [r]).bestAccuracy == Max(FromRecords(records).bestAccuracy, r.accuracy)
  {
    var all := records + [r];
    assert Wpms(all) == Wpms(records) + [r.wpm];
    assert Accuracies(all) == Accuracies(records) + [r.accuracy];
    assert ElapsedTimes(all) == ElapsedTimes(records) + [r.elapsedSeconds];
    SumNatSnoc(ElapsedTimes(records), r.elapsedSeconds);
    BestOfSnoc(Wpms(records), r.wpm);
    BestOfSnoc(Accuracies(records), r.accuracy);
  }

  /**
   * Adding one record to the history: the averages are re-taken over the
   * longer list, whose total (by `MeanSnoc`) is the old sum plus the new value.
   */
  lemma AppendRecordAverages(records: seq<SessionRecord>, r: SessionRecord)
    ensures FromRecords(records + [r]).averageWpm == Mean(Wpms(records) + [r.wpm])
    ensures FromRecords(records + [r]).averageAccuracy == Mean(Accuracies(records) + [r.accuracy])
  {
    var all := records + [r];
    assert Wpms(all) == Wpms(records) + [r.wpm];
    assert Accuracies(all) == Accuracies(records) + [r.accuracy];
  }

  /** The unit test on two records. */
  lemma FromRecordsExample()
    ensures FromRecords([
      SessionRecord(20.0, 95.0, "2026-01-01 10:00:00", 30, "練習一"),
      SessionRecord(40.0, 90.0, "2026-01-01 10:05:00", 45, "練習二")
    ]) == Statistics(2, 40.0, 30.0, 95.0, 92.5, 75)
  {
    var r1 := SessionRecord(20.0, 95.0, "2026-01-01 10:00:00", 30, "練習一");
    var r2 := SessionRecord(40.0, 90.0, "2026-01-01 10:05:00", 45, "練習二");
    var rs := [r1, r2];
    assert Wpms(rs) == [20.0, 40.0];
    assert Accuracies(rs) == [95.0, 90.0];
    assert ElapsedTimes(rs) == [30, 45];
    assert Sum([20.0, 40.0]) == 60.0 by { assert [20.0, 40.0][..1] == [20.0]; }
    assert Sum([95.0, 90.0]) == 185.0 by { assert [95.0, 90.0][..1] == [95.0]; }
    assert SumNat([30, 45]) == 75 by { assert [30, 45][..1] == [30]; }
    assert BestOf([20.0, 40.0]) == 40.0 by { assert [20.0, 40.0][..1] == [20.0]; }
    assert BestOf([95.0, 90.0]) == 95.0 by { assert [95.0, 90.0][..1] == [95.0]; }
  }

  /**
   * The JSON serialisation the store holds, kept abstract: record and key
   * list encoders, and decoders that may fail on text they cannot read.
   */
  datatype Codec = Codec(
    encodeRecord: SessionRecord -> string,
    decodeRecord: string -> Option<SessionRecord>,
    encodeKeys: seq<string> -> string,
    decodeKeys: string -> Option<seq<string>>)
  {
    /**
     * What serde_json is relied on to do for one record: decoding its
     * encoding gives it back. Stated per value, since no finite text can
     * encode every exact real.
     */
    predicate RecordRoundTrips(r: SessionRecord)
    {
      decodeRecord(encodeRecord(r)) == Some(r)
    }

    /** The same for one key list. */
    predicate KeysRoundTrip(keys: seq<string>)
    {
      decodeKeys(encodeKeys(keys)) == Some(keys)
    }
  }

  /** The fixed key under which the list of session keys is stored. */
  const SessionsListKey: string := "_array30_sessions_list"

  /** `format!("session_{}", now)`. */
  function SessionKey(now: string): (key: string)
    ensures key != SessionsListKey
  {
    var key := "session_" + now;
    assert key[0] != SessionsListKey[0];
    key
  }

  /** `get_sessions_list`: the stored key list, or none when it is absent or unreadable. */
  function KeyList(codec: Codec, store: map<string, string>): (keys: seq<string>)
    ensures SessionsListKey !in store ==> keys == []
    ensures SessionsListKey in store && codec.decodeKeys(store[SessionsListKey]).None? ==> keys == []
  {
    if SessionsListKey in store then
      match codec.decodeKeys(store[SessionsListKey])
      case Some(keys) => keys
      case None => []
    else
      []
  }

  /** Writing an encoded list under the list key and reading it back gives the list. */
  lemma KeyListRoundTrip(codec: Codec, store: map<string, string>, keys: seq<string>)
    requires codec.KeysRoundTrip(keys)
    ensures KeyList(codec, store[SessionsListKey := codec.encodeKeys(keys)]) == keys
  {
  }

  /** The record stored under `key`, if it is present and decodes. */
  function LoadOne(codec: Codec, store: map<string, string>, key: string): (records: seq<SessionRecord>)
    ensures |records| <= 1
    ensures records != [] <==> key in store && codec.decodeRecord(store[key]).Some?
    ensures records != [] ==> records[0] == codec.decodeRecord(store[key]).value
  {
    if key in store then
      match codec.decodeRecord(store[key])
      case Some(r) => [r]
      case None => []
    else
      []
  }

  /** The records of the listed keys that are present and decode, in list order. */
  function Loaded(codec: Codec, store: map<string, string>, keys: seq<string>): (records: seq<SessionRecord>)
    ensures |records| <= |keys|
  {
    if keys == [] then []
    else Loaded(codec, store, keys[..|keys| - 1]) + LoadOne(codec, store, keys[|keys| - 1])
  }

  /** When every listed key is present and decodes, nothing is skipped. */
  lemma {:induction false} LoadedAll(codec: Codec, store: map<string, string>, keys: seq<string>)
    requires forall i :: 0 <= i < |keys| ==> keys[i] in store && codec.decodeRecord(store[keys[i]]).Some?
    ensures |Loaded(codec, store, keys)| == |keys|
  {
    if keys != [] {
      LoadedAll(codec, store, keys[..|keys| - 1]);
    }
  }

  /** Loading only looks at the listed entries. */
  lemma {:induction false} LoadedFrame(codec: Codec, store: map<string, string>, store': map<string, string>, keys: seq<string>)
    requires forall i :: 0 <= i < |keys| ==> (keys[i] in store <==> keys[i] in store')
    requires forall i :: 0 <= i < |keys| && keys[i] in store ==> store[keys[i]] == store'[keys[i]]
    ensures Loaded(codec, store, keys) == Loaded(codec, store', keys)
  {
    if keys != [] {
      LoadedFrame(codec, store, store', keys[..|keys| - 1]);
    }
  }

  /** The store after `save_session(record)` at time `now`. */
  function StoreAfterSave(codec: Codec, store: map<string, string>, record: SessionRecord, now: string): (after: map<string, string>)
    ensures SessionKey(now) in after && after[SessionKey(now)] == codec.encodeRecord(record)
    ensures SessionsListKey in after
    ensures after[SessionsListKey] == codec.encodeKeys(KeyList(codec, store) + [SessionKey(now)])
    ensures forall k :: k != SessionKey(now) && k != SessionsListKey ==>
      (k in after <==> k in store) && (k in store ==> after[k] == store[k])
    ensures after.Keys == store.Keys + {SessionKey(now), SessionsListKey}
  {
    var key := SessionKey(now);
    var written := store[key := codec.encodeRecord(record)];
    assert KeyList(codec, written) == KeyList(codec, store);
    written[SessionsListKey := codec.encodeKeys(KeyList(codec, written) + [key])]
  }

  /** The keys named in a list. */
  function Listed(keys: seq<string>): (ks: set<string>)
    ensures forall k :: k in ks <==> k in keys
  {
    set k | k in keys
  }

  /** The store after `clear_history`. */
  function StoreAfterClear(codec: Codec, store: map<string, string>): (after: map<string, string>)
    ensures forall k :: k in after <==> k in store && k !in KeyList(codec, store) && k != SessionsListKey
    ensures forall k :: k in after ==> after[k] == store[k]
  {
    store - Listed(KeyList(codec, store)) - {SessionsListKey}
  }

  /** Clearing twice leaves the store as clearing once. */
  lemma ClearIdempotent(codec: Codec, store: map<string, string>)
    ensures StoreAfterClear(codec, StoreAfterClear(codec, store)) == StoreAfterClear(codec, store)
  {
    var once := StoreAfterClear(codec, store);
    assert KeyList(codec, once) == [];
  }

  /** After clearing, the statistics are the default ones. */
  lemma ClearEmptiesHistory(codec: Codec, store: map<string, string>)
    ensures KeyList(codec, StoreAfterClear(codec, store)) == []
    ensures FromRecords(Loaded(codec, StoreAfterClear(codec, store), KeyList(codec, StoreAfterClear(codec, store))))
      == DefaultStatistics
  {
  }

  /**
   * A saved record is read back: the key list grows by the new key, and the
   * loaded records by the record, provided the key is new and the list does
   * not name the list key itself.
   */
  lemma SaveThenLoad(codec: Codec, store: map<string, string>, record: SessionRecord, now: string)
    requires codec.RecordRoundTrips(record)
    requires codec.KeysRoundTrip(KeyList(codec, store) + [SessionKey(now)])
    requires SessionKey(now) !in KeyList(codec, store)
    requires SessionsListKey !in KeyList(codec, store)
    ensures KeyList(codec, StoreAfterSave(codec, store, record, now)) == KeyList(codec, store) + [SessionKey(now)]
    ensures Loaded(codec, StoreAfterSave(codec, store, record, now), KeyList(codec, StoreAfterSave(codec, store, record, now)))
      == Loaded(codec, store, KeyList(codec, store)) + [record]
  {
    var after := StoreAfterSave(codec, store, record, now);
    var keys := KeyList(codec, store);
    var keys' := keys + [SessionKey(now)];
    assert after[SessionsListKey] == codec.encodeKeys(keys');
    assert codec.decodeKeys(after[SessionsListKey]) == Some(keys');
    assert KeyList(codec, after) == keys';
    assert after[SessionKey(now)] == codec.encodeRecord(record);
    LoadedFrame(codec, store, after, keys);
    assert keys'[..|keys'| - 1] == keys;
    assert LoadOne(codec, after, SessionKey(now)) == [record];
  }

  /** Saving a session adds exactly one session, with its time, to the statistics. */
  lemma SaveUpdatesStatistics(codec: Codec, store: map<string, string>, record: SessionRecord, now: string)
    requires codec.RecordRoundTrips(record)
    requires codec.KeysRoundTrip(KeyList(codec, store) + [SessionKey(now)])
    requires SessionKey(now) !in KeyList(codec, store)
    requires SessionsListKey !in KeyList(codec, store)
    ensures FromRecords(Loaded(codec, StoreAfterSave(codec, store, record, now), KeyList(codec, StoreAfterSave(codec, store, record, now)))).totalSessions
      == FromRecords(Loaded(codec, store, KeyList(codec, store))).totalSessions + 1
    ensures FromRecords(Loaded(codec, StoreAfterSave(codec, store, record, now), KeyList(codec, StoreAfterSave(codec, store, record, now)))).totalPracticeTime
      == FromRecords(Loaded(codec, store, KeyList(codec, store))).totalPracticeTime + record.elapsedSeconds
    ensures FromRecords(Loaded(codec, StoreAfterSave(codec, store, record, now), KeyList(codec, StoreAfterSave(codec, store, record, now)))).bestWpm
      == Max(FromRecords(Loaded(codec, store, KeyList(codec, store))).bestWpm, record.wpm)
  {
    SaveThenLoad(codec, store, record, now);
    AppendRecord(Loaded(codec, store, KeyList(codec, store)), record);
  }

  /** The round-trip requirements of the save lemmas can be met: a codec that reads back one record and one key list. */
  lemma RoundTripsSatisfiable(record: SessionRecord, keys: seq<string>)
    ensures exists codec: Codec :: codec.RecordRoundTrips(record) && codec.KeysRoundTrip(keys)
  {
    var codec := Codec(r => "r", s => Some(record), ks => "k", s => Some(keys));
    assert codec.RecordRoundTrips(record) && codec.KeysRoundTrip(keys);
  }

  /** The persistence facade over an in-memory key-value store. */
  class HistoryManager {
    const codec: Codec
    var store: map<string, string>

    constructor (codec: Codec, store: map<string, string>)
      ensures this.codec == codec && this.store == store
    {
      this.codec := codec;
      this.store := store;
    }

    /** `get_sessions_list`. */
    method GetSessionsList() returns (keys: seq<string>)
      ensures keys == KeyList(codec, store)
    {
      keys := [];
      if SessionsListKey in store {
        var decoded := codec.decodeKeys(store[SessionsListKey]);
        if decoded.Some? {
          keys := decoded.value;
        }
      }
    }

    /** `save_session`: store the record under a new key and append that key to the list. */
    method SaveSession(record: SessionRecord, now: string)
      modifies this`store
      ensures store == StoreAfterSave(codec, old(store), record, now)
    {
      var json := codec.encodeRecord(record);
      var key := SessionKey(now);
      store := store[key := json];
      var sessions := GetSessionsList();
      sessions := sessions + [key];
      store := store[SessionsListKey := codec.encodeKeys(sessions)];
    }

    /** `get_statistics`: fold the records that can be read, skipping the others. */
    method GetStatistics() returns (stats: Statistics)
      ensures stats == FromRecords(Loaded(codec, store, KeyList(codec, store)))
    {
      var allRecords := [];
      var sessionKeys := GetSessionsList();
      for i := 0 to |sessionKeys|
        invariant allRecords == Loaded(codec, store, sessionKeys[..i])
      {
        assert sessionKeys[..i + 1][..i] == sessionKeys[..i];
        var key := sessionKeys[i];
        if key in store {
          var decoded := codec.decodeRecord(store[key]);
          if decoded.Some? {
            allRecords := allRecords + [decoded.value];
          }
        }
      }
      assert sessionKeys[..|sessionKeys|] == sessionKeys;
      stats := FromRecords(allRecords);
    }

    /** `clear_history`: remove every listed record, then the list itself. */
    method ClearHistory()
      modifies this`store
      ensures store == StoreAfterClear(codec, old(store))
    {
      var sessionKeys := GetSessionsList();
      for i := 0 to |sessionKeys|
        invariant store == old(store) - Listed(sessionKeys[..i])
      {
        assert Listed(sessionKeys[..i + 1]) == Listed(sessionKeys[..i]) + {sessionKeys[i]};
        store := store - {sessionKeys[i]};
      }
      assert sessionKeys[..|sessionKeys|] == sessionKeys;
      store := store - {SessionsListKey};
    }
  }
}
