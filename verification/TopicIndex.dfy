/**
 The index of logs by topic. A query counts, for each log, how many alternatives it hits; what
 it returns is filtered again, and together this agrees with filtering all logs.
 */
module TopicIndex {
  import opened Common
  import opened ByteStrings
  import opened TopicKeys

  const MAX_COUNT: nat := 0xff

  ghost predicate LogOk(log: Log)
  {
    WellSized(log) && |log.topics| <= MAX_COUNT
  }

  /** Logs that can be told apart by their ids. */
  ghost predicate LogsOk(logs: set<Log>)
  {
    && (forall l | l in logs :: LogOk(l))
    && (forall l, m {:trigger l in logs, m in logs} | l in logs && m in logs && LogId(l) == LogId(m) :: l == m)
  }

  // ---------- what the tables hold ----------

  /** A topic of a log, with its position. */
  datatype Entry = Entry(log: Log, pos: nat)
  {
    ghost predicate Ok()
    {
      LogOk(log) && pos < |log.topics|
    }

    ghost function Topic(): (key: Bytes)
      requires Ok()
    {
      TopicKey(log.topics[pos], pos, LogId(log))
    }

    ghost function Other(): (key: Bytes)
      requires Ok()
    {
      OtherKey(LogId(log), pos)
    }
  }

  /** Entries of logs with distinct ids. */
  ghost predicate EntriesOk(entries: set<Entry>)
  {
    && (forall e {:trigger e in entries} | e in entries :: e.Ok())
    && (forall e, f {:trigger e in entries, f in entries} | e in entries && f in entries
        && LogId(e.log) == LogId(f.log) :: e.log == f.log)
  }

  ghost predicate TopicsOk(entries: set<Entry>, topic: map<Bytes, nat>)
    requires EntriesOk(entries)
  {
    && (forall e {:trigger e in entries} | e in entries :: e.Topic() in topic && topic[e.Topic()] == |e.log.topics|)
    && (forall key {:trigger key in topic} | key in topic :: exists e | e in entries :: e.Topic() == key)
  }

  ghost predicate OthersOk(entries: set<Entry>, other: map<Bytes, Bytes>)
    requires EntriesOk(entries)
  {
    && (forall e {:trigger e in entries} | e in entries ::
        e.Other() in other && other[e.Other()] == e.log.topics[e.pos])
    && (forall key {:trigger key in other} | key in other :: exists e | e in entries :: e.Other() == key)
  }

  lemma PutTopic(entries: set<Entry>, topic: map<Bytes, nat>, e: Entry)
    requires EntriesOk(entries + {e}) && EntriesOk(entries) && TopicsOk(entries, topic)
    ensures TopicsOk(entries + {e}, topic[e.Topic() := |e.log.topics|])
  {
    hide LogOk;
    assert e in entries + {e};
    var topic' := topic[e.Topic() := |e.log.topics|];
    forall f | f in entries + {e}
      ensures f.Topic() in topic' && topic'[f.Topic()] == |f.log.topics|
    {
      SameTopicKey(e, f);
      assert f == e || f in entries;
    }
    forall key | key in topic'
      ensures exists f | f in entries + {e} :: f.Topic() == key
    {
      if key != e.Topic() {
        var f :| f in entries && f.Topic() == key;
        assert f in entries + {e};
      }
    }
  }

  lemma SameTopicKey(e: Entry, f: Entry)
    requires e.Ok() && f.Ok()
    ensures e.Topic() == f.Topic() ==> LogId(e.log) == LogId(f.log) && e.pos == f.pos
  {
    TopicKeyInjective(e.log.topics[e.pos], e.pos, LogId(e.log), f.log.topics[f.pos], f.pos, LogId(f.log));
  }

  lemma SameOtherKey(e: Entry, f: Entry)
    requires e.Ok() && f.Ok()
    ensures e.Other() == f.Other() ==> LogId(e.log) == LogId(f.log) && e.pos == f.pos
  {
    OtherKeyInjective(LogId(e.log), e.pos, LogId(f.log), f.pos);
  }

  lemma PutOther(entries: set<Entry>, other: map<Bytes, Bytes>, e: Entry)
    requires EntriesOk(entries + {e}) && EntriesOk(entries) && OthersOk(entries, other)
    ensures OthersOk(entries + {e}, other[e.Other() := e.log.topics[e.pos]])
  {
    hide LogOk;
    assert e in entries + {e};
    var other' := other[e.Other() := e.log.topics[e.pos]];
    forall f | f in entries + {e}
      ensures f.Other() in other' && other'[f.Other()] == f.log.topics[f.pos]
    {
      SameOtherKey(e, f);
      assert f == e || f in entries;
    }
    forall key | key in other'
      ensures exists f | f in entries + {e} :: f.Other() == key
    {
      if key != e.Other() {
        var f :| f in entries && f.Other() == key;
        assert f in entries + {e};
      }
    }
  }

  /** All entries of the logs. */
  ghost function EntriesOf(logs: set<Log>): (entries: set<Entry>)
    ensures forall e :: e in entries <==> e.log in logs && e.pos < |e.log.topics|
  {
    set l, p | l in logs && 0 <= p < |l.topics| :: Entry(l, p)
  }

  /** The first entries of one log. */
  ghost function FirstEntries(log: Log, k: nat): (entries: set<Entry>)
    requires k <= |log.topics|
    ensures forall e :: e in entries <==> e.log == log && e.pos < k
  {
    set p | 0 <= p < k :: Entry(log, p)
  }

  lemma EntriesAreOk(logs: set<Log>, log: Log, k: nat)
    requires LogsOk(logs + {log}) && k <= |log.topics|
    ensures EntriesOk(EntriesOf(logs) + FirstEntries(log, k))
  {
    hide LogOk;
    var entries := EntriesOf(logs) + FirstEntries(log, k);
    forall e | e in entries
      ensures e.Ok() && e.log in logs + {log}
    {
      assert e.log in logs + {log};
    }
  }

  /** What is stored of a log besides its topics. */
  function Record(log: Log): (b: Bytes)
  {
    log.address + log.blockHash + log.data
  }

  ghost predicate RecordsOk(logs: set<Log>, logrec: map<Bytes, Bytes>)
    requires LogsOk(logs)
  {
    forall l {:trigger l in logs} | l in logs :: LogId(l) in logrec && logrec[LogId(l)] == Record(l)
  }

  class Index {
    var topic: map<Bytes, nat>
    var other: map<Bytes, Bytes>
    var logrec: map<Bytes, Bytes>
    ghost var logs: set<Log>

    ghost predicate Valid()
      reads this
    {
      && LogsOk(logs)
      && EntriesOk(EntriesOf(logs)) && TopicsOk(EntriesOf(logs), topic) && OthersOk(EntriesOf(logs), other)
      && RecordsOk(logs, logrec)
    }

    constructor ()
      ensures Valid() && logs == {}
    {
      topic, other, logrec := map[], map[], map[];
      logs := {};
    }

    /** Stores a log with a new id; fails if it has too many topics. */
    method Push(rec: Log) returns (ok: bool)
      requires Valid() && WellSized(rec) && forall l | l in logs :: WellSized(l) && LogId(l) != LogId(rec)
      modifies this
      ensures Valid() && ok == (|rec.topics| <= MAX_COUNT)
      ensures logs == if ok then old(logs) + {rec} else old(logs)
    {
      hide EntriesOk;
      hide TopicsOk;
      hide OthersOk;
      hide LogId;
      hide WellSized;
      if |rec.topics| > MAX_COUNT {
        return false;
      }
      var id := LogId(rec);
      ghost var before := logs;
      NewLogOk(logs, rec);
      NoFirst(logs, rec);
      for pos := 0 to |rec.topics|
        invariant logs == before && logrec == old(logrec)
        invariant EntriesOk(EntriesOf(before) + FirstEntries(rec, pos))
        invariant TopicsOk(EntriesOf(before) + FirstEntries(rec, pos), topic)
        invariant OthersOk(EntriesOf(before) + FirstEntries(rec, pos), other)
      {
        ghost var entries, e := EntriesOf(before) + FirstEntries(rec, pos), Entry(rec, pos);
        EntriesAreOk(before, rec, pos + 1);
        assert entries + {e} == EntriesOf(before) + FirstEntries(rec, pos + 1);
        PutTopic(entries, topic, e);
        PutOther(entries, other, e);
        topic := topic[TopicKey(rec.topics[pos], pos, id) := |rec.topics|];
        other := other[OtherKey(id, pos) := rec.topics[pos]];
      }
      assert EntriesOf(before) + FirstEntries(rec, |rec.topics|) == EntriesOf(before + {rec});
      logrec := logrec[id := Record(rec)];
      logs := logs + {rec};
      return true;
    }

    /** Counts the logs that have one alternative at its position. */
    method MatchAlternative(recs0: map<Bytes, Builder>, query: Query, pos: nat, j: nat)
      returns (recs: map<Bytes, Builder>)
      requires Valid() && QueryOk(query) && pos < |query| && j < |query[pos]| && Counted(logs, query, pos, j, {}, recs0)
      ensures Counted(logs, query, pos, j + 1, {}, recs)
    {
      hide Counted;
      hide LogId;
      hide WellSized;
      hide RecordsOk;
      hide OthersOk;
      hide EntriesOk;
      hide TopicsOk;
      var alternative := query[pos][j];
      var prefix := TopicPrefix(alternative, pos);
      var keys := Scan(topic, prefix);
      recs := recs0;
      ghost var seen: set<Log> := {};
      for i := 0 to |keys|
        invariant seen <= logs && Counted(logs, query, pos, j, seen, recs)
        invariant forall l {:trigger l in seen} | l in logs :: l in seen <==> KeyAmong(l, pos, alternative, keys, i)
      {
        var key := keys[i];
        assert key in keys;
        ghost var l := LogOfKey(EntriesOf(logs), topic, key, alternative, pos);
        KeyOnce(logs, l, pos, alternative, keys, i);
        assert l !in seen;
        BumpCounts(logs, query, pos, j, seen, recs, l);
        recs := Bump(recs, ExtractLogId(key), |query|, topic[key]);
        seen := seen + {l};
      }
      AllScanned(logs, topic, alternative, pos, keys);
      NextAlternative(logs, query, pos, j, seen, recs);
    }

    /** Counts, for every log, the alternatives it hits. */
    method CountHits(query: Query) returns (recs: map<Bytes, Builder>, wildcards: nat)
      requires Valid() && QueryOk(query)
      ensures Counted(logs, query, |query|, 0, {}, recs) && wildcards == Wildcards(query, |query|)
    {
      hide Counted;
      hide Valid;
      LogsAreOk();
      recs, wildcards := map[], 0;
      NothingCounted(logs, query);
      for pos := 0 to |query|
        invariant LogsOk(logs) && Counted(logs, query, pos, 0, {}, recs) && wildcards == Wildcards(query, pos)
      {
        if |query[pos]| < 1 {
          wildcards := wildcards + 1;
        } else {
          for j := 0 to |query[pos]|
            invariant Counted(logs, query, pos, j, {}, recs)
          {
            recs := MatchAlternative(recs, query, pos, j);
          }
        }
        NextPosition(logs, query, pos, recs);
      }
    }

    lemma LogsAreOk()
      requires Valid()
      ensures LogsOk(logs)
    {}

    /** Rebuilds a stored log from its id and the number of its topics. */
    method Fetch(id: Bytes, count: nat, ghost l: Log) returns (log: Log)
      requires Valid() && l in logs && LogOk(l) && id == LogId(l) && count == |l.topics|
      ensures log == l
    {
      hide LogId;
      hide EntriesOk;
      hide OthersOk;
      hide TopicsOk;
      var empty := ZeroHash();
      var topics := seq(count, _ => empty);
      var keys := Scan(other, id);
      for i := 0 to |keys|
        invariant |topics| == count
        invariant forall p {:trigger topics[p]} | 0 <= p < count ::
                    topics[p] == if OtherAmong(l, p, keys, i) then l.topics[p] else empty
      {
        var key := keys[i];
        assert key in keys;
        ghost var e := EntryOfKey(logs, other, key, l);
        var pos := ExtractPos(key);
        // a position beyond the count would mean inconsistent tables
        assert pos < count;
        OtherOnce(l, pos, keys, i);
        if topics[pos] == empty {
          topics := topics[pos := other[key]];
        }
      }
      AllOthers(logs, other, l, keys);
      assert topics == l.topics;
      var buf := logrec[id];
      RecordParts(l);
      IdRoundTrip(l.blockNumber, l.txHash, l.index);
      IdIs(l);
      return Log(buf[..ADDRESS_SIZE], topics, buf[ADDRESS_SIZE + HASH_SIZE..], BlockNumberOf(id), TxHashOf(id),
                 IndexOf(id),
                 buf[ADDRESS_SIZE..ADDRESS_SIZE + HASH_SIZE]);
    }

    /** The logs a query finds: those that hit enough alternatives. Fails if there are too many positions. */
    method FetchSync(query: Query) returns (res: Option<seq<Log>>)
      requires Valid() && QueryOk(query)
      ensures res.None? <==> |query| > MAX_COUNT
      ensures res.Some? ==> forall l :: l in res.value <==> l in logs && Found(l, query)
      ensures res.Some? ==> forall i, j | 0 <= i < j < |res.value| :: res.value[i] != res.value[j]
      ensures res.Some? && ExactCount(query) ==> forall l :: l in res.value <==> l in logs && Matches(l, query)
    {
      hide Valid;
      hide Found;
      hide Matches;
      hide ExactCount;
      hide Counted;
      if |query| > MAX_COUNT {
        return None;
      }
      LogsAreOk();
      var recs, wildcards := CountHits(query);
      var list: seq<Log> := [];
      var rest := recs.Keys;
      while rest != {}
        invariant rest <= recs.Keys
        invariant forall l :: l in list <==> l in logs && LogIn(l, recs, rest) && Found(l, query)
        invariant forall i, j | 0 <= i < j < |list| :: list[i] != list[j]
        decreases rest
      {
        var id :| id in rest;
        ghost var l := CountedLog(logs, query, recs, id);
        OneLess(logs, recs, rest, id, l);
        var rec := recs[id].MatchedWith(wildcards);
        if rec.IsMatched() {
          var log := Fetch(id, rec.topicsCount, l);
          assert forall i | 0 <= i < |list| :: list[i] in list;
          list := list + [log];
        }
        rest := rest - {id};
      }
      NotCounted(logs, query, recs);
      if ExactCount(query) {
        forall l | l in logs
          ensures Found(l, query) <==> Matches(l, query)
        {
          FoundIffMatches(l, query);
        }
      }
      return Some(list);
    }

    /** The logs of a filter by way of the index: for a query that asks for some topic, they are the
        same as by looking at every log. */
    method IndexedLogs(begin: int, end: int, addresses: seq<Bytes>, query: Query) returns (res: Option<seq<Log>>)
      requires Valid() && QueryOk(query) && exists p | 0 <= p < |query| :: query[p] != []
      ensures res.None? <==> |query| > MAX_COUNT
      ensures res.Some? ==> forall l :: l in res.value <==> l in logs && Passes(l, begin, end, addresses, query)
    {
      hide Valid;
      hide Found;
      hide Matches;
      var found := FetchSync(query);
      if found.None? {
        return None;
      }
      var list := FilterLogs(found.value, begin, end, addresses, query);
      forall l | l in logs && Passes(l, begin, end, addresses, query)
        ensures l in found.value
      {
        MatchIsFound(l, query);
      }
      return Some(list);
    }
  }

  lemma NewLogOk(logs: set<Log>, rec: Log)
    requires LogsOk(logs) && LogOk(rec) && forall l | l in logs :: LogId(l) != LogId(rec)
    ensures LogsOk(logs + {rec})
  {
    hide LogId;
  }

  lemma NoFirst(logs: set<Log>, rec: Log)
    ensures EntriesOf(logs) + FirstEntries(rec, 0) == EntriesOf(logs)
  {}

  // ---------- what a query asks ----------

  /** A query: for each position its alternatives, none meaning any topic. */
  type Query = seq<seq<Bytes>>

  predicate Has(log: Log, pos: nat, topic: Bytes)
  {
    pos < |log.topics| && log.topics[pos] == topic
  }

  /** How many of the first alternatives of a position the log hits. */
  ghost function HitsOf(log: Log, pos: nat, alternatives: seq<Bytes>, j: nat): (n: nat)
    requires j <= |alternatives|
  {
    if j == 0 then 0 else HitsOf(log, pos, alternatives, j - 1) + if Has(log, pos, alternatives[j - 1]) then 1 else 0
  }

  /** How many alternatives of the first positions the log hits, repeated ones repeatedly. */
  ghost function Hits(log: Log, query: Query, pos: nat): (n: nat)
    requires pos <= |query|
  {
    if pos == 0 then 0 else Hits(log, query, pos - 1) + HitsOf(log, pos - 1, query[pos - 1], |query[pos - 1]|)
  }

  function Wildcards(query: Query, pos: nat): (n: nat)
    requires pos <= |query|
  {
    if pos == 0 then 0 else Wildcards(query, pos - 1) + if query[pos - 1] == [] then 1 else 0
  }

  /** What a query means. */
  predicate Matches(log: Log, query: Query)
  {
    |query| <= |log.topics| && forall p {:trigger query[p]} | 0 <= p < |query| ::
      query[p] == [] || log.topics[p] in query[p]
  }

  /** A log that matches is counted as matched, however often an alternative is repeated. */
  lemma {:induction false} MatchIsCounted(log: Log, query: Query, pos: nat)
    requires Matches(log, query) && pos <= |query|
    ensures Hits(log, query, pos) + Wildcards(query, pos) >= pos
    ensures (exists p | 0 <= p < pos :: query[p] != []) ==> Hits(log, query, pos) > 0
  {
    if pos > 0 {
      MatchIsCounted(log, query, pos - 1);
      var p := pos - 1;
      if query[p] != [] {
        var i :| 0 <= i < |query[p]| && query[p][i] == log.topics[p];
        HitCounts(log, p, query[p], |query[p]|, i);
      }
    }
  }

  lemma {:induction false} HitCounts(log: Log, pos: nat, alternatives: seq<Bytes>, j: nat, i: nat)
    requires i < j <= |alternatives| && Has(log, pos, alternatives[i])
    ensures HitsOf(log, pos, alternatives, j) > 0
  {
    if i < j - 1 {
      HitCounts(log, pos, alternatives, j - 1, i);
    }
  }

  // ---------- counting ----------

  /** A log being counted: the conditions still open, and how many topics it has. */
  datatype Builder = Builder(conditions: nat, topicsCount: nat)
  {
    function MatchedWith(count: nat): (b: Builder)
    {
      this.(conditions := if conditions > count then conditions - count else 0)
    }

    predicate IsMatched()
    {
      conditions == 0
    }
  }

  function Minus(x: nat, y: nat): (z: nat)
  {
    if x > y then x - y else 0
  }

  ghost predicate CountIs(l: Log, n: nat, hits: nat, recs: map<Bytes, Builder>)
    requires WellSized(l)
  {
    && (LogId(l) in recs <==> hits > 0)
    && (hits > 0 ==> recs[LogId(l)] == Builder(Minus(n, hits), |l.topics|))
  }

  /** Every log is counted: the first positions, the first alternatives of the next one, and one
      more for the logs in `seen`. */
  ghost predicate Counted(logs: set<Log>, query: Query, pos: nat, j: nat, seen: set<Log>, recs: map<Bytes, Builder>)
    requires LogsOk(logs) && pos <= |query| && (if pos < |query| then j <= |query[pos]| else j == 0)
  {
    && (forall l {:trigger l in logs} | l in logs ::
        CountIs(l, |query|, HitsAt(l, query, pos, j) + (if l in seen then 1 else 0), recs))
    && (forall id {:trigger id in recs} | id in recs :: exists l | l in logs :: LogId(l) == id)
  }

  ghost function HitsAt(l: Log, query: Query, pos: nat, j: nat): (n: nat)
    requires pos <= |query| && (if pos < |query| then j <= |query[pos]| else j == 0)
  {
    Hits(l, query, pos) + if pos < |query| then HitsOf(l, pos, query[pos], j) else 0
  }

  function Bump(recs: map<Bytes, Builder>, id: Bytes, n: nat, count: nat): (r: map<Bytes, Builder>)
  {
    recs[id := (if id in recs then recs[id] else Builder(n, count)).MatchedWith(1)]
  }

  lemma BumpCounts(logs: set<Log>, query: Query, pos: nat, j: nat, seen: set<Log>, recs: map<Bytes, Builder>, l: Log)
    requires LogsOk(logs) && pos < |query| && j <= |query[pos]| && l in logs && l !in seen
    requires Counted(logs, query, pos, j, seen, recs)
    ensures Counted(logs, query, pos, j, seen + {l}, Bump(recs, LogId(l), |query|, |l.topics|))
  {
    hide HitsAt;
    hide LogId;
    hide WellSized;
    var recs' := Bump(recs, LogId(l), |query|, |l.topics|);
    forall m | m in logs
      ensures CountIs(m, |query|, HitsAt(m, query, pos, j) + (if m in seen + {l} then 1 else 0), recs')
    {
      assert CountIs(m, |query|, HitsAt(m, query, pos, j) + (if m in seen then 1 else 0), recs);
    }
  }

  lemma NextAlternative(logs: set<Log>, query: Query, pos: nat, j: nat, seen: set<Log>, recs: map<Bytes, Builder>)
    requires LogsOk(logs) && pos < |query| && j < |query[pos]| && Counted(logs, query, pos, j, seen, recs)
    requires forall l | l in logs :: l in seen <==> Has(l, pos, query[pos][j])
    ensures Counted(logs, query, pos, j + 1, {}, recs)
  {
    hide LogOk;
    forall l | l in logs
      ensures HitsAt(l, query, pos, j + 1) == HitsAt(l, query, pos, j) + if l in seen then 1 else 0
    {}
  }

  lemma NextPosition(logs: set<Log>, query: Query, pos: nat, recs: map<Bytes, Builder>)
    requires LogsOk(logs) && pos < |query| && Counted(logs, query, pos, |query[pos]|, {}, recs)
    ensures Counted(logs, query, pos + 1, 0, {}, recs)
  {
    hide LogOk;
    forall l | l in logs
      ensures HitsAt(l, query, pos + 1, 0) == HitsAt(l, query, pos, |query[pos]|)
    {}
  }

  lemma NothingCounted(logs: set<Log>, query: Query)
    requires LogsOk(logs)
    ensures Counted(logs, query, 0, 0, {}, map[])
  {}

  /** The keys of a table with a prefix, each once. */
  method Scan<V>(table: map<Bytes, V>, prefix: Bytes) returns (keys: seq<Bytes>)
    ensures forall key :: key in keys <==> key in table && prefix <= key
    ensures forall i, j | 0 <= i < j < |keys| :: keys[i] != keys[j]
  {
    keys := [];
    var rest := table.Keys;
    while rest != {}
      invariant rest <= table.Keys
      invariant forall key :: key in keys <==> key in table && key !in rest && prefix <= key
      invariant forall i, j | 0 <= i < j < |keys| :: keys[i] != keys[j]
      decreases rest
    {
      var key :| key in rest;
      if prefix <= key {
        assert forall i | 0 <= i < |keys| :: keys[i] in keys;
        keys := keys + [key];
      }
      rest := rest - {key};
    }
  }

  predicate QueryOk(query: Query)
  {
    forall p, j | 0 <= p < |query| && 0 <= j < |query[p]| :: |query[p][j]| == HASH_SIZE
  }

  /** The log has the topic, and its key is among the first `i` of the list. */
  ghost predicate KeyAmong(l: Log, pos: nat, topic: Bytes, keys: seq<Bytes>, i: nat)
    requires i <= |keys| && LogOk(l)
  {
    Has(l, pos, topic) && exists k | 0 <= k < i :: keys[k] == Entry(l, pos).Topic()
  }

  /** The log a scanned key belongs to. */
  lemma LogOfKey(entries: set<Entry>, table: map<Bytes, nat>, key: Bytes, topic: Bytes, pos: nat) returns (l: Log)
    requires EntriesOk(entries) && TopicsOk(entries, table) && key in table && TopicPrefix(topic, pos) <= key
             && |topic| == HASH_SIZE
    ensures Entry(l, pos) in entries && LogOk(l) && Has(l, pos, topic) && key == Entry(l, pos).Topic()
    ensures |key| == HASH_SIZE + 1 + LOGREC_KEY_SIZE && ExtractLogId(key) == LogId(l) && table[key] == |l.topics|
  {
    var e :| e in entries && e.Topic() == key;
    l := e.log;
    TopicKeyPrefix(l.topics[e.pos], e.pos, LogId(l), topic, pos);
  }

  lemma KeyOnce(logs: set<Log>, l: Log, pos: nat, topic: Bytes, keys: seq<Bytes>, i: nat)
    requires LogsOk(logs) && l in logs && i < |keys| && Has(l, pos, topic) && keys[i] == Entry(l, pos).Topic()
    requires forall i, j | 0 <= i < j < |keys| :: keys[i] != keys[j]
    ensures !KeyAmong(l, pos, topic, keys, i)
    ensures forall m | m in logs :: KeyAmong(m, pos, topic, keys, i + 1) <==> KeyAmong(m, pos, topic, keys, i) || m == l
  {
    hide LogId;
    hide WellSized;
    forall m | m in logs
      ensures KeyAmong(m, pos, topic, keys, i + 1) <==> KeyAmong(m, pos, topic, keys, i) || m == l
    {
      if Has(m, pos, topic) {
        SameTopicKey(Entry(m, pos), Entry(l, pos));
        assert keys[i] == Entry(m, pos).Topic() ==> m == l;
      }
    }
  }

  lemma AllScanned(logs: set<Log>, table: map<Bytes, nat>, topic: Bytes, pos: nat, keys: seq<Bytes>)
    requires LogsOk(logs) && EntriesOk(EntriesOf(logs)) && TopicsOk(EntriesOf(logs), table) && |topic| == HASH_SIZE
    requires forall key :: key in keys <==> key in table && TopicPrefix(topic, pos) <= key
    ensures forall l | l in logs :: KeyAmong(l, pos, topic, keys, |keys|) <==> Has(l, pos, topic)
  {
    forall l | l in logs && Has(l, pos, topic)
      ensures KeyAmong(l, pos, topic, keys, |keys|)
    {
      var e := Entry(l, pos);
      assert e in EntriesOf(logs);
      TopicKeyPrefix(l.topics[pos], pos, LogId(l), topic, pos);
      assert e.Topic() in keys;
    }
  }

  // ---------- rebuilding a log ----------

  ghost predicate OtherAmong(l: Log, pos: nat, keys: seq<Bytes>, i: nat)
    requires i <= |keys| && LogOk(l) && pos < |l.topics|
  {
    exists k | 0 <= k < i :: keys[k] == Entry(l, pos).Other()
  }

  lemma EntryOfKey(logs: set<Log>, other: map<Bytes, Bytes>, key: Bytes, l: Log) returns (e: Entry)
    requires LogsOk(logs) && EntriesOk(EntriesOf(logs)) && OthersOk(EntriesOf(logs), other) && l in logs
    requires key in other && LogId(l) <= key
    ensures e.log == l && e.pos < |l.topics| && e.Ok() && key == e.Other() && other[key] == l.topics[e.pos]
    ensures |key| == LOGREC_KEY_SIZE + 1 && ExtractPos(key) == e.pos
  {
    e :| e in EntriesOf(logs) && e.Other() == key;
    OtherKeyPrefix(LogId(e.log), e.pos, LogId(l));
  }

  lemma OtherOnce(l: Log, pos: nat, keys: seq<Bytes>, i: nat)
    requires LogOk(l) && pos < |l.topics| && i < |keys| && keys[i] == Entry(l, pos).Other()
    requires forall i, j | 0 <= i < j < |keys| :: keys[i] != keys[j]
    ensures !OtherAmong(l, pos, keys, i)
    ensures forall p | 0 <= p < |l.topics| :: OtherAmong(l, p, keys, i + 1) <==> OtherAmong(l, p, keys, i) || p == pos
  {
    hide LogId;
    forall p | 0 <= p < |l.topics|
      ensures OtherAmong(l, p, keys, i + 1) <==> OtherAmong(l, p, keys, i) || p == pos
    {
      SameOtherKey(Entry(l, p), Entry(l, pos));
      assert keys[i] == Entry(l, p).Other() ==> p == pos;
    }
  }

  lemma AllOthers(logs: set<Log>, other: map<Bytes, Bytes>, l: Log, keys: seq<Bytes>)
    requires LogsOk(logs) && EntriesOk(EntriesOf(logs)) && OthersOk(EntriesOf(logs), other) && l in logs
    requires forall key :: key in keys <==> key in other && LogId(l) <= key
    ensures forall p | 0 <= p < |l.topics| :: OtherAmong(l, p, keys, |keys|)
  {
    forall p | 0 <= p < |l.topics|
      ensures OtherAmong(l, p, keys, |keys|)
    {
      var e := Entry(l, p);
      assert e in EntriesOf(logs);
      OtherKeyPrefix(LogId(l), p, LogId(l));
      assert e.Other() in keys;
    }
  }

  lemma RecordParts(l: Log)
    requires WellSized(l)
    ensures var b := Record(l);
            && |b| >= ADDRESS_SIZE + HASH_SIZE && b[..ADDRESS_SIZE] == l.address
            && b[ADDRESS_SIZE..ADDRESS_SIZE + HASH_SIZE] == l.blockHash && b[ADDRESS_SIZE + HASH_SIZE..] == l.data
  {}

  lemma IdIs(l: Log)
    requires WellSized(l)
    ensures LogId(l) == IdOf(l.blockNumber, l.txHash, l.index)
  {}

  // ---------- what is found ----------

  /** A log hits something, and with the wildcards at least as much as there are positions. */
  ghost predicate Found(l: Log, query: Query)
  {
    Hits(l, query, |query|) > 0 && Hits(l, query, |query|) + Wildcards(query, |query|) >= |query|
  }

  ghost predicate LogIn(l: Log, recs: map<Bytes, Builder>, rest: set<Bytes>)
  {
    WellSized(l) && LogId(l) in recs && LogId(l) !in rest
  }

  /** The log of a counted record; it is matched exactly if it is found. */
  lemma CountedLog(logs: set<Log>, query: Query, recs: map<Bytes, Builder>, id: Bytes) returns (l: Log)
    requires LogsOk(logs) && Counted(logs, query, |query|, 0, {}, recs) && id in recs
    ensures l in logs && LogOk(l) && LogId(l) == id && recs[id].topicsCount == |l.topics|
    ensures recs[id].MatchedWith(Wildcards(query, |query|)).IsMatched() <==> Found(l, query)
  {
    hide LogId;
    hide WellSized;
    l :| l in logs && LogId(l) == id;
    assert CountIs(l, |query|, HitsAt(l, query, |query|, 0), recs);
  }

  lemma OneLess(logs: set<Log>, recs: map<Bytes, Builder>, rest: set<Bytes>, id: Bytes, l: Log)
    requires LogsOk(logs) && l in logs && LogId(l) == id && id in rest && id in recs
    ensures !LogIn(l, recs, rest)
    ensures forall m | m in logs :: LogIn(m, recs, rest - {id}) <==> LogIn(m, recs, rest) || m == l
  {
    hide LogId;
    hide WellSized;
  }

  lemma NotCounted(logs: set<Log>, query: Query, recs: map<Bytes, Builder>)
    requires LogsOk(logs) && Counted(logs, query, |query|, 0, {}, recs)
    ensures forall l | l in logs && Found(l, query) :: LogIn(l, recs, {})
  {
    hide LogId;
    hide WellSized;
    forall l | l in logs && Found(l, query)
      ensures LogIn(l, recs, {})
    {
      assert CountIs(l, |query|, HitsAt(l, query, |query|, 0), recs);
    }
  }

  // ---------- filtering ----------

  /** What a filter lets through; a negative bound is none. */
  predicate Passes(l: Log, begin: int, end: int, addresses: seq<Bytes>, query: Query)
  {
    && !(begin >= 0 && begin > l.blockNumber)
    && !(end >= 0 && end < l.blockNumber)
    && (|addresses| > 0 ==> l.address in addresses)
    && Matches(l, query)
  }

  method FilterLogs(logs: seq<Log>, begin: int, end: int, addresses: seq<Bytes>, query: Query) returns (ret: seq<Log>)
    ensures forall l :: l in ret <==> l in logs && Passes(l, begin, end, addresses, query)
    ensures forall l | l in ret ::
              && l in logs && (begin < 0 || begin <= l.blockNumber) && (end < 0 || l.blockNumber <= end)
              && (addresses == [] || l.address in addresses) && |query| <= |l.topics|
              && forall p {:trigger query[p]} | 0 <= p < |query| :: query[p] == [] || l.topics[p] in query[p]
  {
    ret := [];
    for i := 0 to |logs|
      invariant forall l :: l in ret <==> l in logs[..i] && Passes(l, begin, end, addresses, query)
    {
      var l := logs[i];
      TakeSnoc(logs, i);
      if begin >= 0 && begin > l.blockNumber {
        continue;
      }
      if end >= 0 && end < l.blockNumber {
        continue;
      }
      if |addresses| > 0 && l.address !in addresses {
        continue;
      }
      var hit := MatchesTopics(l, query);
      if hit {
        ret := ret + [l];
      }
    }
    TakeAll(logs);
  }

  method MatchesTopics(l: Log, query: Query) returns (all: bool)
    ensures all == Matches(l, query)
  {
    if |query| > |l.topics| {
      return false;
    }
    for i := 0 to |query|
      invariant forall p {:trigger query[p]} | 0 <= p < i :: query[p] == [] || l.topics[p] in query[p]
    {
      var hit := |query[i]| == 0;
      for j := 0 to |query[i]|
        invariant hit == (query[i] == []) && forall k | 0 <= k < j :: query[i][k] != l.topics[i]
      {
        if l.topics[i] == query[i][j] {
          hit := true;
          break;
        }
      }
      if !hit {
        return false;
      }
    }
    return true;
  }

  lemma MatchIsFound(l: Log, query: Query)
    requires Matches(l, query) && exists p | 0 <= p < |query| :: query[p] != []
    ensures Found(l, query)
  {
    MatchIsCounted(l, query, |query|);
  }

  // ---------- when the count alone is exact ----------

  predicate DistinctAlternatives(query: Query)
  {
    forall p | 0 <= p < |query| :: Distinct(query[p])
  }

  predicate Distinct(alternatives: seq<Bytes>)
  {
    forall i, j | 0 <= i < j < |alternatives| :: alternatives[i] != alternatives[j]
  }

  /** Without repeated alternatives a position is hit at most once. */
  lemma {:induction false} HitAtMostOnce(l: Log, pos: nat, alternatives: seq<Bytes>, j: nat)
    requires j <= |alternatives| && Distinct(alternatives)
    ensures HitsOf(l, pos, alternatives, j) <= 1
    ensures HitsOf(l, pos, alternatives, j) == 1 ==> exists i | 0 <= i < j :: Has(l, pos, alternatives[i])
  {
    if j > 0 {
      HitAtMostOnce(l, pos, alternatives, j - 1);
    }
  }

  lemma {:induction false} CountAtMostPositions(l: Log, query: Query, pos: nat)
    requires DistinctAlternatives(query) && pos <= |query|
    ensures Hits(l, query, pos) + Wildcards(query, pos) <= pos
    ensures Hits(l, query, pos) + Wildcards(query, pos) == pos ==>
              forall p {:trigger query[p]} | 0 <= p < pos ::
                query[p] == [] || (p < |l.topics| && l.topics[p] in query[p])
  {
    if pos > 0 {
      CountAtMostPositions(l, query, pos - 1);
      HitAtMostOnce(l, pos - 1, query[pos - 1], |query[pos - 1]|);
    }
  }

  predicate Asks(query: Query, p: nat)
  {
    p < |query| && query[p] != []
  }

  predicate OneAsked(query: Query)
  {
    forall p, q | 0 <= p < |query| && 0 <= q < |query| && Asks(query, p) && Asks(query, q) :: p == q
  }

  /** The last position asks for a topic, and no alternative is repeated unless nothing else is asked. */
  predicate ExactCount(query: Query)
  {
    && query != [] && Asks(query, |query| - 1)
    && (DistinctAlternatives(query) || OneAsked(query))
  }

  /** Without repeated alternatives the count is right about every log with a topic at each position. */
  lemma LongLogFoundIffMatches(l: Log, query: Query)
    requires DistinctAlternatives(query) && |query| <= |l.topics| && exists p: nat :: Asks(query, p)
    ensures Found(l, query) <==> Matches(l, query)
  {
    CountAtMostPositions(l, query, |query|);
    if Matches(l, query) {
      MatchIsFound(l, query);
    }
  }

  /** For such a query the count alone tells whether a log matches. */
  lemma FoundIffMatches(l: Log, query: Query)
    requires ExactCount(query)
    ensures Found(l, query) <==> Matches(l, query)
  {
    var last := |query| - 1;
    assert query[last] != [];
    if Matches(l, query) {
      MatchIsFound(l, query);
    } else if DistinctAlternatives(query) {
      CountAtMostPositions(l, query, |query|);
    } else if Found(l, query) {
      assert forall p {:trigger query[p]} | 0 <= p < last :: !Asks(query, p);
      NothingHit(l, query, last);
      SomethingHit(l, last, query[last], |query[last]|);
    }
  }

  lemma {:induction false} NothingHit(l: Log, query: Query, pos: nat)
    requires pos <= |query| && forall p | 0 <= p < pos :: !Asks(query, p)
    ensures Hits(l, query, pos) == 0
  {
    if pos > 0 {
      NothingHit(l, query, pos - 1);
      assert !Asks(query, pos - 1);
    }
  }

  lemma {:induction false} SomethingHit(l: Log, pos: nat, alternatives: seq<Bytes>, j: nat)
    requires j <= |alternatives| && HitsOf(l, pos, alternatives, j) > 0
    ensures pos < |l.topics| && l.topics[pos] in alternatives
  {
    if !Has(l, pos, alternatives[j - 1]) {
      SomethingHit(l, pos, alternatives, j - 1);
    }
  }

  // ---------- and when it is not ----------

  /** A log as the index accepts it. */
  ghost predicate Storable(l: Log)
  {
    LogOk(l) && forall p | 0 <= p < |l.topics| :: IsHash(l.topics[p])
  }

  predicate Hashes(query: Query)
  {
    forall p, j | 0 <= p < |query| && 0 <= j < |query[p]| :: IsHash(query[p][j])
  }

  ghost function LogWith(topics: seq<Bytes>): (l: Log)
    requires |topics| <= MAX_COUNT && forall p | 0 <= p < |topics| :: IsHash(topics[p])
    ensures Storable(l) && l.topics == topics
  {
    assert forall p | 0 <= p < |topics| :: IsHash(topics[p]) && |topics[p]| == HASH_SIZE;
    Log(seq(ADDRESS_SIZE, _ => 0), topics, [], 0, ZeroHash(), 0, ZeroHash())
  }

  /** The first alternatives of the first `n` positions. */
  function FirstChoice(query: Query, n: nat): (topics: seq<Bytes>)
    requires Hashes(query) && n <= |query|
    ensures |topics| == n && forall p | 0 <= p < n :: IsHash(topics[p])
    ensures forall p | 0 <= p < n && Asks(query, p) :: topics[p] == query[p][0]
  {
    seq(n, p requires 0 <= p < n => if query[p] == [] then ZeroHash() else query[p][0])
  }

  /** Nothing is asked at the position, or the log has one of the alternatives there. */
  ghost predicate Answers(l: Log, query: Query, k: nat)
    requires k < |query|
  {
    query[k] == [] || exists i | 0 <= i < |query[k]| :: Has(l, k, query[k][i])
  }

  /** Every answered position counts, one that is answered twice counts twice. */
  lemma {:induction false} CountAtLeast(l: Log, query: Query, pos: nat, twice: nat, missed: nat)
    requires pos <= |query| && forall k: nat | k < |query| && k != missed :: Answers(l, query, k)
    requires twice < |query| ==> HitsOf(l, twice, query[twice], |query[twice]|) >= 2
    ensures Hits(l, query, pos) + Wildcards(query, pos) + (if missed < pos then 1 else 0)
            >= pos + if twice < pos then 1 else 0
    ensures (exists k: nat :: Asks(query, k) && k < pos && k != missed) ==> Hits(l, query, pos) > 0
  {
    if pos > 0 {
      CountAtLeast(l, query, pos - 1, twice, missed);
      var k := pos - 1;
      if k != missed && query[k] != [] {
        assert Answers(l, query, k);
        var i :| 0 <= i < |query[k]| && Has(l, k, query[k][i]);
        HitCounts(l, k, query[k], |query[k]|, i);
      }
    }
  }

  lemma {:induction false} HitTwice(l: Log, pos: nat, alternatives: seq<Bytes>, i: nat, j: nat, n: nat)
    requires i < j < n <= |alternatives| && Has(l, pos, alternatives[i]) && alternatives[i] == alternatives[j]
    ensures HitsOf(l, pos, alternatives, n) >= 2
  {
    if n == j + 1 {
      HitCounts(l, pos, alternatives, j, i);
    } else {
      HitTwice(l, pos, alternatives, i, j, n - 1);
    }
  }

  /** With nothing asked at the last position the count is wrong about some log: one that ends after
      the last topic asked for is found, or, if nothing is asked at all, one that matches is not. */
  lemma TrailingWildcardIsWrong(query: Query) returns (l: Log)
    requires Hashes(query) && |query| <= MAX_COUNT && (query == [] || !Asks(query, |query| - 1))
    ensures Storable(l) && Found(l, query) != Matches(l, query)
  {
    if p: nat :| Asks(query, p) {
      var m := LastAsked(query, |query|);
      l := LogWith(FirstChoice(query, m + 1));
      forall k: nat | k < |query|
        ensures Answers(l, query, k)
      {
        assert k > m ==> !Asks(query, k);
        assert k <= m && Asks(query, k) ==> Has(l, k, query[k][0]);
      }
      CountAtLeast(l, query, |query|, |query|, |query|);
    } else {
      l := LogWith(FirstChoice(query, |query|));
      NothingHit(l, query, |query|);
      assert forall k | 0 <= k < |query| :: !Asks(query, k);
    }
  }

  lemma {:induction false} LastAsked(query: Query, n: nat) returns (m: nat)
    requires n <= |query| && exists p: nat :: Asks(query, p) && p < n
    ensures Asks(query, m) && m < n && forall k: nat | m < k < n :: !Asks(query, k)
  {
    if Asks(query, n - 1) {
      m := n - 1;
    } else {
      m := LastAsked(query, n - 1);
    }
  }

  /** A repeated alternative stands in for another position, at which some hash is no alternative. */
  lemma RepeatedAlternativeIsWrong(query: Query, p: nat, i: nat, j: nat, q: nat) returns (l: Log)
    requires Hashes(query) && |query| <= MAX_COUNT && Asks(query, p) && Asks(query, q) && p != q
    requires i < j < |query[p]| && query[p][i] == query[p][j] && |query[q]| < Pow256(HASH_SIZE)
    ensures Storable(l) && Found(l, query) && !Matches(l, query)
  {
    hide Pow256;
    var h := FreshHash(query[q]);
    l := LogWith(FirstChoice(query, |query|)[p := query[p][i]][q := h]);
    forall k: nat | k < |query| && k != q
      ensures Answers(l, query, k)
    {
      assert k == p ==> Has(l, k, query[k][i]);
      assert k != p && Asks(query, k) ==> Has(l, k, query[k][0]);
    }
    HitTwice(l, p, query[p], i, j, |query[p]|);
    CountAtLeast(l, query, |query|, p, q);
    assert !(l.topics[q] in query[q]);
  }

  lemma RepeatedAndOther(query: Query) returns (p: nat, q: nat, i: nat, j: nat)
    requires query != [] && Asks(query, |query| - 1) && !ExactCount(query)
    ensures Asks(query, p) && Asks(query, q) && p != q && i < j < |query[p]| && query[p][i] == query[p][j]
  {
    p :| 0 <= p < |query| && !Distinct(query[p]);
    i, j :| 0 <= i < j < |query[p]| && query[p][i] == query[p][j];
    var q1: nat, q2: nat :| Asks(query, q1) && Asks(query, q2) && q1 != q2;
    q := if q1 == p then q2 else q1;
  }

  /**
   The exact condition, which a caller can test before searching: the logs a search finds are those
   that match, whatever is stored, if and only if the last position asks for a topic and no
   alternative is repeated unless nothing else is asked.
   */
  lemma CountIsExactIff(query: Query)
    requires Hashes(query) && |query| <= MAX_COUNT
    requires forall p | 0 <= p < |query| :: |query[p]| < Pow256(HASH_SIZE)
    ensures (forall l: Log {:trigger Found(l, query)} | Storable(l) :: Found(l, query) <==> Matches(l, query))
       <==> ExactCount(query)
  {
    hide Found;
    hide Matches;
    hide Storable;
    hide Hashes;
    hide Pow256;
    if query == [] || !Asks(query, |query| - 1) {
      var l := TrailingWildcardIsWrong(query);
    } else if !ExactCount(query) {
      var p, q, i, j := RepeatedAndOther(query);
      var l := RepeatedAlternativeIsWrong(query, p, i, j, q);
    } else {
      forall l: Log | Storable(l)
        ensures Found(l, query) <==> Matches(l, query)
      {
        FoundIffMatches(l, query);
      }
    }
  }

  /** A repeated alternative is counted twice and can stand in for a position that does not match. */
  lemma RepeatedAlternativeOvercounts(l: Log, a: Bytes, b: Bytes)
    requires |l.topics| == 2 && l.topics[0] == a && l.topics[1] != b
    ensures Found(l, [[a, a], [b]]) && !Matches(l, [[a, a], [b]])
  {
    var query := [[a, a], [b]];
    assert HitsOf(l, 0, query[0], 1) == 1;
    assert HitsOf(l, 0, query[0], 2) == 2;
    assert Hits(l, query, 1) == 2;
    assert query[1] == [b];
    assert !(l.topics[1] in query[1]);
  }

  /** A wildcard after the last topic of a log is counted although the log has no topic there. */
  lemma TrailingWildcardOvercounts(l: Log, a: Bytes)
    requires l.topics == [a]
    ensures Found(l, [[a], []]) && !Matches(l, [[a], []])
  {
    var query := [[a], []];
    assert HitsOf(l, 0, query[0], 1) == 1;
    assert Hits(l, query, 1) == 1 && Wildcards(query, 1) == 0;
    assert query[1] == [];
  }
}
