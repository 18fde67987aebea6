/**
 The keys of the log index: fixed-width fields put one after the other.
 */
module TopicKeys {
  import opened ByteStrings

  const UINT64_SIZE: nat := 8
  const ADDRESS_SIZE: nat := 20
  const LOGREC_KEY_SIZE: nat := UINT64_SIZE + HASH_SIZE + UINT64_SIZE

  datatype Log = Log(address: Bytes, topics: seq<Bytes>, data: Bytes, blockNumber: nat, txHash: Bytes, index: nat,
                     blockHash: Bytes)

  /** The widths of the fields. */
  predicate WellSized(log: Log)
  {
    && |log.address| == ADDRESS_SIZE && |log.txHash| == HASH_SIZE && |log.blockHash| == HASH_SIZE
    && log.blockNumber < Pow256(UINT64_SIZE) && log.index < Pow256(UINT64_SIZE)
    && (forall i | 0 <= i < |log.topics| :: |log.topics[i]| == HASH_SIZE)
  }

  /** The id of a log: its block, transaction and place. */
  function IdOf(blockNumber: nat, txHash: Bytes, index: nat): (id: Bytes)
    requires |txHash| == HASH_SIZE
    ensures |id| == LOGREC_KEY_SIZE
  {
    BigEndian(blockNumber, UINT64_SIZE) + txHash + BigEndian(index, UINT64_SIZE)
  }

  function BlockNumberOf(id: Bytes): (n: nat)
    requires |id| == LOGREC_KEY_SIZE
  {
    FromBigEndian(id[..UINT64_SIZE])
  }

  function TxHashOf(id: Bytes): (h: Bytes)
    requires |id| == LOGREC_KEY_SIZE
    ensures |h| == HASH_SIZE
  {
    id[UINT64_SIZE..UINT64_SIZE + HASH_SIZE]
  }

  function IndexOf(id: Bytes): (n: nat)
    requires |id| == LOGREC_KEY_SIZE
  {
    FromBigEndian(id[UINT64_SIZE + HASH_SIZE..])
  }

  /** The fields of an id can be read off it, so different logs have different ids. */
  lemma IdRoundTrip(blockNumber: nat, txHash: Bytes, index: nat)
    requires |txHash| == HASH_SIZE && blockNumber < Pow256(UINT64_SIZE) && index < Pow256(UINT64_SIZE)
    ensures var id := IdOf(blockNumber, txHash, index);
            && BlockNumberOf(id) == blockNumber && TxHashOf(id) == txHash && IndexOf(id) == index
            && id[..8] == BigEndian(blockNumber, 8) && id[8..40] == txHash && id[40..] == BigEndian(index, 8)
  {
    var id := IdOf(blockNumber, txHash, index);
    BigEndianRoundTrip(blockNumber, UINT64_SIZE);
    BigEndianRoundTrip(index, UINT64_SIZE);
    assert id[..UINT64_SIZE] == BigEndian(blockNumber, UINT64_SIZE);
    assert id[UINT64_SIZE..UINT64_SIZE + HASH_SIZE] == txHash;
    assert id[UINT64_SIZE + HASH_SIZE..] == BigEndian(index, UINT64_SIZE);
  }

  function LogId(log: Log): (id: Bytes)
    requires WellSized(log)
    ensures |id| == LOGREC_KEY_SIZE
  {
    IdOf(log.blockNumber, log.txHash, log.index)
  }

  /** What all keys of one topic at one position start with. */
  function TopicPrefix(topic: Bytes, pos: nat): (key: Bytes)
  {
    topic + [pos]
  }

  function TopicKey(topic: Bytes, pos: nat, id: Bytes): (key: Bytes)
  {
    TopicPrefix(topic, pos) + id
  }

  function ExtractLogId(key: Bytes): (id: Bytes)
    requires |key| == HASH_SIZE + 1 + LOGREC_KEY_SIZE
    ensures |id| == LOGREC_KEY_SIZE
  {
    key[HASH_SIZE + 1..]
  }

  function OtherKey(id: Bytes, pos: nat): (key: Bytes)
  {
    id + [pos]
  }

  function ExtractPos(key: Bytes): (pos: nat)
    requires |key| == LOGREC_KEY_SIZE + 1
  {
    key[LOGREC_KEY_SIZE]
  }

  /** A key starts with the prefix of a topic and position exactly when it is theirs. */
  lemma TopicKeyPrefix(topic: Bytes, pos: nat, id: Bytes, topic': Bytes, pos': nat)
    requires |topic| == |topic'| == HASH_SIZE && |id| == LOGREC_KEY_SIZE
    ensures TopicPrefix(topic', pos') <= TopicKey(topic, pos, id) <==> topic == topic' && pos == pos'
    ensures |TopicKey(topic, pos, id)| == HASH_SIZE + 1 + LOGREC_KEY_SIZE
            && ExtractLogId(TopicKey(topic, pos, id)) == id
    ensures TopicKey(topic, pos, id) == topic + [pos] + id
  {
    var key, prefix := TopicKey(topic, pos, id), TopicPrefix(topic', pos');
    assert key[..HASH_SIZE] == topic && key[HASH_SIZE] == pos && prefix[..HASH_SIZE] == topic'
           && prefix[HASH_SIZE] == pos';
    assert key[..HASH_SIZE + 1] == TopicPrefix(topic, pos);
    if prefix <= key {
      assert key[..HASH_SIZE + 1] == prefix;
    }
  }

  lemma OtherKeyPrefix(id: Bytes, pos: nat, id': Bytes)
    requires |id| == |id'| == LOGREC_KEY_SIZE
    ensures id' <= OtherKey(id, pos) <==> id == id'
    ensures |OtherKey(id, pos)| == LOGREC_KEY_SIZE + 1 && ExtractPos(OtherKey(id, pos)) == pos
    ensures OtherKey(id, pos) == id + [pos]
  {
    var key := OtherKey(id, pos);
    assert key[..LOGREC_KEY_SIZE] == id;
  }

  lemma TopicKeyInjective(topic: Bytes, pos: nat, id: Bytes, topic': Bytes, pos': nat, id': Bytes)
    requires |topic| == |topic'| == HASH_SIZE && |id| == |id'| == LOGREC_KEY_SIZE
    ensures TopicKey(topic, pos, id) == TopicKey(topic', pos', id') <==> topic == topic' && pos == pos' && id == id'
  {
    TopicKeyPrefix(topic, pos, id, topic', pos');
    TopicKeyPrefix(topic', pos', id', topic', pos');
  }

  lemma OtherKeyInjective(id: Bytes, pos: nat, id': Bytes, pos': nat)
    requires |id| == |id'| == LOGREC_KEY_SIZE
    ensures OtherKey(id, pos) == OtherKey(id', pos') <==> id == id' && pos == pos'
  {
    OtherKeyPrefix(id, pos, id');
    OtherKeyPrefix(id', pos', id');
  }
}
