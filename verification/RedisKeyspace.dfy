/** The Redis keyspace as the cleanup code sees it: typed values behind flat string keys. */
module RedisKeyspace {
  import opened Collections

  datatype Value =
    | Str(text: string)
    | Hash(fields: map<string, string>)
    | List(items: seq<string>)
    | ZSet(ranked: seq<string>)
    | Set(members: set<string>)

  type Keyspace = map<string, Value>

  const JOB_PREFIX := "ffmpeg:job:"
  const LOCK_PREFIX := "ffmpeg:lock:"
  const DEDUP_PREFIX := "ffmpeg:pipeline_dedup:"

  /** A field that is missing and one that is empty read the same. */
  function Field(fields: map<string, string>, name: string): string {
    if name in fields then fields[name] else ""
  }

  function KeysUnder(db: Keyspace, prefix: string): set<string> {
    set k | k in db && prefix <= k
  }

  /** A SCAN of one prefix: every key present throughout is returned, each once, in any order. */
  method Scan(db: Keyspace, prefix: string) returns (keys: seq<string>)
    ensures Elements(keys) == KeysUnder(db, prefix)
    ensures forall i :: 0 <= i < |keys| ==> keys[i] in db && prefix <= keys[i]
    ensures forall i, j :: 0 <= i < j < |keys| ==> keys[i] != keys[j]
  {
    keys := Enumerate(KeysUnder(db, prefix));
    assert forall i :: 0 <= i < |keys| ==> keys[i] in Elements(keys);
  }
}
