/** The rows of the five map/reduce tables, the records the storage layer
    hands back to the indexing engine, and the foreign functions the layer
    depends on (key hashing, bucketing, case-insensitive comparison and the
    storage engine's index-key normalisation), left uninterpreted. */
module Schema {
  import opened Common

  newtype byte = x: int | 0 <= x < 256

  /** A fixed-width digest of a reduce key (SHA-1 in the source). */
  type Hash = seq<byte>

  /** A stored payload, after the document codecs have run over it. */
  type Payload = seq<byte>

  /** The foreign functions, as values. No property of them is taken for granted: the
      hash may collide, and two names that differ only in case may or may
      not be folded together.
      - hashOf:   HashReduceKey
      - bucketOf: the map bucket of a document id
      - fold:     the case folding behind the case-insensitive comparisons;
                  two names compare equal when their foldings are equal
      - truncate: what the storage engine does to a folded text column when
                  it builds an index key; index ranges match on
                  truncate(fold(s)), so they are coarser than the checks
                  the code makes on every row
      - compare:  the sign of String.Compare(a, b) ignoring case */
  datatype Env = Env(
    hashOf: string -> Hash,
    bucketOf: string -> int,
    fold: string -> string,
    truncate: string -> string,
    compare: (string, string) -> int)

  /** Case-insensitive equality of names (views, document ids). */
  predicate SameName(env: Env, a: string, b: string)
  {
    env.fold(a) == env.fold(b)
  }

  /** The value a text column contributes to an engine index key. */
  function IndexKey(env: Env, s: string): string
  {
    env.truncate(env.fold(s))
  }

  /** A row of the MappedResults table. */
  datatype MappedRow = MappedRow(
    view: string, docId: string, reduceKey: string, hash: Hash,
    bucket: int, etag: nat, timestamp: int, data: Payload)

  /** A row of the ReducedResults table. */
  datatype ReducedRow = ReducedRow(
    view: string, level: int, reduceKey: string, hash: Hash,
    bucket: int, sourceBucket: int, etag: nat, timestamp: int, data: Payload)

  /** A row of the ScheduledReductions table. */
  datatype ScheduledRow = ScheduledRow(
    view: string, level: int, reduceKey: string, hash: Hash,
    bucket: int, etag: nat, timestamp: int)

  /** A row of ReduceKeysCounts (V = int) or ReduceKeysStatus (V = ReduceType). */
  datatype KeyRow<V> = KeyRow(view: string, reduceKey: string, hash: Hash, value: V)

  /** The reduce strategy; Unset is the enum's zero value (ReduceType.None). */
  datatype ReduceType = Unset | SingleStep | MultiStep

  /** Where a debug record came from: a document id or a source bucket. */
  datatype Source = NoSource | FromDocument(docId: string) | FromBucket(sourceBucket: int)

  /** What a lookup yields. An etag of 0 stands for Guid.Empty. */
  datatype MappedResultInfo = MappedResultInfo(
    reduceKey: string, bucket: int, etag: nat, timestamp: int,
    data: Option<Payload>, size: nat, source: Source)

  datatype ReduceKeyAndBucket = ReduceKeyAndBucket(bucket: int, reduceKey: string)

  datatype ReduceKeyAndCount = ReduceKeyAndCount(count: int, key: string)

  datatype ReduceTypePerKey = ReduceTypePerKey(reduceKey: string, reduceType: ReduceType)

  datatype ScheduledReductionInfo = ScheduledReductionInfo(etag: nat, timestamp: int)

  /** The exceptions the core raises: an invalid level (ArgumentException) and
      a bookmark whose row is already gone. */
  datatype StorageError = InvalidLevel(level: int) | RecordDeleted

  datatype Outcome<T> = Ok(value: T) | Fail(error: StorageError)

  /** The record that stands for an empty bucket: only key and bucket are set. */
  function Placeholder(reduceKey: string, bucket: int): MappedResultInfo
  {
    MappedResultInfo(reduceKey, bucket, 0, 0, None, 0, NoSource)
  }

  function MappedEtag(r: MappedRow): int { r.etag }

  function ReducedEtag(r: ReducedRow): int { r.etag }

  function ScheduledEtag(r: ScheduledRow): int { r.etag }
}
