/** The parts of the wire protocol the client's routing and retry rules turn on: regions, peers,
epochs, the typed refusals and what each says about whether a request took effect.

The texts carried for a human (`detail`, `reason`) are not modelled.
*/
module Proto {
  import opened Keys

  datatype Option<+T> = None | Some(value: T)

  datatype Result<+T, +E> = Ok(value: T) | Err(error: E)

  datatype PeerRole = Voter | Learner | ColumnarLearner

  datatype Peer = Peer(storeId: nat, peerId: nat, role: PeerRole)

  datatype Epoch = Epoch(confVer: nat, version: nat) {
    /** Behind in either counter: a split and a membership change move different ones. */
    predicate IsStaleAgainst(other: Epoch) {
      confVer < other.confVer || version < other.version
    }
  }

  datatype Region = Region(id: nat, startKey: Key, endKey: Key, peers: seq<Peer>, epoch: Epoch) {
    predicate Contains(key: Key) {
      Owns(startKey, endKey, key)
    }

    /** A region that holds at least one key. */
    predicate WellFormed() {
      endKey == [] || Lt(startKey, endKey)
    }
  }

  datatype RequestOutcome = NotApplied | Unknown

  /** Every refusal and failure of the protocol. */
  datatype ProtoError =
    | NotLeader(regionId: nat, leaderHint: Option<nat>)
    | PdNotLeader
    | EpochNotMatch(currentRegions: seq<Region>)
    | KeyNotInRegion(key: Key, regionId: nat, startKey: Key, endKey: Key)
    | ServerIsBusy
    | Locked
    | RegionNotFound(regionId: nat)
    | SnapshotTooOld
    | WireVersion
    | InvalidRequest
    | Unsupported
    | Corrupt
    | Io
    | Closed
    | NotSent
    | Timeout
    | DuplicateRequestId
    | NotBootstrapped
    | ClusterMismatch
    | Internal
  {
    /** Whether the request may have taken effect. */
    function Outcome(): RequestOutcome {
      if Corrupt? || Io? || Closed? || Timeout? || Internal? then Unknown else NotApplied
    }

    /** Whether a generic loop may send the request again after a backoff. */
    predicate IsRetryable() {
      NotLeader? || EpochNotMatch? || ServerIsBusy? || RegionNotFound? || NotSent?
    }

    /** Whether the peer could not be reached at all. */
    predicate IsUnreachable() {
      NotSent?
    }
  }

  /** The methods the two routed services define, and the two a client error may also name. */
  datatype Method =
    | RawGet | RawBatchGet | RawPut | RawBatchPut | RawDelete | RawDeleteRange | RawScan
    | RawCompareAndSwap
    | TxnGet | TxnScan | TxnPrewrite | TxnCommit | TxnRollback | TxnResolveLock | TxnHeartbeat
    | TxnGcSafepoint | TxnLatestCommit | TxnReclaimRange | TxnReleaseLock
    | PdGetRegion | FragmentEvaluate
  {
    predicate IsMutation() {
      RawPut? || RawBatchPut? || RawDelete? || RawDeleteRange? || RawCompareAndSwap?
      || TxnPrewrite? || TxnCommit? || TxnRollback? || TxnResolveLock? || TxnHeartbeat?
      || TxnGcSafepoint? || TxnReclaimRange? || TxnReleaseLock?
    }
  }

  /** Neither of two epochs is stale against the other only if they are one. */
  lemma EpochsAgree(a: Epoch, b: Epoch)
    ensures !a.IsStaleAgainst(b) && !b.IsStaleAgainst(a) <==> a == b
  {
  }

  /** What the two answers about a failure leave out: a typed refusal, and a request never sent, were not applied;
  the rest is not for a loop to repeat. */
  lemma FailuresAreSorted(error: ProtoError)
    ensures error.Outcome() == NotApplied <==>
      || error.NotLeader? || error.PdNotLeader? || error.EpochNotMatch? || error.KeyNotInRegion? || error.ServerIsBusy?
      || error.Locked? || error.RegionNotFound? || error.SnapshotTooOld? || error.WireVersion? || error.InvalidRequest?
      || error.Unsupported? || error.DuplicateRequestId? || error.NotBootstrapped? || error.ClusterMismatch?
      || error.NotSent?
    ensures !error.IsRetryable() <==>
      || error.Outcome() == Unknown || error.PdNotLeader? || error.KeyNotInRegion? || error.Locked?
      || error.SnapshotTooOld? || error.WireVersion? || error.InvalidRequest? || error.Unsupported?
      || error.DuplicateRequestId? || error.NotBootstrapped? || error.ClusterMismatch?
    ensures error.IsUnreachable() ==> error.IsRetryable()
  {
  }

  /** The methods that change nothing. */
  lemma QuestionsChangeNothing(verb: Method)
    ensures !verb.IsMutation() <==>
      || verb.RawGet? || verb.RawBatchGet? || verb.RawScan? || verb.TxnGet? || verb.TxnScan? || verb.TxnLatestCommit?
      || verb.PdGetRegion? || verb.FragmentEvaluate?
  {
  }

  /** What a client call can fail with. */
  datatype Error =
    | Store(refusal: ProtoError)
    | RetriesExhausted(attempts: nat, source: ProtoError)
    | DeadlineExceeded(attempts: nat, lastSeen: Option<ProtoError>)
    | AmbiguousResult(verb: Method, source: ProtoError)
    | NoRegion(key: Key)
    | RequestTooLarge(bytes: nat, limit: nat)
    | KeyTooLarge
    | UnexpectedResponse(expected: Method, actual: Method)
    | TxnConflict
    | TxnSettled
    | LockNotCleared
    | ReadSnapshotTooOld
    | SnapshotInTheFuture
    | ReadOnlyTransaction
    | NoSuchSnapshot
    | InternalError(why: InternalReason)
  {
    /** The error itself rules out that any write took effect. */
    predicate ChangedNothing() {
      match this
      case Store(e) => e.Outcome() == NotApplied
      case RetriesExhausted(_, e) => e.Outcome() == NotApplied
      case AmbiguousResult(_, e) => e.Outcome() == NotApplied
      case DeadlineExceeded(_, None) => true
      case DeadlineExceeded(_, Some(e)) => e.Outcome() == NotApplied
      case UnexpectedResponse(_, _) => false
      case TxnSettled => false
      case InternalError(_) => false
      case _ => true
    }
  }

  /** The bounds a scan raises as loud failures. */
  datatype InternalReason = TooManyScanCalls | TooManyScanRegions | RouteDoesNotAdvance

  /** What the caller is told when nothing more is tried: a write that may have happened is called ambiguous. */
  function Terminal(error: ProtoError, verb: Method): Error {
    if verb.IsMutation() && error.Outcome() == Unknown then AmbiguousResult(verb, error)
    else Store(error)
  }
}
