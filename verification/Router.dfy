/** The routed call: route, send, and on a refusal repair, back off and try again, bounded by a
retry budget that progress refills and by a deadline that nothing does.

The region cache is shared with every other call in the process, the transport and the placement
driver answer as they please, and time passes between any two steps. All of it is given to a call, one
`Moment` for each attempt, so what is proved holds whatever it meets. The loop need not end under every
configuration, so a run is observed for at most `watch` attempts and what is proved holds of every
prefix of every run.
*/
module Router {
  import opened Keys
  import opened Proto
  import opened RegionCache
  import opened Retry

  type Instant = nat

  datatype ClientOptions = ClientOptions(retry: RetryPolicy, callTimeout: Duration)

  const DEFAULT_OPTIONS := ClientOptions(DEFAULT_POLICY, Ms(CALL_TIMEOUT_MS))

  // -- the environment -----------------------------------------------------------------

  type Located = Result<Option<Route>, ProtoError>

  /** What one attempt meets. Times are what passes on the clock: before the attempt is begun (`early`), before
  and after each wait for the driver (`gap`, `lag`), before the backoff is decided on (`late`) and beyond the
  sleep asked for (`over`). `cached` is what the cache holds for the key when it is routed and `later` what it
  holds after the repair; `driver` is what the driver says each time it is asked; `answer` is the method of the
  response or a typed failure, and `applied` what really happened at the store. */
  datatype Moment = Moment(early: nat, cached: Option<Route>, driver: nat -> Located, gap: nat -> nat, lag: nat -> nat,
                           draws: nat -> nat, answer: Result<Method, ProtoError>, applied: bool,
                           later: Option<Route>, draw: nat, late: nat, over: nat)
  {
    /** How long the driver is waited out after its `k`-th silence. */
    function WaitFor(k: nat): Duration
      requires k <= U32_MAX
    {
      Wait(DEFAULT_POLICY.Backoff(k), draws(k))
    }

    /** What `k` such waits come to, asleep. */
    ghost function Waited(k: nat): nat
      requires k <= U32_MAX + 1
    {
      if k == 0 then 0 else Waited(k - 1) + WaitFor(k - 1)
    }

    /** And on the clock. */
    ghost function Passed(k: nat): nat
      requires k <= U32_MAX + 1
    {
      if k == 0 then 0 else Passed(k - 1) + gap(k - 1) + WaitFor(k - 1) + lag(k - 1)
    }
  }

  /** The transport puts a failure on the right side of the ambiguity: one whose outcome says "not applied" was
  not, and nothing is applied by a question. */
  predicate Honest(m: Moment, verb: Method) {
    && (m.answer.Err? && m.answer.error.Outcome() == NotApplied ==> !m.applied)
    && (!verb.IsMutation() ==> !m.applied)
  }

  // -- one call's memory ---------------------------------------------------------------

  /** One attempt: whom it was addressed to (nobody, if routing failed), how it failed (not at all,
  if a response came), what it did, what was repaired after it, whether that left a newer epoch in
  the cache than the one sent, and whether the attempt was charged to the budget. */
  datatype Attempt = Attempt(addressed: Option<Addressed>, failure: Option<ProtoError>, applied: bool,
                             repair: Option<Redirect>, learned: bool, fruitless: bool)

  datatype Addressed = Addressed(route: Route, peer: Peer)

  /** What a call remembers from one attempt to the next. */
  datatype Memory = Memory(regionId: nat, sentEpoch: Option<Epoch>, unreachable: Option<nat>, peers: seq<Peer>,
                           corpses: seq<nat>, refused: seq<nat>)

  const BLANK := Memory(0, None, None, [], [], [])

  function Remember(m: Memory, a: Attempt): Memory {
    if a.addressed.None? || a.failure.None? then m
    else
      var Addressed(route, peer) := a.addressed.value;
      var region := route.region;
      var m := m.(regionId := region.id, sentEpoch := Some(region.epoch));
      if a.failure.value.IsUnreachable() then
        m.(unreachable := Some(peer.storeId), peers := region.peers,
           corpses := if peer.storeId in m.corpses then m.corpses else m.corpses + [peer.storeId])
      else if a.failure.value.NotLeader? then m.(refused := m.refused + [peer.peerId])
      else m
  }

  function Recall(log: seq<Attempt>): Memory {
    if log == [] then BLANK else Remember(Recall(log[..|log| - 1]), log[|log| - 1])
  }

  // -- rules over a log ----------------------------------------------------------------

  predicate Unreachable(a: Attempt) {
    a.addressed.Some? && a.failure.Some? && a.failure.value.IsUnreachable()
  }

  predicate Refused(a: Attempt) {
    a.addressed.Some? && a.failure.Some? && a.failure.value.NotLeader?
  }

  /** Only the last attempt can have been applied, and a write is sent again only after a failure
  that says it was not. */
  ghost predicate AtMostOnce(log: seq<Attempt>, verb: Method) {
    forall i :: 0 <= i < |log| - 1 ==>
      && !log[i].applied
      && log[i].failure.Some?
      && (verb.IsMutation() ==> log[i].failure.value.Outcome() == NotApplied)
  }

  ghost predicate NothingApplied(log: seq<Attempt>) {
    forall i :: 0 <= i < |log| ==> !log[i].applied
  }

  ghost predicate AllFruitless(log: seq<Attempt>, i: int, j: int)
    requires 0 <= i <= j <= |log|
  {
    forall k :: i <= k < j ==> log[k].fruitless
  }

  /** No more than `m` attempts in a row taught the call nothing. */
  ghost predicate RunsAtMost(log: seq<Attempt>, m: nat) {
    forall i, j :: 0 <= i <= j <= |log| && AllFruitless(log, i, j) ==> j - i <= m
  }

  /** The hint recorded after attempt `i` is the one its refusal carried; no peer it names has
  refused this call, and it is not the peer that the last unreachable store hosted. */
  ghost predicate HintIsSound(log: seq<Attempt>, i: nat)
    requires i < |log|
  {
    log[i].repair.Some? && log[i].repair.value.Leader? && log[i].repair.value.hint.Some? ==>
      var hint := log[i].repair.value.hint.value;
      && log[i].failure.Some? && log[i].failure.value.NotLeader? && log[i].failure.value.leaderHint == Some(hint)
      && (forall j :: 0 <= j <= i && Refused(log[j]) ==> log[j].addressed.value.peer.peerId != hint)
      && (forall j :: 0 <= j <= i && Unreachable(log[j]) && (forall k :: j < k <= i ==> !Unreachable(log[k])) ==>
            forall p :: p in log[j].addressed.value.route.region.peers && p.peerId == hint ==>
              p.storeId != log[j].addressed.value.peer.storeId)
  }

  ghost predicate HintsAreSound(log: seq<Attempt>) {
    forall i :: 0 <= i < |log| ==> HintIsSound(log, i)
  }

  /** The attempts in a row, up to now, that taught the call nothing are at most `n`. */
  ghost predicate TrailingAtMost(log: seq<Attempt>, n: nat) {
    forall i :: 0 <= i <= |log| && AllFruitless(log, i, |log|) ==> |log| - i <= n
  }

  // -- lemmas over a growing log -------------------------------------------------------

  lemma RecallAppend(log: seq<Attempt>, a: Attempt)
    ensures Recall(log + [a]) == Remember(Recall(log), a)
  {
    assert (log + [a])[..|log|] == log;
  }

  lemma {:induction false} RecallRefused(log: seq<Attempt>, j: nat)
    requires j < |log| && Refused(log[j])
    ensures log[j].addressed.value.peer.peerId in Recall(log).refused
  {
    if j < |log| - 1 {
      RecallRefused(log[..|log| - 1], j);
    }
  }

  lemma {:induction false} RecallUnreachable(log: seq<Attempt>, j: nat)
    requires j < |log| && Unreachable(log[j]) && forall k :: j < k < |log| ==> !Unreachable(log[k])
    ensures Recall(log).unreachable == Some(log[j].addressed.value.peer.storeId)
    ensures Recall(log).peers == log[j].addressed.value.route.region.peers
  {
    if j < |log| - 1 {
      assert !Unreachable(log[|log| - 1]);
      RecallUnreachable(log[..|log| - 1], j);
    }
  }

  /** An attempt that was addressed to a region and failed. */
  predicate Sent(a: Attempt) {
    a.addressed.Some? && a.failure.Some?
  }

  /** What is repaired is the region last addressed, and progress is told by the epoch it was addressed with. */
  lemma {:induction false} RecallSent(log: seq<Attempt>, j: nat)
    requires j < |log| && Sent(log[j]) && forall k :: j < k < |log| ==> !Sent(log[k])
    ensures Recall(log).regionId == log[j].addressed.value.route.region.id
    ensures Recall(log).sentEpoch == Some(log[j].addressed.value.route.region.epoch)
  {
    if j < |log| - 1 {
      assert !Sent(log[|log| - 1]);
      RecallSent(log[..|log| - 1], j);
    }
  }

  lemma {:induction false} RecallNothing(log: seq<Attempt>)
    requires forall k :: 0 <= k < |log| ==> !Sent(log[k])
    ensures Recall(log) == BLANK
  {
    if log != [] {
      assert !Sent(log[|log| - 1]);
      RecallNothing(log[..|log| - 1]);
    }
  }

  /** What a failure asks to repair before another attempt, if another may be made at all. */
  function RepairFor(verb: Method, error: ProtoError): (r: Option<Redirect>)
    ensures r.Some? <==> error.IsRetryable() || (!verb.IsMutation() && error.Outcome() == Unknown)
    ensures !verb.IsMutation() && error.Outcome() == Unknown ==> r == Some(Leader(None))
    ensures r.Some? && verb.IsMutation() ==> error.Outcome() == NotApplied
    ensures r.Some? && r.value.Leader? && r.value.hint.Some? ==>
      error.NotLeader? && error.leaderHint == r.value.hint
  {
    match Classify(error)
    case Retry(redirect) => Some(redirect)
    case Surface => if MayAskAgain(verb, error) then Some(Leader(None)) else None
  }

  lemma NewHintIsSound(log: seq<Attempt>, verb: Method)
    requires log != []
    requires var last := log[|log| - 1]; var m := Recall(log);
      && last.failure.Some? && RepairFor(verb, last.failure.value).Some?
      && last.repair == Some(WorthBelieving(RepairFor(verb, last.failure.value).value, m.unreachable, m.peers, m.refused))
    ensures HintIsSound(log, |log| - 1)
  {
    var i := |log| - 1;
    var m := Recall(log);
    if log[i].repair.value.Leader? && log[i].repair.value.hint.Some? {
      var hint := log[i].repair.value.hint.value;
      forall j | 0 <= j <= i && Refused(log[j]) ensures log[j].addressed.value.peer.peerId != hint {
        RecallRefused(log, j);
      }
      forall j | 0 <= j <= i && Unreachable(log[j]) && forall k :: j < k <= i ==> !Unreachable(log[k])
        ensures forall p :: p in log[j].addressed.value.route.region.peers && p.peerId == hint ==>
          p.storeId != log[j].addressed.value.peer.storeId
      {
        RecallUnreachable(log, j);
      }
    }
  }

  lemma {:induction false} RefusedOnly(log: seq<Attempt>, id: nat)
    requires id in Recall(log).refused
    ensures exists j :: 0 <= j < |log| && Refused(log[j]) && log[j].addressed.value.peer.peerId == id
  {
    var n := |log| - 1;
    if log != [] && id in Recall(log[..n]).refused {
      RefusedOnly(log[..n], id);
      var j :| 0 <= j < n && Refused(log[..n][j]) && log[..n][j].addressed.value.peer.peerId == id;
      assert Refused(log[j]);
    } else {
      assert Refused(log[n]);
    }
  }

  lemma {:induction false} UnreachableOnly(log: seq<Attempt>) returns (j: nat)
    requires Recall(log).unreachable.Some?
    ensures j < |log| && Unreachable(log[j]) && forall k :: j < k < |log| ==> !Unreachable(log[k])
  {
    var n := |log| - 1;
    if Unreachable(log[n]) {
      j := n;
    } else {
      j := UnreachableOnly(log[..n]);
      assert forall k :: j < k < n ==> !Unreachable(log[..n][k]);
    }
  }

  /** A hint names somebody worth asking: no peer that refused this call, and not the peer that the last
  unreachable store hosted. */
  ghost predicate IsNews(log: seq<Attempt>, hint: nat) {
    && (forall j :: 0 <= j < |log| && Refused(log[j]) ==> log[j].addressed.value.peer.peerId != hint)
    && (forall j :: 0 <= j < |log| && Unreachable(log[j]) && (forall k :: j < k < |log| ==> !Unreachable(log[k])) ==>
          forall p :: p in log[j].addressed.value.route.region.peers && p.peerId == hint ==>
            p.storeId != log[j].addressed.value.peer.storeId)
  }

  /** A refusal's hint is recorded if and only if it is news to the call. */
  lemma HintIsKeptExactly(log: seq<Attempt>, verb: Method, hint: nat)
    requires log != [] && log[|log| - 1].failure.Some?
    requires RepairFor(verb, log[|log| - 1].failure.value) == Some(Leader(Some(hint)))
    ensures var m := Recall(log);
      WorthBelieving(Leader(Some(hint)), m.unreachable, m.peers, m.refused)
        == if IsNews(log, hint) then Leader(Some(hint)) else Leader(None)
  {
    var m := Recall(log);
    if hint in m.refused {
      RefusedOnly(log, hint);
    }
    if m.unreachable.Some? {
      var j := UnreachableOnly(log);
      RecallUnreachable(log, j);
    }
    forall j | 0 <= j < |log| && Refused(log[j])
      ensures log[j].addressed.value.peer.peerId in m.refused
    {
      RecallRefused(log, j);
    }
    forall j | 0 <= j < |log| && Unreachable(log[j]) && forall k :: j < k < |log| ==> !Unreachable(log[k])
      ensures m.unreachable == Some(log[j].addressed.value.peer.storeId)
      ensures m.peers == log[j].addressed.value.route.region.peers
    {
      RecallUnreachable(log, j);
    }
  }

  lemma HintStaysSound(log: seq<Attempt>, a: Attempt, i: nat)
    requires i < |log| && HintIsSound(log, i)
    ensures HintIsSound(log + [a], i)
  {
    assert forall j :: 0 <= j <= i ==> (log + [a])[j] == log[j];
  }

  lemma HintsAppend(log: seq<Attempt>, a: Attempt)
    requires HintsAreSound(log) && HintIsSound(log + [a], |log|)
    ensures HintsAreSound(log + [a])
  {
    forall i | 0 <= i < |log| ensures HintIsSound(log + [a], i) {
      HintStaysSound(log, a, i);
    }
  }

  lemma OnceAppend(log: seq<Attempt>, a: Attempt, verb: Method)
    requires forall i :: 0 <= i < |log| ==> Resendable(log[i], verb)
    ensures AtMostOnce(log + [a], verb)
    ensures !a.applied ==> NothingApplied(log + [a])
    ensures Resendable(a, verb) ==> forall i :: 0 <= i < |log + [a]| ==> Resendable((log + [a])[i], verb)
  {
  }

  lemma RunsAppend(log: seq<Attempt>, a: Attempt, m: nat, trailing: nat)
    requires RunsAtMost(log, m) && TrailingAtMost(log, trailing) && trailing <= m
    ensures var trailing' := if a.fruitless then trailing + 1 else 0;
      && TrailingAtMost(log + [a], trailing')
      && (trailing' <= m ==> RunsAtMost(log + [a], m))
      && RunsAtMost(log + [a], m + 1)
  {
    var longer := log + [a];
    var trailing' := if a.fruitless then trailing + 1 else 0;
    forall i | 0 <= i <= |longer| && AllFruitless(longer, i, |longer|) ensures |longer| - i <= trailing' {
      if i < |longer| {
        assert longer[|log|].fruitless;
        assert AllFruitless(log, i, |log|) by {
          forall k | i <= k < |log| ensures log[k].fruitless {
            assert longer[k].fruitless;
          }
        }
      }
    }
    forall i, j | 0 <= i <= j <= |longer| && AllFruitless(longer, i, j)
      ensures j - i <= if trailing' <= m then m else m + 1
    {
      if j < |longer| {
        assert AllFruitless(log, i, j) by {
          forall k | i <= k < j ensures log[k].fruitless {
            assert longer[k].fruitless;
          }
        }
      }
    }
  }

  /** Every attempt goes to the peer its number picks, corpses left out. */
  ghost predicate Aimed(log: seq<Attempt>) {
    forall i :: 0 <= i < |log| && log[i].addressed.Some? ==>
      TargetAtSkipping(log[i].addressed.value.route, i, Recall(log[..i]).corpses) == Some(log[i].addressed.value.peer)
  }

  lemma AimedAppend(log: seq<Attempt>, a: Attempt)
    requires Aimed(log)
    requires a.addressed.Some? ==>
      TargetAtSkipping(a.addressed.value.route, |log|, Recall(log).corpses) == Some(a.addressed.value.peer)
    ensures Aimed(log + [a])
  {
    var longer := log + [a];
    forall i | 0 <= i < |longer| ensures longer[..i] == if i < |log| then log[..i] else log {
    }
  }

  lemma {:induction false} RecallCorpses(log: seq<Attempt>, j: nat)
    requires j < |log| && Unreachable(log[j])
    ensures log[j].addressed.value.peer.storeId in Recall(log).corpses
  {
    if j < |log| - 1 {
      RecallCorpses(log[..|log| - 1], j);
    }
  }

  /** A store a call has failed to reach is not asked again while the leader is unknown and some
  listed peer is on a store that has not failed. */
  lemma CorpsesAreSkipped(log: seq<Attempt>, i: nat, j: nat)
    requires Aimed(log) && j < i < |log|
    requires Unreachable(log[j]) && log[i].addressed.Some? && log[i].addressed.value.route.leader.None?
    requires Live(log[i].addressed.value.route.region.peers, Recall(log[..i]).corpses) != []
    ensures log[i].addressed.value.peer.storeId != log[j].addressed.value.peer.storeId
  {
    RecallCorpses(log[..i], j);
    var live := Live(log[i].addressed.value.route.region.peers, Recall(log[..i]).corpses);
    assert live[i % |live|] in live;
  }

  /** A known leader is the peer an attempt goes to. */
  lemma KnownLeaderIsAsked(log: seq<Attempt>, i: nat)
    requires Aimed(log) && i < |log| && log[i].addressed.Some? && log[i].addressed.value.route.leader.Some?
    ensures log[i].addressed.value.peer == log[i].addressed.value.route.leader.value
  {
    LeaderIsAsked(log[i].addressed.value.route, i, Recall(log[..i]).corpses);
  }

  /** While routing and the set of corpses stand still and nobody is known to lead, as many attempts
  in a row as there are peers worth asking reach every live one. */
  lemma EveryLivePeerIsAsked(log: seq<Attempt>, i: nat, route: Route, corpses: seq<nat>, peer: Peer)
    requires Aimed(log) && route.leader.None? && route.region.peers != []
    requires i + |Rota(route.region.peers, corpses)| <= |log|
    requires forall k :: i <= k < i + |Rota(route.region.peers, corpses)| ==>
      log[k].addressed.Some? && log[k].addressed.value.route == route && Recall(log[..k]).corpses == corpses
    requires peer in route.region.peers && peer.storeId !in corpses
    ensures exists k :: i <= k < i + |Rota(route.region.peers, corpses)| && log[k].addressed.value.peer == peer
  {
    hide Rota, TargetAtSkipping, Recall;
    var n := |Rota(route.region.peers, corpses)|;
    var targets := seq(n, k requires 0 <= k < n => Some(log[i + k].addressed.value.peer));
    RotaAsksEachOnce(route, corpses, i, targets);
    var k :| 0 <= k < n && targets[k] == Some(peer);
    assert log[i + k].addressed.value.peer == peer;
  }

  // -- time ----------------------------------------------------------------------------

  /** Time slept is time passed, and no sleep was begun that would not end before the deadline. */
  ghost predicate Ledger(started: Instant, timeout: Duration, now: Instant, slept: nat) {
    started + slept <= now && (slept == 0 || slept < timeout)
  }

  /** What the driver's last word about a key means to the call. */
  function RouteFrom(located: Result<Option<Route>, ProtoError>, key: Key): Result<Route, ProtoError> {
    match located
    case Err(error) => Err(error)
    case Ok(None) => Err(KeyNotInRegion(key, 0, [], []))
    case Ok(Some(route)) => Ok(route)
  }

  /** How a moment routes a key before a deadline: the cached route without asking; otherwise what the driver
  said last, each word before it having been that it knows of no region. `asked` is how often it was asked; each
  wait between was begun only if it would end in time, and it was asked no more only if it had an answer or the
  next wait would not. */
  ghost predicate Routing(m: Moment, key: Key, deadline: Instant, now0: Instant, slept0: nat, asked: nat,
                          r: Result<Route, ProtoError>, now: Instant, slept: nat)
  {
    if m.cached.Some? then
      asked == 0 && r == Ok(m.cached.value) && now == now0 && slept == slept0
    else
      && 1 <= asked <= U32_MAX + 2
      && (forall i :: 0 <= i < asked - 1 ==> WaitedOut(m, deadline, now0, i))
      && r == RouteFrom(m.driver(asked - 1), key)
      && slept == slept0 + m.Waited(asked - 1)
      && if m.driver(asked - 1) == Ok(None) && asked - 1 <= U32_MAX then
           now == now0 + m.Passed(asked - 1) + m.gap(asked - 1) && !InTime(m, deadline, now0, asked - 1)
         else now == now0 + m.Passed(asked - 1)
  }

  /** The driver's word number `i` was that it knows of no region, and there was time to wait. */
  ghost predicate WaitedOut(m: Moment, deadline: Instant, now0: Instant, i: nat)
    requires i <= U32_MAX
  {
    m.driver(i) == Ok(None) && InTime(m, deadline, now0, i)
  }

  /** Wait number `i` would end before the deadline. */
  ghost predicate InTime(m: Moment, deadline: Instant, now0: Instant, i: nat)
    requires i <= U32_MAX
  {
    now0 + m.Passed(i) + m.gap(i) + m.WaitFor(i) < deadline
  }

  lemma AnotherWait(m: Moment, deadline: Instant, now0: Instant, i: nat)
    requires i <= U32_MAX && m.driver(i) == Ok(None) && InTime(m, deadline, now0, i)
    ensures WaitedOut(m, deadline, now0, i)
  {
  }

  /** The cached route, or the driver's, waiting out a driver that knows of no region for as long as the
  call's own deadline allows. */
  method RouteWithin(m: Moment, key: Key, started: Instant, timeout: Duration, now0: Instant, slept0: nat)
    returns (r: Result<Route, ProtoError>, now: Instant, slept: nat, asked: nat)
    requires Ledger(started, timeout, now0, slept0)
    ensures Ledger(started, timeout, now, slept)
    ensures now >= now0 && slept >= slept0 && slept - slept0 <= now - now0
    ensures Routing(m, key, started + timeout, now0, slept0, asked, r, now, slept)
  {
    hide Wait, RetryPolicy.Backoff, WaitedOut, Routing, Moment.Passed, Moment.Waited, Moment.WaitFor;
    CachedRouting(m, key, started + timeout, now0, slept0);
    NoWait(m);
    ghost var deadline := started + timeout;
    now, slept, asked := now0, slept0, 0;
    if m.cached.Some? {
      return Ok(m.cached.value), now, slept, asked;
    }
    var located := m.driver(0);
    asked := 1;
    var attempt := 0;
    while located.Ok? && located.value.None? && attempt <= U32_MAX
      invariant attempt <= U32_MAX + 1 && asked == attempt + 1 && located == m.driver(attempt)
      invariant Ledger(started, timeout, now, slept)
      invariant now == now0 + m.Passed(attempt) && slept == slept0 + m.Waited(attempt)
      invariant slept - slept0 <= now - now0
      invariant forall i :: 0 <= i < attempt ==> WaitedOut(m, deadline, now0, i)
      decreases U32_MAX + 1 - attempt
    {
      var wait := m.WaitFor(attempt);
      now := now + m.gap(attempt);
      if now + wait >= started + timeout {
        RoutedSo(m, key, deadline, now0, slept0, asked, now, slept);
        return Err(KeyNotInRegion(key, 0, [], [])), now, slept, asked;
      }
      AnotherWait(m, deadline, now0, attempt);
      WaitMore(m, attempt);
      now := now + wait + m.lag(attempt);
      slept := slept + wait;
      attempt := attempt + 1;
      located := m.driver(attempt);
      asked := asked + 1;
    }
    RoutedSo(m, key, deadline, now0, slept0, asked, now, slept);
    match located
    case Err(error) => r := Err(error);
    case Ok(None) => r := Err(KeyNotInRegion(key, 0, [], []));
    case Ok(Some(route)) => r := Ok(route);
  }

  lemma CachedRouting(m: Moment, key: Key, deadline: Instant, now: Instant, slept: nat)
    ensures m.cached.Some? ==> Routing(m, key, deadline, now, slept, 0, Ok(m.cached.value), now, slept)
  {
  }

  lemma NoWait(m: Moment)
    ensures m.Passed(0) == 0 && m.Waited(0) == 0
  {
  }

  lemma WaitMore(m: Moment, k: nat)
    requires k <= U32_MAX
    ensures m.Passed(k + 1) == m.Passed(k) + m.gap(k) + m.WaitFor(k) + m.lag(k)
    ensures m.Waited(k + 1) == m.Waited(k) + m.WaitFor(k)
  {
  }

  lemma RoutedSo(m: Moment, key: Key, deadline: Instant, now0: Instant, slept0: nat, asked: nat, now: Instant, slept: nat)
    requires m.cached.None? && 1 <= asked <= U32_MAX + 2 && slept == slept0 + m.Waited(asked - 1)
    requires forall i :: 0 <= i < asked - 1 ==> WaitedOut(m, deadline, now0, i)
    requires if m.driver(asked - 1) == Ok(None) && asked - 1 <= U32_MAX then
        now == now0 + m.Passed(asked - 1) + m.gap(asked - 1) && !InTime(m, deadline, now0, asked - 1)
      else now == now0 + m.Passed(asked - 1)
    ensures Routing(m, key, deadline, now0, slept0, asked, RouteFrom(m.driver(asked - 1), key), now, slept)
  {
    hide WaitedOut, InTime, Moment.Passed, Moment.Waited;
  }

  /** However often the budget is refilled, no more attempts than sleeps of the least length fit. */
  ghost predicate FitsTheTimeout(policy: RetryPolicy, timeout: Duration, attempts: nat) {
    forall n: nat :: n <= U32_MAX + 1 && timeout <= MinSlept(policy, n) ==> attempts <= n
  }

  lemma SleptFits(policy: RetryPolicy, timeout: Duration, attempts: nat, slept: nat)
    requires attempts <= U32_MAX && MinSlept(policy, attempts) <= slept < timeout
    ensures FitsTheTimeout(policy, timeout, attempts) && FitsTheTimeout(policy, timeout, attempts + 1)
  {
    forall n: nat | n <= U32_MAX + 1 && timeout <= MinSlept(policy, n) ensures attempts + 1 <= n {
      if n <= attempts {
        MinSleptMonotone(policy, n, attempts);
      }
    }
  }

  // -- the call ------------------------------------------------------------------------

  /** A failure that a request of this kind may be sent again after. */
  predicate Resendable(a: Attempt, verb: Method) {
    !a.applied && a.failure.Some? && (verb.IsMutation() ==> a.failure.value.Outcome() == NotApplied)
  }

  /** After attempt `i` exactly what its failure asks for was repaired, with what the call remembered
  by then, and it was charged to the budget exactly when it was sent and taught nothing. */
  ghost predicate Settled(log: seq<Attempt>, i: nat, verb: Method)
    requires i < |log|
  {
    var a, m := log[i], Recall(log[..i + 1]);
    && a.failure.Some? && RepairFor(verb, a.failure.value).Some?
    && a.repair == Some(WorthBelieving(RepairFor(verb, a.failure.value).value, m.unreachable, m.peers, m.refused))
    && (a.fruitless <==> !a.failure.value.NotSent? && !a.learned)
    && (a.learned ==> m.sentEpoch.Some?)
  }

  lemma SettledStays(log: seq<Attempt>, a: Attempt, i: nat, verb: Method)
    requires i < |log| && Settled(log, i, verb)
    ensures Settled(log + [a], i, verb)
  {
    assert (log + [a])[..i + 1] == log[..i + 1];
  }

  lemma SettledAppend(log: seq<Attempt>, a: Attempt, verb: Method)
    requires forall i :: 0 <= i < |log| ==> Settled(log, i, verb)
    ensures forall i :: 0 <= i < |log| ==> Settled(log + [a], i, verb)
  {
    forall i | 0 <= i < |log|
      ensures Settled(log + [a], i, verb)
    {
      SettledStays(log, a, i, verb);
    }
  }

  /** What stands after every failed attempt that the call goes on from. */
  ghost predicate Standing(log: seq<Attempt>, verb: Method, maxRetries: nat, fruitless: nat) {
    && (forall i :: 0 <= i < |log| ==> Resendable(log[i], verb))
    && (forall i :: 0 <= i < |log| ==> Settled(log, i, verb))
    && RunsAtMost(log, maxRetries) && TrailingAtMost(log, fruitless) && fruitless <= maxRetries
    && fruitless <= |log| && AllFruitless(log, |log| - fruitless, |log|)
    && HintsAreSound(log)
    && Aimed(log)
  }

  /** What holds of the log of a run, finished or not. */
  ghost predicate Sound(log: seq<Attempt>, verb: Method, maxRetries: nat) {
    && AtMostOnce(log, verb) && RunsAtMost(log, maxRetries + 1) && HintsAreSound(log) && Aimed(log)
    && (forall i :: 0 <= i < |log| - 1 ==> Settled(log, i, verb))
  }

  lemma StandingIsSound(log: seq<Attempt>, verb: Method, maxRetries: nat, fruitless: nat)
    requires Standing(log, verb, maxRetries, fruitless)
    ensures Sound(log, verb, maxRetries) && NothingApplied(log)
  {
  }

  ghost predicate OnTarget(log: seq<Attempt>, a: Attempt) {
    a.addressed.Some? ==>
      TargetAtSkipping(a.addressed.value.route, |log|, Recall(log).corpses) == Some(a.addressed.value.peer)
  }

  /** One more attempt that nothing was repaired after: it ends the call. */
  lemma LastAttemptIsSound(log: seq<Attempt>, a: Attempt, verb: Method, maxRetries: nat, fruitless: nat)
    requires Standing(log, verb, maxRetries, fruitless)
    requires a.repair.None? && !a.fruitless && OnTarget(log, a)
    ensures Sound(log + [a], verb, maxRetries)
    ensures !a.applied ==> NothingApplied(log + [a])
  {
    hide Settled, HintIsSound, Recall, TargetAtSkipping;
    OnceAppend(log, a, verb);
    RunsAppend(log, a, maxRetries, fruitless);
    NoHintIsSound(log, a);
    HintsAppend(log, a);
    AimedAppend(log, a);
    SettledAppend(log, a, verb);
  }

  lemma NoHintIsSound(log: seq<Attempt>, a: Attempt)
    requires a.repair.None?
    ensures HintIsSound(log + [a], |log|)
  {
  }

  /** What a failed attempt that was repaired looks like. */
  ghost predicate Repaired(log: seq<Attempt>, a: Attempt, verb: Method) {
    && Resendable(a, verb) && OnTarget(log, a)
    && Settled(log + [a], |log|, verb) && HintIsSound(log + [a], |log|)
  }

  lemma RepairedIs(log: seq<Attempt>, a: Attempt, verb: Method)
    requires Resendable(a, verb) && RepairFor(verb, a.failure.value).Some? && OnTarget(log, a)
    requires var m := Remember(Recall(log), a);
      && a.repair == Some(WorthBelieving(RepairFor(verb, a.failure.value).value, m.unreachable, m.peers, m.refused))
      && (a.fruitless <==> !a.failure.value.NotSent? && !a.learned)
      && (a.learned ==> m.sentEpoch.Some?)
    ensures Repaired(log, a, verb)
  {
    hide WorthBelieving, RepairFor, Remember, HintIsSound, OnTarget;
    RecallAppend(log, a);
    assert (log + [a])[..|log| + 1] == log + [a];
    NewHintIsSound(log + [a], verb);
  }

  /** One more attempt whose failure was repaired keeps every rule of the log. */
  lemma RepairedAttemptIsSound(log: seq<Attempt>, a: Attempt, verb: Method, maxRetries: nat, fruitless: nat)
    requires Standing(log, verb, maxRetries, fruitless) && Repaired(log, a, verb)
    ensures Sound(log + [a], verb, maxRetries) && NothingApplied(log + [a])
  {
    hide Settled, HintIsSound, Recall, TargetAtSkipping, AllFruitless, RunsAtMost, TrailingAtMost;
    OnceAppend(log, a, verb);
    RunsAppend(log, a, maxRetries, fruitless);
    HintsAppend(log, a);
    AimedAppend(log, a);
    SettledAppend(log, a, verb);
  }

  /** And while the budget lasts the call goes on from it. */
  lemma RepairedAttemptStands(log: seq<Attempt>, a: Attempt, verb: Method, maxRetries: nat, fruitless: nat)
    requires Standing(log, verb, maxRetries, fruitless) && Repaired(log, a, verb)
    ensures var fruitless' := if a.fruitless then fruitless + 1 else 0;
      && fruitless' <= |log + [a]| && AllFruitless(log + [a], |log + [a]| - fruitless', |log + [a]|)
      && (fruitless' <= maxRetries ==> Standing(log + [a], verb, maxRetries, fruitless'))
  {
    hide Settled, HintIsSound, Recall, TargetAtSkipping, AllFruitless, RunsAtMost, TrailingAtMost;
    OnceAppend(log, a, verb);
    RunsAppend(log, a, maxRetries, fruitless);
    TailAppend(log, a, fruitless);
    HintsAppend(log, a);
    AimedAppend(log, a);
    SettledAppend(log, a, verb);
  }

  lemma TailAppend(log: seq<Attempt>, a: Attempt, fruitless: nat)
    requires fruitless <= |log| && AllFruitless(log, |log| - fruitless, |log|)
    ensures var fruitless' := if a.fruitless then fruitless + 1 else 0;
      fruitless' <= |log + [a]| && AllFruitless(log + [a], |log + [a]| - fruitless', |log + [a]|)
  {
    assert forall k :: |log| - fruitless <= k < |log| ==> (log + [a])[k] == log[k];
  }

  /** Whether the cache holds, after the repair, a newer epoch for the key than the one last sent. */
  method LearnedNewerEpoch(later: Option<Route>, sent: Option<Epoch>) returns (learned: bool)
    ensures learned <==> sent.Some? && later.Some? && sent.value.IsStaleAgainst(later.value.region.epoch)
  {
    if sent.None? {
      return false;
    }
    return later.Some? && sent.value.IsStaleAgainst(later.value.region.epoch);
  }

  /** How one attempt went: no peer to send to, a response, or a failure. */
  datatype Went = Nowhere | Answered(actual: Method, attempt: Attempt) | Failed(error: ProtoError, attempt: Attempt)

  /** The attempt a moment makes of a routing answer: nothing sent if it is a failure, and otherwise what the
  transport says of the route. */
  predicate MadeOf(m: Moment, route: Result<Route, ProtoError>, a: Attempt) {
    match route
    case Err(error) => a.addressed.None? && a.failure == Some(error) && !a.applied
    case Ok(found) =>
      && a.addressed.Some? && a.addressed.value.route == found && a.applied == m.applied
      && a.failure == if m.answer.Ok? then None else Some(m.answer.error)
  }

  /** The attempt a moment makes, and when it is over. */
  ghost predicate Made(m: Moment, key: Key, deadline: Instant, now0: Instant, slept0: nat, a: Attempt, now: Instant,
                       slept: nat)
  {
    exists asked, route :: Routing(m, key, deadline, now0, slept0, asked, route, now, slept) && MadeOf(m, route, a)
  }

  /** A moment that routes the key to a region with nobody in it. */
  ghost predicate Deserted(m: Moment, key: Key, deadline: Instant, now0: Instant, slept0: nat) {
    exists asked, route, now, slept :: Routing(m, key, deadline, now0, slept0, asked, Ok(route), now, slept)
      && route.leader.None? && route.region.peers == []
  }

  /** Routes and sends attempt number `count`. */
  method TryOnce(m: Moment, verb: Method, key: Key, count: nat, corpses: seq<nat>, started: Instant, timeout: Duration,
                 now0: Instant, slept0: nat)
    returns (went: Went, now: Instant, slept: nat)
    requires Ledger(started, timeout, now0, slept0) && Honest(m, verb)
    ensures Ledger(started, timeout, now, slept)
    ensures now >= now0 && slept >= slept0 && slept - slept0 <= now - now0
    ensures went.Nowhere? ==> Deserted(m, key, started + timeout, now0, slept0)
    ensures !went.Nowhere? ==>
      && went.attempt.repair.None? && !went.attempt.fruitless && !went.attempt.learned
      && Made(m, key, started + timeout, now0, slept0, went.attempt, now, slept)
      && (went.attempt.addressed.Some? ==>
            TargetAtSkipping(went.attempt.addressed.value.route, count, corpses) == Some(went.attempt.addressed.value.peer))
      && (!verb.IsMutation() ==> !went.attempt.applied)
    ensures went.Answered? ==>
      went.attempt.addressed.Some? && went.attempt.failure.None? && m.answer == Ok(went.actual)
    ensures went.Failed? ==>
      && went.attempt.failure == Some(went.error)
      && (went.error.Outcome() == NotApplied ==> !went.attempt.applied)
  {
    hide Routing;
    var route, asked;
    route, now, slept, asked := RouteWithin(m, key, started, timeout, now0, slept0);
    if route.Err? {
      var unsent := Attempt(None, Some(route.error), false, None, false, false);
      assert MadeOf(m, route, unsent);
      return Failed(route.error, unsent), now, slept;
    }
    var target := TargetAtSkipping(route.value, count, corpses);
    if target.None? {
      assert Routing(m, key, started + timeout, now0, slept0, asked, Ok(route.value), now, slept);
      return Nowhere, now, slept;
    }
    var addressed := Some(Addressed(route.value, target.value));
    match m.answer
    case Ok(actual) =>
      var answered := Attempt(addressed, None, m.applied, None, false, false);
      assert MadeOf(m, route, answered);
      return Answered(actual, answered), now, slept;
    case Err(error) =>
      var failed := Attempt(addressed, Some(error), m.applied, None, false, false);
      assert MadeOf(m, route, failed);
      return Failed(error, failed), now, slept;
  }

  ghost predicate LastFailure(log: seq<Attempt>, error: ProtoError) {
    log != [] && log[|log| - 1].failure == Some(error)
  }

  /** The error a call ends with names its last failure and counts its attempts; a failure surfaces
  only if nothing repairs it, as ambiguous if it was a write that may have been applied, and the budget is spent
  only on that many fruitless attempts in a row. */
  ghost predicate Names(error: Error, log: seq<Attempt>, verb: Method, maxRetries: nat) {
    match error
    case RetriesExhausted(n, source) =>
      && n == |log| && LastFailure(log, source) && RepairFor(verb, source).Some?
      && maxRetries < n && AllFruitless(log, n - maxRetries - 1, n)
    case DeadlineExceeded(n, source) =>
      n == |log| && (source.Some? ==> LastFailure(log, source.value) && RepairFor(verb, source.value).Some?)
    case Store(source) => LastFailure(log, source) && RepairFor(verb, source).None?
    case AmbiguousResult(v, source) => v == verb && LastFailure(log, source)
    case UnexpectedResponse(v, actual) => v == verb && actual != verb && LastAnswered(log)
    case NoRegion(_) => true
    case RequestTooLarge(bytes, limit) => log == [] && bytes > limit
    case _ => false
  }

  ghost predicate LastAnswered(log: seq<Attempt>) {
    log != [] && log[|log| - 1].addressed.Some? && log[|log| - 1].failure.None?
  }

  /** A write is called ambiguous exactly when its last failure leaves open whether it was applied. */
  ghost predicate AmbiguousExactly(result: Result<Method, Error>, log: seq<Attempt>, verb: Method) {
    forall e :: result == Err(AmbiguousResult(verb, e)) <==>
      verb.IsMutation() && LastFailure(log, e) && e.Outcome() == Unknown
  }

  /** That nothing changed is claimed only if nothing was applied, and whenever nothing was sent or the last
  failure says so. */
  ghost predicate ClaimsExactly(result: Result<Method, Error>, log: seq<Attempt>) {
    result.Err? ==>
      && (result.error.ChangedNothing() ==> NothingApplied(log))
      && (log == [] || (exists e :: LastFailure(log, e) && e.Outcome() == NotApplied) ==> result.error.ChangedNothing())
  }

  lemma MinSleptStep(policy: RetryPolicy, n: nat, slept: nat, delay: nat)
    requires n <= U32_MAX && MinSlept(policy, n) <= slept && JitterFloor(policy.Backoff(n)) <= delay
    ensures MinSlept(policy, n + 1) <= slept + delay
  {
  }

  lemma RememberIgnoresRepair(m: Memory, a: Attempt, repair: Option<Redirect>, learned: bool, fruitless: bool)
    ensures Remember(m, a.(repair := repair, learned := learned, fruitless := fruitless)) == Remember(m, a)
  {
  }

  /** A call under way. */
  datatype Run = Run(log: seq<Attempt>, fruitless: nat, now: Instant, slept: nat)

  ghost predicate Going(run: Run, verb: Method, options: ClientOptions, started: Instant) {
    && |run.log| <= U32_MAX
    && Standing(run.log, verb, options.retry.maxRetries, run.fruitless)
    && Ledger(started, options.callTimeout, run.now, run.slept)
    && MinSlept(options.retry, |run.log|) <= run.slept
    && FitsTheTimeout(options.retry, options.callTimeout, |run.log|)
  }

  /** The time one turn takes: what routing slept, and a backoff begun at `t` that ends before the deadline. */
  ghost predicate Waits(before: Run, after: Run, options: ClientOptions, started: Instant, t: Instant, delay: nat)
    requires |before.log| <= U32_MAX
  {
    && JitterFloor(options.retry.Backoff(|before.log|)) <= delay <= options.retry.Backoff(|before.log|)
    && before.now <= t && t + delay < started + options.callTimeout && t + delay <= after.now
    && before.slept + delay <= after.slept <= before.slept + delay + (t - before.now)
  }

  /** One turn after which the call goes on: a failure that was repaired, charged within the budget, and
  slept off. */
  ghost predicate Turn(before: Run, after: Run, verb: Method, options: ClientOptions, started: Instant) {
    var n := |before.log|;
    && n <= U32_MAX && |after.log| == n + 1 && after.log[..n] == before.log
    && Resendable(after.log[n], verb) && OnTarget(before.log, after.log[n]) && Settled(after.log, n, verb)
    && after.fruitless == (if after.log[n].fruitless then before.fruitless + 1 else 0)
    && after.fruitless <= options.retry.maxRetries
    && exists t, delay :: Waits(before, after, options, started, t, delay)
  }

  /** What a finished call promises: what its error claims about the database, that the error is the
  one that happened, and everything that holds of an unfinished one. */
  ghost predicate Ended(result: Result<Method, Error>, run: Run, verb: Method, options: ClientOptions) {
    && Observed(run, verb, options)
    && AmbiguousExactly(result, run.log, verb)
    && ClaimsExactly(result, run.log)
    && (result.Err? ==> Names(result.error, run.log, verb, options.retry.maxRetries))
    && (result.Ok? ==> result.value == verb && LastAnswered(run.log))
  }

  /** What holds of any observed prefix of a call. */
  ghost predicate Observed(run: Run, verb: Method, options: ClientOptions) {
    && Sound(run.log, verb, options.retry.maxRetries)
    && (run.slept == 0 || run.slept < options.callTimeout)
    && FitsTheTimeout(options.retry, options.callTimeout, |run.log|)
  }

  /** A call that stops between attempts. */
  lemma EndsBetween(error: Error, run: Run, verb: Method, options: ClientOptions, fruitless: nat)
    requires Standing(run.log, verb, options.retry.maxRetries, fruitless)
    requires run.slept == 0 || run.slept < options.callTimeout
    requires FitsTheTimeout(options.retry, options.callTimeout, |run.log|)
    requires match error
      case NoRegion(_) => true
      case RequestTooLarge(bytes, limit) => run.log == [] && bytes > limit
      case DeadlineExceeded(n, None) => n == |run.log|
      case _ => false
    ensures Ended(Err(error), run, verb, options)
  {
    hide Settled, HintsAreSound, Aimed, RunsAtMost, TrailingAtMost, FitsTheTimeout, AllFruitless;
    StandingIsSound(run.log, verb, options.retry.maxRetries, fruitless);
    hide Sound;
  }

  /** A call whose last attempt was answered, or failed in a way nothing repairs. */
  lemma EndsWithAttempt(log: seq<Attempt>, went: Went, run: Run, verb: Method, options: ClientOptions, fruitless: nat)
    requires Standing(log, verb, options.retry.maxRetries, fruitless)
    requires !went.Nowhere? && went.attempt.repair.None? && !went.attempt.fruitless && OnTarget(log, went.attempt)
    requires run.log == log + [went.attempt] && (run.slept == 0 || run.slept < options.callTimeout)
    requires FitsTheTimeout(options.retry, options.callTimeout, |log| + 1)
    requires went.Answered? ==> went.attempt.addressed.Some? && went.attempt.failure.None?
    requires went.Failed? ==> went.attempt.failure == Some(went.error)
    requires went.Failed? && went.error.Outcome() == NotApplied ==> !went.attempt.applied
    requires went.Failed? ==> RepairFor(verb, went.error).None?
    ensures Ended(ResultOf(went, verb), run, verb, options)
  {
    hide Sound, Standing, RepairFor, OnTarget, FitsTheTimeout, AmbiguousExactly, ClaimsExactly;
    LastAttemptIsSound(log, went.attempt, verb, options.retry.maxRetries, fruitless);
    ClaimsOf(went, run.log, verb);
  }

  lemma ClaimsOf(went: Went, log: seq<Attempt>, verb: Method)
    requires !went.Nowhere? && log != [] && log[|log| - 1] == went.attempt
    requires went.Answered? ==> went.attempt.failure.None?
    requires went.Failed? ==> went.attempt.failure == Some(went.error) && RepairFor(verb, went.error).None?
    requires went.Failed? && went.error.Outcome() == NotApplied ==> NothingApplied(log)
    ensures AmbiguousExactly(ResultOf(went, verb), log, verb)
    ensures ClaimsExactly(ResultOf(went, verb), log)
  {
    hide RepairFor, NothingApplied;
  }

  function ResultOf(went: Went, verb: Method): Result<Method, Error>
    requires !went.Nowhere?
  {
    if went.Failed? then Err(Terminal(went.error, verb))
    else if went.actual == verb then Ok(verb)
    else Err(UnexpectedResponse(verb, went.actual))
  }

  /** A call that gives up after a repaired failure. */
  lemma EndsAfterRepair(error: Error, run: Run, verb: Method, options: ClientOptions)
    requires Sound(run.log, verb, options.retry.maxRetries) && NothingApplied(run.log)
    requires run.slept == 0 || run.slept < options.callTimeout
    requires FitsTheTimeout(options.retry, options.callTimeout, |run.log|)
    requires run.log != [] && run.log[|run.log| - 1].failure.Some?
    requires var last := run.log[|run.log| - 1].failure.value;
      && RepairFor(verb, last).Some?
      && (|| error == DeadlineExceeded(|run.log|, Some(last))
          || (&& error == RetriesExhausted(|run.log|, last) && options.retry.maxRetries < |run.log|
              && AllFruitless(run.log, |run.log| - options.retry.maxRetries - 1, |run.log|)))
    ensures Ended(Err(error), run, verb, options)
  {
    hide Sound, RepairFor, FitsTheTimeout, AllFruitless;
    assert LastFailure(run.log, run.log[|run.log| - 1].failure.value);
  }

  /** What a repaired attempt leaves: the call in order, or its budget spent in one run. */
  lemma Charged(log: seq<Attempt>, attempt: Attempt, repaired: Attempt, redirect: Redirect, memory: Memory, verb: Method,
                maxRetries: nat, fruitless: nat)
    requires Standing(log, verb, maxRetries, fruitless)
    requires Resendable(attempt, verb) && RepairFor(verb, attempt.failure.value) == Some(redirect)
    requires OnTarget(log, attempt) && memory == Remember(Recall(log), attempt)
    requires repaired == attempt.(repair := repaired.repair, learned := repaired.learned, fruitless := repaired.fruitless)
    requires repaired.repair == Some(WorthBelieving(redirect, memory.unreachable, memory.peers, memory.refused))
    requires repaired.fruitless <==> !attempt.failure.value.NotSent? && !repaired.learned
    requires repaired.learned ==> memory.sentEpoch.Some?
    ensures var longer := log + [repaired];
      && Sound(longer, verb, maxRetries) && NothingApplied(longer) && Recall(longer) == memory
      && Repaired(log, repaired, verb)
      && var fruitless' := if repaired.fruitless then fruitless + 1 else 0;
         if fruitless' <= maxRetries then Standing(longer, verb, maxRetries, fruitless')
         else maxRetries < |longer| && AllFruitless(longer, |longer| - maxRetries - 1, |longer|)
  {
    hide Sound, NothingApplied, WorthBelieving, RepairFor, Remember, Recall, OnTarget, Settled, RunsAtMost, TrailingAtMost,
      HintsAreSound, Aimed;
    SameTarget(log, attempt, repaired);
    RememberIgnoresRepair(Recall(log), attempt, repaired.repair, repaired.learned, repaired.fruitless);
    RecallAppend(log, repaired);
    RepairedIs(log, repaired, verb);
    hide Repaired;
    RepairedAttemptIsSound(log, repaired, verb, maxRetries, fruitless);
    RepairedAttemptStands(log, repaired, verb, maxRetries, fruitless);
  }

  /** The same attempt, whatever was made of it afterwards. */
  predicate Same(a: Attempt, b: Attempt) {
    a.addressed == b.addressed && a.failure == b.failure && a.applied == b.applied
  }

  /** The cache holds, after the repair, a newer epoch than the one last sent. */
  predicate Learned(m: Moment, sent: Option<Epoch>) {
    sent.Some? && m.later.Some? && sent.value.IsStaleAgainst(m.later.value.region.epoch)
  }

  /** What becomes of a repaired attempt: the backoff is slept off if it ends before the deadline, and otherwise
  that ends the call; or its budget is spent. */
  ghost predicate Outcome(result: Option<Result<Method, Error>>, routed: Run, run: Run, m: Moment, options: ClientOptions,
                          deadline: Instant)
    requires |routed.log| <= U32_MAX
  {
    var t, delay := routed.now + m.late, Wait(options.retry.Backoff(|routed.log|), m.draw);
    match result
    case None => t + delay < deadline && run.now == t + delay + m.over && run.slept == routed.slept + delay
    case Some(Err(DeadlineExceeded(_, Some(_)))) => t + delay >= deadline
    case Some(Err(RetriesExhausted(_, _))) => true
    case _ => false
  }

  /** After a failure worth another attempt: repair, charge or refill the budget, and wait. */
  method RepairAndWait(m: Moment, run0: Run, attempt: Attempt, redirect: Redirect, memory: Memory, verb: Method,
                       options: ClientOptions, ghost started: Instant, deadline: Instant)
    returns (run: Run, result: Option<Result<Method, Error>>)
    requires |run0.log| < U32_MAX && Standing(run0.log, verb, options.retry.maxRetries, run0.fruitless)
    requires Ledger(started, options.callTimeout, run0.now, run0.slept) && deadline == started + options.callTimeout
    requires MinSlept(options.retry, |run0.log|) <= run0.slept
    requires FitsTheTimeout(options.retry, options.callTimeout, |run0.log| + 1)
    requires Resendable(attempt, verb) && RepairFor(verb, attempt.failure.value) == Some(redirect)
    requires OnTarget(run0.log, attempt) && memory == Remember(Recall(run0.log), attempt)
    ensures result.Some? ==> Ended(result.value, run, verb, options)
    ensures result.None? ==> Going(run, verb, options, started) && Turn(run0, run, verb, options, started)
    ensures |run.log| == |run0.log| + 1 && run.log[..|run0.log|] == run0.log && Recall(run.log) == memory
    ensures Same(attempt, run.log[|run0.log|]) && (run.log[|run0.log|].learned <==> Learned(m, memory.sentEpoch))
    ensures Outcome(result, run0, run, m, options, deadline)
  {
    hide Standing, Sound, Ended, NothingApplied, FitsTheTimeout, MinSlept, JitterFloor, WorthBelieving, RepairFor, Remember,
      Recall, OnTarget, RetryPolicy.Backoff, AllFruitless, Repaired, Turn;
    var error := attempt.failure.value;
    var believed := WorthBelieving(redirect, memory.unreachable, memory.peers, memory.refused);
    var learned := LearnedNewerEpoch(m.later, memory.sentEpoch);
    var progress := error.NotSent? || learned;
    var repaired := attempt.(repair := Some(believed), learned := learned, fruitless := !progress);
    Charged(run0.log, attempt, repaired, redirect, memory, verb, options.retry.maxRetries, run0.fruitless);
    run := run0.(log := run0.log + [repaired], fruitless := if progress then 0 else run0.fruitless + 1);
    if run.fruitless > options.retry.maxRetries {
      EndsAfterRepair(RetriesExhausted(|run.log|, error), run, verb, options);
      return run, Some(Err(RetriesExhausted(|run.log|, error)));
    }
    run, result := WaitItOut(m, run0, run, repaired, verb, options, started, deadline);
  }

  /** Sleeps the backoff off, unless that would outlast the deadline. */
  method WaitItOut(m: Moment, ghost run0: Run, charged: Run, repaired: Attempt, verb: Method, options: ClientOptions,
                   ghost started: Instant, deadline: Instant)
    returns (run: Run, result: Option<Result<Method, Error>>)
    requires |run0.log| < U32_MAX && charged.log == run0.log + [repaired]
    requires charged.now == run0.now && charged.slept == run0.slept
    requires charged.fruitless == (if repaired.fruitless then run0.fruitless + 1 else 0) <= options.retry.maxRetries
    requires Standing(charged.log, verb, options.retry.maxRetries, charged.fruitless)
    requires Sound(charged.log, verb, options.retry.maxRetries) && NothingApplied(charged.log)
    requires Repaired(run0.log, repaired, verb) && repaired.failure.Some? && RepairFor(verb, repaired.failure.value).Some?
    requires Ledger(started, options.callTimeout, run0.now, run0.slept) && deadline == started + options.callTimeout
    requires MinSlept(options.retry, |run0.log|) <= run0.slept
    requires FitsTheTimeout(options.retry, options.callTimeout, |run0.log| + 1)
    ensures result.Some? ==> Ended(result.value, run, verb, options)
    ensures result.None? ==> Going(run, verb, options, started) && Turn(run0, run, verb, options, started)
    ensures run.log == charged.log && Outcome(result, run0, run, m, options, deadline)
  {
    hide Standing, Sound, Ended, NothingApplied, FitsTheTimeout, MinSlept, JitterFloor, RepairFor, RetryPolicy.Backoff, Wait,
      AllFruitless, Repaired, Turn;
    var error := repaired.failure.value;
    var delay := Wait(options.retry.Backoff(|charged.log| - 1), m.draw);
    var now := charged.now + m.late;
    if now + delay >= deadline {
      run := charged.(now := now);
      EndsAfterRepair(DeadlineExceeded(|run.log|, Some(error)), run, verb, options);
      return run, Some(Err(DeadlineExceeded(|run.log|, Some(error))));
    }
    MinSleptStep(options.retry, |run0.log|, charged.slept, delay);
    run := charged.(now := now + delay + m.over, slept := charged.slept + delay);
    IsTurn(run0, run, repaired, verb, options, started, now, delay);
    return run, None;
  }

  lemma IsTurn(before: Run, after: Run, a: Attempt, verb: Method, options: ClientOptions, started: Instant, t: Instant,
               delay: nat)
    requires |before.log| <= U32_MAX && after.log == before.log + [a]
    requires Repaired(before.log, a, verb)
    requires after.fruitless == (if a.fruitless then before.fruitless + 1 else 0) <= options.retry.maxRetries
    requires Waits(before, after, options, started, t, delay)
    ensures Turn(before, after, verb, options, started)
  {
    hide Settled, OnTarget, Waits, HintIsSound;
    assert after.log[..|before.log|] == before.log;
  }

  lemma SameTarget(log: seq<Attempt>, a: Attempt, b: Attempt)
    requires OnTarget(log, a) && a.addressed == b.addressed
    ensures OnTarget(log, b)
  {
  }

  /** How a call goes on from one attempt to the next, given what it met: the attempt is the one the moment
  makes, whether it was progress is what the cache then held, and the clock is where those times put it. */
  ghost predicate Happened(before: Run, after: Run, m: Moment, key: Key, options: ClientOptions, started: Instant) {
    var n, deadline := |before.log|, started + options.callTimeout;
    && n <= U32_MAX && |after.log| == n + 1 && before.now + m.early < deadline
    && (after.log[n].learned <==> Learned(m, Recall(after.log).sentEpoch))
    && exists now, slept :: GoesOn(before, after, m, key, options, deadline, now, slept)
  }

  /** The attempt is over at `now`, with `slept` asleep in all, and waited out. */
  ghost predicate GoesOn(before: Run, after: Run, m: Moment, key: Key, options: ClientOptions, deadline: Instant,
                         now: Instant, slept: nat)
    requires |before.log| <= U32_MAX && |after.log| == |before.log| + 1
  {
    && Made(m, key, deadline, before.now + m.early, before.slept, after.log[|before.log|], now, slept)
    && Outcome(None, before.(now := now, slept := slept), after, m, options, deadline)
  }

  /** Why a call ends where it does, given what it met: the deadline was past; or the key was routed to nobody; or
  the attempt the moment makes was answered, could not be repaired, spent the budget, or could not be waited out. */
  ghost predicate Because(result: Result<Method, Error>, before: Run, run: Run, m: Moment, key: Key, options: ClientOptions,
                          started: Instant)
  {
    var n, deadline, now0 := |before.log|, started + options.callTimeout, before.now + m.early;
    if now0 >= deadline then result == Err(DeadlineExceeded(n, None)) && run.log == before.log
    else if result.Err? && result.error.NoRegion? then
      result.error.key == key && run.log == before.log && Deserted(m, key, deadline, now0, before.slept)
    else
      && n <= U32_MAX && |run.log| == n + 1 && run.log[..n] == before.log
      && exists now, slept :: Stops(result, before, run, m, key, options, deadline, now, slept)
  }

  /** The attempt is over at `now`, with `slept` asleep in all, and ends the call. */
  ghost predicate Stops(result: Result<Method, Error>, before: Run, run: Run, m: Moment, key: Key, options: ClientOptions,
                        deadline: Instant, now: Instant, slept: nat)
    requires |before.log| <= U32_MAX && |run.log| == |before.log| + 1
  {
    && Made(m, key, deadline, before.now + m.early, before.slept, run.log[|before.log|], now, slept)
    && Closes(result, before.(now := now, slept := slept), run, m, options, deadline)
  }

  ghost predicate Closes(result: Result<Method, Error>, routed: Run, run: Run, m: Moment, options: ClientOptions,
                         deadline: Instant)
    requires |routed.log| <= U32_MAX && |run.log| == |routed.log| + 1
  {
    match result
    case Ok(actual) => m.answer == Ok(actual)
    case Err(UnexpectedResponse(_, actual)) => m.answer == Ok(actual)
    case Err(Store(_)) => true
    case Err(AmbiguousResult(_, _)) => true
    case Err(_) =>
      && (run.log[|routed.log|].learned <==> Learned(m, Recall(run.log).sentEpoch))
      && Outcome(Some(result), routed, run, m, options, deadline)
  }

  lemma SameMade(m: Moment, key: Key, deadline: Instant, now0: Instant, slept0: nat, a: Attempt, b: Attempt, now: Instant,
                 slept: nat)
    requires Made(m, key, deadline, now0, slept0, a, now, slept) && Same(a, b)
    ensures Made(m, key, deadline, now0, slept0, b, now, slept)
  {
    hide Routing;
    var asked, route :| Routing(m, key, deadline, now0, slept0, asked, route, now, slept) && MadeOf(m, route, a);
    assert MadeOf(m, route, b);
  }

  /** One turn of the loop. */
  method OneTurn(m: Moment, run0: Run, memory0: Memory, verb: Method, key: Key, options: ClientOptions, started: Instant)
    returns (run: Run, memory: Memory, result: Option<Result<Method, Error>>)
    requires Going(run0, verb, options, started) && |run0.log| < U32_MAX && memory0 == Recall(run0.log) && Honest(m, verb)
    ensures result.Some? ==> Ended(result.value, run, verb, options)
    ensures result.Some? ==> Because(result.value, run0, run, m, key, options, started)
    ensures result.None? ==> Going(run, verb, options, started) && memory == Recall(run.log)
    ensures result.None? ==> |run.log| == |run0.log| + 1 && Turn(run0, run, verb, options, started)
    ensures result.None? ==> Happened(run0, run, m, key, options, started)
  {
    hide Standing, Ended, FitsTheTimeout, MinSlept, Remember, Recall, ResultOf, Turn, Made, Deserted, Outcome, Learned, Same;
    memory := memory0;
    var now := run0.now + m.early;
    if now >= started + options.callTimeout {
      EndsBetween(DeadlineExceeded(|run0.log|, None), run0, verb, options, run0.fruitless);
      return run0, memory, Some(Err(DeadlineExceeded(|run0.log|, None)));
    }
    SleptFits(options.retry, options.callTimeout, |run0.log|, run0.slept);
    ghost var now0 := now;
    var went, slept;
    went, now, slept :=
      TryOnce(m, verb, key, |run0.log|, memory.corpses, started, options.callTimeout, now, run0.slept);
    run := run0.(now := now, slept := slept);
    if went.Nowhere? {
      EndsBetween(NoRegion(key), run, verb, options, run0.fruitless);
      return run, memory, Some(Err(NoRegion(key)));
    }
    memory := Remember(memory, went.attempt);
    var redirect := if went.Answered? then None else RepairFor(verb, went.error);
    if redirect.None? {
      run := run.(log := run.log + [went.attempt]);
      EndsWithAttempt(run0.log, went, run, verb, options, run0.fruitless);
      CloseOf(went, run0.(now := now, slept := slept), run, m, verb, options, started + options.callTimeout);
      assert Stops(ResultOf(went, verb), run0, run, m, key, options, started + options.callTimeout, now, slept);
      return run, memory, Some(ResultOf(went, verb));
    }
    ghost var routed := run;
    run, result := RepairAndWait(m, run, went.attempt, redirect.value, memory, verb, options, started,
                                 started + options.callTimeout);
    SameMade(m, key, started + options.callTimeout, now0, run0.slept, went.attempt, run.log[|run0.log|], now, slept);
    assert routed == run0.(now := now, slept := slept);
    if result.None? {
      TurnFromEarlier(run0, routed, run, verb, options, started);
      assert GoesOn(run0, run, m, key, options, started + options.callTimeout, now, slept);
    } else {
      GivenUp(result.value, routed, run, m, options, started + options.callTimeout);
      assert Stops(result.value, run0, run, m, key, options, started + options.callTimeout, now, slept);
    }
  }

  lemma CloseOf(went: Went, routed: Run, run: Run, m: Moment, verb: Method, options: ClientOptions, deadline: Instant)
    requires |routed.log| <= U32_MAX && |run.log| == |routed.log| + 1 && !went.Nowhere?
    requires went.Answered? ==> m.answer == Ok(went.actual)
    ensures Closes(ResultOf(went, verb), routed, run, m, options, deadline)
    ensures ResultOf(went, verb).Err? ==> !ResultOf(went, verb).error.NoRegion?
  {
  }

  lemma GivenUp(result: Result<Method, Error>, routed: Run, run: Run, m: Moment, options: ClientOptions, deadline: Instant)
    requires |routed.log| <= U32_MAX && |run.log| == |routed.log| + 1
    requires run.log[|routed.log|].learned <==> Learned(m, Recall(run.log).sentEpoch)
    requires Outcome(Some(result), routed, run, m, options, deadline)
    ensures Closes(result, routed, run, m, options, deadline) && result.Err? && !result.error.NoRegion?
  {
    hide Learned, Recall;
  }

  /** What routing slept is part of the turn. */
  lemma TurnFromEarlier(before: Run, routed: Run, after: Run, verb: Method, options: ClientOptions, started: Instant)
    requires Turn(routed, after, verb, options, started)
    requires before.log == routed.log && before.fruitless == routed.fruitless
    requires before.now <= routed.now && before.slept <= routed.slept <= before.slept + (routed.now - before.now)
    ensures Turn(before, after, verb, options, started)
  {
    hide Settled, OnTarget;
    var t, delay :| Waits(routed, after, options, started, t, delay);
    assert Waits(before, after, options, started, t, delay);
  }

  /** A call from its beginning, turn by turn. */
  ghost predicate Turns(runs: seq<Run>, verb: Method, options: ClientOptions, started: Instant) {
    && runs != [] && runs[0] == Run([], 0, started, 0)
    && forall i :: 0 <= i < |runs| - 1 ==> Turn(runs[i], runs[i + 1], verb, options, started)
  }

  /** The turns are those the moments make. */
  ghost predicate Lived(runs: seq<Run>, world: nat -> Moment, key: Key, options: ClientOptions, started: Instant) {
    forall i :: 0 <= i < |runs| - 1 ==> HappenedAt(runs, i, world, key, options, started)
  }

  ghost predicate HappenedAt(runs: seq<Run>, i: nat, world: nat -> Moment, key: Key, options: ClientOptions,
                             started: Instant)
    requires i < |runs| - 1
  {
    Happened(runs[i], runs[i + 1], world(i), key, options, started)
  }

  lemma LivedMore(runs: seq<Run>, run: Run, world: nat -> Moment, key: Key, options: ClientOptions, started: Instant)
    requires Lived(runs, world, key, options, started) && runs != []
    requires Happened(runs[|runs| - 1], run, world(|runs| - 1), key, options, started)
    ensures Lived(runs + [run], world, key, options, started)
  {
    hide Happened;
    forall i | 0 <= i < |runs|
      ensures HappenedAt(runs + [run], i, world, key, options, started)
    {
      if i < |runs| - 1 {
        assert HappenedAt(runs, i, world, key, options, started);
      }
    }
  }

  /** How a call ends before its first attempt, or why it does after it. */
  ghost predicate Explained(result: Result<Method, Error>, turns: seq<Run>, run: Run, world: nat -> Moment, key: Key,
                            size: nat, frameLimit: nat, admitted: bool, options: ClientOptions, started: Instant)
    requires turns != []
  {
    if size > frameLimit then result == Err(RequestTooLarge(size, frameLimit)) && run.log == []
    else if !admitted then result == Err(DeadlineExceeded(0, None)) && run.log == []
    else Because(result, turns[|turns| - 1], run, world(|turns| - 1), key, options, started)
  }

  /** Sends one request of `size` bytes for `key`, observed for at most `watch` attempts, and `admitted` or not by
  the gate before the first; `turns` are those it went on from. */
  method Call(world: nat -> Moment, verb: Method, key: Key, size: nat, frameLimit: nat, admitted: bool,
              options: ClientOptions, started: Instant, watch: u32)
    returns (result: Option<Result<Method, Error>>, run: Run, ghost turns: seq<Run>)
    requires forall n :: Honest(world(n), verb)
    ensures Observed(run, verb, options)
    ensures Turns(turns, verb, options, started) && Lived(turns, world, key, options, started)
    ensures result.Some? ==> Ended(result.value, run, verb, options)
    ensures result.Some? ==> Explained(result.value, turns, run, world, key, size, frameLimit, admitted, options, started)
    ensures result.None? ==> size <= frameLimit && admitted && |run.log| == watch && |turns| == watch + 1
  {
    hide Turn, Turns, Recall, Going, Observed, Standing, FitsTheTimeout, Ended, Happened, Because, Lived, Honest;
    run := Run([], 0, started, 0);
    turns := [run];
    result := None;
    Begins(verb, options, started);
    NothingLived(run, world, key, options, started);
    NoTurn(run, verb, options, started);
    if size > frameLimit {
      EndsAtOnce(RequestTooLarge(size, frameLimit), run, verb, options, started);
      return Some(Err(RequestTooLarge(size, frameLimit))), run, turns;
    }
    if !admitted {
      EndsAtOnce(DeadlineExceeded(0, None), run, verb, options, started);
      return Some(Err(DeadlineExceeded(0, None))), run, turns;
    }
    var memory := BLANK;
    while |run.log| < watch
      invariant result.None? && |run.log| <= watch
      invariant Going(run, verb, options, started) && memory == Recall(run.log)
      invariant Turns(turns, verb, options, started) && |turns| == |run.log| + 1 && turns[|turns| - 1] == run
      invariant Lived(turns, world, key, options, started)
      decreases watch - |run.log|
    {
      run, memory, result := OneTurn(world(|run.log|), run, memory, verb, key, options, started);
      if result.Some? {
        EndedIsObserved(result.value, run, verb, options);
        return result, run, turns;
      }
      LivedMore(turns, run, world, key, options, started);
      TurnsMore(turns, run, verb, options, started);
      turns := turns + [run];
    }
    GoingIsObserved(run, verb, options, started);
  }

  lemma NoTurn(run: Run, verb: Method, options: ClientOptions, started: Instant)
    requires run == Run([], 0, started, 0)
    ensures Turns([run], verb, options, started)
  {
  }

  lemma TurnsMore(runs: seq<Run>, run: Run, verb: Method, options: ClientOptions, started: Instant)
    requires Turns(runs, verb, options, started) && Turn(runs[|runs| - 1], run, verb, options, started)
    ensures Turns(runs + [run], verb, options, started)
  {
    hide Turn;
  }

  lemma NothingLived(run: Run, world: nat -> Moment, key: Key, options: ClientOptions, started: Instant)
    ensures Lived([run], world, key, options, started)
  {
  }

  lemma GoingIsObserved(run: Run, verb: Method, options: ClientOptions, started: Instant)
    requires Going(run, verb, options, started)
    ensures Observed(run, verb, options)
  {
    hide Standing, Sound, FitsTheTimeout, MinSlept;
    StandingIsSound(run.log, verb, options.retry.maxRetries, run.fruitless);
  }

  lemma EndsAtOnce(error: Error, run: Run, verb: Method, options: ClientOptions, started: Instant)
    requires run == Run([], 0, started, 0) && Going(run, verb, options, started)
    requires (error.RequestTooLarge? && error.bytes > error.limit) || error == DeadlineExceeded(0, None)
    ensures Ended(Err(error), run, verb, options)
  {
    hide Standing, FitsTheTimeout, MinSlept, Ended;
    EndsBetween(error, run, verb, options, 0);
  }

  lemma EndedIsObserved(result: Result<Method, Error>, run: Run, verb: Method, options: ClientOptions)
    requires Ended(result, run, verb, options)
    ensures Observed(run, verb, options)
  {
  }

  lemma Begins(verb: Method, options: ClientOptions, started: Instant)
    ensures Going(Run([], 0, started, 0), verb, options, started) && BLANK == Recall([])
    ensures Observed(Run([], 0, started, 0), verb, options)
  {
    hide Standing, Sound, FitsTheTimeout;
    NothingStands(verb, options.retry.maxRetries);
    NothingFits(options);
    StandingIsSound([], verb, options.retry.maxRetries, 0);
  }

  lemma NothingStands(verb: Method, maxRetries: nat)
    ensures Standing([], verb, maxRetries, 0)
  {
  }

  lemma NothingFits(options: ClientOptions)
    ensures FitsTheTimeout(options.retry, options.callTimeout, 0)
  {
  }

  /** What a repair does to the shared region cache. */
  function RepairOp(redirect: Redirect, regionId: nat): Option<Op> {
    match redirect
    case Leader(hint) => Some(SetLeader(regionId, hint))
    case Stale(regions) =>
      if regions == [] then Some(Invalidate(regionId))
      else Some(InsertAll(seq(|regions|, i requires 0 <= i < |regions| => Route(regions[i], None))))
    case Refresh => Some(Invalidate(regionId))
    case Busy => None
  }

  /** What a repair makes of what is known of a key: a hint says who leads its region, a region reported gone or
  stale without a replacement is forgotten, and being busy teaches nothing. */
  lemma RepairIsMade(known: Route, redirect: Redirect, regionId: nat, key: Key)
    requires known.region.Contains(key)
    ensures RepairOp(redirect, regionId).None? <==> redirect.Busy?
    ensures redirect.Leader? ==>
      RegionCache.After(Some(known), RepairOp(redirect, regionId).value, key)
        == Some(if known.region.id == regionId
                then known.(leader := LeaderNamed(known.region.peers, redirect.hint)) else known)
    ensures redirect.Refresh? || (redirect.Stale? && redirect.replacements == []) ==>
      RegionCache.After(Some(known), RepairOp(redirect, regionId).value, key)
        == if known.region.id == regionId then None else Some(known)
  {
    hide LeaderNamed;
  }

  /** The regions an epoch mismatch carries reach the cache: afterwards the key of one of them is looked up there,
  unless a later one ran into it, whatever was known before. */
  lemma ReplacementsAreCached(known: Option<Route>, regions: seq<Region>, regionId: nat, i: nat, key: Key)
    requires i < |regions| && regions[i].Contains(key)
    requires forall j :: i < j < |regions| ==>
      !Overlaps(regions[i], regions[j]) && regions[i].startKey != regions[j].startKey
    ensures RepairOp(Stale(regions), regionId).Some?
    ensures RegionCache.After(known, RepairOp(Stale(regions), regionId).value, key) == Some(Route(regions[i], None))
  {
    LastInsertCounts(known, RepairOp(Stale(regions), regionId).value.routes, i, key);
  }

  lemma {:induction false} LastInsertCounts(known: Option<Route>, routes: seq<Route>, i: nat, key: Key)
    requires i < |routes| && routes[i].region.Contains(key)
    requires forall j :: i < j < |routes| ==>
      !Overlaps(routes[i].region, routes[j].region) && routes[i].region.startKey != routes[j].region.startKey
    ensures AfterInserts(known, routes, key) == Some(routes[i])
    decreases |routes|
  {
    hide Overlaps;
    var next := AfterInsert(known, routes[0], key);
    if i > 0 {
      LastInsertCounts(next, routes[1..], i - 1, key);
    } else {
      InsertsPass(routes[0], routes[1..], key);
    }
  }

  lemma {:induction false} InsertsPass(known: Route, routes: seq<Route>, key: Key)
    requires known.region.Contains(key)
    requires forall j :: 0 <= j < |routes| ==>
      !Overlaps(known.region, routes[j].region) && known.region.startKey != routes[j].region.startKey
    ensures AfterInserts(Some(known), routes, key) == Some(known)
    decreases |routes|
  {
    if routes != [] {
      if routes[0].region.Contains(key) {
        SharingOverlaps(known.region, routes[0].region, key);
      } else {
        hide Overlaps;
        InsertsPass(known, routes[1..], key);
      }
    }
  }

  /** A repair makes somebody leader only by a hint, and only a peer the cached region lists under
  that very id; a hint naming nobody listed forgets the leader instead. */
  lemma RecordedLeaderIsListed(known: Route, redirect: Redirect, regionId: nat, key: Key)
    requires known.region.Contains(key) && RepairOp(redirect, regionId).Some?
    ensures var after := RegionCache.After(Some(known), RepairOp(redirect, regionId).value, key);
      after.Some? && after.value.leader.Some? ==>
        || after == Some(known)
        || (redirect.Leader? && redirect.hint.Some? && after.value.region == known.region
            && after.value.leader.value in known.region.peers && after.value.leader.value.peerId == redirect.hint.value)
  {
    if redirect.Stale? && redirect.replacements != [] {
      InsertsKeepOrForget(Some(known), RepairOp(redirect, regionId).value.routes, key);
    }
  }

  lemma {:induction false} InsertsKeepOrForget(known: Option<Route>, routes: seq<Route>, key: Key)
    requires forall r :: r in routes ==> r.leader.None?
    ensures var after := AfterInserts(known, routes, key);
      after.None? || after.value.leader.None? || after == known
    decreases |routes|
  {
    if routes != [] {
      InsertsKeepOrForget(AfterInsert(known, routes[0], key), routes[1..], key);
    }
  }

  // -- when a call ends ----------------------------------------------------------------

  /** Turns have been slept for, and the sleep was within the timeout. */
  lemma {:induction false} TurnsAreSlept(runs: seq<Run>, verb: Method, options: ClientOptions, started: Instant)
    requires Turns(runs, verb, options, started) && |runs| <= U32_MAX + 1
    ensures var run, n := runs[|runs| - 1], |runs| - 1;
      |run.log| == n && MinSlept(options.retry, n) <= run.slept && Ledger(started, options.callTimeout, run.now, run.slept)
      && (n > 0 ==> run.slept < options.callTimeout)
    decreases |runs|
  {
    hide Settled, OnTarget, JitterFloor, RetryPolicy.Backoff;
    var n := |runs| - 1;
    if n > 0 {
      TurnsAreSlept(runs[..n], verb, options, started);
      assert Turn(runs[n - 1], runs[n - 1 + 1], verb, options, started);
      var t, delay :| Waits(runs[n - 1], runs[n], options, started, t, delay);
    }
  }

  /** A failure to reach anybody, on which any call goes on. */
  const UNREACHED := Attempt(None, Some(NotSent), false, Some(Leader(None)), false, false)

  lemma UnreachedIsRepaired(log: seq<Attempt>, verb: Method)
    ensures Repaired(log, UNREACHED, verb)
  {
    RecallAppend(log, UNREACHED);
    assert (log + [UNREACHED])[..|log| + 1] == log + [UNREACHED];
  }

  /** The quickest run: nobody is reached, no time passes but the sleeps, and each sleep is the shortest. */
  lemma {:induction false} QuickestRun(verb: Method, options: ClientOptions, n: nat) returns (runs: seq<Run>)
    requires n <= U32_MAX && (n == 0 || MinSlept(options.retry, n) < options.callTimeout)
    ensures |runs| == n + 1 && Turns(runs, verb, options, 0)
    ensures var run := runs[n]; |run.log| == n && run.fruitless == 0 && run.now == run.slept == MinSlept(options.retry, n)
  {
    hide Repaired, Turn;
    if n == 0 {
      runs := [Run([], 0, 0, 0)];
    } else {
      MinSleptMonotone(options.retry, n - 1, n);
      runs := QuickestRun(verb, options, n - 1);
      var before := runs[n - 1];
      var delay := JitterFloor(options.retry.Backoff(n - 1));
      FloorIsBelow(options.retry.Backoff(n - 1));
      var after := Run(before.log + [UNREACHED], 0, before.now + delay, before.slept + delay);
      UnreachedIsRepaired(before.log, verb);
      IsTurn(before, after, UNREACHED, verb, options, 0, before.now, delay);
      runs := runs + [after];
    }
  }

  lemma FloorIsBelow(base: Duration)
    ensures JitterFloor(base) <= base
  {
  }

  /** A call can go on from `n` attempts if and only if the shortest sleeps after them fit its timeout. */
  lemma GoesOnExactly(verb: Method, options: ClientOptions, n: nat)
    requires n <= U32_MAX
    ensures (exists runs, started :: |runs| == n + 1 && Turns(runs, verb, options, started))
      <==> n == 0 || MinSlept(options.retry, n) < options.callTimeout
  {
    hide Turns, MinSlept;
    if n == 0 || MinSlept(options.retry, n) < options.callTimeout {
      var runs := QuickestRun(verb, options, n);
    }
    forall runs, started | |runs| == n + 1 && Turns(runs, verb, options, started)
      ensures n == 0 || MinSlept(options.retry, n) < options.callTimeout
    {
      TurnsAreSlept(runs, verb, options, started);
    }
  }

  /** That every call ends, within a number of attempts its counter can count, is exactly that the shortest
  sleeps of the schedule, the last of them repeated, come to the timeout. */
  lemma CallEndsExactly(verb: Method, options: ClientOptions)
    ensures (exists n: nat :: 1 <= n <= U32_MAX && Bounds(n, verb, options))
      <==> options.callTimeout <= MinSlept(options.retry, 32) + (U32_MAX - 32) * LastFloor(options.retry)
  {
    hide MinSlept, LastFloor, Turns;
    OutlastsExactly(options.retry, options.callTimeout);
    MinSleptFlattens(options.retry, U32_MAX);
    if options.callTimeout <= MinSlept(options.retry, U32_MAX) {
      BoundsExactly(U32_MAX, verb, options);
    }
    forall n: nat | 1 <= n <= U32_MAX && Bounds(n, verb, options)
      ensures options.callTimeout <= MinSlept(options.retry, n)
    {
      BoundsExactly(n, verb, options);
    }
  }

  /** No call goes on from `n` attempts. */
  ghost predicate Bounds(n: nat, verb: Method, options: ClientOptions) {
    forall runs, started :: Turns(runs, verb, options, started) ==> |runs| <= n
  }

  lemma BoundsExactly(n: nat, verb: Method, options: ClientOptions)
    requires 1 <= n <= U32_MAX
    ensures Bounds(n, verb, options) <==> options.callTimeout <= MinSlept(options.retry, n)
  {
    hide MinSlept, Turns;
    if options.callTimeout <= MinSlept(options.retry, n) {
      forall runs, started | Turns(runs, verb, options, started)
        ensures |runs| <= n
      {
        if |runs| > n {
          TurnsPrefix(runs, n + 1, verb, options, started);
          TurnsAreSlept(runs[..n + 1], verb, options, started);
        }
      }
    } else {
      var runs := QuickestRun(verb, options, n);
    }
  }

  lemma TurnsPrefix(runs: seq<Run>, n: nat, verb: Method, options: ClientOptions, started: Instant)
    requires Turns(runs, verb, options, started) && 1 <= n <= |runs|
    ensures Turns(runs[..n], verb, options, started)
  {
    hide Turn;
  }

  /** A call whose timeout `n` shortest sleeps outlast ends, and within `n` attempts. */
  method CallToTheEnd(world: nat -> Moment, verb: Method, key: Key, size: nat, frameLimit: nat, admitted: bool,
                      options: ClientOptions, started: Instant, ghost n: nat)
    returns (result: Result<Method, Error>, run: Run, ghost turns: seq<Run>)
    requires forall i :: Honest(world(i), verb)
    requires 1 <= n <= U32_MAX && options.callTimeout <= MinSlept(options.retry, n)
    ensures Ended(result, run, verb, options) && |run.log| <= n
    ensures Turns(turns, verb, options, started) && Lived(turns, world, key, options, started)
    ensures Explained(result, turns, run, world, key, size, frameLimit, admitted, options, started)
  {
    hide MinSlept, Ended, Turns, Sound, Lived, Explained, Honest;
    var watched;
    watched, run, turns := Call(world, verb, key, size, frameLimit, admitted, options, started, U32_MAX);
    BoundsExactly(n, verb, options);
    AttemptsFit(run, verb, options, n);
    result := watched.value;
  }

  lemma AttemptsFit(run: Run, verb: Method, options: ClientOptions, n: nat)
    requires Observed(run, verb, options) && n <= U32_MAX && options.callTimeout <= MinSlept(options.retry, n)
    ensures |run.log| <= n
  {
    hide MinSlept, Sound;
  }

  /** Under the default options a call ends within seventeen attempts, however often its budget is
  refilled. */
  lemma SeventeenAttempts(run: Run, verb: Method)
    requires Observed(run, verb, DEFAULT_OPTIONS)
    ensures |run.log| <= 17
  {
    hide MinSlept, Sound;
    SeventeenBackoffs();
    AttemptsFit(run, verb, DEFAULT_OPTIONS, 17);
  }

  /** A call under the default options. */
  method CallByDefault(world: nat -> Moment, verb: Method, key: Key, size: nat, frameLimit: nat, admitted: bool,
                       started: Instant)
    returns (result: Result<Method, Error>, run: Run, ghost turns: seq<Run>)
    requires forall i :: Honest(world(i), verb)
    ensures Ended(result, run, verb, DEFAULT_OPTIONS) && |run.log| <= 17
    ensures Turns(turns, verb, DEFAULT_OPTIONS, started) && Lived(turns, world, key, DEFAULT_OPTIONS, started)
    ensures Explained(result, turns, run, world, key, size, frameLimit, admitted, DEFAULT_OPTIONS, started)
  {
    hide MinSlept, Ended, Turns, Lived, Explained, Honest;
    SeventeenBackoffs();
    result, run, turns := CallToTheEnd(world, verb, key, size, frameLimit, admitted, DEFAULT_OPTIONS, started, 17);
  }

  /** Sixteen attempts can be gone on from, so that seventeen can be made. */
  lemma SixteenTurns(verb: Method) returns (runs: seq<Run>)
    ensures |runs| == 17 && Turns(runs, verb, DEFAULT_OPTIONS, 0)
  {
    hide MinSlept, Turns;
    SeventeenBackoffs();
    runs := QuickestRun(verb, DEFAULT_OPTIONS, 16);
  }
}
