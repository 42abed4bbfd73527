/** The poll loop of the GitHub device flow (section 3.4 and 3.5 of RFC 8628). */
module DeviceFlow {
  import opened Prelude

  datatype DeviceCodeInfo = DeviceCodeInfo(deviceCode: string, expiresIn: int, interval: int)

  /** The fields of a reply the loop looks at. */
  datatype Reply = Reply(accessToken: Option<string>, error: Option<string>)

  datatype Outcome = Token(token: string) | Aborted(error: string) | Expired

  /** What the loop meets: reading 0 of the clock sets the deadline, reading k + 1 precedes poll k. */
  datatype World = World(clock: nat -> real, replies: nat -> Reply)

  const SLOW_DOWN_SECONDS := 5

  function Deadline(info: DeviceCodeInfo, w: World): real {
    w.clock(0) + info.expiresIn as real
  }

  predicate Grants(r: Reply) {
    r.accessToken.Some?
  }

  predicate Aborts(r: Reply) {
    r.accessToken.None? && (r.error == Some("expired_token") || r.error == Some("access_denied"))
  }

  predicate SlowsDown(r: Reply) {
    r.accessToken.None? && r.error == Some("slow_down")
  }

  /** How many of the first k replies asked to slow down. */
  ghost function SlowDowns(w: World, k: nat): nat {
    if k == 0 then 0 else SlowDowns(w, k - 1) + if SlowsDown(w.replies(k - 1)) then 1 else 0
  }

  ghost function Wait(info: DeviceCodeInfo, w: World, k: nat): int {
    info.interval + SLOW_DOWN_SECONDS * SlowDowns(w, k)
  }

  /** Test k of the loop, just before poll k, finds time left. */
  predicate TimeLeft(info: DeviceCodeInfo, w: World, k: nat) {
    w.clock(k + 1) < Deadline(info, w)
  }

  predicate Decides(r: Reply) {
    Grants(r) || Aborts(r)
  }

  /** The first n tests of the loop found time left, and no reply before the last was decisive. */
  ghost predicate PolledTimes(info: DeviceCodeInfo, w: World, n: nat) {
    && (forall k: nat :: k < n ==> TimeLeft(info, w, k))
    && (forall k: nat :: k + 1 < n ==> !Decides(w.replies(k)))
  }

  ghost predicate OutcomeOf(info: DeviceCodeInfo, w: World, n: nat, outcome: Outcome) {
    match outcome
    case Token(token) => n > 0 && w.replies(n - 1).accessToken == Some(token)
    case Aborted(error) => n > 0 && Aborts(w.replies(n - 1)) && w.replies(n - 1).error == Some(error)
    case Expired =>
      !TimeLeft(info, w, n) && (n > 0 ==> !Decides(w.replies(n - 1)))
  }

  class CopilotProvider {
    var githubToken: Option<string>

    constructor (token: Option<string>)
      ensures githubToken == token
    {
      githubToken := token;
    }

    /** limit is any number of polls after which the deadline has passed or the last reply decides;
     *  without one the loop never ends. */
    method PollDeviceFlow(info: DeviceCodeInfo, w: World, ghost limit: nat) returns (outcome: Outcome, waits: seq<int>)
      requires !TimeLeft(info, w, limit) || (limit > 0 && Decides(w.replies(limit - 1)))
      modifies this
      ensures PolledTimes(info, w, |waits|) && OutcomeOf(info, w, |waits|, outcome)
      ensures |waits| <= limit
      ensures forall k :: 0 <= k < |waits| ==> waits[k] == Wait(info, w, k)
      ensures githubToken == if outcome.Token? then Some(outcome.token) else old(githubToken)
    {
      waits := [];
      var deadline := w.clock(0) + info.expiresIn as real;
      var interval := info.interval;
      var polls: nat := 0;
      while w.clock(polls + 1) < deadline
        invariant polls == |waits| <= limit
        invariant interval == Wait(info, w, polls)
        invariant forall k :: 0 <= k < |waits| ==> waits[k] == Wait(info, w, k)
        invariant forall k: nat :: k < polls ==> TimeLeft(info, w, k)
        invariant forall k: nat :: k < polls ==> !Decides(w.replies(k))
        invariant githubToken == old(githubToken)
        decreases limit - polls
      {
        waits := waits + [interval];
        var d := w.replies(polls);
        polls := polls + 1;
        if d.accessToken.Some? {
          githubToken := d.accessToken;
          return Token(d.accessToken.value), waits;
        }
        if d.error == Some("authorization_pending") {
          continue;
        }
        if d.error == Some("slow_down") {
          interval := interval + SLOW_DOWN_SECONDS;
          continue;
        }
        if d.error == Some("expired_token") || d.error == Some("access_denied") {
          return Aborted(d.error.value), waits;
        }
      }
      outcome := Expired;
    }
  }

  // ------------------------------------------------------------------
  // Time
  // ------------------------------------------------------------------

  /** Time never runs back, and every wait lasts at least as long as asked. */
  ghost predicate ClockKeepsUp(info: DeviceCodeInfo, w: World) {
    && w.clock(1) >= w.clock(0)
    && forall k: nat :: w.clock(k + 2) >= w.clock(k + 1) + Wait(info, w, k) as real
  }

  /** All the waits before test k together. */
  ghost function Waited(info: DeviceCodeInfo, w: World, k: nat): int {
    if k == 0 then 0 else Waited(info, w, k - 1) + Wait(info, w, k - 1)
  }

  lemma {:induction false} ClockCoversWaits(info: DeviceCodeInfo, w: World, k: nat)
    requires ClockKeepsUp(info, w)
    ensures w.clock(k + 1) >= w.clock(0) + Waited(info, w, k) as real
  {
    if k > 0 {
      ClockCoversWaits(info, w, k - 1);
      assert w.clock(k - 1 + 2) >= w.clock(k - 1 + 1) + Wait(info, w, k - 1) as real;
    }
  }

  lemma {:induction false} WaitedAtLeast(info: DeviceCodeInfo, w: World, k: nat)
    ensures Waited(info, w, k) >= k * info.interval
  {
    if k > 0 {
      WaitedAtLeast(info, w, k - 1);
      assert k * info.interval == (k - 1) * info.interval + info.interval;
    }
  }

  /** expiresIn / interval, rounded up; 0 when nothing is left to wait for. */
  function MostPolls(info: DeviceCodeInfo): nat
    requires info.interval > 0
  {
    if info.expiresIn <= 0 then 0 else (info.expiresIn + info.interval - 1) / info.interval
  }

  lemma {:induction false} RoundedUp(a: int, b: int, q: int)
    requires b > 0 && q == (a + b - 1) / b
    ensures q * b >= a
  {
    assert a + b - 1 == q * b + (a + b - 1) % b;
  }

  /** With a positive interval the deadline has passed by the test after ceil(expires_in / interval)
   *  polls: this is a limit for the loop. */
  lemma {:induction false} DeadlinePasses(info: DeviceCodeInfo, w: World)
    requires info.interval > 0 && ClockKeepsUp(info, w)
    ensures !TimeLeft(info, w, MostPolls(info))
  {
    var n := MostPolls(info);
    ClockCoversWaits(info, w, n);
    WaitedAtLeast(info, w, n);
    if info.expiresIn > 0 {
      RoundedUp(info.expiresIn, info.interval, n);
    }
  }

  /** The loop polls at most ceil(expires_in / interval) times, whatever it is told. */
  lemma {:induction false} PollsBounded(info: DeviceCodeInfo, w: World, n: nat)
    requires info.interval > 0 && ClockKeepsUp(info, w) && PolledTimes(info, w, n)
    ensures n <= MostPolls(info)
  {
    DeadlinePasses(info, w);
  }

  /** All waits but the last fit into the time the code is valid, slow-downs included. */
  lemma {:induction false} WaitsFit(info: DeviceCodeInfo, w: World, n: nat)
    requires ClockKeepsUp(info, w) && PolledTimes(info, w, n) && n > 0
    ensures Waited(info, w, n - 1) < info.expiresIn
  {
    ClockCoversWaits(info, w, n - 1);
    assert TimeLeft(info, w, n - 1);
  }

  /** Poll k is sent after its wait and before the next test; only the last can be late. */
  lemma {:induction false} OnlyTheLastPollIsLate(info: DeviceCodeInfo, w: World, n: nat, k: nat, sent: real)
    requires PolledTimes(info, w, n) && k < n && w.clock(k + 1) <= sent <= w.clock(k + 2)
    ensures sent >= Deadline(info, w) ==> k == n - 1
  {
    if k + 1 < n {
      assert TimeLeft(info, w, k + 1);
    }
  }

  /** The number of polls and the way out are determined by the clock and the replies. */
  lemma {:induction false} OutcomeUnique(info: DeviceCodeInfo, w: World, n: nat, a: Outcome, m: nat, b: Outcome)
    requires PolledTimes(info, w, n) && OutcomeOf(info, w, n, a)
    requires PolledTimes(info, w, m) && OutcomeOf(info, w, m, b)
    ensures n == m && a == b
  {
    if n < m {
      EndsFirst(info, w, n, a, m);
    } else if m < n {
      EndsFirst(info, w, m, b, n);
    }
  }

  /**
   * The way out is read off the last reply: a token wins, two error codes abort with that code,
   * and any other reply, an unknown error included, leaves only the deadline.
   */
  lemma {:induction false} LastReplyDecides(info: DeviceCodeInfo, w: World, n: nat, outcome: Outcome)
    requires PolledTimes(info, w, n) && OutcomeOf(info, w, n, outcome)
    ensures n == 0 ==> outcome == Expired
    ensures n > 0 ==>
      var r := w.replies(n - 1);
      match r.accessToken
      case Some(token) => outcome == Token(token)
      case None =>
        if r.error == Some("expired_token") || r.error == Some("access_denied") then outcome == Aborted(r.error.value)
        else outcome == Expired && w.clock(n + 1) >= w.clock(0) + info.expiresIn as real
    ensures forall k: nat :: k + 1 < n ==>
      w.replies(k).accessToken == None && w.replies(k).error !in {Some("expired_token"), Some("access_denied")}
  {
    if n > 0 && outcome.Expired? {
      assert !Decides(w.replies(n - 1));
    }
  }

  /** The first wait is the interval asked for, and each request to slow down adds five seconds to the next. */
  lemma {:induction false} WaitGrows(info: DeviceCodeInfo, w: World, k: nat)
    ensures Wait(info, w, 0) == info.interval
    ensures Wait(info, w, k + 1) - Wait(info, w, k)
         == if w.replies(k).accessToken == None && w.replies(k).error == Some("slow_down") then 5 else 0
  {
  }

  lemma {:induction false} EndsFirst(info: DeviceCodeInfo, w: World, n: nat, a: Outcome, m: nat)
    requires OutcomeOf(info, w, n, a) && PolledTimes(info, w, m)
    ensures m <= n
  {
    assert n < m ==> TimeLeft(info, w, n);
    assert a == Expired ==> !TimeLeft(info, w, n);
    assert 0 < n < m ==> !Decides(w.replies(n - 1));
  }
}
