/** Threshold calls: a client asks every node in parallel and judges the answers as they
    arrive, either all of them or until enough have succeeded. */
module Quorum {
  import opened Text
  import opened BigEndian

  datatype Answer = Body(bytes: Bytes) | Fault(cause: string)

  datatype Config = Config(nodes: seq<string>, org: string, threshold: int)

  datatype ConfigError = NoNodes | NoOrg | ThresholdTooSmall | ThresholdTooLarge

  datatype Outcome<T> = Ok(value: T) | Err(successes: nat, lastErr: Option<string>)

  /** `NewClient`: the first rule a configuration breaks, if any. */
  function Reject(cfg: Config): Option<ConfigError> {
    if |cfg.nodes| == 0 then Some(NoNodes)
    else if cfg.org == "" then Some(NoOrg)
    else if cfg.threshold < 1 then Some(ThresholdTooSmall)
    else if cfg.threshold > |cfg.nodes| then Some(ThresholdTooLarge)
    else None
  }

  function Successes(rs: seq<Answer>): nat {
    if rs == [] then 0 else Successes(rs[..|rs| - 1]) + (if rs[|rs| - 1].Body? then 1 else 0)
  }

  lemma {:induction false} SuccessesConcat(a: seq<Answer>, b: seq<Answer>)
    ensures Successes(a + b) == Successes(a) + Successes(b)
  {
    if b == [] {
      assert a + b == a;
    } else {
      assert (a + b)[..|a + b| - 1] == a + b[..|b| - 1];
      SuccessesConcat(a, b[..|b| - 1]);
    }
  }

  lemma {:induction false} SuccessesBounded(rs: seq<Answer>)
    ensures Successes(rs) <= |rs|
    ensures Successes(rs) < |rs| <==> exists i :: 0 <= i < |rs| && rs[i].Fault?
  {
    if rs != [] {
      SuccessesBounded(rs[..|rs| - 1]);
      assert forall i :: 0 <= i < |rs| - 1 ==> rs[..|rs| - 1][i] == rs[i];
    }
  }

  /** The successful answers, order forgotten. */
  function Bodies(rs: seq<Answer>): multiset<Answer> {
    if rs == [] then multiset{}
    else Bodies(rs[..|rs| - 1]) + (if rs[|rs| - 1].Body? then multiset{rs[|rs| - 1]} else multiset{})
  }

  lemma {:induction false} BodiesExactly(rs: seq<Answer>)
    ensures |Bodies(rs)| == Successes(rs)
    ensures forall x :: Bodies(rs)[x] == if x.Body? then multiset(rs)[x] else 0
  {
    if rs != [] {
      BodiesExactly(rs[..|rs| - 1]);
      assert rs == rs[..|rs| - 1] + [rs[|rs| - 1]];
    }
  }

  /** The number of successes does not depend on the order of arrival. */
  lemma OrderIrrelevant(a: seq<Answer>, b: seq<Answer>)
    requires multiset(a) == multiset(b)
    ensures Successes(a) == Successes(b)
  {
    BodiesExactly(a);
    BodiesExactly(b);
    assert Bodies(a) == Bodies(b);
  }

  /** The cause of the last failed answer. */
  function LastFault(rs: seq<Answer>): Option<string> {
    if rs == [] then None
    else if rs[|rs| - 1].Fault? then Some(rs[|rs| - 1].cause)
    else LastFault(rs[..|rs| - 1])
  }

  lemma {:induction false} FaultRecorded(rs: seq<Answer>)
    ensures LastFault(rs).Some? <==> Successes(rs) < |rs|
  {
    SuccessesBounded(rs);
    if rs != [] {
      FaultRecorded(rs[..|rs| - 1]);
      SuccessesBounded(rs[..|rs| - 1]);
    }
  }

  /** The first rule that is broken, in the order in which they stand. */
  lemma RejectedExactly(cfg: Config)
    ensures Reject(cfg) == Some(NoNodes) <==> cfg.nodes == []
    ensures Reject(cfg) == Some(NoOrg) <==> cfg.nodes != [] && cfg.org == ""
    ensures Reject(cfg) == Some(ThresholdTooSmall) <==> cfg.nodes != [] && cfg.org != "" && cfg.threshold <= 0
    ensures Reject(cfg) == Some(ThresholdTooLarge) <==> cfg.org != "" && 0 < |cfg.nodes| < cfg.threshold
  {
  }

  /** The cause that is kept is that of the failed answer that arrived last. */
  lemma {:induction false} LastFaultExactly(rs: seq<Answer>, i: nat)
    requires i < |rs| && rs[i].Fault? && forall j :: i < j < |rs| ==> rs[j].Body?
    ensures LastFault(rs) == Some(rs[i].cause)
  {
    if i < |rs| - 1 {
      LastFaultExactly(rs[..|rs| - 1], i);
    }
  }

  /** What the rules are for: a configuration is accepted iff it names an organisation and
      asks for at least one node, and then no call can fail without a recorded cause. That
      is as much as to say that the threshold does not exceed the number of nodes. */
  lemma AcceptedConfig(cfg: Config)
    ensures Reject(cfg).None? <==>
      && cfg.org != "" && |cfg.nodes| > 0 && cfg.threshold >= 1
      && forall rs :: |rs| == |cfg.nodes| && Successes(rs) < cfg.threshold ==> LastFault(rs).Some?
    ensures Reject(cfg).None? <==> cfg.org != "" && 1 <= cfg.threshold <= |cfg.nodes|
  {
    forall rs | |rs| == |cfg.nodes| && Successes(rs) < cfg.threshold <= |cfg.nodes| ensures LastFault(rs).Some? {
      FaultRecorded(rs);
    }
    if cfg.threshold > |cfg.nodes| {
      var rs := seq(|cfg.nodes|, _ => Body([]));
      SuccessesBounded(rs);
      FaultRecorded(rs);
      assert |rs| == |cfg.nodes| && Successes(rs) < cfg.threshold && LastFault(rs).None?;
    }
  }

  /** The body of the first successful answer. */
  function FirstBody(rs: seq<Answer>): Option<Bytes> {
    if rs == [] then None
    else
      var before := FirstBody(rs[..|rs| - 1]);
      if before.Some? then before
      else if rs[|rs| - 1].Body? then Some(rs[|rs| - 1].bytes)
      else None
  }

  /** The body that is kept is that of the successful answer that arrived first. */
  lemma {:induction false} FirstBodyExactly(rs: seq<Answer>, i: nat)
    requires i < |rs| && rs[i].Body? && forall j :: 0 <= j < i ==> rs[j].Fault?
    ensures FirstBody(rs) == Some(rs[i].bytes)
  {
    if i < |rs| - 1 {
      FirstBodyExactly(rs[..|rs| - 1], i);
    } else {
      NoBodyYet(rs[..|rs| - 1]);
    }
  }

  lemma {:induction false} NoBodyYet(rs: seq<Answer>)
    requires forall j :: 0 <= j < |rs| ==> rs[j].Fault?
    ensures FirstBody(rs).None?
  {
    if rs != [] {
      NoBodyYet(rs[..|rs| - 1]);
    }
  }

  lemma {:induction false} FirstBodyOfPrefix(a: seq<Answer>, b: seq<Answer>)
    requires FirstBody(a).Some?
    ensures FirstBody(a + b) == FirstBody(a)
  {
    if b == [] {
      assert a + b == a;
    } else {
      assert (a + b)[..|a + b| - 1] == a + b[..|b| - 1];
      FirstBodyOfPrefix(a, b[..|b| - 1]);
    }
  }

  /** The collecting loop of `broadcastPost`, and of the DELETE broadcast. */
  method Broadcast(arrivals: seq<Answer>, threshold: nat) returns (r: Outcome<()>)
    ensures r.Ok? <==> Successes(arrivals) >= threshold
    ensures r.Err? ==> r.successes == Successes(arrivals) && r.lastErr == LastFault(arrivals)
    ensures r.Err? && threshold <= |arrivals| ==> r.lastErr.Some?
  {
    var successes: nat := 0;
    var lastErr: Option<string> := None;
    for i := 0 to |arrivals|
      invariant successes == Successes(arrivals[..i]) && lastErr == LastFault(arrivals[..i])
    {
      assert arrivals[..i + 1][..i] == arrivals[..i];
      match arrivals[i] {
        case Fault(cause) => lastErr := Some(cause);
        case Body(_) => successes := successes + 1;
      }
    }
    assert arrivals[..|arrivals|] == arrivals;
    FaultRecorded(arrivals);
    if successes < threshold {
      return Err(successes, lastErr);
    }
    return Ok(());
  }

  /** What is read first settles the successes from below and the first body for good. */
  lemma PrefixDecides(arrivals: seq<Answer>, n: nat)
    requires n <= |arrivals|
    ensures Successes(arrivals[..n]) <= Successes(arrivals)
    ensures FirstBody(arrivals[..n]).Some? ==> FirstBody(arrivals) == FirstBody(arrivals[..n])
  {
    assert arrivals == arrivals[..n] + arrivals[n..];
    SuccessesConcat(arrivals[..n], arrivals[n..]);
    if FirstBody(arrivals[..n]).Some? {
      FirstBodyOfPrefix(arrivals[..n], arrivals[n..]);
    }
  }

  /** Where a quorum read stops: at the answer that completes the quorum, or at the end. */
  predicate StopsAt(arrivals: seq<Answer>, threshold: nat, n: nat) {
    && n <= |arrivals|
    && (n > 0 ==> Successes(arrivals[..n - 1]) < threshold)
    && (n == |arrivals| || Successes(arrivals[..n]) >= threshold)
  }

  /** More answers are never fewer successes. */
  lemma SuccessesGrow(rs: seq<Answer>, m: nat, n: nat)
    requires m <= n <= |rs|
    ensures Successes(rs[..m]) <= Successes(rs[..n])
  {
    assert rs[..n] == rs[..m] + rs[m..n];
    SuccessesConcat(rs[..m], rs[m..n]);
  }

  /** There is only one such place. */
  lemma StopsOnce(arrivals: seq<Answer>, threshold: nat, m: nat, n: nat)
    requires StopsAt(arrivals, threshold, m) && StopsAt(arrivals, threshold, n)
    ensures m == n
  {
    if m < n {
      SuccessesGrow(arrivals, m, n - 1);
    }
    if n < m {
      SuccessesGrow(arrivals, n, m - 1);
    }
  }

  /** The collecting loop of `quorumGet`. `arrivals` is what would arrive if it waited for
      everybody, `used` how many answers it looked at before returning. */
  method QuorumGet(arrivals: seq<Answer>, threshold: nat) returns (r: Outcome<Bytes>, used: nat)
    requires 1 <= threshold
    ensures r.Ok? <==> Successes(arrivals) >= threshold
    ensures r.Ok? ==> FirstBody(arrivals) == Some(r.value)
    ensures StopsAt(arrivals, threshold, used)
    ensures r.Ok? ==> Successes(arrivals[..used]) == threshold
    ensures r.Err? ==> used == |arrivals| && r.successes == Successes(arrivals) && r.lastErr == LastFault(arrivals)
    ensures r.Err? && threshold <= |arrivals| ==> r.lastErr.Some?
  {
    var successes: nat := 0;
    var firstBody: Option<Bytes> := None;
    var lastErr: Option<string> := None;
    used := 0;
    while used < |arrivals|
      invariant used <= |arrivals| && (used > 0 ==> Successes(arrivals[..used - 1]) < threshold)
      invariant successes == Successes(arrivals[..used]) < threshold
      invariant firstBody == FirstBody(arrivals[..used]) && lastErr == LastFault(arrivals[..used])
    {
      var a := arrivals[used];
      assert arrivals[..used + 1][..used] == arrivals[..used];
      used := used + 1;
      if a.Fault? {
        lastErr := Some(a.cause);
        continue;
      }
      successes := successes + 1;
      if firstBody.None? {
        firstBody := Some(a.bytes);
      }
      if successes >= threshold {
        PrefixDecides(arrivals, used);
        return Ok(firstBody.value), used;
      }
    }
    assert arrivals[..|arrivals|] == arrivals;
    FaultRecorded(arrivals);
    return Err(successes, lastErr), used;
  }

  /** Returning early never changes the verdict: whatever the unread answers turn out to be
      (cancelling them may even turn them into failures), the quorum is already there. */
  lemma EarlyVerdictStands(read: seq<Answer>, unread: seq<Answer>, other: seq<Answer>, threshold: nat)
    requires Successes(read) >= threshold
    ensures Successes(read + unread) >= threshold && Successes(read + other) >= threshold
  {
    SuccessesConcat(read, unread);
    SuccessesConcat(read, other);
  }

  // ----- workers, channel and collector -----

  datatype Arrival = Arrival(node: nat, ans: Answer)

  /** One threshold call: `sent` says which workers have sent, `buf` is the channel, `got`
      what the collector has received. `early` tells a quorum read from a broadcast. */
  datatype Call = Call(threshold: nat, early: bool, sent: seq<bool>, buf: seq<Arrival>, got: seq<Arrival>, done: bool)

  datatype Choice = Finish(i: nat, ans: Answer) | Receive

  function Begin(n: nat, threshold: nat, early: bool): Call {
    Call(threshold, early, seq(n, _ => false), [], [], false)
  }

  function Answers(got: seq<Arrival>): (rs: seq<Answer>)
    ensures |rs| == |got|
  {
    if got == [] then [] else Answers(got[..|got| - 1]) + [got[|got| - 1].ans]
  }

  /** A worker's send goes through at once iff the channel, of one slot per node, has room. */
  predicate CanSend(s: Call, i: nat) {
    i < |s.sent| && !s.sent[i] && |s.buf| < |s.sent|
  }

  function Apply(s: Call, c: Choice): Call {
    match c
    case Finish(i, ans) =>
      if CanSend(s, i) then s.(sent := s.sent[i := true], buf := s.buf + [Arrival(i, ans)]) else s
    case Receive =>
      if s.done || s.buf == [] then s
      else
        var got := s.got + [s.buf[0]];
        s.(buf := s.buf[1..], got := got,
           done := |got| == |s.sent| || (s.early && Successes(Answers(got)) >= s.threshold))
  }

  function Exec(s: Call, cs: seq<Choice>): Call
    decreases cs
  {
    if cs == [] then s else Exec(Apply(s, cs[0]), cs[1..])
  }

  function Sent(bs: seq<bool>): nat {
    if bs == [] then 0 else (if bs[0] then 1 else 0) + Sent(bs[1..])
  }

  lemma {:induction false} SentUpdate(bs: seq<bool>, i: nat)
    requires i < |bs| && !bs[i]
    ensures Sent(bs[i := true]) == Sent(bs) + 1 && Sent(bs) < |bs|
  {
    if i == 0 {
      assert bs[0 := true][1..] == bs[1..];
      SentBound(bs[1..]);
    } else {
      SentUpdate(bs[1..], i - 1);
      assert bs[i := true][1..] == bs[1..][i - 1 := true];
    }
  }

  lemma {:induction false} SentBound(bs: seq<bool>)
    ensures Sent(bs) <= |bs|
    ensures Sent(bs) < |bs| <==> exists i :: 0 <= i < |bs| && !bs[i]
  {
    if bs != [] {
      SentBound(bs[1..]);
      assert forall i :: 1 <= i < |bs| ==> bs[i] == bs[1..][i - 1];
      assert (exists i :: 0 <= i < |bs| && !bs[i]) <==> !bs[0] || exists i :: 0 <= i < |bs[1..]| && !bs[1..][i];
    }
  }

  predicate Inv(s: Call) {
    var all := s.got + s.buf;
    && |all| == Sent(s.sent)
    && (forall n :: 0 <= n < |all| ==> all[n].node < |s.sent| && s.sent[all[n].node])
    && (forall m, n :: 0 <= m < n < |all| ==> all[m].node != all[n].node)
    && (s.done ==> |s.got| == |s.sent| || (s.early && Successes(Answers(s.got)) >= s.threshold))
    && (!s.done && s.got != [] ==> |s.got| < |s.sent| && (s.early ==> Successes(Answers(s.got)) < s.threshold))
  }

  lemma FinishKeepsInv(s: Call, i: nat, ans: Answer)
    requires Inv(s) && CanSend(s, i)
    ensures Inv(Apply(s, Finish(i, ans)))
  {
    var t := Apply(s, Finish(i, ans));
    SentUpdate(s.sent, i);
    assert t.got + t.buf == (s.got + s.buf) + [Arrival(i, ans)];
  }

  lemma ReceiveKeepsInv(s: Call)
    requires Inv(s) && !s.done && s.buf != []
    ensures Inv(Apply(s, Receive))
  {
    var t := Apply(s, Receive);
    assert t.got + t.buf == s.got + s.buf;
    SentBound(s.sent);
  }

  lemma StepKeepsInv(s: Call, c: Choice)
    requires Inv(s)
    ensures Inv(Apply(s, c))
  {
    match c
    case Finish(i, ans) =>
      if CanSend(s, i) {
        FinishKeepsInv(s, i, ans);
      }
    case Receive =>
      if !s.done && s.buf != [] {
        ReceiveKeepsInv(s);
      }
  }

  lemma {:induction false} SentNone(n: nat)
    ensures Sent(seq(n, _ => false)) == 0
  {
    if n > 0 {
      SentNone(n - 1);
      assert seq(n, _ => false)[1..] == seq(n - 1, _ => false);
    }
  }

  lemma {:induction false} RunKeepsInv(s: Call, cs: seq<Choice>)
    requires Inv(s)
    ensures Inv(Exec(s, cs))
    decreases cs
  {
    if cs != [] {
      StepKeepsInv(s, cs[0]);
      RunKeepsInv(Apply(s, cs[0]), cs[1..]);
    }
  }

  lemma BeginInv(n: nat, threshold: nat, early: bool)
    ensures Inv(Begin(n, threshold, early))
  {
    SentNone(n);
  }

  /** In every run no worker ever blocks on its send, also after an early return, and a
      collector that has not finished always has something to receive or to wait for. */
  lemma NobodyBlocks(n: nat, threshold: nat, early: bool, cs: seq<Choice>, i: nat)
    ensures var s := Exec(Begin(n, threshold, early), cs);
      && (i < |s.sent| && !s.sent[i] ==> CanSend(s, i))
      && (n > 0 && !s.done && s.buf == [] ==> exists j :: 0 <= j < |s.sent| && !s.sent[j])
  {
    BeginInv(n, threshold, early);
    RunKeepsInv(Begin(n, threshold, early), cs);
    SentLength(Begin(n, threshold, early), cs);
    var s := Exec(Begin(n, threshold, early), cs);
    SentBound(s.sent);
    assert |s.got + s.buf| == |s.got| + |s.buf|;
  }

  /** In every run that has finished: a broadcast has heard every node exactly once; a read
      has either a quorum or has heard every node; and with a threshold that `NewClient`
      accepts, a failure has a recorded cause. */
  lemma FinishedVerdict(n: nat, threshold: nat, early: bool, cs: seq<Choice>)
    requires Exec(Begin(n, threshold, early), cs).done
    ensures var s := Exec(Begin(n, threshold, early), cs);
      && (!early || Successes(Answers(s.got)) < threshold ==> |s.got| == n)
      && (forall m, k :: 0 <= m < k < |s.got| ==> s.got[m].node != s.got[k].node)
      && (forall m :: 0 <= m < |s.got| ==> s.got[m].node < n)
      && (Successes(Answers(s.got)) < threshold <= n ==> LastFault(Answers(s.got)).Some?)
  {
    BeginInv(n, threshold, early);
    RunKeepsInv(Begin(n, threshold, early), cs);
    SentLength(Begin(n, threshold, early), cs);
    var s := Exec(Begin(n, threshold, early), cs);
    assert forall m :: 0 <= m < |s.got| ==> s.got[m] == (s.got + s.buf)[m];
    FaultRecorded(Answers(s.got));
  }

  lemma {:induction false} SentLength(s: Call, cs: seq<Choice>)
    ensures var t := Exec(s, cs); |t.sent| == |s.sent| && t.threshold == s.threshold && t.early == s.early
    decreases cs
  {
    if cs != [] {
      SentLength(Apply(s, cs[0]), cs[1..]);
    }
  }

  function LastButOne(got: seq<Arrival>): seq<Arrival> {
    if got == [] then [] else got[..|got| - 1]
  }

  /** A quorum read has not had its quorum before the answer it received last. */
  predicate NotBefore(s: Call) {
    && Successes(Answers(LastButOne(s.got))) < s.threshold
    && (!s.done ==> Successes(Answers(s.got)) < s.threshold)
  }

  lemma StepKeepsNotBefore(s: Call, c: Choice)
    requires NotBefore(s) && s.early
    ensures NotBefore(Apply(s, c))
  {
    if c.Receive? && !s.done && s.buf != [] {
      assert LastButOne(Apply(s, c).got) == s.got;
    }
  }

  lemma {:induction false} RunKeepsNotBefore(s: Call, cs: seq<Choice>)
    requires NotBefore(s) && s.early
    ensures NotBefore(Exec(s, cs))
    decreases cs
  {
    if cs != [] {
      StepKeepsNotBefore(s, cs[0]);
      RunKeepsNotBefore(Apply(s, cs[0]), cs[1..]);
    }
  }

  /** The loop and the system agree: in every run of a quorum read that has finished, the loop
      over what was received, followed by whatever the nodes that were not waited for would
      have answered, stops exactly where the collector stopped. */
  lemma LoopStopsWhereReadStops(n: nat, threshold: nat, cs: seq<Choice>, rest: seq<Answer>)
    requires 1 <= threshold
    requires var s := Exec(Begin(n, threshold, true), cs); s.done && |s.got| + |rest| == n
    ensures var got := Exec(Begin(n, threshold, true), cs).got;
      StopsAt(Answers(got) + rest, threshold, |got|)
  {
    var s := Exec(Begin(n, threshold, true), cs);
    RunKeepsNotBefore(Begin(n, threshold, true), cs);
    SentLength(Begin(n, threshold, true), cs);
    FinishedVerdict(n, threshold, true, cs);
    StopsInPrefix(s.got, rest, threshold);
  }

  lemma Cuts<T>(a: seq<T>, x: T, rest: seq<T>)
    ensures (a + [x] + rest)[..|a|] == a && (a + [x] + rest)[..|a| + 1] == a + [x]
  {
  }

  lemma {:induction false} StopsInPrefix(got: seq<Arrival>, rest: seq<Answer>, threshold: nat)
    requires Successes(Answers(LastButOne(got))) < threshold
    requires rest == [] || Successes(Answers(got)) >= threshold
    ensures StopsAt(Answers(got) + rest, threshold, |got|)
  {
    if got != [] {
      Cuts(Answers(LastButOne(got)), got[|got| - 1].ans, rest);
    }
  }

  // ----- quorums overlap -----

  /** The nodes whose successful answers the collector has received. */
  function Acked(got: seq<Arrival>): set<nat> {
    if got == [] then {}
    else Acked(got[..|got| - 1]) + (if got[|got| - 1].ans.Body? then {got[|got| - 1].node} else {})
  }

  lemma {:induction false} AckedCount(got: seq<Arrival>, n: nat)
    requires forall m :: 0 <= m < |got| ==> got[m].node < n
    requires forall m, k :: 0 <= m < k < |got| ==> got[m].node != got[k].node
    ensures |Acked(got)| == Successes(Answers(got))
    ensures forall x :: x in Acked(got) ==> x < n && exists m :: 0 <= m < |got| && got[m].node == x
  {
    if got != [] {
      var last := |got| - 1;
      var before := got[..last];
      AckedCount(before, n);
      assert Answers(got)[..last] == Answers(before);
      assert got[last].node !in Acked(before);
    }
  }

  lemma Pigeonhole(a: set<nat>, b: set<nat>, n: nat)
    requires forall x :: x in a ==> x < n
    requires forall x :: x in b ==> x < n
    requires |a| + |b| > n
    ensures a * b != {}
  {
    SmallSet(a + b, n);
    assert |a + b| == |a| + |b| - |a * b|;
  }

  lemma {:induction false} SmallSet(a: set<nat>, n: nat)
    requires forall x :: x in a ==> x < n
    ensures |a| <= n
  {
    if n == 0 {
      assert a == {};
    } else {
      SmallSet(a - {n - 1}, n - 1);
    }
  }

  lemma FinishedQuorum(n: nat, threshold: nat, early: bool, cs: seq<Choice>)
    requires var s := Exec(Begin(n, threshold, early), cs); Successes(Answers(s.got)) >= threshold
    ensures var acked := Acked(Exec(Begin(n, threshold, early), cs).got);
      |acked| >= threshold && forall x :: x in acked ==> x < n
  {
    var s := Exec(Begin(n, threshold, early), cs);
    BeginInv(n, threshold, early);
    RunKeepsInv(Begin(n, threshold, early), cs);
    SentLength(Begin(n, threshold, early), cs);
    assert forall m :: 0 <= m < |s.got| ==> s.got[m] == (s.got + s.buf)[m];
    AckedCount(s.got, n);
  }

  /** With a threshold of more than half the nodes, the nodes that acknowledged a successful
      broadcast and those that made up a successful read have one in common, however the
      two runs went. */
  lemma QuorumsOverlap(n: nat, threshold: nat, write: seq<Choice>, read: seq<Choice>)
    requires 2 * threshold > n
    requires var w := Exec(Begin(n, threshold, false), write); w.done && Successes(Answers(w.got)) >= threshold
    requires var r := Exec(Begin(n, threshold, true), read); r.done && Successes(Answers(r.got)) >= threshold
    ensures Acked(Exec(Begin(n, threshold, false), write).got) * Acked(Exec(Begin(n, threshold, true), read).got) != {}
  {
    FinishedQuorum(n, threshold, false, write);
    FinishedQuorum(n, threshold, true, read);
    Pigeonhole(Acked(Exec(Begin(n, threshold, false), write).got), Acked(Exec(Begin(n, threshold, true), read).got), n);
  }
}
