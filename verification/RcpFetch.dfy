/**
 The camera data fetch with its three-strikes suppression: one pass over the twelve
 commands, and what the strike counters mean over any sequence of passes.
 */
module RcpFetch {
  import opened Wrappers
  import opened Bytes
  import opened RcpCodecs
  import RcpBodies
  import RcpDecodeLaws
  import RcpReply

  /** The commands in the order in which a pass reads them. */
  const ORDER: seq<Command> := [Dimmer, Privacy, Clock, LanIp, ProductName, Bitrate, AlarmCatalog,
                                MotionZones, MotionCoords, TlsCert, NetworkServices, IvaCatalog]

  const STRIKES: nat := 3

  /** How one read goes: an exception `rcp_read` does not catch, or an HTTP reply. */
  datatype ReadOutcome = Raises | Replied(reply: RcpReply.Reply)

  /** A pass: no session could be opened, or a reply for each command, should it be read. */
  datatype Pass = NoSession | Session(outcome: Command -> ReadOutcome)

  function Strikes(failures: map<Command, nat>, cmd: Command): nat {
    if cmd in failures then failures[cmd] else 0
  }

  /** The verdict on one read, None when the exception skips both counters. */
  function VerdictOf(cmd: Command, outcome: ReadOutcome, up: nat -> bool): Option<Verdict> {
    match outcome
    case Raises => None
    case Replied(reply) => Some(Decode(cmd, RcpReply.CloudRead(reply), up))
  }

  /** An answer that carries these bytes as hex in the str tag. */
  function StrReply(raw: seq<byte>, upper: bool): RcpReply.Reply {
    RcpReply.Http(200, Ascii("<str>") + (ToHex(raw, upper) + Ascii("</str>")))
  }

  /** The verdict on such an answer is that on its bytes. */
  lemma StrIsDecoded(cmd: Command, raw: seq<byte>, upper: bool, up: nat -> bool)
    requires raw != []
    ensures VerdictOf(cmd, Replied(StrReply(raw, upper)), up) == Some(Decode(cmd, Some(raw), up))
  {
    var open, close := Ascii("<str>"), Ascii("</str>");
    RcpBodies.StrIsRead([], open, raw, upper, close, []);
    assert close + [] == close;
    assert [] + (open + (ToHex(raw, upper) + (close + []))) == open + (ToHex(raw, upper) + close);
  }

  /** The privacy read of a pass is answered by the bytes `a`, `b` and more, `a` no white space and no `<`. */
  predicate PrivacySent(pass: Pass, a: byte, b: byte, rest: seq<byte>, upper: bool) {
    pass.Session? && RcpDecodeLaws.IsPlain(a) && pass.outcome(Privacy) == Replied(StrReply([a, b] + rest, upper))
  }

  lemma PrivacyIsRead(pass: Pass, a: byte, b: byte, rest: seq<byte>, upper: bool, up: nat -> bool)
    requires PrivacySent(pass, a, b, rest, upper)
    ensures VerdictOf(Privacy, pass.outcome(Privacy), up) == Some(Accepted(Number(b)))
  {
    StrIsDecoded(Privacy, [a, b] + rest, upper, up);
    RcpDecodeLaws.PrivacyIsTheSecondByte(a, b, rest, up);
  }

  predicate Accepts(verdict: Option<Verdict>) {
    verdict.Some? && verdict.value.Accepted?
  }

  /** The strike count after one read. */
  function Counted(count: nat, verdict: Option<Verdict>): nat {
    match verdict
    case Some(Accepted(_)) => 0
    case Some(Rejected) => count + 1
    case _ => count
  }

  /** A pass reads a command unless it has no session or the command has three strikes. */
  predicate ReadsIn(count: nat, pass: Pass) {
    pass.Session? && count < STRIKES
  }

  function NextCount(count: nat, cmd: Command, pass: Pass, up: nat -> bool): nat {
    if ReadsIn(count, pass) then Counted(count, VerdictOf(cmd, pass.outcome(cmd), up)) else count
  }

  /** The strike count of a command after a sequence of passes. */
  function CountAfter(cmd: Command, passes: seq<Pass>, up: nat -> bool): nat {
    if passes == [] then 0
    else NextCount(CountAfter(cmd, passes[..|passes| - 1], up), cmd, passes[|passes| - 1], up)
  }

  /** The counters of one camera, as the passes update them; `up` is the rounding of ties. */
  class Poller {
    const up: nat -> bool
    var cmdFailures: map<Command, nat>
    ghost var passes: seq<Pass>

    /** The stored counts are 1 to 3 and are those of the passes made so far. */
    ghost predicate Valid() reads this {
      && (forall cmd | cmd in cmdFailures :: 1 <= cmdFailures[cmd] <= 3)
      && (forall cmd :: Strikes(cmdFailures, cmd) == CountAfter(cmd, passes, up))
    }

    constructor (up: nat -> bool)
      ensures cmdFailures == map[] && passes == [] && this.up == up && Valid()
    {
      cmdFailures, passes, this.up := map[], [], up;
    }

    /** `_skip`. */
    predicate Skips(cmd: Command) reads this {
      Strikes(cmdFailures, cmd) >= STRIKES
    }

    /** `_mark_fail`. */
    method MarkFail(cmd: Command)
      modifies this`cmdFailures
      ensures cmdFailures == old(cmdFailures)[cmd := Strikes(old(cmdFailures), cmd) + 1]
    {
      cmdFailures := cmdFailures[cmd := Strikes(cmdFailures, cmd) + 1];
    }

    /** `_mark_ok`. */
    method MarkOk(cmd: Command)
      modifies this`cmdFailures
      ensures cmdFailures == old(cmdFailures) - {cmd}
    {
      cmdFailures := cmdFailures - {cmd};
    }

    /** The block of one command that is not skipped: the field it sets, and its counter. */
    method ReadCommand(cmd: Command, verdict: Option<Verdict>) returns (field: Option<Value>)
      requires !Skips(cmd)
      requires forall c | c in cmdFailures :: 1 <= cmdFailures[c] <= 3
      modifies this`cmdFailures
      ensures forall c | c in cmdFailures :: 1 <= cmdFailures[c] <= 3
      ensures forall c | c != cmd :: Strikes(cmdFailures, c) == Strikes(old(cmdFailures), c)
      ensures Strikes(cmdFailures, cmd) == Counted(Strikes(old(cmdFailures), cmd), verdict)
      ensures field == if Accepts(verdict) then Some(verdict.value.value) else None
    {
      field := None;
      if verdict.Some? {
        match verdict.value {
          case Accepted(v) =>
            field := Some(v);
            MarkOk(cmd);
          case Rejected => MarkFail(cmd);
          case Ignored =>
        }
      }
    }

    /** The twelve blocks of one pass, in their order, on the verdicts their reads would give. */
    method ReadAll(verdicts: Command -> Option<Verdict>) returns (fields: map<Command, Value>, log: seq<Command>)
      requires forall c | c in cmdFailures :: 1 <= cmdFailures[c] <= 3
      modifies this`cmdFailures
      ensures forall c | c in cmdFailures :: 1 <= cmdFailures[c] <= 3
      ensures forall cmd :: cmd in log <==> Strikes(old(cmdFailures), cmd) < 3
      ensures forall i, j | 0 <= i < j < |log| :: log[i] != log[j]
      ensures forall cmd :: Strikes(cmdFailures, cmd) ==
                if cmd in log then Counted(Strikes(old(cmdFailures), cmd), verdicts(cmd))
                else Strikes(old(cmdFailures), cmd)
      ensures forall cmd :: cmd in fields <==> cmd in log && Accepts(verdicts(cmd))
      ensures forall cmd | cmd in fields :: verdicts(cmd) == Some(Accepted(fields[cmd]))
    {
      log, fields := [], map[];
      ghost var before := cmdFailures;
      for i := 0 to |ORDER|
        invariant forall cmd | cmd in cmdFailures :: 1 <= cmdFailures[cmd] <= 3
        invariant forall cmd :: cmd in log <==> cmd in ORDER[..i] && Strikes(before, cmd) < 3
        invariant forall k, j | 0 <= k < j < |log| :: log[k] != log[j]
        invariant forall cmd :: Strikes(cmdFailures, cmd) ==
                    if cmd in log then Counted(Strikes(before, cmd), verdicts(cmd)) else Strikes(before, cmd)
        invariant forall cmd :: cmd in fields <==> cmd in log && Accepts(verdicts(cmd))
        invariant forall cmd | cmd in fields :: verdicts(cmd) == Some(Accepted(fields[cmd]))
      {
        var cmd := ORDER[i];
        OrderHasNoRepeats(i);
        assert ORDER[..i + 1] == ORDER[..i] + [cmd];
        if !Skips(cmd) {
          log := log + [cmd];
          var field := ReadCommand(cmd, verdicts(cmd));
          if field.Some? {
            fields := fields[cmd := field.value];
          }
        }
      }
      OrderIsComplete();
      assert ORDER[..|ORDER|] == ORDER;
    }

    /** One pass of `fetch_rcp_camera_data`; `log` is what it read, `data` None without a session. */
    method Fetch(pass: Pass) returns (data: Option<map<Command, Value>>, log: seq<Command>)
      requires Valid()
      modifies this
      ensures Valid() && passes == old(passes) + [pass]
      ensures data.None? <==> pass.NoSession?
      ensures forall cmd :: cmd in log <==> pass.Session? && Strikes(old(cmdFailures), cmd) < 3
      ensures forall i, j | 0 <= i < j < |log| :: log[i] != log[j]
      ensures data.Some? ==> forall cmd :: cmd in data.value <==>
                cmd in log && Accepts(VerdictOf(cmd, pass.outcome(cmd), up))
      ensures data.Some? ==> forall cmd | cmd in data.value ::
                VerdictOf(cmd, pass.outcome(cmd), up) == Some(Accepted(data.value[cmd]))
      ensures forall a: byte, b: byte, rest, upper
                | PrivacySent(pass, a, b, rest, upper) && Strikes(old(cmdFailures), Privacy) < 3 ::
                data.Some? && Get(data.value, Privacy) == Some(Number(b))
    {
      log := [];
      data := None;
      if pass.Session? {
        var fields;
        fields, log := ReadAll(cmd => VerdictOf(cmd, pass.outcome(cmd), up));
        data := Some(fields);
        forall a: byte, b: byte, rest, upper | PrivacySent(pass, a, b, rest, upper) && Privacy in log
          ensures Get(fields, Privacy) == Some(Number(b))
        {
          PrivacyIsRead(pass, a, b, rest, upper, up);
        }
      }
      passes := passes + [pass];
      assert passes[..|passes| - 1] == old(passes);
    }
  }

  lemma OrderHasNoRepeats(i: nat)
    requires i < |ORDER|
    ensures ORDER[i] !in ORDER[..i]
  {
  }

  lemma OrderIsComplete()
    ensures forall cmd: Command :: cmd in ORDER
  {
    forall cmd: Command ensures cmd in ORDER {
      match cmd
      case Dimmer => assert ORDER[0] == cmd;
      case Privacy => assert ORDER[1] == cmd;
      case Clock => assert ORDER[2] == cmd;
      case LanIp => assert ORDER[3] == cmd;
      case ProductName => assert ORDER[4] == cmd;
      case Bitrate => assert ORDER[5] == cmd;
      case AlarmCatalog => assert ORDER[6] == cmd;
      case MotionZones => assert ORDER[7] == cmd;
      case MotionCoords => assert ORDER[8] == cmd;
      case TlsCert => assert ORDER[9] == cmd;
      case NetworkServices => assert ORDER[10] == cmd;
      case IvaCatalog => assert ORDER[11] == cmd;
    }
  }

  // ---- Any sequence of passes that share the counters ----

  /** The verdicts of the reads of a command that the passes made, in order. */
  function ReadsMade(cmd: Command, passes: seq<Pass>, up: nat -> bool): seq<Option<Verdict>> {
    if passes == [] then []
    else
      var front := passes[..|passes| - 1];
      var pass := passes[|passes| - 1];
      ReadsMade(cmd, front, up) +
      if ReadsIn(CountAfter(cmd, front, up), pass) then [VerdictOf(cmd, pass.outcome(cmd), up)] else []
  }

  /** Rejected reads since the last accepted one. */
  function FailuresSinceSuccess(made: seq<Option<Verdict>>): nat {
    if made == [] then 0
    else
      var last := made[|made| - 1];
      if Accepts(last) then 0
      else FailuresSinceSuccess(made[..|made| - 1]) + if last == Some(Rejected) then 1 else 0
  }

  /** Over any sequence of passes a count never exceeds three and is the failures since the last success. */
  lemma {:induction false} CountsAreFailuresSinceSuccess(cmd: Command, passes: seq<Pass>, up: nat -> bool)
    ensures CountAfter(cmd, passes, up) == FailuresSinceSuccess(ReadsMade(cmd, passes, up))
    ensures CountAfter(cmd, passes, up) <= 3
  {
    if passes != [] {
      var front := passes[..|passes| - 1];
      CountsAreFailuresSinceSuccess(cmd, front, up);
      var made := ReadsMade(cmd, passes, up);
      if |made| > |ReadsMade(cmd, front, up)| {
        assert made[..|made| - 1] == ReadsMade(cmd, front, up);
      } else {
        assert made == ReadsMade(cmd, front, up);
      }
    }
  }

  /** A command at three strikes stays there and is never read again. */
  lemma {:induction false} ThreeStrikesAreFinal(cmd: Command, passes: seq<Pass>, more: seq<Pass>, up: nat -> bool)
    requires CountAfter(cmd, passes, up) == 3
    ensures CountAfter(cmd, passes + more, up) == 3
    ensures ReadsMade(cmd, passes + more, up) == ReadsMade(cmd, passes, up)
  {
    if more == [] {
      assert passes + more == passes;
    } else {
      var all := passes + more;
      assert all[..|all| - 1] == passes + more[..|more| - 1];
      ThreeStrikesAreFinal(cmd, passes, more[..|more| - 1], up);
    }
  }

  /**
   A reply that raises nothing is always counted, as a success or a strike, except for a
   too short answer to the motion zones or certificate command.
   */
  lemma RepliesAreCounted(cmd: Command, reply: RcpReply.Reply, up: nat -> bool)
    ensures VerdictOf(cmd, Replied(reply), up) == Some(Ignored) <==>
            && RcpReply.CloudRead(reply).Some?
            && ((cmd == MotionZones && |RcpReply.CloudRead(reply).value| < 28)
                || (cmd == TlsCert && |RcpReply.CloudRead(reply).value| <= 50))
  {
    RcpReply.CloudReadIsNeverEmpty(reply);
    IgnoredIffTooShort(cmd, RcpReply.CloudRead(reply), up);
  }

  // ---- Passes that overlap ----

  /** One counter that several passes share: its count, and the reads of its command that wait for a reply. */
  datatype Shared = Shared(count: nat, waiting: nat)

  /** A read starts right behind its `_skip` test, and its verdict is booked when the reply is in. */
  datatype ReadEvent = Starts | Ends(verdict: Option<Verdict>)

  predicate CanOccur(s: Shared, e: ReadEvent) {
    match e
    case Starts => s.count < STRIKES
    case Ends(_) => s.waiting > 0
  }

  function Occurs(s: Shared, e: ReadEvent): Shared
    requires CanOccur(s, e)
  {
    match e
    case Starts => s.(waiting := s.waiting + 1)
    case Ends(verdict) => Shared(Counted(s.count, verdict), s.waiting - 1)
  }

  ghost predicate IsReadRun(states: seq<Shared>, events: seq<ReadEvent>) {
    && |states| == |events| + 1
    && states[0] == Shared(0, 0)
    && forall i | 0 <= i < |events| :: CanOccur(states[i], events[i]) && states[i + 1] == Occurs(states[i], events[i])
  }

  /** At most `k` passes read the command at the same time. */
  ghost predicate AtMostWaiting(states: seq<Shared>, k: nat) {
    forall i | 0 <= i < |states| :: states[i].waiting <= k
  }

  /** With at most `k` reads at a time a count and the reads in flight are together at most k + 2. */
  lemma {:induction false} OverlapBoundsTheCount(states: seq<Shared>, events: seq<ReadEvent>, k: nat, i: nat)
    requires IsReadRun(states, events) && AtMostWaiting(states, k) && k >= 1 && i < |states|
    ensures states[i].count + states[i].waiting <= k + 2
  {
    if i > 0 {
      OverlapBoundsTheCount(states, events, k, i - 1);
      assert CanOccur(states[i - 1], events[i - 1]);
    }
  }

  lemma OneMoreRead(states: seq<Shared>, events: seq<ReadEvent>, e: ReadEvent) returns (longer: seq<Shared>)
    requires IsReadRun(states, events) && CanOccur(states[|events|], e)
    ensures IsReadRun(longer, events + [e])
    ensures longer == states + [Occurs(states[|events|], e)]
  {
    longer := states + [Occurs(states[|events|], e)];
  }

  /** Two failed reads one after the other, then `n` reads at once. */
  lemma {:induction false} ReadsPileUp(k: nat, n: nat) returns (states: seq<Shared>, events: seq<ReadEvent>)
    requires n <= k && k >= 1
    ensures IsReadRun(states, events) && AtMostWaiting(states, k)
    ensures states[|events|] == Shared(2, n)
  {
    if n == 0 {
      states, events := [Shared(0, 0)], [];
      states := OneMoreRead(states, events, Starts);
      events := [Starts];
      states := OneMoreRead(states, events, Ends(Some(Rejected)));
      events := events + [Ends(Some(Rejected))];
      states := OneMoreRead(states, events, Starts);
      events := events + [Starts];
      states := OneMoreRead(states, events, Ends(Some(Rejected)));
      events := events + [Ends(Some(Rejected))];
    } else {
      states, events := ReadsPileUp(k, n - 1);
      states := OneMoreRead(states, events, Starts);
      events := events + [Starts];
    }
  }

  /** All of them fail. */
  lemma {:induction false} ReadsFail(k: nat, n: nat) returns (states: seq<Shared>, events: seq<ReadEvent>)
    requires n <= k && k >= 1
    ensures IsReadRun(states, events) && AtMostWaiting(states, k)
    ensures states[|events|] == Shared(2 + n, k - n)
  {
    if n == 0 {
      states, events := ReadsPileUp(k, k);
    } else {
      states, events := ReadsFail(k, n - 1);
      states := OneMoreRead(states, events, Ends(Some(Rejected)));
      events := events + [Ends(Some(Rejected))];
    }
  }

  /**
   The promise that a count stops at three holds over all runs in which at most `k`
   passes read the command at the same time if and only if `k` is 1.
   */
  lemma CountStopsAtThreeIffNoOverlap(k: nat)
    requires k >= 1
    ensures (forall states: seq<Shared>, events: seq<ReadEvent>, i: nat
               | IsReadRun(states, events) && AtMostWaiting(states, k) && i < |states| :: states[i].count <= 3)
            <==> k == 1
  {
    if k == 1 {
      forall states: seq<Shared>, events: seq<ReadEvent>, i: nat
        | IsReadRun(states, events) && AtMostWaiting(states, k) && i < |states|
        ensures states[i].count <= 3
      {
        OverlapBoundsTheCount(states, events, k, i);
      }
    } else {
      var states, events := ReadsFail(k, k);
      assert states[|events|].count == 2 + k;
    }
  }
}
