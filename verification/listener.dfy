/**
 * `APRSListener.run`: the start-up guard, the APRS-IS login that asks the
 * relay for the monitored stations only, and the loop that hands every
 * received packet to `handle_packet` as a task of its own.
 *
 * The packet stream is a parameter: a finite prefix of what the relay
 * delivers. Each task's `submit_check` call is recorded in a multiset,
 * because the tasks run concurrently and complete in no particular order.
 */
module Listener {
  import opened Wrappers
  import opened Aprs
  import opened Strings
  import opened CheckSubmitter
  import opened Classifier

  const APRSIS_PORT: nat := 14580
  /** The login identity; the passcode `-1` logs in receive-only. */
  const APRSIS_USER := "KC1GDW"
  const APRSIS_PASSCODE := "-1"
  /** The APRS-IS budlist filter: pass only packets from the listed callsigns. */
  const BUDLIST_FILTER := "filter b/"

  datatype Connection = Connection(host: string, port: nat, user: string, passcode: string, command: string)

  /**
   * The filter command sent at login, `filter b/<cs1>/<cs2>/...`; `None` for
   * an empty callsign list, where `run` returns without connecting.
   */
  function RelayCommand(callsigns: seq<Callsign>): (command: Option<string>)
    ensures command.None? <==> callsigns == []
    ensures command.Some? ==> BUDLIST_FILTER <= command.value
  {
    if callsigns == [] then None else Some(BUDLIST_FILTER + Join('/', callsigns))
  }

  /** The filter names exactly the given callsigns, in list order. */
  lemma RelayCommandLists(callsigns: seq<Callsign>)
    requires |callsigns| >= 1
    requires forall k :: 0 <= k < |callsigns| ==> '/' !in callsigns[k]
    ensures Split(RelayCommand(callsigns).value[|BUDLIST_FILTER|..], '/') == callsigns
  {
    var command := RelayCommand(callsigns).value;
    assert command[|BUDLIST_FILTER|..] == Join('/', callsigns);
    SplitJoin('/', callsigns);
  }

  /** The check one packet's task submits: one or none. */
  function SubmittedBy(packet: Packet): multiset<CheckResult>
  {
    match HandlePacket(packet)
    case Success(check) => multiset{check}
    case Failure(_) => multiset{}
  }

  /** The checks the tasks of a run of packets submit. */
  function Submitted(packets: seq<Packet>): multiset<CheckResult>
  {
    if |packets| == 0 then multiset{}
    else Submitted(packets[..|packets| - 1]) + SubmittedBy(packets[|packets| - 1])
  }

  /** Whether one packet's task is dropped because `handle_packet` raised: 1 or 0. */
  function DroppedBy(packet: Packet): nat
  {
    if HandlePacket(packet).Failure? then 1 else 0
  }

  /** How many of a run of packets are dropped. */
  function Dropped(packets: seq<Packet>): nat
  {
    if |packets| == 0 then 0
    else Dropped(packets[..|packets| - 1]) + DroppedBy(packets[|packets| - 1])
  }

  datatype Session =
    | NothingToMonitor
    | Monitoring(connection: Connection, submitted: multiset<CheckResult>, dropped: nat)

  /**
   * `run` over the callsigns the backend returned and the packets the relay
   * then delivers: with no callsigns, no connection and no check at all;
   * otherwise one login with the budlist filter, and one task per packet
   * that either submits its check or is dropped.
   */
  method Run(host: string, callsigns: seq<Callsign>, packets: seq<Packet>) returns (session: Session)
    ensures session.NothingToMonitor? <==> callsigns == []
    ensures session.Monitoring? ==>
      session.connection == Connection(host, APRSIS_PORT, APRSIS_USER, APRSIS_PASSCODE, RelayCommand(callsigns).value)
    ensures session.Monitoring? ==> session.submitted == Submitted(packets) && session.dropped == Dropped(packets)
  {
    var command := RelayCommand(callsigns);
    if command.None? {
      return NothingToMonitor;
    }
    var connection := Connection(host, APRSIS_PORT, APRSIS_USER, APRSIS_PASSCODE, command.value);
    var submitted: multiset<CheckResult> := multiset{};
    var dropped := 0;
    var i := 0;
    while i < |packets|
      invariant 0 <= i <= |packets|
      invariant submitted == Submitted(packets[..i])
      invariant dropped == Dropped(packets[..i])
    {
      PrefixStep(packets, i);
      var outcome := HandlePacket(packets[i]);
      if outcome.Success? {
        submitted := submitted + multiset{outcome.value};
      } else {
        dropped := dropped + 1;
      }
      i := i + 1;
    }
    assert packets[..i] == packets;
    session := Monitoring(connection, submitted, dropped);
  }

  /** One more packet adds its own check or drop to those of the packets before it. */
  lemma PrefixStep(packets: seq<Packet>, i: nat)
    requires i < |packets|
    ensures Submitted(packets[..i + 1]) == Submitted(packets[..i]) + SubmittedBy(packets[i])
    ensures Dropped(packets[..i + 1]) == Dropped(packets[..i]) + DroppedBy(packets[i])
  {
    assert packets[..i + 1][..i] == packets[..i];
  }

  /** The tasks are independent: the checks of two runs of packets add up. */
  lemma {:induction false} SubmittedAppend(a: seq<Packet>, b: seq<Packet>)
    ensures Submitted(a + b) == Submitted(a) + Submitted(b)
    decreases |b|
  {
    if |b| == 0 {
      assert a + b == a;
    } else {
      var b' := b[..|b| - 1];
      assert (a + b)[..|a + b| - 1] == a + b';
      assert (a + b)[|a + b| - 1] == b[|b| - 1];
      SubmittedAppend(a, b');
    }
  }

  /** So do the drops. */
  lemma {:induction false} DroppedAppend(a: seq<Packet>, b: seq<Packet>)
    ensures Dropped(a + b) == Dropped(a) + Dropped(b)
    decreases |b|
  {
    if |b| == 0 {
      assert a + b == a;
    } else {
      var b' := b[..|b| - 1];
      assert (a + b)[..|a + b| - 1] == a + b';
      assert (a + b)[|a + b| - 1] == b[|b| - 1];
      DroppedAppend(a, b');
    }
  }

  /** Every packet is either submitted as one check or dropped. */
  lemma {:induction false} SubmittedAccounting(packets: seq<Packet>)
    ensures |Submitted(packets)| + Dropped(packets) == |packets|
  {
    if |packets| > 0 {
      SubmittedAccounting(packets[..|packets| - 1]);
    }
  }

  /** A packet that is dropped leaves the checks of every other packet as they were. */
  lemma DroppedPacketIsIsolated(a: seq<Packet>, p: Packet, b: seq<Packet>)
    requires HandlePacket(p).Failure?
    ensures Submitted(a + [p] + b) == Submitted(a + b)
  {
    SubmittedMiddle(a, p, b);
  }

  /** Taking one packet out of a run takes out its check alone. */
  lemma SubmittedMiddle(before: seq<Packet>, x: Packet, after: seq<Packet>)
    ensures Submitted(before + [x] + after) == Submitted(before + after) + SubmittedBy(x)
  {
    SubmittedAppend(before + [x], after);
    SubmittedAppend(before, [x]);
    SubmittedAppend(before, after);
    assert [x][..0] == [];
  }

  /** ... and its drop alone. */
  lemma DroppedMiddle(before: seq<Packet>, x: Packet, after: seq<Packet>)
    ensures Dropped(before + [x] + after) == Dropped(before + after) + DroppedBy(x)
  {
    DroppedAppend(before + [x], after);
    DroppedAppend(before, [x]);
    DroppedAppend(before, after);
    assert [x][..0] == [];
  }

  lemma SplitAt(qs: seq<Packet>, j: nat)
    requires j < |qs|
    ensures qs == qs[..j] + [qs[j]] + qs[j + 1..]
  {
  }

  lemma MultisetRemoveAt(ps: seq<Packet>, qs: seq<Packet>, j: nat)
    requires multiset(ps) == multiset(qs) && |ps| > 0
    requires j < |qs| && qs[j] == ps[|ps| - 1]
    ensures multiset(ps[..|ps| - 1]) == multiset(qs[..j] + qs[j + 1..])
  {
    var x, init := ps[|ps| - 1], ps[..|ps| - 1];
    var before, after := qs[..j], qs[j + 1..];
    assert ps == init + [x];
    assert qs == before + [x] + after;
    calc {
      multiset(init) + multiset{x};
      multiset(ps);
      multiset(qs);
      multiset(before + after) + multiset{x};
    }
    assert multiset(init) == multiset(init) + multiset{x} - multiset{x};
  }

  /**
   * Which checks a run submits does not depend on the order the packets
   * arrive in, only on which packets arrive.
   */
  lemma {:induction false} SubmittedOrderFree(ps: seq<Packet>, qs: seq<Packet>)
    requires multiset(ps) == multiset(qs)
    ensures Submitted(ps) == Submitted(qs)
    ensures Dropped(ps) == Dropped(qs)
    decreases |ps|
  {
    if |ps| == 0 {
      assert |qs| == |multiset(qs)| == 0;
    } else {
      var x := ps[|ps| - 1];
      assert x in multiset(qs) by {
        assert x in multiset(ps);
      }
      var j :| 0 <= j < |qs| && qs[j] == x;
      MultisetRemoveAt(ps, qs, j);
      var init, before, after := ps[..|ps| - 1], qs[..j], qs[j + 1..];
      SubmittedOrderFree(init, before + after);
      assert Submitted(qs) == Submitted(before + after) + SubmittedBy(x)
          && Dropped(qs) == Dropped(before + after) + DroppedBy(x) by {
        SplitAt(qs, j);
        SubmittedMiddle(before, x, after);
        DroppedMiddle(before, x, after);
      }
    }
  }

  /** Every submitted check is the check of some received packet, for that packet's source. */
  lemma {:induction false} SubmittedFromPackets(packets: seq<Packet>, check: CheckResult)
    requires check in Submitted(packets)
    ensures exists k :: 0 <= k < |packets| && HandlePacket(packets[k]) == Success(check)
    ensures exists k :: 0 <= k < |packets| && packets[k].source == check.callsign
  {
    var init := packets[..|packets| - 1];
    if check in Submitted(init) {
      SubmittedFromPackets(init, check);
      var k :| 0 <= k < |init| && HandlePacket(init[k]) == Success(check);
      assert packets[k] == init[k];
    } else {
      assert HandlePacket(packets[|packets| - 1]) == Success(check);
    }
  }
}
