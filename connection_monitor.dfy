/**
 * One pass of the polling loop in scripts/rabbitmq_connection_monitor.py:
 * fetch the connections, project every one (no filter), collect them into
 * `current`, write one timestamped line per tuple of `current - previous`,
 * and replace `previous` by `current`.
 */
module ConnectionMonitor {
  import opened RabbitMQ
  import opened ChangeDetection

  /**
   * The body of the collecting for loop for one connection: project it and
   * add the tuple, which Python can do only when it is hashable.
   */
  function AdmitConnection(connection: Json): (v: Verdict)
    ensures !v.Skip?
    ensures v.Keep? <==> ConnectionToTuple(connection).Success? && Hashable(ConnectionToTuple(connection).value)
    ensures v.Keep? ==> v.t == ConnectionToTuple(connection).value
    ensures ConnectionToTuple(connection).Failure? ==> v == Reject(ConnectionToTuple(connection).error)
  {
    match ConnectionToTuple(connection)
    case Failure(e) => Reject(e)
    case Success(t) => if Hashable(t) then Keep(t) else Reject(Unhashable)
  }

  /**
   * `current` for the given reply: status check, normalisation, iteration and
   * the collecting loop, in that order; the first exception wins.
   */
  function ConnectionPoll(endpoint: string, connectionName: string, reply: Reply): Result<set<Tuple4>> {
    var listing :- GetConnections(endpoint, connectionName, reply);
    var items :- Elements(listing);
    Snapshot(AdmitConnection, items)
  }

  /**
   * No connection is filtered out: the loop succeeds exactly when every
   * connection projects to a hashable tuple, and `current` is then the set of
   * all their projections.
   */
  lemma ConnectionSnapshotIsProjection(items: seq<Json>)
    ensures Snapshot(AdmitConnection, items).Success? <==>
      forall i :: 0 <= i < |items| ==>
        ConnectionToTuple(items[i]).Success? && Hashable(ConnectionToTuple(items[i]).value)
    ensures Snapshot(AdmitConnection, items).Success? ==>
      forall t :: t in Snapshot(AdmitConnection, items).value <==>
        exists x :: x in items && ConnectionToTuple(x) == Success(t)
    ensures Snapshot(AdmitConnection, items).Success? ==>
      forall t :: t in Snapshot(AdmitConnection, items).value ==> Hashable(t)
  {
    SnapshotIsKept(AdmitConnection, items);
    if Snapshot(AdmitConnection, items).Success? {
      forall t ensures t in Snapshot(AdmitConnection, items).value <==>
        exists x :: x in items && ConnectionToTuple(x) == Success(t)
      {
        if exists x :: x in items && ConnectionToTuple(x) == Success(t) {
          var x :| x in items && ConnectionToTuple(x) == Success(t);
          var i :| 0 <= i < |items| && items[i] == x;
          assert !AdmitConnection(items[i]).Reject?;
        }
      }
    }
  }

  class Monitor {
    /** The management API base URL and the optional connection name (--endpoint, --connection). */
    const endpoint: string
    const connectionName: string
    /** The set kept from the last cycle. */
    var previous: set<Tuple4>
    /** Everything written to standard output, one flushed write per element. */
    var output: seq<string>

    constructor (endpoint: string, connectionName: string)
      ensures this.endpoint == endpoint && this.connectionName == connectionName
      ensures previous == {} && output == []
    {
      this.endpoint := endpoint;
      this.connectionName := connectionName;
      previous := {};
      output := [];
    }

    /**
     * One pass of the while loop, stamped `now`, given the HTTP reply. On an
     * exception nothing is written and `previous` is untouched (in the script
     * the exception ends the process). Otherwise the tuples written are those
     * of `current - previous`, each once, and `previous` becomes `current`
     * even when nothing was written. The result is the tuples written, in the
     * order they were written.
     */
    method Cycle(now: string, reply: Reply) returns (r: Result<seq<Tuple4>>)
      modifies this
      ensures ConnectionPoll(endpoint, connectionName, reply).Failure? ==>
        && r == Failure(ConnectionPoll(endpoint, connectionName, reply).error)
        && previous == old(previous) && output == old(output)
      ensures ConnectionPoll(endpoint, connectionName, reply).Success? ==>
        && r.Success?
        && Enumerates(r.value, Added(old(previous), ConnectionPoll(endpoint, connectionName, reply).value))
        && |r.value| == |Added(old(previous), ConnectionPoll(endpoint, connectionName, reply).value)|
        && (forall i :: 0 <= i < |r.value| ==> Hashable(r.value[i]))
        && output == old(output) + Lines(now, r.value)
        && previous == ConnectionPoll(endpoint, connectionName, reply).value
    {
      var listing :- GetConnections(endpoint, connectionName, reply);
      var items :- Elements(listing);
      var current :- Collect(AdmitConnection, items);
      ConnectionSnapshotIsProjection(items);
      assert current == ConnectionPoll(endpoint, connectionName, reply).value;
      var added := Added(previous, current);
      var gone := Removed(previous, current);  // computed by the script, never written
      var emitted, lines := Emit(now, added);
      output := output + lines;
      previous := current;
      r := Success(emitted);
    }
  }

  /** The `current` sets of a run of replies whose polls all succeed, cycle by cycle. */
  function ConnectionSnapshots(endpoint: string, connectionName: string, replies: seq<Reply>): (s: seq<set<Tuple4>>)
    requires forall k :: 0 <= k < |replies| ==> ConnectionPoll(endpoint, connectionName, replies[k]).Success?
    ensures |s| == |replies|
    ensures forall k :: 0 <= k < |replies| ==> s[k] == ConnectionPoll(endpoint, connectionName, replies[k]).value
  {
    seq(|replies|, k requires 0 <= k < |replies| => ConnectionPoll(endpoint, connectionName, replies[k]).value)
  }

  /** The snapshots a run collected are those of the replies it went through. */
  lemma RunSnapshots(endpoint: string, connectionName: string, replies: seq<Reply>, snapshots: seq<set<Tuple4>>)
    requires |snapshots| <= |replies|
    requires forall k :: 0 <= k < |snapshots| ==> ConnectionPoll(endpoint, connectionName, replies[k]) == Success(snapshots[k])
    ensures forall k :: 0 <= k < |snapshots| ==> ConnectionPoll(endpoint, connectionName, replies[..|snapshots|][k]).Success?
    ensures ConnectionSnapshots(endpoint, connectionName, replies[..|snapshots|]) == snapshots
  {
  }

  /**
   * The while loop over a run of replies, pass k stamped `nows[k]`. The run
   * stops at the first poll that raises. Every pass before it writes, each
   * once, the tuples `Changes` reports for that pass; the output grows by
   * exactly their lines, pass after pass; and `previous` ends as the last
   * `current`.
   */
  method Run(m: Monitor, nows: seq<string>, replies: seq<Reply>) returns (written: seq<seq<Tuple4>>)
    requires |nows| == |replies|
    modifies m
    ensures |written| <= |replies|
    ensures forall k :: 0 <= k < |written| ==> ConnectionPoll(m.endpoint, m.connectionName, replies[k]).Success?
    ensures |written| < |replies| ==> ConnectionPoll(m.endpoint, m.connectionName, replies[|written|]).Failure?
    ensures forall k :: 0 <= k < |written| ==>
      Enumerates(written[k], Changes(old(m.previous), ConnectionSnapshots(m.endpoint, m.connectionName, replies[..|written|]))[k])
    ensures Printable(written) && m.output == old(m.output) + RunOutput(nows, written)
    ensures m.previous == if written == [] then old(m.previous)
                          else ConnectionPoll(m.endpoint, m.connectionName, replies[|written| - 1]).value
  {
    ghost var start, before := m.previous, m.output;
    ghost var snapshots: seq<set<Tuple4>> := [];
    written := [];
    while |written| < |replies|
      invariant |written| <= |replies| && |snapshots| == |written|
      invariant forall k :: 0 <= k < |written| ==> ConnectionPoll(m.endpoint, m.connectionName, replies[k]) == Success(snapshots[k])
      invariant Reports(start, snapshots, written)
      invariant m.previous == if snapshots == [] then start else snapshots[|snapshots| - 1]
      invariant Printable(written) && m.output == before + RunOutput(nows, written)
    {
      var ok;
      ok, snapshots, written := Advance(m, nows, replies, start, before, snapshots, written);
      if !ok {
        break;
      }
    }
    RunSnapshots(m.endpoint, m.connectionName, replies, snapshots);
    assert ConnectionSnapshots(m.endpoint, m.connectionName, replies[..|written|]) == snapshots && old(m.previous) == start;
  }

  /** One more successful poll extends the run's record of snapshots. */
  lemma PollsExtend(endpoint: string, connectionName: string, replies: seq<Reply>,
                    snapshots: seq<set<Tuple4>>, current: set<Tuple4>)
    requires |snapshots| < |replies|
    requires forall k :: 0 <= k < |snapshots| ==> ConnectionPoll(endpoint, connectionName, replies[k]) == Success(snapshots[k])
    requires ConnectionPoll(endpoint, connectionName, replies[|snapshots|]) == Success(current)
    ensures forall k :: 0 <= k < |snapshots| + 1 ==>
      ConnectionPoll(endpoint, connectionName, replies[k]) == Success((snapshots + [current])[k])
  {
  }

  /**
   * Pass number `|written|` of `Run`: a `Cycle` on `replies[|written|]`,
   * stamped `nows[|written|]`, with what it wrote and the snapshot it kept
   * appended to the run so far when it succeeds.
   */
  method Advance(m: Monitor, nows: seq<string>, replies: seq<Reply>,
                 ghost start: set<Tuple4>, ghost before: seq<string>,
                 ghost snapshots: seq<set<Tuple4>>, written: seq<seq<Tuple4>>)
    returns (ok: bool, ghost snapshots': seq<set<Tuple4>>, written': seq<seq<Tuple4>>)
    requires |snapshots| == |written| < |replies| == |nows|
    requires forall k :: 0 <= k < |written| ==> ConnectionPoll(m.endpoint, m.connectionName, replies[k]) == Success(snapshots[k])
    requires Reports(start, snapshots, written)
    requires m.previous == if snapshots == [] then start else snapshots[|snapshots| - 1]
    requires Printable(written) && m.output == before + RunOutput(nows, written)
    modifies m
    ensures !ok ==> snapshots' == snapshots && written' == written
    ensures !ok ==> ConnectionPoll(m.endpoint, m.connectionName, replies[|written|]).Failure?
    ensures ok ==> |written'| == |written| + 1
    ensures |written'| <= |replies| && |snapshots'| == |written'|
    ensures forall k :: 0 <= k < |written'| ==> ConnectionPoll(m.endpoint, m.connectionName, replies[k]) == Success(snapshots'[k])
    ensures Reports(start, snapshots', written')
    ensures m.previous == if snapshots' == [] then start else snapshots'[|snapshots'| - 1]
    ensures Printable(written') && m.output == before + RunOutput(nows, written')
  {
    ghost var poll := ConnectionPoll(m.endpoint, m.connectionName, replies[|written|]);
    var r := m.Cycle(nows[|written|], replies[|written|]);
    if r.Failure? {
      return false, snapshots, written;
    }
    PollsExtend(m.endpoint, m.connectionName, replies, snapshots, poll.value);
    ReportsExtend(start, snapshots, written, poll.value, r.value);
    RunOutputSnoc(nows, written, r.value);
    OutputGrows(before, m.output, RunOutput(nows, written), Lines(nows[|written|], r.value), RunOutput(nows, written + [r.value]));
    ok, snapshots', written' := true, snapshots + [poll.value], written + [r.value];
  }

  /**
   * A connection tuple seen, then missing for one cycle, then seen again is
   * written again on its return: `previous` was replaced, not merged.
   */
  method ReappearanceIsWrittenAgain(m: Monitor, now1: string, now2: string, now3: string,
                                    present: Reply, absent: Reply, t: Tuple4)
    returns (third: Result<seq<Tuple4>>)
    requires ConnectionPoll(m.endpoint, m.connectionName, present).Success?
    requires ConnectionPoll(m.endpoint, m.connectionName, absent).Success?
    requires t in ConnectionPoll(m.endpoint, m.connectionName, present).value
    requires t !in ConnectionPoll(m.endpoint, m.connectionName, absent).value
    modifies m
    ensures third.Success? && t in third.value
    ensures Hashable(t) && |third.value| <= |m.output|
    ensures Line(now3, t) in m.output[|m.output| - |third.value|..]
  {
    var first := m.Cycle(now1, present);
    var second := m.Cycle(now2, absent);
    third := m.Cycle(now3, present);
    var j :| 0 <= j < |third.value| && third.value[j] == t;
    assert m.output[|m.output| - |third.value|..] == Lines(now3, third.value);
    assert Lines(now3, third.value)[j] == Line(now3, t);
  }
}
