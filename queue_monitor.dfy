/**
 * One pass of the polling loop in scripts/rabbitmq_queue_monitor.py: fetch
 * the queues, project each one, skip the queues whose name starts with
 * "celery", collect the rest into `current`, write one timestamped line per
 * tuple of `current - previous`, and replace `previous` by `current`.
 */
module QueueMonitor {
  import opened RabbitMQ
  import opened ChangeDetection

  /** Queues whose name starts with this prefix are low-level and never reported. */
  const ExcludedPrefix := "celery"

  /** Python's str.startswith. */
  predicate StartsWith(s: string, prefix: string) {
    |prefix| <= |s| && s[..|prefix|] == prefix
  }

  /** A name the monitor skips: a string that starts with "celery". */
  predicate IsCeleryName(name: Json) {
    name.Str? && StartsWith(name.s, ExcludedPrefix)
  }

  /**
   * The body of the collecting for loop for one queue: project it, call
   * startswith on the name (which must therefore be a string), skip a celery
   * queue, and add the rest, which Python can do only for a hashable tuple.
   * The filter runs before the add, so a celery queue is skipped even when a
   * field of it could not be hashed.
   */
  function AdmitQueue(queue: Json): (v: Verdict)
    ensures v.Keep? <==>
      && QueueToTuple(queue).Success?
      && QueueToTuple(queue).value.0.Str?
      && !IsCeleryName(QueueToTuple(queue).value.0)
      && Hashable(QueueToTuple(queue).value)
    ensures v.Keep? ==> v.t == QueueToTuple(queue).value
    ensures v.Skip? <==> QueueToTuple(queue).Success? && IsCeleryName(QueueToTuple(queue).value.0)
    ensures QueueToTuple(queue).Failure? ==> v == Reject(QueueToTuple(queue).error)
  {
    match QueueToTuple(queue)
    case Failure(e) => Reject(e)
    case Success(t) =>
      if !t.0.Str? then Reject(NoStartsWith)
      else if StartsWith(t.0.s, ExcludedPrefix) then Skip
      else if !Hashable(t) then Reject(Unhashable)
      else Keep(t)
  }

  /**
   * `current` for the given reply: status check, normalisation, iteration and
   * the collecting loop, in that order; the first exception wins.
   */
  function QueuePoll(endpoint: string, queueName: string, reply: Reply): Result<set<Tuple4>> {
    var listing :- GetQueues(endpoint, queueName, reply);
    var items :- Elements(listing);
    Snapshot(AdmitQueue, items)
  }

  /**
   * The loop over the fetched queues succeeds exactly when every queue
   * projects, has a string name and is either a celery queue or hashable;
   * `current` is then the set of the projections of the non-celery queues.
   */
  lemma QueueSnapshotIsFilteredProjection(items: seq<Json>)
    ensures Snapshot(AdmitQueue, items).Success? <==>
      forall i :: 0 <= i < |items| ==>
        && QueueToTuple(items[i]).Success?
        && QueueToTuple(items[i]).value.0.Str?
        && (IsCeleryName(QueueToTuple(items[i]).value.0) || Hashable(QueueToTuple(items[i]).value))
    ensures Snapshot(AdmitQueue, items).Success? ==>
      forall t :: t in Snapshot(AdmitQueue, items).value <==>
        (exists x :: x in items && QueueToTuple(x) == Success(t)) && !IsCeleryName(t.0)
  {
    SnapshotIsKept(AdmitQueue, items);
    if Snapshot(AdmitQueue, items).Success? {
      forall t ensures t in Snapshot(AdmitQueue, items).value <==>
        (exists x :: x in items && QueueToTuple(x) == Success(t)) && !IsCeleryName(t.0)
      {
        if (exists x :: x in items && QueueToTuple(x) == Success(t)) && !IsCeleryName(t.0) {
          var x :| x in items && QueueToTuple(x) == Success(t);
          var i :| 0 <= i < |items| && items[i] == x;
          assert !AdmitQueue(items[i]).Reject?;
        }
      }
    }
  }

  /**
   * A queue whose name starts with "celery" never enters `current`, so it is
   * never reported, whatever its fields do; every tuple in `current` can be
   * written out.
   */
  lemma CeleryQueuesNeverCollected(items: seq<Json>)
    requires Snapshot(AdmitQueue, items).Success?
    ensures forall t :: t in Snapshot(AdmitQueue, items).value ==> Hashable(t) && !IsCeleryName(t.0)
  {
  }

  class Monitor {
    /** The management API base URL and the optional queue name (--endpoint, --queue). */
    const endpoint: string
    const queueName: string
    /** The set kept from the last cycle. */
    var previous: set<Tuple4>
    /** Everything written to standard output, one flushed write per element. */
    var output: seq<string>

    constructor (endpoint: string, queueName: string)
      ensures this.endpoint == endpoint && this.queueName == queueName
      ensures previous == {} && output == []
    {
      this.endpoint := endpoint;
      this.queueName := queueName;
      previous := {};
      output := [];
    }

    /**
     * One pass of the while loop, stamped `now`, given the HTTP reply. On an
     * exception nothing is written and `previous` is untouched (in the script
     * the exception ends the process). Otherwise the tuples written are those
     * of `current - previous`, each once, and `previous` becomes `current`
     * even when nothing was written. The result is the tuples written, in the
     * order they were written.
     */
    method Cycle(now: string, reply: Reply) returns (r: Result<seq<Tuple4>>)
      modifies this
      ensures QueuePoll(endpoint, queueName, reply).Failure? ==>
        && r == Failure(QueuePoll(endpoint, queueName, reply).error)
        && previous == old(previous) && output == old(output)
      ensures QueuePoll(endpoint, queueName, reply).Success? ==>
        && r.Success?
        && Enumerates(r.value, Added(old(previous), QueuePoll(endpoint, queueName, reply).value))
        && |r.value| == |Added(old(previous), QueuePoll(endpoint, queueName, reply).value)|
        && (forall i :: 0 <= i < |r.value| ==> Hashable(r.value[i]) && !IsCeleryName(r.value[i].0))
        && output == old(output) + Lines(now, r.value)
        && previous == QueuePoll(endpoint, queueName, reply).value
    {
      var listing :- GetQueues(endpoint, queueName, reply);
      var items :- Elements(listing);
      var current :- Collect(AdmitQueue, items);
      CeleryQueuesNeverCollected(items);
      assert current == QueuePoll(endpoint, queueName, reply).value;
      var added := Added(previous, current);
      var gone := Removed(previous, current);  // computed by the script, never written
      var emitted, lines := Emit(now, added);
      output := output + lines;
      previous := current;
      r := Success(emitted);
    }
  }

  /** The `current` sets of a run of replies whose polls all succeed, cycle by cycle. */
  function QueueSnapshots(endpoint: string, queueName: string, replies: seq<Reply>): (s: seq<set<Tuple4>>)
    requires forall k :: 0 <= k < |replies| ==> QueuePoll(endpoint, queueName, replies[k]).Success?
    ensures |s| == |replies|
    ensures forall k :: 0 <= k < |replies| ==> s[k] == QueuePoll(endpoint, queueName, replies[k]).value
  {
    seq(|replies|, k requires 0 <= k < |replies| => QueuePoll(endpoint, queueName, replies[k]).value)
  }

  /** The snapshots a run collected are those of the replies it went through. */
  lemma RunSnapshots(endpoint: string, queueName: string, replies: seq<Reply>, snapshots: seq<set<Tuple4>>)
    requires |snapshots| <= |replies|
    requires forall k :: 0 <= k < |snapshots| ==> QueuePoll(endpoint, queueName, replies[k]) == Success(snapshots[k])
    ensures forall k :: 0 <= k < |snapshots| ==> QueuePoll(endpoint, queueName, replies[..|snapshots|][k]).Success?
    ensures QueueSnapshots(endpoint, queueName, replies[..|snapshots|]) == snapshots
  {
  }

  /**
   * The while loop over a run of replies, pass k stamped `nows[k]`. The run
   * stops at the first poll that raises. Every pass before it writes, each
   * once, the tuples `Changes` reports for that pass; the output grows by
   * exactly their lines, pass after pass; and `previous` ends as the last
   * `current`.
   */
  method Run(m: Monitor, nows: seq<string>, replies: seq<Reply>) returns (written: seq<seq<Tuple4>>)
    requires |nows| == |replies|
    modifies m
    ensures |written| <= |replies|
    ensures forall k :: 0 <= k < |written| ==> QueuePoll(m.endpoint, m.queueName, replies[k]).Success?
    ensures |written| < |replies| ==> QueuePoll(m.endpoint, m.queueName, replies[|written|]).Failure?
    ensures forall k :: 0 <= k < |written| ==>
      Enumerates(written[k], Changes(old(m.previous), QueueSnapshots(m.endpoint, m.queueName, replies[..|written|]))[k])
    ensures Printable(written) && m.output == old(m.output) + RunOutput(nows, written)
    ensures m.previous == if written == [] then old(m.previous)
                          else QueuePoll(m.endpoint, m.queueName, replies[|written| - 1]).value
  {
    ghost var start, before := m.previous, m.output;
    ghost var snapshots: seq<set<Tuple4>> := [];
    written := [];
    while |written| < |replies|
      invariant |written| <= |replies| && |snapshots| == |written|
      invariant forall k :: 0 <= k < |written| ==> QueuePoll(m.endpoint, m.queueName, replies[k]) == Success(snapshots[k])
      invariant Reports(start, snapshots, written)
      invariant m.previous == if snapshots == [] then start else snapshots[|snapshots| - 1]
      invariant Printable(written) && m.output == before + RunOutput(nows, written)
    {
      var ok;
      ok, snapshots, written := Advance(m, nows, replies, start, before, snapshots, written);
      if !ok {
        break;
      }
    }
    RunSnapshots(m.endpoint, m.queueName, replies, snapshots);
    assert QueueSnapshots(m.endpoint, m.queueName, replies[..|written|]) == snapshots && old(m.previous) == start;
  }

  /** One more successful poll extends the run's record of snapshots. */
  lemma PollsExtend(endpoint: string, queueName: string, replies: seq<Reply>,
                    snapshots: seq<set<Tuple4>>, current: set<Tuple4>)
    requires |snapshots| < |replies|
    requires forall k :: 0 <= k < |snapshots| ==> QueuePoll(endpoint, queueName, replies[k]) == Success(snapshots[k])
    requires QueuePoll(endpoint, queueName, replies[|snapshots|]) == Success(current)
    ensures forall k :: 0 <= k < |snapshots| + 1 ==>
      QueuePoll(endpoint, queueName, replies[k]) == Success((snapshots + [current])[k])
  {
  }

  /**
   * Pass number `|written|` of `Run`: a `Cycle` on `replies[|written|]`,
   * stamped `nows[|written|]`, with what it wrote and the snapshot it kept
   * appended to the run so far when it succeeds.
   */
  method Advance(m: Monitor, nows: seq<string>, replies: seq<Reply>,
                 ghost start: set<Tuple4>, ghost before: seq<string>,
                 ghost snapshots: seq<set<Tuple4>>, written: seq<seq<Tuple4>>)
    returns (ok: bool, ghost snapshots': seq<set<Tuple4>>, written': seq<seq<Tuple4>>)
    requires |snapshots| == |written| < |replies| == |nows|
    requires forall k :: 0 <= k < |written| ==> QueuePoll(m.endpoint, m.queueName, replies[k]) == Success(snapshots[k])
    requires Reports(start, snapshots, written)
    requires m.previous == if snapshots == [] then start else snapshots[|snapshots| - 1]
    requires Printable(written) && m.output == before + RunOutput(nows, written)
    modifies m
    ensures !ok ==> snapshots' == snapshots && written' == written
    ensures !ok ==> QueuePoll(m.endpoint, m.queueName, replies[|written|]).Failure?
    ensures ok ==> |written'| == |written| + 1
    ensures |written'| <= |replies| && |snapshots'| == |written'|
    ensures forall k :: 0 <= k < |written'| ==> QueuePoll(m.endpoint, m.queueName, replies[k]) == Success(snapshots'[k])
    ensures Reports(start, snapshots', written')
    ensures m.previous == if snapshots' == [] then start else snapshots'[|snapshots'| - 1]
    ensures Printable(written') && m.output == before + RunOutput(nows, written')
  {
    ghost var poll := QueuePoll(m.endpoint, m.queueName, replies[|written|]);
    var r := m.Cycle(nows[|written|], replies[|written|]);
    if r.Failure? {
      return false, snapshots, written;
    }
    PollsExtend(m.endpoint, m.queueName, replies, snapshots, poll.value);
    ReportsExtend(start, snapshots, written, poll.value, r.value);
    RunOutputSnoc(nows, written, r.value);
    OutputGrows(before, m.output, RunOutput(nows, written), Lines(nows[|written|], r.value), RunOutput(nows, written + [r.value]));
    ok, snapshots', written' := true, snapshots + [poll.value], written + [r.value];
  }

  /** The same reply on two consecutive cycles: the second one writes nothing. */
  method RepollWritesNothing(m: Monitor, now1: string, now2: string, reply: Reply)
    returns (first: Result<seq<Tuple4>>, second: Result<seq<Tuple4>>)
    modifies m
    ensures first.Success? ==> second == Success([])
    ensures first.Success? ==> |m.output| == |old(m.output)| + |first.value|
  {
    ghost var poll := QueuePoll(m.endpoint, m.queueName, reply);
    first := m.Cycle(now1, reply);
    second := m.Cycle(now2, reply);
    if poll.Success? {
      assert Added(poll.value, poll.value) == {};
    }
  }

  /** The queue "jobs" with the given number of ready messages, as the broker lists it. */
  function JobsQueue(ready: int): Json {
    Obj(map["name" := Str("jobs"), "state" := Str("running"),
            "messages_ready" := Int(ready), "messages_unacknowledged" := Int(0)])
  }

  /** Polling a reply that lists only "jobs" gives the one reading of it. */
  lemma PollOfJobs(endpoint: string, queueName: string, ready: int)
    ensures QueuePoll(endpoint, queueName, Reply(200, Arr([JobsQueue(ready)])))
         == Success({(Str("jobs"), Str("running"), Int(ready), Int(0))})
    ensures QueuePoll(endpoint, queueName, Reply(200, JobsQueue(ready)))
         == Success({(Str("jobs"), Str("running"), Int(ready), Int(0))})
  {
    var q := JobsQueue(ready);
    assert QueueToTuple(q) == Success((Str("jobs"), Str("running"), Int(ready), Int(0)));
    SnapshotOfOne(AdmitQueue, q);
  }

  /**
   * A queue "jobs" polled three times: first seen (one line), unchanged and
   * returned as a single object (no line), then with five messages ready
   * (one line with the new reading).
   */
  method JobsScenario() {
    var m := new Monitor("https://broker:15673", "");
    var idle, loaded := (Str("jobs"), Str("running"), Int(0), Int(0)), (Str("jobs"), Str("running"), Int(5), Int(0));
    PollOfJobs(m.endpoint, m.queueName, 0);
    PollOfJobs(m.endpoint, m.queueName, 5);

    var first := FirstReadingIsReported(m, "2020-05-21T22:37:29+00:00");
    assert m.output == [Line("2020-05-21T22:37:29+00:00", idle)];

    var second := m.Cycle("2020-05-21T22:37:39+00:00", Reply(200, JobsQueue(0)));
    assert second == Success([]) && m.previous == {idle};

    var third := ReadyCountChangeIsReported(m, "2020-05-21T22:37:49+00:00");
    assert third == Success([loaded]) && m.previous == {loaded};
  }

  /**
   * A monitor that has kept nothing yet writes the one reading of "jobs" with
   * zero messages ready, and keeps it.
   */
  method FirstReadingIsReported(m: Monitor, now: string) returns (r: Result<seq<Tuple4>>)
    requires m.previous == {}
    modifies m
    ensures r == Success([(Str("jobs"), Str("running"), Int(0), Int(0))])
    ensures m.previous == {(Str("jobs"), Str("running"), Int(0), Int(0))}
    ensures m.output == old(m.output) + [Line(now, (Str("jobs"), Str("running"), Int(0), Int(0)))]
  {
    var idle := (Str("jobs"), Str("running"), Int(0), Int(0));
    PollOfJobs(m.endpoint, m.queueName, 0);
    r := m.Cycle(now, Reply(200, Arr([JobsQueue(0)])));
    assert Added({}, {idle}) == {idle};
    assert r.value[0] in {idle};
    assert r.value == [idle];
  }

  /**
   * With the reading of "jobs" at zero messages ready kept from the last
   * cycle, a poll showing five ready messages writes exactly the new reading,
   * which then replaces the old one in `previous`.
   */
  method ReadyCountChangeIsReported(m: Monitor, now: string) returns (r: Result<seq<Tuple4>>)
    requires m.previous == {(Str("jobs"), Str("running"), Int(0), Int(0))}
    modifies m
    ensures r == Success([(Str("jobs"), Str("running"), Int(5), Int(0))])
    ensures m.previous == {(Str("jobs"), Str("running"), Int(5), Int(0))}
    ensures m.output == old(m.output) + [Line(now, (Str("jobs"), Str("running"), Int(5), Int(0)))]
  {
    var loaded := (Str("jobs"), Str("running"), Int(5), Int(0));
    PollOfJobs(m.endpoint, m.queueName, 5);
    r := m.Cycle(now, Reply(200, Arr([JobsQueue(5)])));
    assert Added(old(m.previous), {loaded}) == {loaded};
    assert r.value[0] in {loaded};
    assert r.value == [loaded];
  }
}
