# RabbitMQ change monitors, modelled in Dafny

The two polling monitors of hysds/rabbitmq-utils,
`scripts/rabbitmq_queue_monitor.py` and `scripts/rabbitmq_connection_monitor.py`,
ask the RabbitMQ management API for every queue (or connection), or for the
one named by `--queue` (`--connection`), reduce each
object to a 4-tuple, and write a timestamped line to standard output for each
tuple that was not in the previous poll. This project models one pass of
their `while True` loop, along with the parts of `rabbitmq/RabbitMQ.py` the
loop relies on, and proves what the loop promises.

- `rabbitmq.dfy`, module `RabbitMQ`: decoded JSON values (`Json`), the
  exceptions that can end a cycle (`Error`), the projectors `queue_to_tuple`
  and `connection_to_tuple` (`QueueToTuple`, `ConnectionToTuple`), the request
  URLs, and the status check with the dict-to-list normalisation of
  `get_queues` and `get_connections`. The HTTP reply is an input: a status
  code plus the decoded body.
- `change_detection.dfy`, module `ChangeDetection`: the steps both monitors
  share. `Elements` is the `for` loop over the reply. `Snapshot` and `Collect`
  build `current` item by item, where the first exception wins. `Added` and
  `Removed` are `new` and `old`. `Line` and `Emit` write the lines. `Changes`
  gives what a run of cycles reports, and `Reports` says that what a run
  wrote matches it.
- `queue_monitor.dfy`, module `QueueMonitor`: the queue loop body (`AdmitQueue`:
  project, `startswith("celery")` filter, add). `QueuePoll` is the `current`
  set a reply gives: status check, normalisation, iteration and collection.
  Class `Monitor` holds `previous` and the output written so far. Its method
  `Cycle(now, reply)` is one pass of the loop and is specified through
  `QueuePoll`. `Run` is the `while True` loop over a sequence of replies,
  ending at the first exception. Its output is `RunOutput`: each pass's
  lines, in pass order.
- `connection_monitor.dfy`, module `ConnectionMonitor`: the same for
  connections, which have no filter (`AdmitConnection`, `ConnectionPoll`,
  `Monitor.Cycle`, `Run`).

Tuple fields are the JSON values found under the keys, as in Python.
`startswith` needs a string name, and `set.add` needs every field to be
hashable (no list or dict). These failures are Python exceptions, so they
become `Error` values. The celery filter runs before the add. A celery
queue is therefore skipped even when one of its fields is unhashable.

A cycle that raises writes nothing and leaves `previous` untouched. In the
scripts the exception ends the process. The exception can come from the
status check, from iterating a reply that is a number, bool or `null`, from
a projection, from `startswith` on a queue name that is not a string, or
from `set.add` of a tuple holding a list or dict.

## Model

| member | source | states |
|---|---|---|
| `RabbitMQ.QueueToTuple` | rabbitmq/RabbitMQ.py:176-194 | succeeds exactly when the object is a dict holding `name`, `state`, `messages_ready` and `messages_unacknowledged`, and then returns those four values in that order; otherwise fails on the first key missing in that order, or with a subscript error when the object is not a dict |
| `RabbitMQ.ConnectionToTuple` | rabbitmq/RabbitMQ.py:292-312 | succeeds exactly when `name`, `state` and dicts `send_oct_details` and `recv_oct_details` holding `rate` are present, and returns (name, state, send rate, receive rate); any other input fails with a missing-key or subscript error |
| `RabbitMQ.QueueProjectionIgnoresOtherFields` | rabbitmq/RabbitMQ.py:177-194 | two queue dicts that agree on the four keys they are read at (values or absence) project to the same result, whatever their other fields |
| `RabbitMQ.ConnectionProjectionIgnoresOtherFields` | rabbitmq/RabbitMQ.py:293-312 | two connection dicts that agree on name, state and the two nested rates project to the same result, whatever their other fields, nested ones included |
| `RabbitMQ.QueuesUrl` | rabbitmq/RabbitMQ.py:52-53 | the queue URL splits into the endpoint, then `/api/queues/%2F/`, then the queue name |
| `RabbitMQ.ConnectionsUrl` | rabbitmq/RabbitMQ.py:203-204 | the connection URL splits into the endpoint, then `/api/connections/`, then the connection name |
| `RabbitMQ.EmptyNameRequestsCollection` | rabbitmq/RabbitMQ.py:46-53 | with the default empty name, the URL is the bare collection path |
| `RabbitMQ.Normalize` | rabbitmq/RabbitMQ.py:167-169 | the normalised body is never a dict |
| `RabbitMQ.Receive` | rabbitmq/RabbitMQ.py:60-62 | fails exactly when the status is not 200, with that status and the requested URL; on 200 a dict body becomes a one-element list, and any other body is returned unchanged |
| `RabbitMQ.GetQueues` | rabbitmq/RabbitMQ.py:46-173 | fails exactly on a status other than 200, naming the queue URL and the status; otherwise returns a non-dict: `[d]` for a dict `d`, a list unchanged |
| `RabbitMQ.GetConnections` | rabbitmq/RabbitMQ.py:197-290 | the same for the connection URL |
| `ChangeDetection.Elements` | scripts/rabbitmq_queue_monitor.py:91-94 | what the `for` loop visits in the normalised reply: a list's elements, or a string's one-character strings; a number, bool or null raises a not-iterable error |
| `ChangeDetection.SnapshotIsKept` | scripts/rabbitmq_queue_monitor.py:93-103 | building `current` succeeds exactly when no item is rejected, and `current` is then the set of kept tuples (the reference definition `Kept`) |
| `ChangeDetection.SnapshotOfOne` | scripts/rabbitmq_connection_monitor.py:102-106 | for a one-item reply, `current` is that item's tuple, empty if the item is skipped, or the item's error |
| `ChangeDetection.RejectionEndsTheLoop` | scripts/rabbitmq_queue_monitor.py:94-96 | once an item raises, the items after it do not change the outcome |
| `ChangeDetection.SnapshotIgnoresOrderAndRepeats` | scripts/rabbitmq_connection_monitor.py:102-106 | two replies holding the same items in any order and number of repeats either both raise or give the same `current`; duplicates collapse |
| `ChangeDetection.Collect` | scripts/rabbitmq_queue_monitor.py:93-103 | the collecting loop returns exactly `Snapshot` of the items |
| `ChangeDetection.Added` | scripts/rabbitmq_queue_monitor.py:107 | `new` is within `current`, disjoint from `previous`, and holds every tuple of `current` not in `previous` |
| `ChangeDetection.Removed` | scripts/rabbitmq_queue_monitor.py:111 | `old` is within `previous`, disjoint from `current`, and holds every tuple of `previous` not in `current` |
| `ChangeDetection.RemovedNeverReported` | scripts/rabbitmq_connection_monitor.py:115-126 | no removed tuple is among the reported ones |
| `ChangeDetection.OneChangedReadingReportedAlone` | scripts/rabbitmq_queue_monitor.py:107 | when one reading replaces another in the snapshot, the new reading is the only tuple reported |
| `ChangeDetection.NatToString` | scripts/rabbitmq_queue_monitor.py:121 | a count prints as a non-empty string of decimal digits with no leading zero |
| `ChangeDetection.NatToStringRoundTrip` | scripts/rabbitmq_queue_monitor.py:121 | reading the printed digits back gives the count |
| `ChangeDetection.IntToString` | scripts/rabbitmq_queue_monitor.py:121 | an integer prints with a leading minus sign exactly when it is negative |
| `ChangeDetection.IntToStringDigits` | scripts/rabbitmq_queue_monitor.py:121 | after the optional minus sign come the decimal digits of the magnitude, with no leading zero, reading back to the magnitude |
| `ChangeDetection.IntToStringInjective` | scripts/rabbitmq_queue_monitor.py:121 | two integers that print alike are equal, so distinct counts in the same field, the other fields equal, give distinct lines |
| `ChangeDetection.Line` | scripts/rabbitmq_queue_monitor.py:121 | a written line is the timestamp, then the four printed fields in tuple order, each after exactly one space, then the newline; each piece is stated at its position, so fields that hold spaces are covered |
| `ChangeDetection.LineIsOneLine` | scripts/rabbitmq_connection_monitor.py:125 | the final newline is the line's only newline when the timestamp and fields hold none |
| `ChangeDetection.LinesSnoc` | scripts/rabbitmq_queue_monitor.py:115-122 | writing one more tuple appends exactly its line to the lines already written |
| `ChangeDetection.Emit` | scripts/rabbitmq_queue_monitor.py:115-123 | the writing loop visits each tuple of `new` exactly once (no repeats, none missed), and writes exactly their lines in that order |
| `ChangeDetection.Changes` | scripts/rabbitmq_queue_monitor.py:85-128 | a run of cycles reports one set per cycle |
| `ChangeDetection.ChangesAt` | scripts/rabbitmq_queue_monitor.py:107-125 | `previous` is replaced, not merged: cycle k reports its snapshot minus the snapshot of cycle k-1 (the starting set for the first cycle) |
| `ChangeDetection.RepollReportsNothing` | scripts/rabbitmq_queue_monitor.py:107-125 | a cycle whose snapshot equals the one before reports nothing |
| `ChangeDetection.ReappearanceIsReported` | scripts/rabbitmq_connection_monitor.py:111-129 | a tuple present, then absent for one cycle, then present again is reported on its return |
| `ChangeDetection.ReportsExtend` | scripts/rabbitmq_queue_monitor.py:107-125 | when every cycle of a run wrote, each once, exactly its entry of `Changes`, and one more cycle writes, each once, what its snapshot adds to the last one, the longer run again wrote exactly `Changes` cycle by cycle |
| `ChangeDetection.SteadyTupleReportedOnce` | scripts/rabbitmq_connection_monitor.py:111-129 | a tuple that stays present is reported in the cycle it appears and in no later cycle while it stays |
| `QueueMonitor.AdmitQueue` | scripts/rabbitmq_queue_monitor.py:94-102 | a queue is added exactly when it projects, its name is a string not starting with "celery", and the tuple is hashable; skipped exactly when it projects with a celery name; a projection error is passed on |
| `QueueMonitor.QueueSnapshotIsFilteredProjection` | scripts/rabbitmq_queue_monitor.py:93-102 | the queue loop succeeds exactly when every queue projects, has a string name, and is a celery queue or hashable; `current` is then exactly the projections whose name does not start with "celery" |
| `QueueMonitor.CeleryQueuesNeverCollected` | scripts/rabbitmq_queue_monitor.py:98-100 | no tuple in `current` has a celery name, and every tuple in it can be written |
| `QueueMonitor.Monitor.constructor` | scripts/rabbitmq_queue_monitor.py:85 | the first cycle starts from an empty `previous`, with nothing written |
| `QueueMonitor.Monitor.Cycle` | scripts/rabbitmq_queue_monitor.py:86-127 | on an exception: that error, nothing written, `previous` unchanged; otherwise the tuples written are exactly `current - previous`, each once, none with a celery name, the output grows by exactly their lines, and `previous` becomes `current` |
| `QueueMonitor.Run` | scripts/rabbitmq_queue_monitor.py:85-127 | the loop over a sequence of replies stops exactly at the first poll that raises; every pass before it writes each tuple of `Changes` for that pass exactly once, the output grows by exactly the lines of those tuples, pass by pass and stamped with each pass's time, and `previous` ends as the last `current` |
| `QueueMonitor.RepollWritesNothing` | scripts/rabbitmq_queue_monitor.py:107-125 | the same reply on two consecutive cycles: the second writes nothing |
| `QueueMonitor.PollOfJobs` | rabbitmq/RabbitMQ.py:167-169 | a reply listing only queue "jobs", whether as a list or a single dict, gives the one reading of it |
| `QueueMonitor.FirstReadingIsReported` | scripts/rabbitmq_queue_monitor.py:85-125 | starting from an empty `previous`, a poll listing "jobs" returns that one reading, appends exactly its one line to the output, and keeps it in `previous` |
| `QueueMonitor.ReadyCountChangeIsReported` | scripts/rabbitmq_queue_monitor.py:107-125 | after "jobs" was seen with 0 ready messages, a poll showing 5 returns only the new reading, appends exactly its one line to the output, and the new reading replaces the old one in `previous` |
| `ConnectionMonitor.AdmitConnection` | scripts/rabbitmq_connection_monitor.py:103-106 | a connection is never skipped; it is added exactly when it projects to a hashable tuple, and a projection error is passed on |
| `ConnectionMonitor.ConnectionSnapshotIsProjection` | scripts/rabbitmq_connection_monitor.py:102-106 | the connection loop succeeds exactly when every connection projects to a hashable tuple; `current` is then exactly the set of all their projections, unfiltered |
| `ConnectionMonitor.Monitor.constructor` | scripts/rabbitmq_connection_monitor.py:94 | the first cycle starts from an empty `previous`, with nothing written |
| `ConnectionMonitor.Monitor.Cycle` | scripts/rabbitmq_connection_monitor.py:95-131 | on an exception: that error, nothing written, `previous` unchanged; otherwise the tuples written are exactly `current - previous`, each once, the output grows by exactly their lines, and `previous` becomes `current` |
| `ConnectionMonitor.Run` | scripts/rabbitmq_connection_monitor.py:94-131 | the loop over a sequence of replies stops exactly at the first poll that raises; every pass before it writes each tuple of `Changes` for that pass exactly once, the output grows by exactly the lines of those tuples, pass by pass and stamped with each pass's time, and `previous` ends as the last `current` |
| `ConnectionMonitor.ReappearanceIsWrittenAgain` | scripts/rabbitmq_connection_monitor.py:111-129 | a connection tuple seen, then missing for one cycle, then seen again is returned again by the third cycle, and its line, stamped with the third cycle's time, is among the lines that cycle appends to the output |

`QueueMonitor.JobsScenario` has no contract of its own. It drives three
cycles over the queue "jobs" and asserts on the state the `Cycle` contract
leaves after each one.

## Left out

- The HTTP request (`requests.get`, basic auth, `verify=False`), JSON
  decoding and all `logger` output: the reply is an input of type `Reply`
  (status code and decoded body). A body that is not valid JSON is not modelled.
- A transport exception from `requests.get` (connection refused, timeout):
  every `Reply` carries a status, so a request that raises before any
  response arrives cannot be represented.
- The exception's message text: `Error.HttpError` keeps the URL and the status
  as data. In `rabbitmq/RabbitMQ.py:62` the format arguments appear in the
  order URL, then status.
- Timing: `time.sleep(interval)`, and the endlessness of `while True`. One
  pass is `Monitor.Cycle`. A finite run of passes is `Run`, whose reports are
  `ChangeDetection.Changes` of the snapshots of the passes.
- Timestamp production (`datetime.now().astimezone()...isoformat()`): `now`
  is an opaque string argument.
- `sys.stdout.flush()`: each element of `Monitor.output` stands for one write
  followed by its flush.
- Command-line parsing (`getopt`, `show_usage`, `sys.exit`, `int(arg)` for
  `--interval`), and the single-shot scripts `rabbitmq_queue_info.py` and
  `rabbitmq_connection.py`. `rabbitmq_queue_info.py` prints the four fields
  `queue_to_tuple` reads; `rabbitmq_connection.py` prints those
  `connection_to_tuple` reads plus `channels`.
- Floating-point rates: a JSON float is `Rate(text)`, the text Python prints
  for it, and two rates are equal when their texts are. This is not Python's
  float equality for NaN or for 0.0 against -0.0.
- Python's cross-type equality: the model does not equate `True`, `1` and
  `1.0`. Python does, so two such tuples would collapse into one in a Python
  set but stay two here.
- Iterating a dict reply is never needed, since `Normalize` always wraps a
  dict; `ChangeDetection.Elements` accordingly requires a non-dict.
- The order in which Python iterates a set is unspecified. `Emit` picks any
  order, and the contracts hold for every order.
