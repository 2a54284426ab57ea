/**
 * The poll-cycle steps that scripts/rabbitmq_queue_monitor.py and
 * scripts/rabbitmq_connection_monitor.py share: walking the fetched list,
 * building the `current` set, the two set differences against `previous`,
 * and the timestamped output lines. The per-item decision (project, filter,
 * hash) is the only part in which the two monitors differ; it is passed in as
 * `admit`.
 */
module ChangeDetection {
  import opened RabbitMQ

  /** What the body of the collecting for loop does with one fetched item. */
  datatype Verdict =
    | Keep(t: Tuple4)   // current.add(t)
    | Skip              // continue
    | Reject(e: Error)  // an exception ends the cycle

  // ---------------------------------------------------------------------------
  // The fetched list

  /**
   * The items a Python for loop visits in a normalised reply. A list yields
   * its elements and a string its one-character strings; a number, bool or
   * None cannot be iterated. Normalize never leaves a dict.
   */
  function Elements(listing: Json): (r: Result<seq<Json>>)
    requires !listing.Obj?
    ensures listing.Arr? <==> r.Success? && !listing.Str?
    ensures listing.Arr? ==> r.value == listing.items
    ensures listing.Str? ==> r.Success? && |r.value| == |listing.s|
    ensures listing.Str? ==> forall i :: 0 <= i < |listing.s| ==> r.value[i] == Str([listing.s[i]])
    ensures r.Failure? ==> r.error == NotIterable
  {
    match listing
    case Arr(items) => Success(items)
    case Str(s) => Success(seq(|s|, i requires 0 <= i < |s| => Str([s[i]])))
    case _ => Failure(NotIterable)
  }

  // ---------------------------------------------------------------------------
  // The current snapshot

  /**
   * The set the collecting for loop builds, item by item in list order; the
   * first rejected item ends the cycle with its error.
   */
  function Snapshot(admit: Json -> Verdict, items: seq<Json>): Result<set<Tuple4>>
  {
    if items == [] then Success({})
    else
      var s :- Snapshot(admit, items[..|items| - 1]);
      match admit(items[|items| - 1])
      case Keep(t) => Success(s + {t})
      case Skip => Success(s)
      case Reject(e) => Failure(e)
  }

  /** Reference definition: the tuples kept from the items, whatever their order or repetition. */
  function Kept(admit: Json -> Verdict, items: seq<Json>): set<Tuple4> {
    set x | x in items && admit(x).Keep? :: admit(x).t
  }

  /** No item is rejected. */
  predicate NoneRejected(admit: Json -> Verdict, items: seq<Json>) {
    forall i :: 0 <= i < |items| ==> !admit(items[i]).Reject?
  }

  /**
   * The loop succeeds exactly when no item is rejected, and then `current` is
   * the set of kept tuples.
   */
  lemma {:induction false} SnapshotIsKept(admit: Json -> Verdict, items: seq<Json>)
    ensures Snapshot(admit, items).Success? <==> NoneRejected(admit, items)
    ensures Snapshot(admit, items).Success? ==> Snapshot(admit, items).value == Kept(admit, items)
  {
    if items != [] {
      var init, last := items[..|items| - 1], items[|items| - 1];
      assert items == init + [last];
      SnapshotIsKept(admit, init);
      assert NoneRejected(admit, items) <==> NoneRejected(admit, init) && !admit(last).Reject? by {
        if NoneRejected(admit, init) && !admit(last).Reject? {
          forall i | 0 <= i < |items| ensures !admit(items[i]).Reject? {
            if i < |init| { assert items[i] == init[i]; }
          }
        }
        if NoneRejected(admit, items) {
          forall i | 0 <= i < |init| ensures !admit(init[i]).Reject? {
            assert init[i] == items[i];
          }
          assert !admit(items[|items| - 1]).Reject?;
        }
      }
      if Snapshot(admit, items).Success? {
        var s := Snapshot(admit, init).value;
        assert Kept(admit, items) == Kept(admit, init) + (if admit(last).Keep? then {admit(last).t} else {}) by {
          forall t | t in Kept(admit, items)
            ensures t in Kept(admit, init) + (if admit(last).Keep? then {admit(last).t} else {})
          {
            var x :| x in items && admit(x).Keep? && admit(x).t == t;
            if x != last { assert x in init; }
          }
        }
      }
    }
  }

  /** A one-item fetch: `current` holds that item's tuple, nothing, or the cycle fails. */
  lemma SnapshotOfOne(admit: Json -> Verdict, x: Json)
    ensures Snapshot(admit, [x]) == match admit(x)
      case Keep(t) => Success({t})
      case Skip => Success({})
      case Reject(e) => Failure(e)
  {
    assert [x][..0] == [];
    if admit(x).Keep? {
      assert {} + {admit(x).t} == {admit(x).t};
    }
  }

  /** Once an item of a prefix is rejected, the rest of the list is never looked at. */
  lemma {:induction false} RejectionEndsTheLoop(admit: Json -> Verdict, items: seq<Json>, n: nat)
    requires n <= |items| && Snapshot(admit, items[..n]).Failure?
    ensures Snapshot(admit, items) == Snapshot(admit, items[..n])
    decreases |items| - n
  {
    if n < |items| {
      assert items[..n + 1][..n] == items[..n];
      RejectionEndsTheLoop(admit, items, n + 1);
    } else {
      assert items[..n] == items;
    }
  }

  /**
   * Order independence and duplicate collapse: two fetches holding the same
   * items, in any order and any number of times, either both fail or give the
   * same `current` (which error a failing fetch raises may depend on order).
   */
  lemma SnapshotIgnoresOrderAndRepeats(admit: Json -> Verdict, a: seq<Json>, b: seq<Json>)
    requires forall x :: x in a <==> x in b
    ensures Snapshot(admit, a).Success? <==> Snapshot(admit, b).Success?
    ensures Snapshot(admit, a).Success? ==> Snapshot(admit, a).value == Snapshot(admit, b).value
  {
    SnapshotIsKept(admit, a);
    SnapshotIsKept(admit, b);
    if NoneRejected(admit, a) {
      forall j | 0 <= j < |b| ensures !admit(b[j]).Reject? {
        assert b[j] in a;
      }
    }
    if NoneRejected(admit, b) {
      forall j | 0 <= j < |a| ensures !admit(a[j]).Reject? {
        assert a[j] in b;
      }
    }
    assert Kept(admit, a) == Kept(admit, b);
  }

  /** The collecting for loop: `current = set()`, then one admit per item, in list order. */
  method Collect(admit: Json -> Verdict, items: seq<Json>) returns (r: Result<set<Tuple4>>)
    ensures r == Snapshot(admit, items)
  {
    var current: set<Tuple4> := {};
    var i := 0;
    while i < |items|
      invariant 0 <= i <= |items|
      invariant Snapshot(admit, items[..i]) == Success(current)
    {
      assert items[..i + 1][..i] == items[..i];
      match admit(items[i]) {
        case Reject(e) =>
          RejectionEndsTheLoop(admit, items, i + 1);
          return Failure(e);
        case Skip =>
        case Keep(t) =>
          current := current + {t};
      }
      i := i + 1;
    }
    assert items[..i] == items;
    r := Success(current);
  }

  // ---------------------------------------------------------------------------
  // The two differences

  /** `new = current.difference(previous)`: what is reported this cycle. */
  function Added(previous: set<Tuple4>, current: set<Tuple4>): (r: set<Tuple4>)
    ensures r <= current && r !! previous
    ensures forall t :: t in current && t !in previous ==> t in r
  {
    current - previous
  }

  /** `old = previous.difference(current)`: computed by both monitors and never written. */
  function Removed(previous: set<Tuple4>, current: set<Tuple4>): (r: set<Tuple4>)
    ensures r <= previous && r !! current
    ensures forall t :: t in previous && t !in current ==> t in r
  {
    previous - current
  }

  /** A removal is never among the reported tuples. */
  lemma RemovedNeverReported(previous: set<Tuple4>, current: set<Tuple4>)
    ensures Removed(previous, current) !! Added(previous, current)
  {
  }

  /** A change to one reading is reported as that one new reading and nothing else. */
  lemma OneChangedReadingReportedAlone(previous: set<Tuple4>, before: Tuple4, after: Tuple4)
    requires before in previous && after !in previous
    ensures Added(previous, previous - {before} + {after}) == {after}
  {
  }

  // ---------------------------------------------------------------------------
  // Output lines

  /** The decimal digits of `n`, most significant first, as Python's str prints them. */
  function NatToString(n: nat): (s: string)
    ensures |s| >= 1 && IsDigits(s)
    ensures |s| > 1 ==> s[0] != '0'
  {
    if n < 10 then [DigitChar(n)] else NatToString(n / 10) + [DigitChar(n % 10)]
  }

  function DigitChar(d: nat): (c: char)
    requires d < 10
    ensures '0' <= c <= '9' && (c as int) - ('0' as int) == d
  {
    (('0' as int) + d) as char
  }

  predicate IsDigits(s: string) {
    forall i :: 0 <= i < |s| ==> '0' <= s[i] <= '9'
  }

  /** Reads a digit string back as a number (the partner of NatToString). */
  function DecimalValue(s: string): nat
    requires IsDigits(s)
  {
    if s == [] then 0
    else DecimalValue(s[..|s| - 1]) * 10 + ((s[|s| - 1] as int) - ('0' as int))
  }

  /** Printing a count and reading it back gives the count: the rendering loses nothing. */
  lemma {:induction false} NatToStringRoundTrip(n: nat)
    ensures DecimalValue(NatToString(n)) == n
  {
    if n >= 10 {
      var s := NatToString(n);
      assert s[..|s| - 1] == NatToString(n / 10);
      NatToStringRoundTrip(n / 10);
    }
  }

  /**
   * Python's str of an int: a minus sign exactly for a negative number,
   * followed by the decimal digits of its magnitude, with no leading zero.
   */
  function IntToString(i: int): (s: string)
    ensures i < 0 <==> |s| > 0 && s[0] == '-'
  {
    if i < 0 then "-" + NatToString(-i) else NatToString(i)
  }

  /**
   * After the optional minus sign, the printed integer is the decimal digits
   * of its magnitude, with no leading zero.
   */
  lemma IntToStringDigits(i: int)
    ensures i < 0 ==> var s := IntToString(i);
      && IsDigits(s[1..]) && DecimalValue(s[1..]) == -i && (|s| > 2 ==> s[1] != '0')
    ensures i >= 0 ==> var s := IntToString(i);
      && IsDigits(s) && DecimalValue(s) == i && (|s| > 1 ==> s[0] != '0')
  {
    var digits := NatToString(if i < 0 then -i else i);
    NatToStringRoundTrip(if i < 0 then -i else i);
    assert IsDigits(digits) && (|digits| > 1 ==> digits[0] != '0');
    if i < 0 {
      assert IntToString(i)[1..] == digits;
    } else {
      assert IntToString(i) == digits;
    }
  }

  /** Two integers that print alike are equal: the rendering tells every count apart. */
  lemma IntToStringInjective(i: int, j: int)
    requires IntToString(i) == IntToString(j)
    ensures i == j
  {
    IntToStringDigits(i);
    IntToStringDigits(j);
  }

  /** Python's str of a hashable JSON value, as `"{}".format` prints it. */
  function Show(v: Json): string
    requires v.IsScalar()
  {
    match v
    case Null => "None"
    case Bool(b) => if b then "True" else "False"
    case Int(i) => IntToString(i)
    case Float(r) => r.text
    case Str(s) => s
  }

  predicate NoNewline(s: string) {
    forall i :: 0 <= i < |s| ==> s[i] != '\n'
  }

  /**
   * The timestamp and four printed fields, separated by single spaces and
   * ended by a newline. A field may hold spaces of its own (connection names
   * do), so each piece is located by the widths of the pieces before it.
   */
  function Spaced(now: string, f0: string, f1: string, f2: string, f3: string): (line: string)
    ensures var a := |now| + 1;
      var b := a + |f0| + 1;
      var c := b + |f1| + 1;
      var d := c + |f2| + 1;
      && |line| == d + |f3| + 1
      && line[..a] == now + " "
      && line[a..b] == f0 + " "
      && line[b..c] == f1 + " "
      && line[c..d] == f2 + " "
      && line[d..] == f3 + "\n"
  {
    now + " " + f0 + " " + f1 + " " + f2 + " " + f3 + "\n"
  }

  /**
   * `"{} {} {} {} {}\n".format(now, t[0], t[1], t[2], t[3])`: the timestamp,
   * then the four fields in tuple order, each after exactly one space, then
   * the newline.
   */
  function Line(now: string, t: Tuple4): (line: string)
    requires Hashable(t)
    ensures var a := |now| + 1;
      var b := a + |Show(t.0)| + 1;
      var c := b + |Show(t.1)| + 1;
      var d := c + |Show(t.2)| + 1;
      && |line| == d + |Show(t.3)| + 1
      && line[..a] == now + " "
      && line[a..b] == Show(t.0) + " "
      && line[b..c] == Show(t.1) + " "
      && line[c..d] == Show(t.2) + " "
      && line[d..] == Show(t.3) + "\n"
  {
    Spaced(now, Show(t.0), Show(t.1), Show(t.2), Show(t.3))
  }

  /**
   * Each write is one line: the newline that ends it is its only one as long
   * as neither the timestamp nor a field holds a newline of its own.
   */
  lemma LineIsOneLine(now: string, t: Tuple4)
    requires Hashable(t) && NoNewline(now)
    requires NoNewline(Show(t.0)) && NoNewline(Show(t.1)) && NoNewline(Show(t.2)) && NoNewline(Show(t.3))
    ensures NoNewline(Line(now, t)[..|Line(now, t)| - 1])
  {
  }

  /** The lines written for the tuples `ts`, in that order. */
  function Lines(now: string, ts: seq<Tuple4>): (lines: seq<string>)
    requires forall i :: 0 <= i < |ts| ==> Hashable(ts[i])
    ensures |lines| == |ts|
    ensures forall i :: 0 <= i < |ts| ==> lines[i] == Line(now, ts[i])
  {
    seq(|ts|, i requires 0 <= i < |ts| && Hashable(ts[i]) => Line(now, ts[i]))
  }

  /** Writing one more tuple appends its line. */
  lemma LinesSnoc(now: string, ts: seq<Tuple4>, t: Tuple4)
    requires forall i :: 0 <= i < |ts| ==> Hashable(ts[i])
    requires Hashable(t)
    ensures Lines(now, ts + [t]) == Lines(now, ts) + [Line(now, t)]
  {
    assert forall i :: 0 <= i < |ts| ==> (ts + [t])[i] == ts[i];
  }

  predicate NoDuplicates(ts: seq<Tuple4>) {
    forall i, j :: 0 <= i < j < |ts| ==> ts[i] != ts[j]
  }

  /** `ts` visits each member of `s` exactly once, in some order. */
  predicate Enumerates(ts: seq<Tuple4>, s: set<Tuple4>) {
    NoDuplicates(ts) && (forall t :: t in ts ==> t in s) && (forall t :: t in s ==> t in ts)
  }

  /**
   * Part way through the writing loop: `emitted` holds, each once and all
   * hashable, the members of `added` no longer in `rest`.
   */
  ghost predicate Emitting(added: set<Tuple4>, rest: set<Tuple4>, emitted: seq<Tuple4>) {
    && rest <= added
    && (forall t :: t in emitted <==> t in added && t !in rest)
    && NoDuplicates(emitted)
    && |emitted| + |rest| == |added|
    && (forall i :: 0 <= i < |emitted| ==> Hashable(emitted[i]))
  }

  /** Writing one more member of `rest` keeps the loop's bookkeeping. */
  lemma EmittingStep(added: set<Tuple4>, rest: set<Tuple4>, emitted: seq<Tuple4>, t: Tuple4)
    requires Emitting(added, rest, emitted) && t in rest
    requires forall u :: u in added ==> Hashable(u)
    ensures Emitting(added, rest - {t}, emitted + [t])
  {
    assert forall i :: 0 <= i < |emitted| ==> (emitted + [t])[i] == emitted[i];
  }

  /**
   * The writing for loop over `new`: one line per element, each element once,
   * in the set's own (unspecified) iteration order.
   */
  method Emit(now: string, added: set<Tuple4>) returns (emitted: seq<Tuple4>, lines: seq<string>)
    requires forall t :: t in added ==> Hashable(t)
    ensures Enumerates(emitted, added) && |emitted| == |added|
    ensures lines == Lines(now, emitted)
  {
    var rest := added;
    emitted, lines := [], [];
    while rest != {}
      invariant Emitting(added, rest, emitted)
      invariant lines == Lines(now, emitted)
      decreases rest
    {
      var t :| t in rest;
      LinesSnoc(now, emitted, t);
      EmittingStep(added, rest, emitted, t);
      emitted, lines := emitted + [t], lines + [Line(now, t)];
      rest := rest - {t};
    }
  }

  // ---------------------------------------------------------------------------
  // A run of cycles

  /**
   * What a run of successful cycles reports, starting from `previous`: cycle
   * k reports Added of the snapshot before it and its own snapshot, and then
   * `previous` is replaced by that snapshot.
   */
  function Changes(previous: set<Tuple4>, snapshots: seq<set<Tuple4>>): (r: seq<set<Tuple4>>)
    ensures |r| == |snapshots|
    decreases |snapshots|
  {
    if snapshots == [] then []
    else [Added(previous, snapshots[0])] + Changes(snapshots[0], snapshots[1..])
  }

  /**
   * `previous` is replaced, never merged: what cycle k reports depends only on
   * the snapshot of cycle k - 1 (or the starting set, for the first cycle).
   */
  lemma {:induction false} ChangesAt(previous: set<Tuple4>, snapshots: seq<set<Tuple4>>, k: nat)
    requires k < |snapshots|
    ensures Changes(previous, snapshots)[k] == snapshots[k] - (if k == 0 then previous else snapshots[k - 1])
    decreases k
  {
    if k > 0 {
      ChangesAt(snapshots[0], snapshots[1..], k - 1);
      if k > 1 { assert snapshots[1..][k - 2] == snapshots[k - 1]; }
    }
  }

  /** `written[k]` lists, each once, what `Changes` reports for cycle k of the run. */
  predicate Reports(previous: set<Tuple4>, snapshots: seq<set<Tuple4>>, written: seq<seq<Tuple4>>)
    requires |written| == |snapshots|
  {
    forall k :: 0 <= k < |written| ==> Enumerates(written[k], Changes(previous, snapshots)[k])
  }

  /**
   * One more cycle extends a run's reports: what it writes, when it lists
   * each tuple its snapshot adds to the last one once, is what `Changes`
   * reports for it, and the earlier cycles keep their reports.
   */
  lemma ReportsExtend(previous: set<Tuple4>, snapshots: seq<set<Tuple4>>, written: seq<seq<Tuple4>>,
                      current: set<Tuple4>, emitted: seq<Tuple4>)
    requires |written| == |snapshots| && Reports(previous, snapshots, written)
    requires Enumerates(emitted, Added(if snapshots == [] then previous else snapshots[|snapshots| - 1], current))
    ensures Reports(previous, snapshots + [current], written + [emitted])
  {
    var s, w := snapshots + [current], written + [emitted];
    forall k | 0 <= k < |w|
      ensures Enumerates(w[k], Changes(previous, s)[k])
    {
      ChangesAt(previous, s, k);
      if k < |written| {
        ChangesAt(previous, snapshots, k);
        assert w[k] == written[k] && s[k] == snapshots[k];
        if k > 0 { assert s[k - 1] == snapshots[k - 1]; }
        assert Enumerates(written[k], Changes(previous, snapshots)[k]);
      } else {
        assert w[k] == emitted && s[k] == current;
        if k > 0 { assert s[k - 1] == snapshots[|snapshots| - 1]; }
      }
    }
  }

  /** Every tuple of every pass of a run can be written out. */
  predicate Printable(written: seq<seq<Tuple4>>) {
    forall k, i :: 0 <= k < |written| && 0 <= i < |written[k]| ==> Hashable(written[k][i])
  }

  /** Everything a run writes: pass k writes the lines of `written[k]`, stamped `nows[k]`. */
  function RunOutput(nows: seq<string>, written: seq<seq<Tuple4>>): seq<string>
    requires |written| <= |nows| && Printable(written)
  {
    if written == [] then []
    else
      var init := written[..|written| - 1];
      assert forall k :: 0 <= k < |init| ==> init[k] == written[k];
      RunOutput(nows, init) + Lines(nows[|written| - 1], written[|written| - 1])
  }

  /** One more pass appends exactly its lines to what the run has written. */
  lemma RunOutputSnoc(nows: seq<string>, written: seq<seq<Tuple4>>, emitted: seq<Tuple4>)
    requires |written| < |nows| && Printable(written)
    requires forall i :: 0 <= i < |emitted| ==> Hashable(emitted[i])
    ensures Printable(written + [emitted])
    ensures RunOutput(nows, written + [emitted]) == RunOutput(nows, written) + Lines(nows[|written|], emitted)
  {
    var w := written + [emitted];
    forall k, i | 0 <= k < |w| && 0 <= i < |w[k]| ensures Hashable(w[k][i]) {
      if k < |written| { assert w[k] == written[k]; }
    }
    assert w[..|w| - 1] == written;
  }

  /**
   * An output that held `before` and then `run`, and has just had `lines`
   * appended, holds `before` and then `run'` when `run'` is `run` followed by
   * `lines`.
   */
  lemma OutputGrows<T>(before: seq<T>, output: seq<T>, run: seq<T>, lines: seq<T>, run': seq<T>)
    requires output == before + run + lines && run' == run + lines
    ensures output == before + run'
  {
  }

  /** Polling the same state twice in a row reports nothing the second time. */
  lemma RepollReportsNothing(previous: set<Tuple4>, snapshots: seq<set<Tuple4>>, k: nat)
    requires 0 < k < |snapshots| && snapshots[k] == snapshots[k - 1]
    ensures Changes(previous, snapshots)[k] == {}
  {
    ChangesAt(previous, snapshots, k);
  }

  /** A tuple that disappears for one cycle and then comes back is reported again. */
  lemma ReappearanceIsReported(previous: set<Tuple4>, snapshots: seq<set<Tuple4>>, k: nat, t: Tuple4)
    requires k + 2 < |snapshots|
    requires t in snapshots[k] && t !in snapshots[k + 1] && t in snapshots[k + 2]
    ensures t in Changes(previous, snapshots)[k + 2]
  {
    ChangesAt(previous, snapshots, k + 2);
  }

  /**
   * A tuple that stays in the snapshot is reported once, in the cycle it
   * appears, and never again while it stays.
   */
  lemma SteadyTupleReportedOnce(previous: set<Tuple4>, snapshots: seq<set<Tuple4>>, k: nat, m: nat, t: Tuple4)
    requires k <= m < |snapshots|
    requires forall j :: k <= j <= m ==> t in snapshots[j]
    requires t !in (if k == 0 then previous else snapshots[k - 1])
    ensures t in Changes(previous, snapshots)[k]
    ensures forall j :: k < j <= m ==> t !in Changes(previous, snapshots)[j]
  {
    ChangesAt(previous, snapshots, k);
    forall j | k < j <= m ensures t !in Changes(previous, snapshots)[j] {
      ChangesAt(previous, snapshots, j);
    }
  }
}
