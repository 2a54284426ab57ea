/**
 * The broker client of rabbitmq/RabbitMQ.py: the two projectors that reduce a
 * raw queue or connection object to a comparable 4-tuple, the URLs the client
 * requests, and the status check and dict-to-list normalisation applied to a
 * reply. The HTTP request itself is not modelled: the reply (status code and
 * decoded JSON body) is an input.
 */
module RabbitMQ {

  /** A decoded JSON value, as Python's json module hands it over. */
  datatype Json =
    | Null
    | Bool(b: bool)
    | Int(i: int)
    | Float(f: Rate)
    | Str(s: string)
    | Arr(items: seq<Json>)
    | Obj(fields: map<string, Json>)
  {
    /** Python can hash every scalar; lists and dicts are unhashable. */
    predicate IsScalar() { !Arr? && !Obj? }
  }

  /**
   * A floating-point reading (the send and receive rates), kept only as the
   * text Python prints for it and compared by equality on that text.
   */
  datatype Rate = Rate(text: string)

  /** The exceptions that end a poll cycle. */
  datatype Error =
    | HttpError(url: string, status: int)  // the client's own exception on a status other than 200
    | MissingKey(key: string)              // KeyError from a dict lookup
    | NotSubscriptable(key: string)        // TypeError: a string key applied to a non-dict
    | NotIterable                          // TypeError: a for loop over a number, bool or None
    | NoStartsWith                         // AttributeError: startswith on a name that is not a string
    | Unhashable                           // TypeError: set.add of a tuple holding a list or dict

  datatype Result<+T> = Success(value: T) | Failure(error: Error) {
    predicate IsFailure() { Failure? }
    function PropagateFailure<U>(): Result<U> requires Failure? { Failure(error) }
    function Extract(): T requires Success? { value }
  }

  /** The Python tuple both projectors return. */
  type Tuple4 = (Json, Json, Json, Json)

  /** A tuple can go into a Python set only when all four fields are hashable. */
  predicate Hashable(t: Tuple4) {
    t.0.IsScalar() && t.1.IsScalar() && t.2.IsScalar() && t.3.IsScalar()
  }

  // ---------------------------------------------------------------------------
  // Projectors

  /** `obj[key]` in Python. */
  function Lookup(obj: Json, key: string): Result<Json> {
    if !obj.Obj? then Failure(NotSubscriptable(key))
    else if key in obj.fields then Success(obj.fields[key])
    else Failure(MissingKey(key))
  }

  /** The keys queue_to_tuple reads, in the order it reads them. */
  const QueueKeys: seq<string> := ["name", "state", "messages_ready", "messages_unacknowledged"]

  /** The first of `keys` that `m` lacks. */
  function FirstAbsent(keys: seq<string>, m: map<string, Json>): (k: string)
    requires exists i :: 0 <= i < |keys| && keys[i] !in m
    ensures k in keys && k !in m
    ensures forall i :: 0 <= i < |keys| && keys[i] !in m && (forall j :: 0 <= j < i ==> keys[j] in m) ==> k == keys[i]
  {
    if keys[0] !in m then keys[0] else FirstAbsent(keys[1..], m)
  }

  /**
   * queue_to_tuple: (name, state, messages_ready, messages_unacknowledged),
   * read from the same-named keys; the first missing key raises KeyError.
   */
  function QueueToTuple(queue: Json): (r: Result<Tuple4>)
    ensures r.Success? <==> queue.Obj? && forall k :: k in QueueKeys ==> k in queue.fields
    ensures r.Success? ==>
      r.value == (queue.fields["name"], queue.fields["state"],
                  queue.fields["messages_ready"], queue.fields["messages_unacknowledged"])
    ensures r.Failure? && !queue.Obj? ==> r.error == NotSubscriptable("name")
    ensures r.Failure? && queue.Obj? ==> r.error == MissingKey(FirstAbsent(QueueKeys, queue.fields))
  {
    assert QueueKeys[0] == "name" && QueueKeys[1] == "state";
    assert QueueKeys[2] == "messages_ready" && QueueKeys[3] == "messages_unacknowledged";
    var name :- Lookup(queue, "name");
    var state :- Lookup(queue, "state");
    var ready :- Lookup(queue, "messages_ready");
    var unacked :- Lookup(queue, "messages_unacknowledged");
    Success((name, state, ready, unacked))
  }

  /** `m[key]` exists and is a dict holding a "rate" entry. */
  predicate HasRate(m: map<string, Json>, key: string) {
    key in m && m[key].Obj? && "rate" in m[key].fields
  }

  /** Every lookup connection_to_tuple makes succeeds. */
  predicate HasConnectionFields(connection: Json) {
    && connection.Obj?
    && "name" in connection.fields
    && "state" in connection.fields
    && HasRate(connection.fields, "send_oct_details")
    && HasRate(connection.fields, "recv_oct_details")
  }

  /**
   * connection_to_tuple: (name, state, send_oct_details.rate,
   * recv_oct_details.rate); a missing key, or a nested details value that is
   * not a dict, raises.
   */
  function ConnectionToTuple(connection: Json): (r: Result<Tuple4>)
    ensures r.Success? <==> HasConnectionFields(connection)
    ensures r.Success? ==>
      r.value == (connection.fields["name"], connection.fields["state"],
                  connection.fields["send_oct_details"].fields["rate"],
                  connection.fields["recv_oct_details"].fields["rate"])
    ensures r.Failure? ==> r.error.MissingKey? || r.error.NotSubscriptable?
    ensures r.Failure? && !connection.Obj? ==> r.error == NotSubscriptable("name")
  {
    var name :- Lookup(connection, "name");
    var state :- Lookup(connection, "state");
    var sendDetails :- Lookup(connection, "send_oct_details");
    var sendRate :- Lookup(sendDetails, "rate");
    var recvDetails :- Lookup(connection, "recv_oct_details");
    var recvRate :- Lookup(recvDetails, "rate");
    Success((name, state, sendRate, recvRate))
  }

  /** `a` and `b` hold the same entries (or the same absences) at `keys`. */
  predicate AgreeOn(a: map<string, Json>, b: map<string, Json>, keys: seq<string>) {
    forall k :: k in keys ==> (k in a <==> k in b) && (k in a ==> a[k] == b[k])
  }

  /** Two values look the same to a `["rate"]` lookup. */
  predicate SameRate(x: Json, y: Json) {
    x.Obj? == y.Obj? && (x.Obj? ==> AgreeOn(x.fields, y.fields, ["rate"]))
  }

  /** Two connection dicts look the same to every lookup connection_to_tuple makes. */
  predicate AgreeOnConnectionView(a: map<string, Json>, b: map<string, Json>) {
    && AgreeOn(a, b, ["name", "state"])
    && (forall d :: d in ["send_oct_details", "recv_oct_details"] ==>
          (d in a <==> d in b) && (d in a ==> SameRate(a[d], b[d])))
  }

  /** queue_to_tuple reads nothing but its four keys: other fields never matter. */
  lemma QueueProjectionIgnoresOtherFields(a: map<string, Json>, b: map<string, Json>)
    requires AgreeOn(a, b, QueueKeys)
    ensures QueueToTuple(Obj(a)) == QueueToTuple(Obj(b))
  {
  }

  /**
   * connection_to_tuple reads nothing but name, state and the two nested
   * rates: the other fields, nested ones included, never matter.
   */
  lemma ConnectionProjectionIgnoresOtherFields(a: map<string, Json>, b: map<string, Json>)
    requires AgreeOnConnectionView(a, b)
    ensures ConnectionToTuple(Obj(a)) == ConnectionToTuple(Obj(b))
  {
  }

  // ---------------------------------------------------------------------------
  // Requests and replies

  const QueuesPath := "/api/queues/%2F/"
  const ConnectionsPath := "/api/connections/"

  /** The URL get_queues requests: endpoint, queue path, then the queue name. */
  function QueuesUrl(endpoint: string, queueName: string): (url: string)
    ensures |url| == |endpoint| + |QueuesPath| + |queueName|
    ensures url[..|endpoint|] == endpoint
    ensures url[|endpoint|..|endpoint| + |QueuesPath|] == QueuesPath
    ensures url[|endpoint| + |QueuesPath|..] == queueName
  {
    endpoint + QueuesPath + queueName
  }

  /** The URL get_connections requests: endpoint, connection path, then the connection name. */
  function ConnectionsUrl(endpoint: string, connectionName: string): (url: string)
    ensures |url| == |endpoint| + |ConnectionsPath| + |connectionName|
    ensures url[..|endpoint|] == endpoint
    ensures url[|endpoint|..|endpoint| + |ConnectionsPath|] == ConnectionsPath
    ensures url[|endpoint| + |ConnectionsPath|..] == connectionName
  {
    endpoint + ConnectionsPath + connectionName
  }

  /** An empty name requests the bare collection path, that is, every object. */
  lemma EmptyNameRequestsCollection(endpoint: string)
    ensures QueuesUrl(endpoint, "") == endpoint + "/api/queues/%2F/"
    ensures ConnectionsUrl(endpoint, "") == endpoint + "/api/connections/"
  {
  }

  /** What the HTTP call returned: the status code and the decoded JSON body. */
  datatype Reply = Reply(status: int, body: Json)

  /** A single dict is wrapped into a one-element list; anything else is kept. */
  function Normalize(body: Json): (r: Json)
    ensures !r.Obj?
  {
    if body.Obj? then Arr([body]) else body
  }

  /**
   * The status check and normalisation shared by get_queues and
   * get_connections, for a request made to `url`.
   */
  function Receive(url: string, reply: Reply): (r: Result<Json>)
    ensures r.Failure? <==> reply.status != 200
    ensures r.Failure? ==> r.error == HttpError(url, reply.status)
    ensures r.Success? ==> !r.value.Obj?
    ensures r.Success? && reply.body.Obj? ==> r.value == Arr([reply.body])
    ensures r.Success? && !reply.body.Obj? ==> r.value == reply.body
  {
    if reply.status != 200 then Failure(HttpError(url, reply.status))
    else Success(Normalize(reply.body))
  }

  /** get_queues, with the reply to its request given. */
  function GetQueues(endpoint: string, queueName: string, reply: Reply): (r: Result<Json>)
    ensures r.Failure? <==> reply.status != 200
    ensures r.Failure? ==> r.error == HttpError(QueuesUrl(endpoint, queueName), reply.status)
    ensures r.Success? ==> !r.value.Obj?
    ensures r.Success? && reply.body.Obj? ==> r.value == Arr([reply.body])
    ensures r.Success? && reply.body.Arr? ==> r.value == reply.body
  {
    Receive(QueuesUrl(endpoint, queueName), reply)
  }

  /** get_connections, with the reply to its request given. */
  function GetConnections(endpoint: string, connectionName: string, reply: Reply): (r: Result<Json>)
    ensures r.Failure? <==> reply.status != 200
    ensures r.Failure? ==> r.error == HttpError(ConnectionsUrl(endpoint, connectionName), reply.status)
    ensures r.Success? ==> !r.value.Obj?
    ensures r.Success? && reply.body.Obj? ==> r.value == Arr([reply.body])
    ensures r.Success? && reply.body.Arr? ==> r.value == reply.body
  {
    Receive(ConnectionsUrl(endpoint, connectionName), reply)
  }
}
