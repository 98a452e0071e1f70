/**
 The test harness's record of a run: what it sends for a call, what it writes down for an answer
 (`send_operation` and `record_response`). The clock is a parameter.
 */
module Harness {
  import opened Values
  import opened Checker
  import opened History
  import opened Node
  import opened Verdicts

  /** The message the harness sends for a call. */
  function RequestFor(client: string, id: nat, key: string, call: Call): ClientRequest {
    match call
    case Read => ClientRequest(ReadRequest, client, id, Some(key), None, None, None)
    case Write(value) => ClientRequest(WriteRequest, client, id, Some(key), Some(value), None, None)
    case Cas(from, to) => ClientRequest(CasRequest, client, id, Some(key), None, Some(from), Some(to))
    case Unsupported(name) => ClientRequest(OtherRequest(name), client, id, Some(key), None, None, None)
  }

  /** The entry the harness records for the answer `body` to operation `id`. */
  function EntryFor(id: nat, body: Body, now: Time): HistoryEntry {
    match body
    case ReadOk(value) => Completion(id, Ok, Some(value), now)
    case WriteOk => Completion(id, Ok, None, now)
    case CasOk => Completion(id, Ok, None, now)
    case Error(code) => Completion(id, if code == 20 || code == 22 then Fail else Info, None, now)
  }

  /**
   What the harness sends for a call, the node takes for a command that asks for just that call, under its id and for
   its client; what the node does not support it refuses with error 10.
   */
  lemma RequestRoundTrip(n: State, client: string, id: nat, key: string, call: Call)
    ensures var e := ClientCall(n, RequestFor(client, id, key, call), Taken).1;
      match call {
        case Read => e == Effects([Command(n.id, client, id, KVOp.Read(key))], [])
        case Write(value) => e == Effects([Command(n.id, client, id, KVOp.Write(key, value))], [])
        case Cas(from, to) => e == Effects([Command(n.id, client, id, KVOp.Cas(key, from, to))], [])
        case Unsupported(_) => e == Effects([], [ReplyLine(Reply(n.id, client, id, Error(10)))])
      }
    ensures var r := RequestFor(client, id, key, call);
      (r.value.Some? <==> call.Write?) && (r.from.Some? <==> call.Cas?) && (r.to.Some? <==> call.Cas?)
  {
  }

  /** A request without its fields is taken with the empty key and null values. */
  lemma BareRequest(n: State, kind: RequestType, client: string, id: nat)
    ensures var e := ClientCall(n, ClientRequest(kind, client, id, None, None, None, None), Taken).1;
      match kind {
        case ReadRequest => e.proposed == [Command(n.id, client, id, KVOp.Read(""))]
        case WriteRequest => e.proposed == [Command(n.id, client, id, KVOp.Write("", Null))]
        case CasRequest => e.proposed == [Command(n.id, client, id, KVOp.Cas("", Null, Null))]
        case OtherRequest(_) => e.proposed == []
      }
  {
  }

  /**
   Among the answers, exactly the errors other than 20 and 22 leave the operation indeterminate, and exactly a
   successful read carries a value.
   */
  lemma RecordedAs(call: HistoryEntry, body: Body, now: Time)
    requires call.Invocation?
    ensures var e := EntryFor(call.id, body, now);
      && e.Completion? && e.id == call.id && e.time == now
      && (Indeterminate(call, e) <==> body.Error? && body.code != 20 && body.code != 22)
      && (e.value.Some? <==> body.ReadOk?) && (body.ReadOk? ==> e.value == Some(body.value))
  {
  }

  /** No id is invoked twice, and every invoked id is below `next`. */
  ghost predicate FreshBelow(h: seq<HistoryEntry>, next: nat) {
    && (forall m :: 0 <= m < |h| && h[m].Invocation? ==> h[m].id < next)
    && UniqueCalls(h)
  }

  class Recorder {
    var history: seq<HistoryEntry>
    var nextOpId: nat

    ghost predicate Valid()
      reads this
    {
      FreshBelow(history, nextOpId)
    }

    constructor ()
      ensures Valid() && history == [] && nextOpId == 1
    {
      history, nextOpId := [], 1;
    }

    /** Takes a fresh id, records the invocation and hands out the message to send. */
    method SendOperation(client: string, key: string, call: Call, now: Time) returns (id: nat, request: ClientRequest)
      requires Valid()
      modifies this
      ensures Valid() && id == old(nextOpId) && nextOpId == id + 1
      ensures history == old(history) + [Invocation(id, key, call, now)]
      ensures request == RequestFor(client, id, key, call)
    {
      id := nextOpId;
      nextOpId := nextOpId + 1;
      var value, from, to := None, None, None;
      var kind: RequestType;
      match call {
        case Read => kind := ReadRequest;
        case Write(v) => kind, value := WriteRequest, Some(v);
        case Cas(f, t) => kind, from, to := CasRequest, Some(f), Some(t);
        case Unsupported(name) => kind := OtherRequest(name);
      }
      request := ClientRequest(kind, client, id, Some(key), value, from, to);
      history := history + [Invocation(id, key, call, now)];
    }

    /** Records an answer under the id it replies to. */
    method RecordResponse(reply: Reply, now: Time)
      requires Valid()
      modifies this`history
      ensures Valid()
      ensures history == old(history) + [EntryFor(reply.inReplyTo, reply.body, now)]
    {
      var isOk := !reply.body.Error?;
      var outcome :=
        if isOk then Ok
        else if reply.body.code == KEY_DOES_NOT_EXIST || reply.body.code == PRECONDITION_FAILED then Fail
        else Info;
      var value := if reply.body.ReadOk? then Some(reply.body.value) else None;
      history := history + [Completion(reply.inReplyTo, outcome, value, now)];
    }
  }
}
