/** The queue service the transport relies on (Amazon SQS, reached through the
    `CreateQueue`, `SendToQueue` and `ReceiveAndDeleteFromQueue` calls of the `aws`
    package). Its internals are not modelled: any call may fail for reasons outside
    the model (the network, credentials, a clock that is out of sync), so each call's
    answer is chosen nondeterministically, and every call is recorded with its answer
    in `calls`. */
module Aws {
  import opened Types

  /** One call made to the queue service, with the answer it gave. */
  datatype Call =
    | Create(name: string, err: Option<Error>)
    | Send(name: string, body: string, err: Option<Error>)
    | Receive(name: string, answer: Result<seq<string>>)

  /** The queues after a successful creation of `name`: a new empty queue, or the
      existing one left as it is (creating a queue that exists is harmless). */
  function Created(queues: map<string, seq<string>>, name: string): (r: map<string, seq<string>>)
    ensures r.Keys == queues.Keys + {name}
    ensures forall q :: q in queues ==> r[q] == queues[q]
    ensures name !in queues ==> r[name] == []
  {
    if name in queues then queues else queues[name := []]
  }

  class QueueService {
    /** The contents of every existing queue, oldest message first. */
    var queues: map<string, seq<string>>
    /** Every call made so far, oldest first, with its answer. */
    var calls: seq<Call>

    constructor ()
      ensures queues == map[] && calls == []
    {
      queues := map[];
      calls := [];
    }

    method CreateQueue(name: string) returns (err: Option<Error>)
      modifies this
      ensures calls == old(calls) + [Create(name, err)]
      ensures queues == if err.None? then Created(old(queues), name) else old(queues)
    {
      err :| true;
      if err.None? {
        queues := Created(queues, name);
      }
      calls := calls + [Create(name, err)];
    }

    /** Appends `body` to the queue `name`; sending to a queue that does not exist fails. */
    method SendToQueue(name: string, body: string) returns (err: Option<Error>)
      modifies this
      ensures calls == old(calls) + [Send(name, body, err)]
      ensures err.None? ==> name in old(queues) && queues == old(queues)[name := old(queues)[name] + [body]]
      ensures err.Some? ==> queues == old(queues)
    {
      if name in queues {
        err :| true;
      } else {
        var e: Error :| true;
        err := Some(e);
      }
      if err.None? {
        queues := queues[name := queues[name] + [body]];
      }
      calls := calls + [Send(name, body, err)];
    }

    /** Removes and returns one batch: the oldest messages of the queue `name`, as many
        as the service chooses to hand back. Receiving from a queue that does not
        exist fails. */
    method ReceiveAndDeleteFromQueue(name: string) returns (answer: Result<seq<string>>)
      modifies this
      ensures calls == old(calls) + [Receive(name, answer)]
      ensures answer.Ok? ==> && name in old(queues) && name in queues
                             && old(queues)[name] == answer.value + queues[name]
                             && queues == old(queues)[name := queues[name]]
      ensures answer.Err? ==> queues == old(queues)
    {
      var failure: Option<Error> :| true;
      if name !in queues {
        var e: Error :| true;
        failure := Some(e);
      }
      if failure.Some? {
        answer := Err(failure.value);
      } else {
        var k :| 0 <= k <= |queues[name]|;
        answer := Ok(queues[name][..k]);
        queues := queues[name := queues[name][k..]];
      }
      calls := calls + [Receive(name, answer)];
    }
  }
}
