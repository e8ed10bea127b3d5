/** The queue-backed transport between two paired peers (`AWSTransport`): each
    peer sends on its own queue and reads from the other's. A message is encrypted,
    encoded in base64 and enqueued; a read takes one batch off the receive queue and
    decodes it, and an authentication failure caused by clock skew is reported to
    the user. */
module Transport {
  import opened Types
  import Base64
  import Aws
  import Socket

  /** What the transport uses of a pairing: the names of its two queues (seen from
      this peer) and its encryption of outgoing messages, which may fail. */
  datatype PairingSecret = PairingSecret(
    sendQueueName: string,
    recvQueueName: string,
    encrypt: seq<byte> -> Result<seq<byte>>)

  /** Two peers are paired when each one's send queue is the other's receive queue. */
  predicate Paired(a: PairingSecret, b: PairingSecret) {
    a.sendQueueName == b.recvQueueName && a.recvQueueName == b.sendQueueName
  }

  // ---------------------------------------------------------------------------
  // Provisioning

  /** Creates the send queue, then the receive queue, stopping at the first failure.
      A send queue created before the receive queue fails is kept. */
  method Setup(ps: PairingSecret, sqs: Aws.QueueService) returns (err: Option<Error>)
    modifies sqs
    ensures |old(sqs.calls)| < |sqs.calls| && sqs.calls[..|old(sqs.calls)|] == old(sqs.calls)
    ensures var made := sqs.calls[|old(sqs.calls)|..];
      || (&& err.Some?
          && made == [Aws.Create(ps.sendQueueName, err)]
          && sqs.queues == old(sqs.queues))
      || (&& made == [Aws.Create(ps.sendQueueName, None), Aws.Create(ps.recvQueueName, err)]
          && sqs.queues == (var sent := Aws.Created(old(sqs.queues), ps.sendQueueName);
                            if err.None? then Aws.Created(sent, ps.recvQueueName) else sent))
  {
    err := sqs.CreateQueue(ps.sendQueueName);
    if err.Some? {
      return;
    }
    err := sqs.CreateQueue(ps.recvQueueName);
  }

  // ---------------------------------------------------------------------------
  // Sending

  /** Encrypts `message` and enqueues its base64 text on the send queue. The push
      notification carrying `alertText` is best effort and never affects the result:
      the returned error is the encryption error, or else exactly the enqueue's. */
  method PushAlert(ps: PairingSecret, alertText: string, message: seq<byte>, sqs: Aws.QueueService)
    returns (err: Option<Error>)
    modifies sqs
    ensures ps.encrypt(message).Err? ==> err == Some(ps.encrypt(message).error) && unchanged(sqs)
    ensures ps.encrypt(message).Ok? ==>
      var body := Base64.Encode(ps.encrypt(message).value);
      && sqs.calls == old(sqs.calls) + [Aws.Send(ps.sendQueueName, body, err)]
      && (err.None? ==> && ps.sendQueueName in old(sqs.queues)
                        && sqs.queues == old(sqs.queues)[ps.sendQueueName := old(sqs.queues)[ps.sendQueueName] + [body]])
      && (err.Some? ==> sqs.queues == old(sqs.queues))
  {
    var ctxt := ps.encrypt(message);
    if ctxt.Err? {
      return Some(ctxt.error);
    }
    var ctxtString := Base64.Encode(ctxt.value);
    err := sqs.SendToQueue(ps.sendQueueName, ctxtString);
  }

  /** The silent variant of PushAlert: the same durable path, with a silent push. */
  method SendMessage(ps: PairingSecret, message: seq<byte>, sqs: Aws.QueueService)
    returns (err: Option<Error>)
    modifies sqs
    ensures ps.encrypt(message).Err? ==> err == Some(ps.encrypt(message).error) && unchanged(sqs)
    ensures ps.encrypt(message).Ok? ==>
      var body := Base64.Encode(ps.encrypt(message).value);
      && sqs.calls == old(sqs.calls) + [Aws.Send(ps.sendQueueName, body, err)]
      && (err.None? ==> && ps.sendQueueName in old(sqs.queues)
                        && sqs.queues == old(sqs.queues)[ps.sendQueueName := old(sqs.queues)[ps.sendQueueName] + [body]])
      && (err.Some? ==> sqs.queues == old(sqs.queues))
  {
    var ctxt := ps.encrypt(message);
    if ctxt.Err? {
      return Some(ctxt.error);
    }
    var ctxtString := Base64.Encode(ctxt.value);
    err := sqs.SendToQueue(ps.sendQueueName, ctxtString);
  }

  // ---------------------------------------------------------------------------
  // Clock-skew detection

  /** Whether `sub` occurs in `s` starting at index `i`. */
  predicate OccursAt(s: string, sub: string, i: int) {
    0 <= i && i + |sub| <= |s| && s[i..i + |sub|] == sub
  }

  /** Whether `sub` occurs in `s` as a contiguous piece (Go's `strings.Contains(s, sub)`). */
  function Contains(s: string, sub: string): (r: bool)
    ensures r <==> exists i :: OccursAt(s, sub, i)
    decreases |s|
  {
    if |s| < |sub| then false
    else if s[..|sub|] == sub then assert OccursAt(s, sub, 0); true
    else
      var r' := Contains(s[1..], sub);
      assert r' ==> exists i :: OccursAt(s, sub, i) by {
        if r' {
          var i :| OccursAt(s[1..], sub, i);
          assert s[i + 1..i + 1 + |sub|] == s[1..][i..i + |sub|];
          assert OccursAt(s, sub, i + 1);
        }
      }
      assert (exists i :: OccursAt(s, sub, i)) ==> r' by {
        if exists i :: OccursAt(s, sub, i) {
          var i :| OccursAt(s, sub, i);
          assert i != 0;
          assert s[1..][i - 1..i - 1 + |sub|] == s[i..i + |sub|];
          assert OccursAt(s[1..], sub, i - 1);
        }
      }
      r'
  }

  /** The text by which the queue service rejects a request whose signature has
      expired, which happens when the local clock is out of sync. */
  const SignatureExpiredText: string := "Signature expired"

  /** The diagnostic telling the user to synchronise the system clock. Its colouring
      and the clock-update command it names are not modelled. */
  const ClockSkewWarning: string := "Your system time is out of sync"

  /** An error is a clock-skew failure when its text mentions an expired signature. */
  predicate SignatureExpired(err: Option<Error>) {
    err.Some? && Contains(err.value.text, SignatureExpiredText)
  }

  /** Warns the user, once, when `err` is a clock-skew failure and there is a notifier. */
  method NotifyIfSignatureExpiredErr(err: Option<Error>, notifier: Socket.Notifier?)
    modifies notifier
    ensures notifier != null ==>
      notifier.sent == old(notifier.sent) + (if SignatureExpired(err) then [ClockSkewWarning] else [])
  {
    if err.None? || notifier == null {
      return;
    }
    if Contains(err.value.text, SignatureExpiredText) {
      notifier.Notify(ClockSkewWarning);
    }
  }

  // ---------------------------------------------------------------------------
  // Receiving

  /** The ciphertexts of a received batch: the decodings of the entries that are
      valid base64, in the order of the batch; the other entries are dropped. */
  function DecodeAll(batch: seq<string>): (r: seq<seq<byte>>)
    ensures |r| <= |batch|
  {
    if batch == [] then []
    else
      var init := DecodeAll(batch[..|batch| - 1]);
      match Base64.Decode(batch[|batch| - 1])
      case None => init
      case Some(c) => init + [c]
  }

  /** Takes one batch off the receive queue. When the queue service fails, its error
      goes through clock-skew detection and is returned with no ciphertexts;
      otherwise every entry that decodes is returned, in order. */
  method Read(notifier: Socket.Notifier?, ps: PairingSecret, sqs: Aws.QueueService)
    returns (ciphertexts: seq<seq<byte>>, err: Option<Error>)
    modifies sqs, notifier
    ensures |sqs.calls| == |old(sqs.calls)| + 1
    ensures var call := sqs.calls[|sqs.calls| - 1];
      && sqs.calls == old(sqs.calls) + [call]
      && call.Receive? && call.name == ps.recvQueueName
      && (call.answer.Err? ==> && err == Some(call.answer.error) && ciphertexts == []
                               && sqs.queues == old(sqs.queues))
      && (call.answer.Ok? ==> && err == None && ciphertexts == DecodeAll(call.answer.value)
                              && ps.recvQueueName in old(sqs.queues) && ps.recvQueueName in sqs.queues
                              && old(sqs.queues)[ps.recvQueueName] == call.answer.value + sqs.queues[ps.recvQueueName]
                              && sqs.queues == old(sqs.queues)[ps.recvQueueName := sqs.queues[ps.recvQueueName]])
    ensures notifier != null ==>
      notifier.sent == old(notifier.sent) + (if SignatureExpired(err) then [ClockSkewWarning] else [])
  {
    var answer := sqs.ReceiveAndDeleteFromQueue(ps.recvQueueName);
    err := if answer.Err? then Some(answer.error) else None;
    NotifyIfSignatureExpiredErr(err, notifier);
    if answer.Err? {
      return [], err;
    }

    var ctxtStrings := answer.value;
    ciphertexts := [];
    for i := 0 to |ctxtStrings|
      invariant ciphertexts == DecodeAll(ctxtStrings[..i])
    {
      assert ctxtStrings[..i + 1][..i] == ctxtStrings[..i];
      var ctxt := Base64.Decode(ctxtStrings[i]);
      if ctxt.None? {
        continue;
      }
      ciphertexts := ciphertexts + [ctxt.value];
    }
    assert ctxtStrings[..|ctxtStrings|] == ctxtStrings;
  }

  // ---------------------------------------------------------------------------
  // Properties of the receive batch

  /** Decoding a batch piecewise is decoding it whole: entries are handled one at a
      time, independently of each other, and their order is kept. */
  lemma {:induction false} DecodeAllAppend(a: seq<string>, b: seq<string>)
    ensures DecodeAll(a + b) == DecodeAll(a) + DecodeAll(b)
    decreases |b|
  {
    if b == [] {
      assert a + b == a;
    } else {
      var b' := b[..|b| - 1];
      assert (a + b)[..|a + b| - 1] == a + b';
      assert (a + b)[|a + b| - 1] == b[|b| - 1];
      DecodeAllAppend(a, b');
    }
  }

  /** A ciphertext is returned exactly when some entry of the batch decodes to it. */
  lemma {:induction false} DecodeAllMember(batch: seq<string>, c: seq<byte>)
    ensures c in DecodeAll(batch) <==> exists i :: 0 <= i < |batch| && Base64.Decode(batch[i]) == Some(c)
    decreases |batch|
  {
    if batch != [] {
      var init := batch[..|batch| - 1];
      DecodeAllMember(init, c);
      if exists i :: 0 <= i < |init| && Base64.Decode(init[i]) == Some(c) {
        var i :| 0 <= i < |init| && Base64.Decode(init[i]) == Some(c);
        assert batch[i] == init[i];
      }
      if exists i :: 0 <= i < |batch| && Base64.Decode(batch[i]) == Some(c) {
        var i :| 0 <= i < |batch| && Base64.Decode(batch[i]) == Some(c);
        if i < |init| {
          assert init[i] == batch[i];
        }
      }
    }
  }

  /** An entry that does not decode is skipped without aborting the batch: the result
      is that of the entries before it followed by that of the entries after it. */
  lemma DecodeAllSkipsMalformed(batch: seq<string>, i: int)
    requires 0 <= i < |batch| && Base64.Decode(batch[i]) == None
    ensures DecodeAll(batch) == DecodeAll(batch[..i]) + DecodeAll(batch[i + 1..])
    ensures |DecodeAll(batch)| < |batch|
  {
    assert batch == batch[..i] + [batch[i]] + batch[i + 1..];
    DecodeAllAppend(batch[..i] + [batch[i]], batch[i + 1..]);
    DecodeAllAppend(batch[..i], [batch[i]]);
    assert DecodeAll([batch[i]]) == [] by {
      assert [batch[i]][..0] == [];
    }
  }

  /** Of two entries that decode, the earlier one's ciphertext comes first. */
  lemma DecodeAllKeepsOrder(batch: seq<string>, i: int, j: int, x: seq<byte>, y: seq<byte>)
    requires 0 <= i < j < |batch|
    requires Base64.Decode(batch[i]) == Some(x) && Base64.Decode(batch[j]) == Some(y)
    ensures exists k, l :: 0 <= k < l < |DecodeAll(batch)| && DecodeAll(batch)[k] == x && DecodeAll(batch)[l] == y
  {
    var front, back := batch[..j], batch[j..];
    assert batch == front + back;
    DecodeAllAppend(front, back);
    assert front[i] == batch[i];
    DecodeAllMember(front, x);
    var k :| 0 <= k < |DecodeAll(front)| && DecodeAll(front)[k] == x;
    assert back == [batch[j]] + back[1..];
    DecodeAllAppend([batch[j]], back[1..]);
    assert DecodeAll([batch[j]]) == [y] by {
      assert [batch[j]][..0] == [];
    }
    var l := |DecodeAll(front)|;
    assert DecodeAll(batch)[k] == x && DecodeAll(batch)[l] == y;
  }

  lemma DecodeAllLast(batch: seq<string>, c: seq<byte>)
    requires batch != [] && Base64.Decode(batch[|batch| - 1]) == Some(c)
    ensures DecodeAll(batch) == DecodeAll(batch[..|batch| - 1]) + [c]
  {
  }

  /** A batch whose every entry decodes loses nothing: the result is the decodings
      of all its entries, in order. */
  lemma {:induction false} DecodeAllValid(batch: seq<string>, cs: seq<seq<byte>>)
    requires |batch| == |cs|
    requires forall i :: 0 <= i < |batch| ==> Base64.Decode(batch[i]) == Some(cs[i])
    ensures DecodeAll(batch) == cs
    decreases |batch|
  {
    if batch != [] {
      var n := |batch| - 1;
      assert DecodeAll(batch[..n]) == cs[..n] by {
        forall i | 0 <= i < n
          ensures Base64.Decode(batch[..n][i]) == Some(cs[..n][i])
        {
          assert batch[..n][i] == batch[i];
        }
        DecodeAllValid(batch[..n], cs[..n]);
      }
      DecodeAllLast(batch, cs[n]);
      assert cs == cs[..n] + [cs[n]];
    }
  }

  /** A batch made only of encoded ciphertexts decodes back to exactly those
      ciphertexts, in order. */
  lemma DecodeAllEncoded(batch: seq<string>, cs: seq<seq<byte>>)
    requires |batch| == |cs|
    requires forall i :: 0 <= i < |batch| ==> batch[i] == Base64.Encode(cs[i])
    ensures DecodeAll(batch) == cs
  {
    forall i | 0 <= i < |batch|
      ensures Base64.Decode(batch[i]) == Some(cs[i])
    {
      Base64.RoundTrip(cs[i]);
    }
    DecodeAllValid(batch, cs);
  }

  /** Three entries of which the middle one is malformed yield the other two. */
  lemma OneMalformedOfThree(x: seq<byte>, y: seq<byte>, bad: string)
    requires Base64.Decode(bad) == None
    ensures DecodeAll([Base64.Encode(x), bad, Base64.Encode(y)]) == [x, y]
  {
    var batch := [Base64.Encode(x), bad, Base64.Encode(y)];
    DecodeAllSkipsMalformed(batch, 1);
    DecodeAllEncoded(batch[..1], [x]);
    DecodeAllEncoded(batch[2..], [y]);
  }

  // ---------------------------------------------------------------------------
  // Properties of clock-skew detection

  /** The classification is exactly a test for the substring, and no error means no warning. */
  lemma SignatureExpiredIff(err: Option<Error>)
    ensures SignatureExpired(err) <==>
      err.Some? && exists i :: OccursAt(err.value.text, SignatureExpiredText, i)
  {
  }

  /** The queue service's rejection of a request signed too long ago, whose text
      starts with the phrase, is a clock-skew failure. */
  lemma ExpiredSignatureDetected(detail: string)
    ensures SignatureExpired(Some(Error(SignatureExpiredText + detail)))
  {
    var t := SignatureExpiredText + detail;
    assert t[..|SignatureExpiredText|] == SignatureExpiredText;
    assert OccursAt(t, SignatureExpiredText, 0);
  }

  /** An error text too short to hold the phrase, or no error at all, is not a
      clock-skew failure. */
  lemma ShortErrorNotDetected(err: Option<Error>)
    requires err.Some? ==> |err.value.text| < |SignatureExpiredText|
    ensures !SignatureExpired(err)
  {
  }

  // ---------------------------------------------------------------------------
  // Delivery between paired peers

  /** What one peer sends on an empty queue is what its partner reads: the partner
      gets the sender's ciphertext, unchanged, or (when the queue service hands back
      an empty batch) nothing yet. */
  method SendThenRead(sender: PairingSecret, receiver: PairingSecret, message: seq<byte>,
                      sqs: Aws.QueueService, notifier: Socket.Notifier?)
    returns (sendErr: Option<Error>, ciphertexts: seq<seq<byte>>, readErr: Option<Error>)
    requires Paired(sender, receiver)
    requires sender.sendQueueName in sqs.queues && sqs.queues[sender.sendQueueName] == []
    modifies sqs, notifier
    ensures sendErr.None? && readErr.None? ==>
      && sender.encrypt(message).Ok?
      && (ciphertexts == [] || ciphertexts == [sender.encrypt(message).value])
  {
    sendErr := SendMessage(sender, message, sqs);
    ciphertexts, readErr := Read(notifier, receiver, sqs);
    if sendErr.None? && readErr.None? {
      var c := sender.encrypt(message).value;
      var body := Base64.Encode(c);
      var batch := sqs.calls[|sqs.calls| - 1].answer.value;
      assert [body] == batch + sqs.queues[receiver.recvQueueName];
      if batch != [] {
        assert batch == [body];
        DecodeAllEncoded(batch, [c]);
      }
    }
  }
}
