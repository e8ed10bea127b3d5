# Queue-backed transport between paired peers, in Dafny

This project models the core of `AWSTransport` (`src/common/transport/transport.go`):
the transport that carries encrypted messages between two paired peers (a phone and a
workstation) through a cloud message queue.

- **Provisioning** (`Setup`). It creates the pairing's send queue, then its receive queue. It stops at the first failure.
- **Sending** (`PushAlert`, `SendMessage`). It encrypts the message. If that fails, it returns the error and touches nothing. Otherwise it base64-encodes the ciphertext and enqueues it on the send queue. The call's error is exactly the enqueue's answer.
- **Receiving** (`Read`). It takes one batch off the receive queue. If the queue service fails, the error goes through clock-skew detection and is returned with no ciphertexts. Otherwise every entry that is valid base64 is decoded. Malformed entries are dropped, and the order is kept.
- **Clock-skew detection** (`notifyIfSignatureExpiredErr`). An error whose text contains `Signature expired` makes the notifier show exactly one warning to the user. This happens only when there is a notifier.
- **Transit encoding**. The standard base64 alphabet with padding, as in section 4 of RFC 4648. Encoding and decoding follow Go's `base64.StdEncoding`, and decoding inverts encoding.

Files and modules:

| file | module | what it holds |
|---|---|---|
| `types.dfy` | `Types` | `byte`, `Option`, `Result`, `Error` (an error is its text) |
| `base64.dfy` | `Base64` | `Encode`, `Decode` and their properties |
| `aws.dfy` | `Aws` | the queue service, as a class holding the queues and a log of every call with its answer |
| `socket.dfy` | `Socket` | the `Notifier`, as a class holding the messages shown so far |
| `transport.dfy` | `Transport` | the four operations, the skew classifier, `DecodeAll` and their properties |

The queue service is not part of this model's source files. It is abstract here: each call's answer is chosen nondeterministically. Creating a queue may fail. Sending or receiving fails whenever the queue does not exist, and may fail otherwise. A successful receive removes and returns some prefix of the queue. Every call is appended to `QueueService.calls` together with its answer. The transport's contracts then say which calls were made, in which order, and that the returned error is the logged answer.

Encryption is the `encrypt` field of `PairingSecret`, a function that may return an error.

Go's `encoding/base64` is not part of this model's source files either. Its decoder rules are modelled as Go documents them:
- carriage returns and line feeds are skipped wherever they occur;
- the rest must be whole quanta of four characters;
- padding may appear only in the last quantum, as `xx==` or `xxx=`;
- left-over bits below the last byte are not checked, because `StdEncoding` is not strict.

## Model

| member | source | states |
|---|---|---|
| `Base64.SextetValue` | src/common/transport/transport.go:98 | a character accepted by the decoder stands for a 6-bit value whose alphabet character is that character |
| `Base64.EncodeShape` | src/common/transport/transport.go:41 | the encoding has 4 characters per started group of 3 bytes; all of them are alphabet characters except at most two trailing `=` |
| `Base64.DecodeQuantaLength` | src/common/transport/transport.go:98 | a text without line breaks decodes only if its length is a multiple of 4; it then yields 3 bytes per quantum, minus at most 2 |
| `Base64.RoundTrip` | src/common/transport/transport.go:98 | decoding the encoding of any byte sequence, the empty one included, gives that sequence back |
| `Base64.ForeignCharRejected` | src/common/transport/transport.go:98-102 | a text holding a character that is not in the alphabet, not `=` and not a line break fails to decode |
| `Base64.LineBreakIgnored` | src/common/transport/transport.go:98 | inserting a carriage return or line feed anywhere leaves the decoding unchanged |
| `Base64.LeftoverBitsIgnored` | src/common/transport/transport.go:98 | the lenient decoder accepts `QR==` as the byte 65, whose encoding is `QQ==` |
| `Aws.Created` | src/common/transport/transport.go:24 | after a successful creation the queue exists; a new queue is empty, existing queues are untouched, so creating a queue that exists changes nothing |
| `Aws.QueueService.CreateQueue` | src/common/transport/transport.go:24 | the call is logged with its answer; on success the queue exists and nothing else changes; on failure nothing changes |
| `Aws.QueueService.SendToQueue` | src/common/transport/transport.go:50 | the call is logged with its answer; on success the body is appended to that existing queue only; on failure nothing changes |
| `Aws.QueueService.ReceiveAndDeleteFromQueue` | src/common/transport/transport.go:91 | the call is logged with its answer; on success the batch is removed from the front of that queue; on failure nothing changes |
| `Socket.Notifier.Notify` | src/common/transport/transport.go:86 | the message is appended to what the user has been shown |
| `Transport.Setup` | src/common/transport/transport.go:23-33 | it creates the send queue first. If that fails, it makes no other call and returns that error. Otherwise it creates the receive queue and returns that call's answer. The resulting queues follow from those answers |
| `Transport.PushAlert` | src/common/transport/transport.go:35-55 | on an encryption error it returns that error and the queue service is unchanged. Otherwise it makes exactly one call: it enqueues the base64 ciphertext on the send queue. Its error is that call's answer. Only the send queue changes, and only on success |
| `Transport.SendMessage` | src/common/transport/transport.go:56-79 | the same as `PushAlert`, for the silent variant |
| `Transport.Contains` | src/common/transport/transport.go:85 | true exactly when the phrase occurs as a contiguous piece of the text |
| `Transport.SignatureExpiredIff` | src/common/transport/transport.go:81-85 | an error is classified as clock skew exactly when it is not nil and its text contains `Signature expired` |
| `Transport.ExpiredSignatureDetected` | src/common/transport/transport.go:85 | an error text starting with `Signature expired` is classified as clock skew |
| `Transport.ShortErrorNotDetected` | src/common/transport/transport.go:82-85 | no error, or an error text shorter than the phrase, is not classified as clock skew |
| `Transport.NotifyIfSignatureExpiredErr` | src/common/transport/transport.go:81-88 | with a notifier, exactly one warning is appended when the error is clock skew, and none otherwise |
| `Transport.DecodeAll` | src/common/transport/transport.go:97-104 | a batch never yields more ciphertexts than it has entries |
| `Transport.Read` | src/common/transport/transport.go:90-106 | it makes exactly one receive call, on the receive queue. If the call fails, its error is returned unchanged with no ciphertexts and no queue changes. Otherwise the error is nil, the ciphertexts are `DecodeAll` of the batch, and the batch left the receive queue; no other queue changes. With a notifier, one warning is shown exactly when the error is clock skew |
| `Transport.DecodeAllAppend` | src/common/transport/transport.go:97-104 | decoding a batch in two pieces gives the same result as decoding it whole, so entries are independent and keep their order |
| `Transport.DecodeAllMember` | src/common/transport/transport.go:97-104 | a ciphertext is returned exactly when some entry of the batch decodes to it |
| `Transport.DecodeAllSkipsMalformed` | src/common/transport/transport.go:98-102 | a malformed entry is dropped without aborting the batch. The result is what the entries before it give, then what the entries after it give. It is shorter than the batch |
| `Transport.DecodeAllKeepsOrder` | src/common/transport/transport.go:97-104 | of two entries that decode, the earlier one's ciphertext comes first in the result |
| `Transport.DecodeAllValid` | src/common/transport/transport.go:97-104 | a batch whose every entry decodes yields all their decodings, in order |
| `Transport.DecodeAllEncoded` | src/common/transport/transport.go:97-104 | a batch of base64-encoded ciphertexts yields exactly those ciphertexts, in order |
| `Transport.OneMalformedOfThree` | src/common/transport/transport.go:97-104 | three entries with a malformed one in the middle yield the other two ciphertexts |
| `Transport.SendThenRead` | src/common/transport/transport.go:56-106 | a message is sent on a paired peer's empty queue, and the partner then reads. When both calls succeed, the partner gets either nothing yet or exactly the sender's ciphertext |

## Left out

- The detached goroutines that send the push notifications (transport.go:42-49, 63-72) are concurrency with no result channel. They change no queue and never affect the returned error, and the contracts of `PushAlert` and `SendMessage` say exactly that. Whether a push is attempted is not modelled, and neither is `alertText`, which only the push uses.
- The lock around `SnsEndpointARN` and `GetSNSEndpointARN` guards a field that only the push path reads.
- The internals of SQS and SNS are not modelled: `CreateQueue`, `SendToQueue`, `ReceiveAndDeleteFromQueue`, `PushToSNSEndpoint` and `PushAlertToSNSEndpoint`. The queue service is the abstract `Aws.QueueService`.
- The queue service is modelled as handing batches back oldest first. The duplicates and reordering that a standard SQS queue allows are not modelled.
- `PairingSecret.EncryptMessage` and the key material are not modelled. Encryption is an opaque function that may fail, fixed per pairing, so a randomised nonce is folded into it.
- Logging through `log.Log.Error` (transport.go:46, 69, 100) is not modelled.
- The warning's text is the opaque constant `Transport.ClockSkewWarning`. Its ANSI colours and the `NTP_UPDATE_CMD` it names are not modelled, and it is kept as characters rather than the `[]byte` that `Notify` receives.
- The `Transport` interface (transport.go:14-19) has a single implementation. Its four methods are modelled directly.
