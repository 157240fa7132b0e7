# Verified model of the Brewblox Spark service

The Spark service sits between a Spark controller and the rest of a Brewblox system. It cuts the controller's byte
stream into messages, matches answers with requests, converts block content between protobuf data and user-facing
JSON, keeps names for numeric block IDs, follows the life cycle of the connection and updates firmware. This project
models these parts and proves what they keep, on all inputs and over all runs.

Run `dafny verify dfyconfig.toml` to check everything.

## Modules

| file | what it holds |
|---|---|
| `wrappers.dfy`, `text.dfy`, `data.dfy`, `numbers.dfy`, `numbers_read.dfy` | results; Python's text operations; JSON data with dict order; decimal fractions and rounding; exactly which texts are numbers |
| `cbox_parser.dfy` | the parser object: a buffer rewritten in place, one innermost `<...>` at a time, then cut at newlines |
| `cbox_machine.dfy`, `cbox_chunks.dfy`, `cbox_exact.dfy` | the one-pass stack machine it refines; independence of chunks; exactly when that holds |
| `commander.dfy` | requests, answers, timeouts and cancellation as atomic steps between awaits |
| `mqtt_connection.dfy` | reassembly of responses from numbered chunks |
| `ymodem.dfy`, `ymodem_transfer.dfy`, `ymodem_replies.dfy`, `ymodem_receiver.dfy` | the firmware sender as a function of what arrives; what it writes; which replies let it go on or end it; what a receiver makes of it |
| `state_machine.dfy`, `lifecycle.dfy` | status flags under any order of setter calls; three tasks interleaved on these flags |
| `time_utils.dfy`, `sequence*.dfy` | the text forms of durations and of Sequence instructions: printing, exactly what each line is read as, and exactly what survives both |
| `claims.dfy`, `claims_exact.dfy`, `relations.dfy`, `relations_exact.dfy` | transitive claims over a graph that may have cycles; relations found in nested data; both in terms of the blocks alone |
| `block_store.dfy`, `block_index.dfy` | the two-way store of block names, and API calls against the controller's own table |
| `links.dfy`, `links_in_place.dfy`, `links_roundtrip.dfy` | rewriting link IDs in nested data, in both directions: as a function, in place on nodes built from any data, and exactly when it can be undone |
| `processor_values.dfy`, `processor.dfy` | value conversions; the walk over schema and content, with masks |
| `processor_leaves.dfy`, `processor_dicts.dfy`, `processor_links.dfy`, `processor_roundtrip.dfy`, `processor_lossless.dfy`, `processor_near.dfy` | round trip of values, of edited dicts and of whole trees, and exactly which trees come back; quantisation of values and of whole trees |
| `processor_masks.dfy`, `processor_excluded.dfy`, `processor_shown.dfy`, `processor_unmasked.dfy` | patch masks that encoding builds; what is left of content that is decoded with a mask |

An object whose methods update its fields is a class here. Each method is proved equal to a function of the old state,
and the properties are lemmas about these functions. Concurrent tasks are state machines whose steps are what one task
does between two suspensions; a run is any sequence of enabled steps. Some proofs say `hide F;`: the verifier then does
not unfold `F` there, which keeps the proof quick.

## What was found

- **Chunks.** Splitting the stream differently never changes events, data lines or the pending buffer if and only if
  each newline that ends up in a completed annotation arrives while a `^` is still waiting in front of it
  (`CboxExact.ChunkIndependenceExact`). So it suffices that completed annotations hold no newline, and without `^` this
  is also necessary: otherwise, cutting behind some newline loses an event.
- **Synchronizing.** `check_compatible` also passes when no controller is known. If the connection is lost and made
  again while the synchronizer still waits in its handshake prompt, the check is passed without a controller, and a
  single handshake from an incompatible controller is then enough to get SYNCHRONIZED with an INCOMPATIBLE error
  (`Lifecycle.CheckCanBePassedWithoutController`). `Lifecycle.SafeExactly` gives the exact condition: at each successful
  `set_synchronized`, the last handshake since the check, if there was one, is from a compatible controller.
- **Message ids.** An id that is reused while an older request is outstanding breaks the empty event: the younger
  request takes the id out of the table and sets the event, and the older one then fails with a KeyError.
  `Commander.EventIsSetEarly` is a run from the initial state to that point, and `Commander.ExactExactly` the exact
  condition: no request starts while an outstanding one has its id. An id is also used up when encoding fails, so the
  distance is counted in ids taken, not in requests sent. An answer that comes more than 0xFFFF ids late completes the
  request that has got its id (`Commander.LateAnswer`); `Commander.OwnAnswersExactly` says exactly when.
- **Deleting.** `delete_block` looks up the name after the controller has deleted the block, and raises a KeyError if
  the store does not know the number (`BlockIndex.SparkApi.DeleteBlock`).
- **Links.** Names survive the rewriting from numbers and back unless a stored name is null, or consists of digits that
  read as another number (`LinksRoundTrip.DataReturnsExactly`).
- **Zeros.** Decoded content comes back from encoding exactly if no field in it is ignored and no zero in it is omitted
  or sent as null by the decoder (`ProcessorLossless.ContentReturnsExactly`).
- **Two notations.** A dict may name a field twice, as in `{value[degF]: 1, value: 2}`. If the first notation is written
  to the key of the second, the walk reads it there again: the value of the second is lost, and that of the first is
  converted twice (`ProcessorDicts.SecondNotationIsLost`).
- **Masks.** An inclusive mask shows a value in a submessage only if it names the whole top-level field. Submessages are
  no leaves and never in a mask; a mask field that leads into a submessage does not match the address of the submessage
  itself, which is then replaced by null with everything in it.
  `{a: {b: 5}}` is sent with the mask `[[1, 2]]`, and decoding it with that mask leaves `{a: null}`
  (`ProcessorShown.NestedValueIsLost`). Of all values that were sent, exactly those outside submessages survive their
  own mask (`ProcessorShown.SentValueKeptExactly`). Exclusive masks hide exactly what they name
  (`ProcessorShown.DecodedValueKeptExactly`).

## Model

| member | source | states |
|---|---|---|
| CboxParser.SearchIsFirst | brewblox_devcon_spark/connection/cbox_parser.py:12-16 | The search yields the match that both patterns describe: leftmost start, nearest end, or none if there is none |
| CboxParser.Parser.EventMessages | brewblox_devcon_spark/connection/cbox_parser.py:27-29 | Yields the queued events in order and empties the queue |
| CboxParser.Parser.DataMessages | brewblox_devcon_spark/connection/cbox_parser.py:31-33 | Yields the queued data lines in order and empties the queue |
| CboxParser.Parser.Push | brewblox_devcon_spark/connection/cbox_parser.py:35-47 | Buffer, events and data lines after a push, as functions of the old buffer and the received text |
| CboxParser.Parser.SubOnce | brewblox_devcon_spark/connection/cbox_parser.py:84-90 | One substitution removes the first match and appends its stripped text to the messages |
| CboxParser.Parser.CoerceMessages | brewblox_devcon_spark/connection/cbox_parser.py:54-93 | The guarded loop ends for every buffer, having removed every match, and yields the captured texts right-stripped in order |
| CboxMachine.ExtractIsRun | brewblox_devcon_spark/connection/cbox_parser.py:54-93 | Repeated rewriting equals one pass of a stack machine: bodies in order of their closing `>`, each with the text of its own nesting level only |
| CboxMachine.RestIsIrreducible | brewblox_devcon_spark/connection/cbox_parser.py:84-90 | Afterwards every remaining `>` precedes every remaining `<` |
| CboxMachine.ExtractConserves | brewblox_devcon_spark/connection/cbox_parser.py:49-52 | Every character is in the residue or in exactly one removed match |
| CboxMachine.DataLines | brewblox_devcon_spark/connection/cbox_parser.py:44-47 | Data lines and residue concatenate to the text, and only newlines behind a `^` are left |
| CboxMachine.DataLinesFirst | brewblox_devcon_spark/connection/cbox_parser.py:44-47 | Complete lines in front are reported first and do not influence what follows |
| CboxChunks.PushResumes | brewblox_devcon_spark/connection/cbox_parser.py:35-47 | A second push continues where one push of the joined text would be, if newlines in completed annotations arrive behind a `^` that is still waiting |
| CboxChunks.ChunkIndependence | brewblox_devcon_spark/connection/cbox_parser.py:35-47 | Under that condition, every split into pushes yields the same events, data lines and buffer as one push |
| CboxExact.NewlinesOutsideSuffice | brewblox_devcon_spark/connection/cbox_parser.py:35-47 | The condition holds if no newline is sent while a `<` is open |
| CboxExact.ChunkDependence | brewblox_devcon_spark/connection/cbox_parser.py:35-47 | A stream that breaks the condition can be cut in two so that something else is reported |
| CboxExact.ChunkIndependenceExact | brewblox_devcon_spark/connection/cbox_parser.py:35-47 | On every stream, independence of all splits holds if and only if each newline that ends up in a completed annotation arrives behind a `^` that is still waiting |
| CboxExact.UnbrokenSuffices | brewblox_devcon_spark/connection/cbox_parser.py:35-47 | The condition holds if completed annotations hold no newline; without `^`, only then |
| Commander.CboxCommander.NextMessageId | brewblox_devcon_spark/command.py:51-53 | Ids count up modulo 0xFFFF |
| Commander.CboxCommander.BeginExecute | brewblox_devcon_spark/command.py:131-143 | Registers a new future under the next id and clears the empty event |
| Commander.CboxCommander.OnResponse | brewblox_devcon_spark/command.py:111-124 | Completes the pending future with the response's id, if there is one, and changes nothing otherwise |
| Commander.CboxCommander.GiveUp | brewblox_devcon_spark/command.py:148-157 | A timeout or a cancelled caller ends a pending future only |
| Commander.CboxCommander.EndExecute | brewblox_devcon_spark/command.py:151-162 | What `_execute` reports: the payload exactly for an answer that is ok, a command error exactly for one that is not, and each of timeout, cancelled caller and send error exactly for its own reason; and the table and event after its `finally` block, also when `del` fails |
| Commander.ResponseFindsItsRequest | brewblox_devcon_spark/command.py:116-121 | In reach of fewer than 0xFFFF ids, an answer finds its own request or none |
| Commander.OwnAnswers | brewblox_devcon_spark/command.py:111-124 | In every interleaving a completed request holds the answer to itself, however late it came |
| Commander.OwnAnswersExactly | brewblox_devcon_spark/command.py:111-124 | Whatever arrives and however late: completed requests hold their own answers if and only if no response arrives while its id belongs to another request that is still pending |
| Commander.MisdirectedIsLate | brewblox_devcon_spark/command.py:116-121 | For answers to requests that were made, that takes at least 0xFFFF ids between request and answer |
| Commander.LateAnswer | brewblox_devcon_spark/command.py:111-124 | A run after which a late answer to request 1 completes the request that got its id, while request 1 waits on |
| Commander.CompletesOnce | brewblox_devcon_spark/command.py:111-124 | A future that is done is never changed again |
| Commander.OutcomeExactly | brewblox_devcon_spark/command.py:126-162 | In every possible run, what a request reports is decided by the event that first ends it: the payload of its own answer if that is ok, a command error if not, a timeout, a cancelled caller, and a send error if nothing has ended it |
| Commander.StartIsExact | brewblox_devcon_spark/command.py:131-143 | Starting keeps active ids distinct and the event right if and only if no outstanding request has the next id |
| Commander.ExactExactly | brewblox_devcon_spark/command.py:126-162 | In every run from the start, active ids are distinct and the event is right after every step if and only if no request starts while an outstanding one has its id |
| Commander.RunKeepsExact | brewblox_devcon_spark/command.py:126-162 | Every interleaving with spaced ids keeps table, outstanding requests and empty event in agreement |
| Commander.DistinctIds | brewblox_devcon_spark/command.py:126-162 | In these runs outstanding ids are distinct and the empty event is set exactly when no request is outstanding |
| Commander.ReusedIdSetsEmptyEarly | brewblox_devcon_spark/command.py:159-162 | If a request gets the id of an outstanding one and ends first, the event is set while the older request is outstanding |
| Commander.EventIsSetEarly | brewblox_devcon_spark/command.py:126-162 | A possible run from the initial state that ends there: request 1 is outstanding, its id is gone from the table, and the event is set |
| MqttConnection.Connection.constructor | brewblox_devcon_spark/connection/mqtt_connection.py:38-39 | A new connection has id 0 and no receive buffer |
| MqttConnection.Connection.ResetRecvBuffer | brewblox_devcon_spark/connection/mqtt_connection.py:41-43 | Sets the id and empties the buffer |
| MqttConnection.Connection.OnPayload | brewblox_devcon_spark/connection/mqtt_connection.py:49-73 | Buffer and deliveries after any payload, including undecodable and malformed ones |
| MqttConnection.Connection.OnChunk | brewblox_devcon_spark/connection/mqtt_connection.py:59-73 | The same for a parsed chunk, with the AttributeError before any buffer exists |
| MqttConnection.ChunkExactly | brewblox_devcon_spark/connection/mqtt_connection.py:49-58 | A payload is a chunk if and only if it has three parts without `;`, the first a number for the id and the second for the index |
| MqttConnection.DeliversOnlyMessages | brewblox_devcon_spark/connection/mqtt_connection.py:49-73 | On every stream, a delivery is the stripped concatenation of the latest chunks 0..n of one id, with a newline only in the last |
| MqttConnection.DeliversMessage | brewblox_devcon_spark/connection/mqtt_connection.py:59-73 | From an idle buffer or one of another id, every such run is delivered once, by its last chunk |
| MqttConnection.DeliveredExactly | brewblox_devcon_spark/connection/mqtt_connection.py:59-73 | From every buffer, and from none, a run is delivered if and only if the buffer was not in the middle of the same id, or missing for id 0 |
| Ymodem.Connection.Clear | brewblox_devcon_spark/ymodem.py:125-127 | Drops the queued replies |
| Ymodem.Connection.Message | brewblox_devcon_spark/ymodem.py:107-109 | Takes the first message on the line: queued ones, then what arrives; or waits forever if none comes |
| Ymodem.Connection.SendPacket | brewblox_devcon_spark/ymodem.py:267-277 | Writes the packet once and returns what the first message that arrives behind it and is no C says; queued messages are dropped, and the C messages in front are taken |
| Ymodem.Connection.SendData | brewblox_devcon_spark/ymodem.py:248-265 | Writes, replies and the line as a function of what arrives: a packet is sent again exactly if the first answer is NAK; data over 1024 bytes raises an error before anything is sent |
| Ymodem.Connection.SendHeader | brewblox_devcon_spark/ymodem.py:244-246 | The same for the header with its extra mark byte |
| Ymodem.OtaClient.SendFirst | brewblox_devcon_spark/ymodem.py:219-223 | As a function of what arrives: the header is answered by ACK, or the transfer is aborted |
| Ymodem.OtaClient.SendBody | brewblox_devcon_spark/ymodem.py:226-234 | As a function of what arrives: data packets in order until one is not answered by ACK |
| Ymodem.OtaClient.SendEnd | brewblox_devcon_spark/ymodem.py:236-237 | As a function of what arrives: the end is answered by ACK, or the assertion fails |
| Ymodem.OtaClient.Transfer | brewblox_devcon_spark/ymodem.py:210-242 | Writes, exchanges, outcome and line of a whole transfer, as a function of all messages that arrive |
| YmodemTransfer.AnswerExactly | brewblox_devcon_spark/ymodem.py:267-277 | A control is returned if and only if it is the first character of a message behind nothing but C messages |
| YmodemTransfer.SentWithRetry | brewblox_devcon_spark/ymodem.py:248-265 | A packet that is answered is written once, or twice if the first answer is NAK, and each answer is taken from what arrived behind its write |
| YmodemTransfer.TransferIsSent | brewblox_devcon_spark/ymodem.py:210-242 | If a transfer returns, its writes are header, data packets and end in order, each acknowledged by what arrived behind its last write, and then the closing packet; for every pattern of C, NAK and ACK messages |
| YmodemTransfer.LengthFailsExactly | brewblox_devcon_spark/ymodem.py:248-253 | The length check fails if and only if name and size do not fit into the header |
| YmodemReplies.SentIsAnswered | brewblox_devcon_spark/ymodem.py:267-277 | A packet takes the next reply: what the next batch that is not all C messages says |
| YmodemReplies.TransferEnds | brewblox_devcon_spark/ymodem.py:210-265 | For every line, the replies alone decide the outcome: at the first packet that is acknowledged neither at once nor after one NAK, with that reply, or with the replies to the end of the transfer and the closing packet |
| YmodemReplies.TransferReturnsExactly | brewblox_devcon_spark/ymodem.py:210-265 | The transfer returns if and only if header and data packets are each acknowledged at once or after one NAK, the end at once, and the closing packet is answered |
| YmodemReceiver.AcknowledgedOnce | brewblox_devcon_spark/ymodem.py:258-265 | Exactly the packets of the transfer are acknowledged, once each and in order, with at most two writes each |
| YmodemReceiver.DataPacketFormat | brewblox_devcon_spark/ymodem.py:248-256 | Data packet i, byte by byte: 1029 bytes, mark 2, i mod 256 and its complement, the 1024 bytes of the file from 1024(i - 1) on, padded with zeros, and a zero checksum |
| YmodemReceiver.HeaderPacketFormat | brewblox_devcon_spark/ymodem.py:244-256 | The header packet: mark 2, number 0 and its complement, an extra mark, name and size, and zeros |
| Ymodem.ControlExactly | brewblox_devcon_spark/ymodem.py:65-73 | Which bytes are read as which control characters |
| YmodemReceiver.HeaderReadsBack | brewblox_devcon_spark/ymodem.py:244-246 | The header's name and size can be read back |
| YmodemReceiver.TransferReadsBack | brewblox_devcon_spark/ymodem.py:226-230 | The data of ceil(size/1024) packets, cut to the header's size, is the file |
| YmodemReceiver.ReceiverHasFile | brewblox_devcon_spark/ymodem.py:210-242 | Whatever arrives: if the transfer returns, the packets that were acknowledged are exactly those of name and file, and a receiver reads both from them |
| StateMachine.Machine.constructor | brewblox_devcon_spark/state_machine.py:57-65 | The initial state is disconnected |
| StateMachine.Machine.CheckCompatible | brewblox_devcon_spark/state_machine.py:70-77 | Raises exactly for an INCOMPATIBLE firmware or identity error |
| StateMachine.Machine.SetEnabled | brewblox_devcon_spark/state_machine.py:79-85 | Sets the enabled flag only |
| StateMachine.Machine.SetConnected | brewblox_devcon_spark/state_machine.py:93-104 | The whole state after connecting |
| StateMachine.Machine.SetAcknowledged | brewblox_devcon_spark/state_machine.py:112-157 | The whole state after a handshake; nothing changes while synchronized |
| StateMachine.Machine.SetSynchronized | brewblox_devcon_spark/state_machine.py:165-173 | Raises and changes nothing unless acknowledged |
| StateMachine.Machine.SetUpdating | brewblox_devcon_spark/state_machine.py:181-185 | Sets the updating flag and status |
| StateMachine.Machine.SetDisconnected | brewblox_devcon_spark/state_machine.py:193-206 | Everything but the enabled flag is reset |
| StateMachine.AlwaysConsistent | brewblox_devcon_spark/state_machine.py:93-206 | After any order of setter calls: connected is not disconnected, synchronized implies acknowledged implies a controller, each firmware and identity error is set exactly under its own condition on versions and ids, and status names imply their flags |
| StateMachine.CheckMeansCompatible | brewblox_devcon_spark/state_machine.py:70-77 | The check passes if and only if no controller is known or it is compatible |
| Lifecycle.ConnectionsAlternate | brewblox_devcon_spark/connection/connection_handler.py:98-128 | In every interleaving two `set_connected` calls are separated by `set_disconnected` |
| Lifecycle.HandlerMovesExactly | brewblox_devcon_spark/connection/connection_handler.py:98-128 | Where the connection handler can go from each place, and nowhere else |
| Lifecycle.SyncMovesExactly | brewblox_devcon_spark/synchronization.py:180-203 | Where the synchronizer can go from each place, and what it then waits for |
| Lifecycle.SafeRunIsSafe | brewblox_devcon_spark/synchronization.py:180-203 | Under the condition of SafeExactly, synchronized states have no INCOMPATIBLE error |
| Lifecycle.SafeExactly | brewblox_devcon_spark/synchronization.py:180-203 | SYNCHRONIZED is entered and kept without INCOMPATIBLE errors if and only if the last handshake between each check and `set_synchronized` is compatible |
| Lifecycle.SameControllerIsSafe | brewblox_devcon_spark/synchronization.py:104-115 | If the check saw a controller and all later handshakes describe it, synchronizing is safe |
| Lifecycle.CheckCanBePassedWithoutController | brewblox_devcon_spark/synchronization.py:104-115 | A run in which the check passes without a controller and an incompatible one gets synchronized |
| TimeUtils.SerializeDuration | brewblox_devcon_spark/codec/time_utils.py:44-56 | The loop over periods prints the specified text |
| TimeUtils.DurationRoundTrip | brewblox_devcon_spark/codec/time_utils.py:17-56 | Parsing a printed duration returns its number of seconds, for every natural number |
| TimeUtils.DurationNormalForm | brewblox_devcon_spark/codec/time_utils.py:44-56 | Units descend, no part is zero except `0s`, and hours, minutes and seconds stay below 24, 60 and 60 |
| TimeUtils.DurationExactly | brewblox_devcon_spark/codec/time_utils.py:17-34 | The model of duration reading takes exactly numbers of seconds, and numbers with descending units, as their sum |
| Numbers.HalfEvenIsNearest | brewblox_devcon_spark/codec/sequence.py:198-207 | Rounding to hundredths finds the nearest number, and the even one in the middle |
| Numbers.HundredthsAreNearest | brewblox_devcon_spark/codec/sequence.py:198-207 | Every decimal is rounded to the nearest hundredths, the even ones in the middle, and exactly if it has at most two decimals |
| Numbers.RoundHundredths | brewblox_devcon_spark/codec/sequence.py:206-207 | A number of hundredths is not changed by rounding |
| Numbers.NormalExactly | brewblox_devcon_spark/codec/sequence.py:107-112 | Decimals are kept in the one form without trailing zeros, with the same value |
| NumbersRead.FloatExactly | brewblox_devcon_spark/codec/sequence.py:138-141 | Exactly the spellings of numbers are read: sign, digits with single underscores between them, a point anywhere, an exponent; each as the number it writes |
| NumbersRead.NonFiniteExactly | brewblox_devcon_spark/codec/sequence.py:138-141 | Exactly the names of infinity and not-a-number, in either case and with a sign, are read as such |
| NumbersRead.TypedIsRead | brewblox_devcon_spark/codec/sequence.py:107-112 | Digits with or without a point are read as the number they write, with as many decimals as there are digits behind the point |
| NumbersRead.HundredthsRoundTrip | brewblox_devcon_spark/codec/sequence.py:206-207 | Printed hundredths are read back exactly |
| Sequence.PrintArgs | brewblox_devcon_spark/codec/sequence.py:181-209 | The loop prints all arguments in order |
| Sequence.PrintLine | brewblox_devcon_spark/codec/sequence.py:162-211 | The line of an instruction or comment |
| SequenceAccepts.AcceptedLine | brewblox_devcon_spark/codec/sequence.py:143-159 | An accepted line that is no comment has each argument of its opcode exactly once, raw or as variable; for every way of reading durations |
| SequenceExact.ArgExactly | brewblox_devcon_spark/codec/sequence.py:78-141 | For every text: the argument that is read is exactly the one the text says, whether variable, link, temperature, duration, number or plain text |
| SequenceExact.ArgFailsExactly | brewblox_devcon_spark/codec/sequence.py:78-141 | For every text: an argument is refused with exactly the error for what is wrong with it |
| SequenceExact.PairExactly | brewblox_devcon_spark/codec/sequence.py:148-150 | A piece of a line gives exactly the name and text it assigns, without whitespace around both and quotes around the text |
| SequenceExact.DictExactly | brewblox_devcon_spark/codec/sequence.py:148-150 | The argument dict has each name once, where it is first given, with the text it is last given |
| SequenceExact.LineExactly | brewblox_devcon_spark/codec/sequence.py:30-159 | For every line and schema: the line is read as exactly the comment or instruction it says, each argument with the value of its text, and refused for the first argument that is wrong, or else for exactly the arguments that are missing |
| SequenceValues.TemperatureExactly | brewblox_devcon_spark/codec/sequence.py:104-123 | A temperature is read from exactly digits with or without a point, whitespace and a unit, as that number in that unit |
| SequenceValues.ReadTemperature | brewblox_devcon_spark/codec/sequence.py:104-123 | A printed temperature is read back if it is not negative, and rejected otherwise |
| SequenceArguments.ArgReadsBack | brewblox_devcon_spark/codec/sequence.py:78-141 | An argument is read back if and only if its value is readable: names, quotes, numbers, temperatures and durations |
| SequenceArguments.ModelReaderReadsPrinted | brewblox_devcon_spark/codec/time_utils.py:17-56 | Reading the printed grammar is such a way of reading durations |
| SequenceRoundTrip.DictOfPrinted | brewblox_devcon_spark/codec/sequence.py:148-150 | Printed arguments are split into the pairs of their names and texts |
| SequenceRoundTrip.LinePieces | brewblox_devcon_spark/codec/sequence.py:36-43 | A printed line is cut into its opcode and arguments |
| SequenceRoundTrip.RoundTripExactly | brewblox_devcon_spark/codec/sequence.py:30-211 | `from_line(to_line(d)) == d` if and only if `d` is well-formed, for every schema, instruction and comment |
| SequenceBlock.Block.Parse | brewblox_devcon_spark/codec/sequence.py:214-220 | Overwrites the lines by instructions, or leaves them and reports the first invalid line |
| SequenceBlock.FailureExactly | brewblox_devcon_spark/codec/sequence.py:214-220 | Parsing fails exactly at the first line that is refused, with its error and its number counted from one |
| SequenceBlock.Block.Serialize | brewblox_devcon_spark/codec/sequence.py:223-229 | Overwrites the instructions by their lines |
| SequenceBlock.BlockRoundTrip | brewblox_devcon_spark/codec/sequence.py:214-229 | `parse` undoes `serialize` if and only if every instruction is well-formed |
| Claims.ExtendedClaimExact | brewblox_devcon_spark/block_analysis.py:145-158 | On every claim graph: intermediates are distinct and in path order, source and intermediates are exactly what is reachable, and the source is unclaimed exactly on chains without cycles |
| Claims.AcyclicClaim | brewblox_devcon_spark/block_analysis.py:145-158 | On a chain without cycles the source is the unclaimed root and nothing is passed twice |
| Claims.ClaimedBlocksExact | brewblox_devcon_spark/block_analysis.py:128-134 | Every claimed block is listed once |
| Claims.CollectClaims | brewblox_devcon_spark/block_analysis.py:128-143 | The dict of block claims and the list of channel claims |
| Claims.CalculateClaims | brewblox_devcon_spark/block_analysis.py:124-161 | The claims it returns are the specified function of the blocks |
| ClaimsExact.ClaimDictExactly | brewblox_devcon_spark/block_analysis.py:128-134 | The claim dict holds exactly the claimed blocks, each with the claimer that its last listing names |
| ClaimsExact.ClaimsExactly | brewblox_devcon_spark/block_analysis.py:124-161 | Over the blocks alone: every claimed block, by its last listing, and every claimed channel gives exactly one claim, block claims first and each kind in order; the claim starts at the claimer, ends at the block, and passes exactly what is reachable through claimers |
| Relations.FindNestedRelations | brewblox_devcon_spark/block_analysis.py:34-91 | The recursive traversal yields the specified relations |
| Relations.RelationsExact | brewblox_devcon_spark/block_analysis.py:34-91 | Relations and their order are those of the positions of defined links outside other bloxfields and ignored keys, each position once, with the keys that lead to it as path; the block is the source and the link's ID the target, or the other way round exactly if the first key is listed |
| Relations.PathExactly | brewblox_devcon_spark/block_analysis.py:83-91 | A path has the keys of dicts, and the decimal indexes of lists |
| Relations.MarkFirst | brewblox_devcon_spark/block_analysis.py:116-119 | Only the first relation of a pair is marked |
| Relations.CalculateRelations | brewblox_devcon_spark/block_analysis.py:94-121 | A relation is claimed if and only if it is the first of its pair and some block reports that pair as its claim |
| RelationsExact.CalculatedExactly | brewblox_devcon_spark/block_analysis.py:94-121 | Over the blocks alone: exactly the links of blocks that are not of an ignored type are reported, in document order, with source, target and path by their listed keys, and claimed exactly if first of their pair and reported as a claim |
| Data.DefinedLinkExactly | brewblox_devcon_spark/codec/bloxfield.py:14-17 | A link is defined if and only if it has an ID and a type that are true |
| Data.BloxfieldExactly | brewblox_devcon_spark/codec/bloxfield.py:6-7 | A bloxfield is a dict with a type entry |
| BlockStore.PutStaysInjective | brewblox_devcon_spark/datastore_blocks.py:67-71 | Dropping items with the same name or number keeps the store one-to-one |
| BlockStore.Store.Set | brewblox_devcon_spark/datastore_blocks.py:67-71 | Both directions of the store after an assignment that drops old items |
| BlockStore.Store.Update | brewblox_devcon_spark/datastore_blocks.py:67-71 | The store after assigning a list of items |
| Links.Replace | brewblox_devcon_spark/spark_api.py:67-92 | `_find_nid` and `_find_sid` for every scalar, with their errors |
| Links.FindNidExactly | brewblox_devcon_spark/spark_api.py:67-76 | The number that each ID stands for, and the errors for unknown names and unsupported values |
| Links.FindSidExactly | brewblox_devcon_spark/spark_api.py:78-92 | The name or text that each number is shown as, and the errors |
| LinksInPlace.Node.IsLinkNode | brewblox_devcon_spark/codec/bloxfield.py:10-11 | Whether the dict is a link object |
| LinksInPlace.Node.ResolveId | brewblox_devcon_spark/spark_api.py:45-47 | The ID of a link object is replaced in place, or nothing changes on an error |
| LinksInPlace.Node.ResolvePlain | brewblox_devcon_spark/spark_api.py:48-50 | The value behind a postfixed key is replaced in place, or nothing changes on an error |
| LinksInPlace.Node.ResolveDataIds | brewblox_devcon_spark/spark_api.py:36-53 | The recursive loops rewrite a tree of dicts and lists in place, touching no other object: everything, or everything in front of the first failure, which is reported |
| Links.ResolvedChildren | brewblox_devcon_spark/spark_api.py:44-53 | Children are rewritten one by one; keys stay |
| Links.TriedExactly | brewblox_devcon_spark/spark_api.py:44-53 | In-place rewriting ends with the fully rewritten data, or with the error of the first child that fails |
| LinksRoundTrip.IdReturnsExactly | brewblox_devcon_spark/spark_api.py:67-92 | A number comes back from its name if and only if it is not negative and its stored name, if any, is text that does not read as another number |
| LinksRoundTrip.DataReturnsExactly | brewblox_devcon_spark/spark_api.py:36-92 | Rewriting with `_find_sid` and then `_find_nid` is the identity on nested data if and only if every link ID in it comes back |
| LinksRoundTrip.OnlyLinksChange | brewblox_devcon_spark/spark_api.py:36-53 | Nothing but link IDs changes, in either direction |
| BlockIndex.SparkApi.SyncBlockId | brewblox_devcon_spark/spark_api.py:94-96 | Stores the name in a reply if name and number are set |
| BlockIndex.SparkApi.FindBlock | brewblox_devcon_spark/spark_api.py:128-133 | The number that a request is about, or an unknown name |
| BlockIndex.SparkApi.ToBlock | brewblox_devcon_spark/spark_api.py:108-118 | The store and the reported name after a reply |
| BlockIndex.SparkApi.CreateBlock | brewblox_devcon_spark/spark_api.py:338-344 | The store after an answered create |
| BlockIndex.SparkApi.ReadBlock | brewblox_devcon_spark/spark_api.py:230-234 | The store after an answered read; an unknown name changes nothing |
| BlockIndex.SparkApi.WriteBlock | brewblox_devcon_spark/spark_api.py:297-301 | The store after an answered write; an unknown name changes nothing |
| BlockIndex.SparkApi.DeleteBlock | brewblox_devcon_spark/spark_api.py:361-374 | The store after an answered delete, and the KeyError if the number is not stored |
| BlockIndex.SparkApi.RenameBlock | brewblox_devcon_spark/spark_api.py:472-479 | The store after an answered rename; the old name is dropped |
| BlockIndex.SparkApi.LoadBlockNames | brewblox_devcon_spark/spark_api.py:481-488 | The store holds exactly the names that were read |
| BlockIndex.SparkApi.ClearBlocks | brewblox_devcon_spark/spark_api.py:449-458 | The store after clearing and loading |
| BlockIndex.SparkApi.ApplyBackupBlocks | brewblox_devcon_spark/spark_api.py:514-584 | The store after a backup was applied, whatever was put in it on the way |
| BlockIndex.CoherentIsBijection | brewblox_devcon_spark/datastore_blocks.py:67-71 | A coherent store is a bijection that equals the controller's table |
| BlockIndex.LoadedIsCoherent | brewblox_devcon_spark/spark_api.py:481-488 | Loading names makes any store coherent |
| BlockIndex.AnswerKeepsCoherent | brewblox_devcon_spark/spark_api.py:323-374 | Every answered call keeps the store coherent with the controller's table |
| BlockIndex.RunIsCoherent | brewblox_devcon_spark/spark_api.py:439-584 | From loaded names, after every sequence of answered calls the store is a bijection equal to the controller's table of unique names |
| ProcessorValues.UnitRoundTrip | brewblox_devcon_spark/codec/unit_conversion.py:82-88 | Converting to a known unit and back gives the value |
| ProcessorValues.IntHexRoundTrip | brewblox_devcon_spark/codec/processor.py:104-110 | Eight-byte little-endian hexadecimal text is read back to its number |
| ProcessorValues.TextHexRoundTrip | brewblox_devcon_spark/codec/processor.py:112-118 | Hexadecimal text is read back to its bytes |
| ProcessorValues.HexExactly | brewblox_devcon_spark/codec/processor.py:104-118 | Exactly the digits of the bytes, in either case, are read as them |
| ProcessorValues.RoundExactly | brewblox_devcon_spark/codec/processor.py:339-340 | What is rounded to which integer: the nearest, and the even one in the middle |
| ProcessorLeaves.ValueRoundTrip | brewblox_devcon_spark/codec/processor.py:463-515 | Every value that is not suppressed is encoded back to itself, for units, links, scales, hexadecimal fields and enum numbers, with typed and postfixed metadata |
| ProcessorLeaves.DecodedIntegerStays | brewblox_devcon_spark/codec/processor.py:315-342 | Encoding a decoded integer gives that integer back, for every scale and invertible affine unit |
| ProcessorLeaves.EncodedValueIsNear | brewblox_devcon_spark/codec/processor.py:315-342 | Decoding an encoded amount is within half a step, 1/(2s), in system units, whatever unit was named by a postfix or a typed quantity |
| ProcessorLeaves.DecodedLinkIsRecognised | brewblox_devcon_spark/codec/processor.py:487-498 | A typed link is a link object, and a defined one if and only if it is not excluded and not zero |
| ProcessorLeaves.DecodedQuantityIsComplete | brewblox_devcon_spark/codec/processor.py:469-485 | A typed quantity names its unit and whether it is readonly, and is null if and only if it is excluded or a null zero |
| ProcessorLinks.DecodedKeyExactly | brewblox_devcon_spark/codec/processor.py:518-525 | LOGGED keys carry the unit in square brackets, or else the type of a link in angle brackets; all others stay |
| ProcessorLinks.LoggedLinksAreFound | brewblox_devcon_spark/codec/processor.py:518-525 | `resolve_data_ids` takes a decoded key for a link exactly if the field is a link without unit that was read for logging |
| ProcessorDicts.PlainKey | brewblox_devcon_spark/codec/processor.py:95-102 | A field name is its own base key, without postfix |
| ProcessorDicts.PostfixedKey | brewblox_devcon_spark/codec/processor.py:95-102 | A postfixed key is parsed to field name and postfix |
| ProcessorDicts.KeyExactly | brewblox_devcon_spark/codec/processor.py:95-102 | Every key is read exactly as its name, behind any symbols, and the postfix behind the next symbol, up to a comma or symbol |
| ProcessorDicts.SecondNotationIsLost | brewblox_devcon_spark/codec/processor.py:344-362 | If the first of two notations of a field is written to the key of the second, the second value is lost and the first is converted once more |
| ProcessorDicts.EditsSettle | brewblox_devcon_spark/codec/processor.py:344-362 | While the walk deletes and assigns keys of the same object, elements with distinct names are edited independently |
| ProcessorDicts.WalkEdits | brewblox_devcon_spark/codec/processor.py:165-213 | If the walk over an object succeeds, every element was edited, and the object holds exactly the results |
| Processor.EditDict | brewblox_devcon_spark/codec/processor.py:165-213 | The walk over one object with the edits of its consumer, up to the first error |
| Processor.EditField | brewblox_devcon_spark/codec/processor.py:170-213 | Where the walk recurses and where it stops, up to the first error |
| Processor.EditMessages | brewblox_devcon_spark/codec/processor.py:192-202 | The messages in a list or map are walked in order, up to the first error |
| Processor.DictTriedExactly | brewblox_devcon_spark/codec/processor.py:165-213 | A walk that succeeds has edited everything, and one that fails ends with its first error |
| Processor.FailureLeaves | brewblox_devcon_spark/codec/processor.py:295-364 | What a failed walk leaves of an object: everything in front of the failing element is edited, its own value is what was edited inside it, and its mask field is added if only its conversion failed |
| Processor.ProtobufProcessor.PreEncode | brewblox_devcon_spark/codec/processor.py:295-364 | Content and mask fields of the payload after encoding, and after an error: what was edited in front of it |
| Processor.ProtobufProcessor.PostDecode | brewblox_devcon_spark/codec/processor.py:427-547 | Content of the payload after decoding, and after an error: what was edited in front of it; the mask stays |
| ProcessorRoundTrip.ContentRoundTrip | brewblox_devcon_spark/codec/processor.py:295-547 | On every nested content tree, `pre_encode` after `post_decode` gives the tree back up to the order of keys, for typed and postfixed metadata |
| ProcessorRoundTrip.LeafReturnsExactly | brewblox_devcon_spark/codec/processor.py:449-543 | A scalar or list of scalars comes back if and only if its field is not ignored and no zero in it is suppressed |
| ProcessorLossless.ContentReturnsExactly | brewblox_devcon_spark/codec/processor.py:295-547 | Every well-typed content tree comes back, up to the order of keys, if and only if no field anywhere in it is ignored and no zero anywhere in it is omitted or sent as null |
| ProcessorNear.ContentStaysNear | brewblox_devcon_spark/codec/processor.py:295-547 | `post_decode` after `pre_encode`: every amount in a field for scaled integers, however deep and in whatever known unit, comes back in the user's unit within half a step, 1/(2s), in system units |
| ProcessorMasks.MaskExactly | brewblox_devcon_spark/codec/processor.py:298-313 | An inclusive mask holds exactly the addresses of leaves outside repeated fields whose own field survives filtering |
| ProcessorMasks.MaskIsPrefixFree | brewblox_devcon_spark/codec/processor.py:153-215 | With distinct base keys no mask field is a prefix of another |
| ProcessorMasks.LeafMatchesExactly | brewblox_devcon_spark/codec/processor.py:138-143 | A leaf, or an element inside a repeated leaf, matches the mask if and only if the leaf was put in it |
| ProcessorMasks.ExcludedExactly | brewblox_devcon_spark/codec/processor.py:440-447 | By its own address, a leaf or an element inside it is excluded if and only if the leaf is not in the mask; whether it is left in the content also depends on the submessages around it |
| ProcessorMasks.DroppedIsGone | brewblox_devcon_spark/codec/processor.py:301-349 | A field that is set to null, ignored, or readonly while filtering is gone from the encoded content, in every submessage outside repeated fields |
| ProcessorMasks.StaysExactly | brewblox_devcon_spark/codec/processor.py:301-349 | Along every path of submessages, a field stays in the encoded content if and only if no field on the path is ignored, set to null, or, while filtering, readonly |
| ProcessorExcluded.KeptExactly | brewblox_devcon_spark/codec/processor.py:434-545 | After decoding, a value is still there and not blank if and only if every field on its path may be read by its options, its own address is not excluded, and no submessage around it is |
| ProcessorShown.MatchesExactly | brewblox_devcon_spark/codec/processor.py:138-143 | A mask field matches the leaves below and above it, but only submessages below it |
| ProcessorShown.DecodedValueKeptExactly | brewblox_devcon_spark/codec/processor.py:434-545 | For every mask and content: an inclusive mask keeps a value in a submessage if and only if a mask field names its whole top-level field, and a value outside submessages if its field is named; an exclusive mask drops exactly what a mask field names or lies in |
| ProcessorShown.BuiltMaskKeepsExactly | brewblox_devcon_spark/codec/processor.py:311-313 | With a mask that encoding has built, exactly the values in fields that are masked as a whole are kept, in any content |
| ProcessorShown.SentValueKeptExactly | brewblox_devcon_spark/codec/processor.py:311-545 | Every value that was sent is in the mask, but decoding with that mask keeps it if and only if no submessage encloses it |
| ProcessorShown.NestedValueIsLost | brewblox_devcon_spark/codec/processor.py:204-213 | A concrete nested value that is in the mask and is lost |
| ProcessorUnmasked.ShownValueIsUnmasked | brewblox_devcon_spark/codec/processor.py:434-545 | A value that is kept equals the value that is decoded without a mask; a repeated message at the root only if the mask names the field itself, or is exclusive |
| ProcessorUnmasked.ItemIsLost | brewblox_devcon_spark/codec/processor.py:197-202 | A mask that leads into a repeated message keeps the list but empties its items |

## Assumptions on the environment

- Replies, arrivals, timeouts and scheduling are arbitrary; wall-clock time is not modelled. Loops that wait for the
  controller are followed until a reply comes or never comes.
- Commander: an answer carries the id of the request it answers, and fewer than 0xFFFF ids are taken before it arrives.
  OwnAnswersExactly does without this.
- Block index: the controller keeps unique, non-empty names; replies about existing blocks carry that name or none;
  replies about new blocks carry it; a name listing is complete. Calls are answered one after the other.
- Claims and relations: `claimedBy` entries are links with text IDs, and channels are dicts that have one. For other
  shapes the source raises an exception.
- Sequence: opcodes and field names are protobuf identifiers, and no opcode of the schema is named COMMENT. Round trips
  hold for every way of reading durations that reads printed ones back.
- Processor: the round trip is about data as the decoder reads it: field names as keys, numbers for integer fields,
  numbers or names for enums, bytes for byte fields. Hexadecimal fields have no other conversion, and submessages none.

## Left out

- Protobuf wire encoding, `json_format`, base64 and the compiled message modules: content starts and ends as data. Byte fields hold the bytes themselves instead of base64 text, and 64-bit integers are numbers instead of decimal text.
- `ipv4address` and `datetime` options: conversions of external libraries.
- pint and its unit table: each known unit is an invertible affine map from the system unit, over real numbers. Texts that pint would parse as numbers are rejected.
- Text that is multiplied by a scale, and booleans that are divided by one, are errors here.
- Lists of map entries in place of a map, other than the empty list, and a dict in place of a repeated message: errors here.
- In-place update of block content by the processor: the walk returns the edited content, which the payload then holds, instead of changing the nested dicts themselves. Aliasing between parts of one tree is not captured. Links are rewritten in place, in trees without aliasing.
- Relations: a link ID that is not text counts as an empty name; the source raises an exception.
- Link IDs that are booleans, fractions or containers: errors here. Null IDs in `to_line`.
- ProcessorRoundTrip.ContentRoundTrip: read without filter and mask; ContentReturnsExactly gives the condition for ignored fields and suppressed zeros, KeptExactly says which values filters and masks leave.
- Printing of floats that Python writes with an exponent, and the `timeparse` grammar beyond the printed forms: reading durations is a parameter. Infinite and not-a-number floats are one value.
- Floats in Sequence arguments are exact decimals: rounding to binary fractions, and to infinity, is not modelled.
- Digits outside ASCII in numbers, and Unicode normalisation.
- `_trigger_ymodem`, TCP connection attempts and notifications of the firmware sender.
- Legacy name tables, `validate`, patch and the read modes of the block API: they use the store as read and write do.
- Backup blocks without a number, which are in the store only until names are loaded.
- Concurrent API calls on one block store.
- `calc_interval`, bit flags, `merge`, settings listeners, endpoints, discovery and logging.
