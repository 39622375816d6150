# dtn7-rs in Dafny

A model of four connected parts of the dtn7-rs bundle agent, with proofs about every input, every run and every
reachable state:

1. the TCPCLv4 session and its wire codec (`Bytes`, `TcpclPacket`, `TcpclCodec`, `TcpclFormat`, `TcpclWire`,
   `TcpclSession`, `TcpclTask`, `TcpclReceiver`, `TcpclPeer`, `TcpclLink`, `TcpclDuplex`, `TcpclExchange`);
2. the BPSec policy engine and its enforcement (`BpsecBundle`, `BpsecPolicy`, `BpsecPolicySpec`, `BpsecEngine`,
   `BpsecStatistics`, `BpsecEnforcement`, `BpsecExecutor`, `BpsecAccounting`, `BpsecStages`, `BpsecRoundTrip`,
   `BpsecVisible`, `BpsecMeaning`, `BpsecOutcome`, `BpsecSource`, `BpsecWitness`);
3. routing agents, the bundle store and the gates of the bundle processing (`Peers`, `SprayAndWait`, `SprayNetwork`,
   `Epidemic`, `BundleStore`, `ReceiveGate`, `Forwarding`, `Journey`);
4. the MTCP stream decoder (`Mtcp`).

`dafny verify dfyconfig.toml` checks the whole project.

Code that works step by step (the packet reader and writer, the session, the policy loops, the executor, the agents, the
store, `forward`, the MTCP codec) is modelled by classes and methods with the loops of the original. Each of these is
proved equal to a specification function, and the theorems are about those functions. Concurrency is modelled by step
systems: every lock-protected operation is one step, and the theorems hold for every sequence of steps.

## Main results

- **Two-party safety** (`TcpclDuplex.TwoPartySafety`): two negotiated sessions over FIFO channels, both sending, never
  reach a protocol error; bundles arrive in order, without loss or duplication; success is only reported for bundles that
  arrived or were known. `TcpclExchange.ExchangeExactly` shows that the hypothesis about sent bytes is needed: a transfer
  runs to a successful end exactly if its bytes decode. `TcpclDuplex.WireFaithful` carries the theorem down to the byte
  streams.
- **Receiver refinement** (`TcpclReceiver.ReceiverRefinement`): against an arbitrary peer, the receive machine accepts a
  segment sequence with certain effects if and only if the sequence divides into transfers that prescribe these effects.
  `TcpclPeer.SessionRefinement` lifts this to whole sessions, with all other packets and the session's own transfers.
- **Security round trip** (`BpsecRoundTrip.SecurityRoundTrip`): for every bundle without security blocks and all lists of
  valid rules, an acceptor undoes what the source did. `BpsecRoundTrip.PrimaryFirstFails` shows why the order matters.
- **Wire format** (`TcpclFormat.ParsesExactly`, `TcpclFormat.WrittenInForm`): for arbitrary bytes the parser returns a
  message exactly if the bytes it takes have the message's form, given field by field at fixed positions.
- **Policy evaluation** (`BpsecMeaning.EvaluateExactly`, `BpsecMeaning.RuleOrderKept`): at every step an action is taken
  if and only if it is open in the blocks of the bundle and falls to the first rule of the configured list that accepts
  the bundle's endpoints, acts at the step and is about its subject; each once, phase by phase, in the order of the rules.
  `BpsecPolicySpec.ReceiverMeaning` and `BpsecPolicySpec.SourceMeaning` are the same over the rules that match.
- **Enforcement accounting** (`BpsecAccounting.Accounting`, `BpsecAccounting.NodeAccounting`): security blocks and
  statistics add up in every enforcement, failures included, and over all bundles of a node.
- **Network bound of spray and wait** (`SprayNetwork.NetworkBound`): at most max(l, 1) - 1 relays ever hold a bundle.

Two properties turned out to hold only under a condition, which both theorems give in terms of the rules, the keys and
the bundle before the call:

- Source enforcement does not always keep the rule that no visible BIB targets an encrypted block
  (`BpsecSource.InteractionExactly`). It breaks it if the payload is encrypted and a BIB that stays visible targets a BIB
  of the payload (`BpsecWitness.InteractionCanFail`) or the number that the payload's new BIB gets
  (`BpsecWitness.DanglingTargetBreaks`). The latter are targets that are gone: unknown blocks can be removed on reception
  (core/dtn7/src/core/processing.rs:248-266) while BIBs and BCBs still target them. Bundles whose BIBs keep to the targets
  RFC 9172 allows are safe (`BpsecSource.InteractionKept`).
- Enforcing the source rules again at Forward is not always without actions (`BpsecSource.IdempotentExactly`). A new BIB
  counts as encrypted at once if a BCB still targets the number it gets (`BpsecWitness.DanglingTargetRepeats`), and
  encrypting the payload hides the BIB of a primary block if that BIB covers the payload, too.

## Model

| member | source | states |
|---|---|---|
| `Bytes.ValueOfBigEndian` | core/dtn7/src/cla/tcp/net.rs:24-95 | the big-endian fields of a width read back as the number written, if it fits the width |
| `Bytes.BigEndianOfValue` | core/dtn7/src/cla/tcp/net.rs:97-236 | writing the number read from a field gives the same bytes |
| `Bytes.ValueByPosition` | core/dtn7/src/cla/tcp/net.rs:97-236 | the number read from a field is the sum of its bytes by position, the first byte most significant |
| `TcpclCodec.PacketRoundTrip` | core/dtn7/src/cla/tcp/net.rs:24-236 | a well-formed packet reads back as itself and leaves exactly what follows it |
| `TcpclCodec.StreamRoundTrip` | core/dtn7/src/cla/tcp/net.rs:24-236 | the concatenated encodings of well-formed packets followed by anything read back as that list and leave exactly that suffix |
| `TcpclCodec.RoundTripExactly` | core/dtn7/src/cla/tcp/net.rs:24-236 | a packet survives the wire, whatever follows, if and only if it is well-formed: segment length equal to its buffer and at most 64000, extensions only with START, fields in range |
| `TcpclCodec.ParseWellFormed` | core/dtn7/src/cla/tcp/net.rs:97-236 | whatever bytes are read, a packet that is returned is well-formed |
| `TcpclCodec.ExtensionSync` | core/dtn7/src/cla/tcp/net.rs:105-138 | for arbitrary bytes, the extension loop returns some items and a rest exactly if the announced region is a list of items plus a fragment under 5 bytes, these are its known items in order, and the rest starts right behind the region |
| `TcpclCodec.StartSegmentSync` | core/dtn7/src/cla/tcp/net.rs:101-158 | a START segment read from arbitrary bytes consumed exactly 22 bytes, its announced list and its data |
| `TcpclFormat.ParsesExactly` | core/dtn7/src/cla/tcp/net.rs:97-236 | for arbitrary bytes a message is returned, leaving a rest, if and only if what precedes the rest has the form of the message: literal type, magic, version and reason bytes, numbers by position, flags by bit, the extension list item by item |
| `TcpclFormat.WrittenInForm` | core/dtn7/src/cla/tcp/net.rs:24-95 | what is written for a well-formed packet has its form |
| `TcpclWire.Reader.ReadItems` | core/dtn7/src/cla/tcp/net.rs:105-138 | the loop that decrements the remaining length returns what the parser specifies and stays behind the region |
| `TcpclWire.Reader.Read` | core/dtn7/src/cla/tcp/net.rs:97-236 | reading from the stream is the specified parser, consuming what it consumes |
| `TcpclWire.CollectItems` | core/dtn7/src/cla/tcp/net.rs:48-56 | the loop collects the encoded items and their length in 32 bits |
| `TcpclWire.Writer.WriteExtensions` | core/dtn7/src/cla/tcp/net.rs:47-61 | the length and the items written are the specified list |
| `TcpclWire.Writer.Write` | core/dtn7/src/cla/tcp/net.rs:24-95 | writing appends exactly the specified encoding |
| `TcpclSession.NegotiationMatches` | core/dtn7/src/cla/tcp/mod.rs:601-626 | negotiation succeeds on both sides exactly if both segment MRUs are positive, and then both agree on the keepalive and hold matching configurations |
| `TcpclSession.NegotiatedParameters` | core/dtn7/src/cla/tcp/mod.rs:601-626 | the keepalive is the smaller of both, the limits for sending are the peer's, the limit for receiving is the session's own |
| `TcpclSession.SegmentsShape` | core/dtn7/src/cla/tcp/mod.rs:545-596 | segments are nonempty, at most the MRU, as few as possible, START only on the first, END only on the last, and carry the data |
| `TcpclSession.FeedSegments` | core/dtn7/src/cla/tcp/mod.rs:345-449 | a receiver in the middle of a transfer that gets the remaining segments ends up with all the bytes |
| `TcpclSession.AckLengths` | core/dtn7/src/cla/tcp/mod.rs:373-437 | acks carry cumulative lengths, and only the last one reaches the full length |
| `TcpclSession.SegmentationReassembly` | core/dtn7/src/cla/tcp/mod.rs:356-437 | segmentation and reassembly are inverse for every length and MRU: an idle receiver that is not to refuse rebuilds the bytes, with START on the first segment or on a request before it, and only the last ack has the full length |
| `TcpclTask.TcpSession.ReceiveSegment` | core/dtn7/src/cla/tcp/mod.rs:345-449 | the handling of a segment in place moves the receive machine as specified |
| `TcpclTask.TcpSession.Receive` | core/dtn7/src/cla/tcp/mod.rs:325-499 | handling a packet changes both machines and what is written and replied as specified |
| `TcpclTask.TcpSession.CutSegments` | core/dtn7/src/cla/tcp/mod.rs:551-565 | the loop cuts the data into chunks of the segment MRU, flags added afterwards |
| `TcpclTask.TcpSession.SendSegments` | core/dtn7/src/cla/tcp/mod.rs:545-596 | the segments written are those specified |
| `TcpclTask.TcpSession.Send` | core/dtn7/src/cla/tcp/mod.rs:503-544 | taking a job from the queue starts a transfer as specified, refusing what exceeds the peer's MRU |
| `TcpclReceiver.ReceiverRefinement` | core/dtn7/src/cla/tcp/mod.rs:345-449 | a sequence from an arbitrary peer is accepted with a state and effects if and only if it divides into complete, refused known, refused oversized transfers and one in progress prescribing them, acks with cumulative lengths |
| `TcpclReceiver.HandedToParsing` | core/dtn7/src/cla/tcp/mod.rs:345-449 | exactly the strings of the complete runs are handed to bundle parsing, and neither they nor the buffer exceed the transfer MRU |
| `TcpclPeer.SessionProjects` | core/dtn7/src/cla/tcp/mod.rs:141-248 | over any packets and queued bundles, acks, refusals and the session's own transfers leave the receive machine alone, and SESS_TERM ends it |
| `TcpclPeer.SessionRefinement` | core/dtn7/src/cla/tcp/mod.rs:325-499 | for every packet sequence from an arbitrary peer, acks, refusals and parsed strings are those of a division of its segments into transfers, within the transfer MRU |
| `TcpclPeer.SessionEnds` | core/dtn7/src/cla/tcp/mod.rs:334-339 | in every run of a session at most one SESS_TERM is written: a reply with the peer's reason if the one that ended the session was no reply, and none if it was |
| `TcpclPeer.RepliesAnswer` | core/dtn7/src/cla/tcp/mod.rs:334-339 | between two sessions a SESS_TERM reply in flight answers one sent without the flag, with its reason |
| `TcpclPeer.FeedbackExactly` | core/dtn7/src/cla/tcp/mod.rs:450-499 | an ack or refusal is accepted exactly for the transfer under way, and whether it ends it as a success or failure, starts its segments or changes nothing |
| `TcpclPeer.JobExactly` | core/dtn7/src/cla/tcp/mod.rs:503-544 | a job above the peer's MRU fails without using a transfer ID; any other takes the next one, asks first with the bundle ID if the session refuses existing bundles, and fails if it is empty |
| `TcpclPeer.AckExactly` | core/dtn7/src/cla/tcp/mod.rs:373-437 | an ack carries the ID of the segment it answers, all bytes of the transfer so far, and the segment's flags only if that is a START segment |
| `TcpclPeer.ErrorsExactly` | core/dtn7/src/cla/tcp/mod.rs:325-544 | a packet or a job ends the session in an error if and only if it is a segment that neither starts nor continues a transfer, feedback that is not for the transfer under way or has nobody to reply to, a message that has no place in a session, or a bundle that cannot be announced |
| `TcpclLink.SubmitKeeps` | core/dtn7/src/cla/tcp/mod.rs:503-596 | starting a transfer keeps the invariant of one direction |
| `TcpclLink.DeliverKeeps` | core/dtn7/src/cla/tcp/mod.rs:345-449 | delivering a segment keeps the invariant of one direction |
| `TcpclLink.ReturnKeeps` | core/dtn7/src/cla/tcp/mod.rs:450-499 | delivering an ack or refusal keeps the invariant of one direction |
| `TcpclDuplex.ReachableInv` | core/dtn7/src/cla/tcp/mod.rs:325-596 | in every reachable state of two sessions both directions satisfy their invariant |
| `TcpclDuplex.TwoPartySafety` | core/dtn7/src/cla/tcp/mod.rs:325-596 | no run reaches a protocol error; bundles are reassembled in order without loss or duplication; Successful is replied only for what the peer reassembled or refused as known |
| `TcpclDuplex.WireFaithful` | core/dtn7/src/cla/tcp/net.rs:24-236 | in every reachable state the bytes in flight parse back to the packets of the protocol |
| `TcpclExchange.ExchangeExactly` | core/dtn7/src/cla/tcp/mod.rs:262-596 | with and without asking first, a transfer run to its end succeeds with exactly its bytes handed over, or declined as known, if and only if they decode as a bundle, and ends in an error otherwise |
| `Mtcp.DecodeStable` | core/dtn7/src/cla/mtcp.rs:148-199 | a decode result other than "need more" does not change when bytes are appended |
| `Mtcp.ChunkIndependence` | core/dtn7/src/cla/mtcp.rs:148-199 | for arbitrary streams, the frames, the rest and the error do not depend on how the stream is split into reads |
| `Mtcp.FramingExactly` | core/dtn7/src/cla/mtcp.rs:137-199 | for every split, exactly the payloads come out with an empty buffer if and only if each ends in 0xff and the last encoding is not below the minimum buffer |
| `Mtcp.BundlesFramed` | core/dtn7/src/cla/mtcp.rs:41-199 | payloads of at least 9 bytes ending in 0xff come out in order for every split |
| `Mtcp.DecodeExactly` | core/dtn7/src/cla/mtcp.rs:41-199 | on arbitrary bytes a frame is cut off if and only if the buffer of at least ten bytes starts with a byte string, any head, whose content ends in 0xff; more is needed exactly below ten bytes or for an incomplete byte string; all else is an error |
| `Mtcp.HeaderShortest` | core/dtn7/src/cla/mtcp.rs:137-146 | the head written announces the payload's length, and no head that does is shorter |
| `Mtcp.DecodeEncoded` | core/dtn7/src/cla/mtcp.rs:137-199 | decoding an encoded payload and whatever follows gives the payload and leaves what follows, if the buffer has the minimum size and the payload ends in 0xff |
| `Mtcp.MPDUCodec.DecodeFrom` | core/dtn7/src/cla/mtcp.rs:148-199 | decoding advances the buffer past the frame returned and leaves it alone otherwise |
| `Mtcp.MPDUCodec.Drain` | core/dtn7/src/cla/mtcp.rs:148-199 | repeated decoding yields all frames of the buffer |
| `BpsecPolicy.FirstsMeaning` | core/dtn7/src/core/bpsec/policy.rs:119-141 | what a loop guarded by inserting into a set keeps: the first element of each new key, each key once |
| `BpsecPolicySpec.HandledOnce` | core/dtn7/src/core/bpsec/policy.rs:167-194 | each covered visible security block is handled once, by the first rule covering it |
| `BpsecPolicySpec.ServedOnce` | core/dtn7/src/core/bpsec/policy.rs:111-141 | each demanded target that is not protected is served once, for the first rule demanding it |
| `BpsecPolicySpec.MissedOnce` | core/dtn7/src/core/bpsec/policy.rs:195-206 | each demanded operation that is lacking is missed once, by the first rule demanding it |
| `BpsecPolicySpec.ReceiverMeaning` | core/dtn7/src/core/bpsec/policy.rs:156-220 | an action is in the list if and only if it is the receiver's duty, each subject once, in the order missing, decryptions, verifications, acceptance of primary-covering BIBs |
| `BpsecPolicySpec.SourceMeaning` | core/dtn7/src/core/bpsec/policy.rs:107-147 | an action is in the list if and only if it is the source's duty, each subject once, the primary block signed first and signing before encrypting |
| `BpsecMeaning.EvaluateExactly` | core/dtn7/src/core/bpsec/policy.rs:61-279 | an action is in the evaluation if and only if some rule of the configured list has it: its source and destination patterns accept the bundle's endpoints, its role acts at the step, no earlier such rule is about the same target or block, and the readable blocks of the bundle leave it open |
| `BpsecMeaning.RuleOrderKept` | core/dtn7/src/core/bpsec/policy.rs:107-220 | actions differ, come in phases, and within a phase in the order of the rules they fall to |
| `BpsecMeaning.FirstDemandingExactly` | core/dtn7/src/core/bpsec/policy.rs:66-96 | the rule served first for a target is the first of the configured list that applies and wants it |
| `BpsecMeaning.FirstCoveringExactly` | core/dtn7/src/core/bpsec/policy.rs:66-173 | the rule that handles a block is the first of the configured list that applies and demands any of its targets, or decrypts a BCB over a BIB |
| `BpsecEngine.ComputeSourceActions` | core/dtn7/src/core/bpsec/policy.rs:107-147 | the nested loops over rules and targets compute the specified source actions |
| `BpsecEngine.ComputeReceiverActions` | core/dtn7/src/core/bpsec/policy.rs:156-220 | the nested loops over rules, blocks and targets compute the specified receiver actions |
| `BpsecStatistics.AddEvents` | core/dtn7/src/core/bpsec/statistics.rs:35-47 | exactly the counter of the event grows by the count |
| `BpsecStatistics.Add` | core/dtn7/src/core/bpsec/statistics.rs:49-58 | every counter grows by that of the other statistics |
| `BpsecStatistics.Statistics.RecordN` | core/dtn7/src/core/bpsec/statistics.rs:73-78 | an event is counted for its rule, from zero if the rule is new |
| `BpsecStatistics.Statistics.Merge` | core/dtn7/src/core/bpsec/statistics.rs:85-89 | the loop adds all counters of the other statistics, in whatever order it visits the rules |
| `BpsecStatistics.TotalsAreSums` | core/dtn7/src/core/bpsec/statistics.rs:84-89 | merged totals are the sums over the bundles |
| `BpsecStatistics.MergeOrderIndependent` | core/dtn7/src/core/bpsec/statistics.rs:84-89 | merging in any order gives the same totals |
| `BpsecExecutor.EvaluatePolicy` | core/dtn7/src/core/bpsec/policy.rs:61-74 | evaluating the policy gives exactly the actions that are due to a configured rule by the bundle's endpoints and blocks |
| `BpsecExecutor.Encrypt` | core/dtn7/src/core/bpsec/enforcement.rs:246-266 | a target is encrypted after the BIBs protecting it, all or nothing |
| `BpsecExecutor.Apply` | core/dtn7/src/core/bpsec/enforcement.rs:169-211 | an action changes the bundle as specified or fails and leaves it unchanged |
| `BpsecExecutor.CarryOut` | core/dtn7/src/core/bpsec/enforcement.rs:77-117 | the outcome is recorded and a failure handled as its rule demands |
| `BpsecExecutor.Enforce` | core/dtn7/src/core/bpsec/enforcement.rs:32-65 | the two phases in place are the specified enforcement |
| `BpsecExecutor.EnforceCounted` | core/dtn7/src/core/bpsec/mod.rs:91-113 | a node merges the statistics of one bundle into its own after enforcing |
| `BpsecOutcome.FailureReported` | core/dtn7/src/core/bpsec/enforcement.rs:97-150 | per cause of a failure the event recorded, the reason of a drop and what happens to the bundle: missing, key not loaded, not authentic, rejected by bp7 |
| `BpsecOutcome.SuccessReported` | core/dtn7/src/core/bpsec/enforcement.rs:77-96 | whatever does not fail is recorded under the event of its kind with the number of blocks and changes the bundle by bp7's operation |
| `BpsecOutcome.VerdictHonest` | core/dtn7/src/core/bpsec/enforcement.rs:32-117 | a bundle is dropped exactly for the last action tried, for its cause and because its rule drops; no earlier action of a dropping rule was missing or without key |
| `BpsecOutcome.AttemptedExactly` | core/dtn7/src/core/bpsec/enforcement.rs:32-65 | a bundle that passes had every due action tried; with a BCB to decrypt, all that BCB rules are due first and then what BIB rules are due in the resulting bundle |
| `BpsecAccounting.AppliedChanges` | core/dtn7/src/core/bpsec/enforcement.rs:169-211 | by how many BIBs and BCBs each successful action changes a bundle |
| `BpsecAccounting.StepBalanced` | core/dtn7/src/core/bpsec/enforcement.rs:77-117 | one action, failed or not, keeps the balance of blocks and events |
| `BpsecAccounting.Accounting` | core/dtn7/src/core/bpsec/enforcement.rs:40-117 | in every enforcement BCBs after = before + encrypted - decrypted, BIBs after = before + signed - accepted - removed on failure, no block is tried twice, and dropped is 1 exactly if the verdict is to drop |
| `BpsecAccounting.StatisticsBalance` | core/dtn7/src/core/bpsec/statistics.rs:60-78 | the same balance in the counters summed over the rules, removed BIBs being the failures of rules that remove |
| `BpsecAccounting.NodeAccounting` | core/dtn7/src/core/bpsec/mod.rs:91-113 | the merged statistics of a node balance over all its bundles in any order, and dropped counts the dropped bundles |
| `BpsecStages.SignPayloadStep` | core/dtn7/src/core/bpsec/enforcement.rs:186-196 | the payload is signed under the primary block without CRC if that was signed before |
| `BpsecStages.HideBibStep` | core/dtn7/src/core/bpsec/enforcement.rs:258-263 | the payload's BIB is encrypted with a BCB of its own |
| `BpsecStages.RevealBibStep` | core/dtn7/src/core/bpsec/enforcement.rs:206-209 | decrypting gives the payload's BIB back and removes its BCB |
| `BpsecStages.AcceptPayloadStep` | core/dtn7/src/core/bpsec/enforcement.rs:198-203 | the payload's BIB is authentic under the primary view it was made under, and accepting removes it |
| `BpsecStages.AcceptPrimaryStep` | core/dtn7/src/core/bpsec/enforcement.rs:198-203 | accepting the BIB of the primary block last succeeds and restores a CRC |
| `BpsecStages.SeenAt` | core/dtn7/src/core/bpsec/policy.rs:243-279 | which security blocks the policy sees of a protected bundle: not the encrypted BIB |
| `BpsecRoundTrip.SourceList` | core/dtn7/src/core/bpsec/policy.rs:107-147 | whatever the order of the rules, a source signs the primary block, signs the payload and encrypts it, in this order |
| `BpsecRoundTrip.AcceptorList` | core/dtn7/src/core/bpsec/policy.rs:156-220 | whatever the order of the rules, the payload's BIB is accepted before that of the primary block |
| `BpsecRoundTrip.SourceEnforced` | core/dtn7/src/core/bpsec/enforcement.rs:32-65 | the protected bundle a source ends with |
| `BpsecRoundTrip.SecurityRoundTrip` | core/dtn7/src/core/bpsec/enforcement.rs:32-65 | Transmit enforcement followed by Receive enforcement at an acceptor with the same demands and keys ends in Process, restores the bundle but for CRC types and leaves no BIB or BCB |
| `BpsecRoundTrip.PrimaryFirstFails` | core/dtn7/src/core/bpsec/policy.rs:207-214 | accepting the BIB of the primary block first makes the payload's BIB fail |
| `BpsecVisible.Seen` | core/dtn7/src/core/bpsec/policy.rs:243-279 | a security block is visible if and only if it decodes and is a BCB or no BCB targets it |
| `BpsecVisible.SignSees` | core/dtn7/src/core/bpsec/enforcement.rs:186-196 | signing encrypts nothing and adds one BIB, which is visible unless a BCB already targets its number |
| `BpsecVisible.EncryptSucceeds` | core/dtn7/src/core/bpsec/enforcement.rs:246-292 | encrypting the payload succeeds if and only if the key fits the cipher |
| `BpsecVisible.EncryptSees` | core/dtn7/src/core/bpsec/enforcement.rs:246-266 | encrypting the payload hides exactly the BIBs that cover it and encrypts these and it |
| `BpsecSource.SourceRun` | core/dtn7/src/core/bpsec/enforcement.rs:32-117 | what a source signs, whether it encrypts and whether anything fails, decided by its rules, its keys and the bundle |
| `BpsecSource.InteractionExactly` | core/dtn7/src/core/bpsec/enforcement.rs:246-266 | source enforcement keeps the block-interaction rule if and only if its rules and keys do not lead to encrypting the payload, or no visible BIB that does not cover the payload targets one that does or the number the payload's new BIB gets |
| `BpsecSource.InteractionKept` | core/dtn7/src/core/bpsec/enforcement.rs:246-266 | the rule is kept, whatever the rules and keys, if visible BIBs only target the primary block and existing blocks that are no security blocks |
| `BpsecWitness.InteractionCanFail` | core/dtn7/src/core/bpsec/enforcement.rs:246-266 | a bundle with a BIB for a BIB, for which the rule is not kept |
| `BpsecWitness.DanglingTargetBreaks` | core/dtn7/src/core/bpsec/enforcement.rs:246-266 | a bundle with a BIB for a block that is gone, for which the rule is not kept |
| `BpsecSource.IdempotentExactly` | core/dtn7/src/core/bpsec/policy.rs:107-147 | nothing fails if and only if all keys needed are loaded and fit, and then evaluating again at Forward gives no actions if and only if no BCB targets the number of a new BIB that stays unencrypted and no encryption hides the only BIBs of a primary block to be signed |
| `BpsecSource.IdempotentForSingleTargets` | core/dtn7/src/core/bpsec/policy.rs:107-147 | with one target per BIB, evaluating again at Forward gives no actions if and only if no BCB targets the number of a new BIB |
| `BpsecWitness.DanglingTargetRepeats` | core/dtn7/src/core/bpsec/policy.rs:107-147 | a bundle with a BCB for a block that is gone, whose payload is signed again at Forward |
| `SprayAndWait.Agent.HandleNewBundle` | core/dtn7/src/routing/sprayandwait.rs:50-73 | a new bundle gets l copies if it is the node's own and one otherwise; a known one keeps its books |
| `SprayAndWait.Agent.HandleSendingFailed` | core/dtn7/src/routing/sprayandwait.rs:105-125 | a failure removes the node and returns its copies |
| `SprayAndWait.Agent.HandleSenderForBundle` | core/dtn7/src/routing/sprayandwait.rs:135-191 | the loop over the peers selects senders and keeps the books; afterwards fewer than two copies are left or every reachable peer with a node ID is recorded, and with fewer than two at first the destination is the only sender if it is near |
| `SprayAndWait.PassFair` | core/dtn7/src/routing/sprayandwait.rs:143-187 | one round serves new nodes only, takes one copy for each and keeps one; its senders are these nodes, or the destination alone |
| `SprayAndWait.PassComplete` | core/dtn7/src/routing/sprayandwait.rs:143-187 | after a round fewer than two copies are left, or every peer with a CLA and a node ID other than the local one is recorded; nobody is forgotten, and senders are such peers without an earlier entry |
| `SprayAndWait.WaitPhase` | core/dtn7/src/routing/sprayandwait.rs:152-175 | with fewer than two copies the books stay, and the bundle is sent, to be deleted afterwards, if and only if the destination is reachable without an entry, and to it alone |
| `SprayAndWait.LearnedOnce` | core/dtn7/src/routing/sprayandwait.rs:50-73 | a new bundle gets its copies by whether its ID starts with the local name, a known one keeps its books |
| `SprayAndWait.FailureReturns` | core/dtn7/src/routing/sprayandwait.rs:105-125 | a failure of a recorded node takes it off the books of that bundle and returns one copy, and nothing else |
| `SprayAndWait.CopyConservation` | core/dtn7/src/routing/sprayandwait.rs:50-187 | over every command trace copies left plus recorded nodes equal the grant, the nodes are distinct and exclude the local node, and a failure returns at most one copy |
| `SprayAndWait.DeleteOnlyDelivered` | core/dtn7/src/routing/sprayandwait.rs:155-168 | a bundle is deleted afterwards only if the destination is its only sender |
| `SprayNetwork.RelayWaits` | core/dtn7/src/routing/sprayandwait.rs:152-175 | a relay with one copy sends to the destination only |
| `SprayNetwork.NextKeeps` | core/dtn7/src/routing/sprayandwait.rs:50-187 | every step of the network keeps every relay that holds or awaits the bundle on the source's books |
| `SprayNetwork.NetworkBound` | core/dtn7/src/routing/sprayandwait.rs:50-187 | in every run at most max(l, 1) - 1 nodes other than source and destination ever hold the bundle |
| `Epidemic.Agent.Select` | core/dtn7/src/routing/epidemic.rs:87-108 | the loop with its break returns the destination alone and the flag if it is reachable without an entry, and otherwise exactly the peers reachable without an entry and no flag |
| `Epidemic.Agent.SendersForBundle` | core/dtn7/src/routing/epidemic.rs:82-115 | the peers selected are those specified, and they are recorded |
| `Epidemic.Agent.HandleSendingFailed` | core/dtn7/src/routing/epidemic.rs:64-72 | a failure removes the peer from the bundle's entries |
| `Epidemic.Agent.HandleIncoming` | core/dtn7/src/routing/epidemic.rs:74-78 | a previous node with a name is recorded |
| `Epidemic.NoRepeat` | core/dtn7/src/routing/epidemic.rs:38-156 | in every trace a peer selected for a bundle, or recorded as previous node, is selected for it again only after a failure for that pair |
| `Epidemic.EligibleComplete` | core/dtn7/src/routing/epidemic.rs:90-108 | every reachable peer without an entry is eligible |
| `Epidemic.ChoiceExactly` | core/dtn7/src/routing/epidemic.rs:82-115 | if a reachable peer without an entry is the destination it is the only sender and the flag is set; otherwise the flag is not set and a name is among the senders if and only if a reachable peer without an entry has it |
| `Epidemic.NamelessIgnored` | core/dtn7/src/routing/epidemic.rs:74-78 | a bundle without a previous node, or with one without a name, changes nothing |
| `Epidemic.AttemptServes` | core/dtn7/src/core/processing.rs:470-545 | after an attempt that sends, and its notifications, exactly the peers count as served that did before or were sent to without a failure |
| `Epidemic.SafeDeletion` | core/dtn7/src/core/processing.rs:409-560 | with the agent's choice, `forward` removes a bundle it sends exactly if its one sender was the destination and that transfer succeeded; otherwise the stored bundle stays ForwardPending, and after its failed direct transfer the agent chooses the destination again |
| `BundleStore.InMemoryBundleStore.Push` | core/dtn7/src/core/store/mem.rs:16-30 | the bundle is stored, with new metadata unless it was stored before |
| `BundleStore.InMemoryBundleStore.UpdateMetadata` | core/dtn7/src/core/store/mem.rs:31-38 | metadata of known bundles is replaced, others are an error |
| `BundleStore.InMemoryBundleStore.Remove` | core/dtn7/src/core/store/mem.rs:39-51 | the bundle is removed, its metadata kept and marked as deleted |
| `BundleStore.InMemoryBundleStore.AddIfUnknown` | core/dtn7/src/lib.rs:179-187 | check and insertion are one step |
| `BundleStore.InMemoryBundleStore.Sync` | core/dtn7/src/core/bundlepack.rs:119-128 | a bundle without constraints is removed, otherwise its metadata updated |
| `BundleStore.DoKeeps` | core/dtn7/src/core/store/mem.rs:16-65 | every operation keeps the store consistent and what is known known |
| `BundleStore.RemovedStaysKnown` | core/dtn7/src/core/store/mem.rs:39-90 | a removed bundle is known, gone, not pending, keeps LocalEndpoint besides Deleted and no other constraint, and other bundles are untouched |
| `BundleStore.PushKeepsMetadata` | core/dtn7/src/core/store/mem.rs:16-30 | metadata of a stored bundle survives another push, other bundles are untouched |
| `BundleStore.SyncExactly` | core/dtn7/src/core/bundlepack.rs:119-170 | unknown packs change nothing, packs without constraints remove the bundle and keep LocalEndpoint, others replace the metadata |
| `ReceiveGate.DuplicateSuppression` | core/dtn7/src/core/processing.rs:188-206 | for every interleaving what is known stays known, the gate opens at most once per ID, and incoming, dups, broken and the counts still owed add up to the calls |
| `ReceiveGate.CountersExactly` | core/dtn7/src/core/processing.rs:188-206 | broken grows by the bundles rejected, incoming by those admitted, dups by the other calls of the gate, once the counts owed are paid |
| `Forwarding.ForwardingIds.Acquire` | core/dtn7/src/core/processing.rs:41-50 | a guard is given exactly if the ID was not in the set |
| `Forwarding.ForwardingExclusion` | core/dtn7/src/core/processing.rs:32-56 | in every interleaving the set equals the IDs of the live guards, no two share an ID, and a task keeps its guard until it drops it itself |
| `Forwarding.PrepareCopy` | core/dtn7/src/core/processing.rs:307-398 | the copy gets one more hop, this node as previous node and its time here added to its age, or the bundle is deleted |
| `Forwarding.Forward` | core/dtn7/src/core/processing.rs:400-562 | one attempt changes the store and sends as specified, with every error path |
| `Forwarding.ForwardGuarded` | core/dtn7/src/core/processing.rs:400-562 | a bundle already being forwarded is left alone, and the guard is dropped on every path |
| `Forwarding.AttemptKeepsStored` | core/dtn7/src/core/processing.rs:430-458 | an attempt leaves the stored bundle as it was or removes it, keeps its reception time and touches no other bundle |
| `Forwarding.RemovedOnlyDelivered` | core/dtn7/src/core/processing.rs:418-560 | a sent bundle leaves the store exactly if it was delivered and is to be deleted afterwards, and otherwise stays ForwardPending |
| `Journey.CopySent` | core/dtn7/src/core/processing.rs:307-375 | a sent copy is one hop and the time since reception on from the stored bundle |
| `Journey.RetriesDoNotAccumulate` | core/dtn7/src/core/processing.rs:307-458 | for any attempts per node and any path of n nodes the delivered copy has n hops more and its age has grown by the residence times |
| `Journey.CarriedWithinLimits` | core/dtn7/src/core/processing.rs:307-375 | a delivered copy is within its hop limit and younger than its lifetime |
| `Journey.CarriedUnexpired` | core/dtn7/src/core/processing.rs:307-398 | no delivering attempt of a journey has passed the primary lifetime, and a delivered copy names the sending node as previous node, unless security changed it |
| `Journey.UnfitIsDeleted` | core/dtn7/src/core/processing.rs:307-398 | an attempt with a peer and an exceeded lifetime, age or hop limit sends nothing and removes the bundle |
| `Journey.FitIsSent` | core/dtn7/src/core/processing.rs:400-562 | any other attempt with a peer sends the next copy as security leaves it; what becomes of the stored bundle by delivery and deletion afterwards |
| `Journey.NothingToSend` | core/dtn7/src/core/processing.rs:400-458 | without a bundle or a peer nothing is sent, and what is stored stays unless it is to be deleted |
| `Journey.TriedAgain` | core/dtn7/src/core/store/mem.rs:66-90 | a sent bundle that is still stored is pending again, unless it awaits reassembly |

## Modelling decisions

- bp7's security operations are symbolic: a MAC is the term of its key, the primary block with its CRC type, its target and
  its BIB's number; a ciphertext is the term of its key, the primary block and the plaintext. Decrypting or verifying
  succeeds exactly for the right term. A new block gets the highest number plus one and is appended; where bp7 inserts it
  among the other blocks does not matter to the policy, which goes by number and relative order of the new blocks.
- Block numbers are unique where a theorem needs it, as section 4.1 of RFC 9171 demands; the theorems about the policy do
  not need it. A failed operation is removed by number, so with two blocks of one number it could hit the wrong one.
- The theorems about source enforcement on any bundle assume unique block numbers above 0 and a payload numbered 1. The
  targets of its security blocks may be anything.
- Rules satisfy what the configuration check demands (core/dtn7/src/core/bpsec/config.rs:132-193). Glob matching is an
  arbitrary predicate.
- Whether bytes decode as a bundle, its ID and whether an ID is known are arbitrary functions in the session model. What a
  store knows may change between any two packets.
- The requester of a bundle may stop waiting at any time. If a packet would bring it a result then, the source ends the
  session with the error it also uses for protocol errors (core/dtn7/src/cla/tcp/mod.rs:463-466). In the two-party system
  that is an end of the session like any other: the packet stays unread and nothing more is said by that node. A protocol
  error is one that would also occur with a waiting requester.
- An attempt to forward a bundle is one step: other users of the store are not interleaved with it. It reports its failed
  transfers to the epidemic agent itself.
- A hop count block counts one more per forwarding node (section 4.4.3 of RFC 9171), ages are milliseconds (section
  4.4.2).
- In the network of spray-and-wait nodes only the source takes the bundle for its own, and a reported failure means that
  the copy did not arrive.

## Left out

- Keepalives and timeouts of the session, terminating on them, connection setup, the address map and listeners: timers and
  I/O; a keepalive packet is a step without effect.
- Liveness and back-pressure: writes never block and never fail in the model.
- Overflow of transfer IDs, statistics, hop counts and ages: counters are unbounded.
- UTF-8 conversion of bundle IDs: they are bytes or strings themselves.
- ParseWellFormed: keeps the raw bytes of a node ID in SESS_INIT, where the source replaces invalid UTF-8, which can make
  an ID longer than its length field allows.
- Reader.Read: keeps the raw bytes of a node ID, as above.
- Forward: one attempt is one step, without other users of the store between its own accesses; the notifications of
  successful transfers and of dropped peers are not modelled.
- The branch of the MTCP decoder for an error of the CBOR library on a complete byte string, which the framing rules out,
  and the end of a stream in the middle of a frame.
- `generate_xfer_segments` (core/dtn7/src/cla/tcp/mod.rs:998-1042): a test helper.
- Cryptography, IVs, wrapped content keys, key files and glob matching: external libraries.
- The bp7 bundle codec, bundle validation, the sled and sneakers stores.
- Calculated CRC values: only CRC types are modelled.
- The handling of unknown canonical blocks, local delivery and status reports in the bundle processing.
- Permanence of the Deleted constraint: a later metadata update may remove it; only that a known ID stays known is proved.
- Whether every recorded spray-and-wait node was sent to: a direct delivery drops relays selected in the same round.
- HTTP, websockets, ECLA, external routing, discovery, configuration and command line.
- Flooding, sink and static routing, the peer table and beacons, which would only add easy members.
