# A verified model of VolantMQ's core

VolantMQ is an MQTT broker that carries its libraries with it. This project models, in Dafny, the parts of it in which
behaviour spans many steps or many functions, and proves what they keep.

| files | what they model |
|---|---|
| `Paths`, `Topics`, `Subscriptions`, `TrieMaps` | topic names and filters, the matching relation of section 4.7 of MQTT 3.1.1, the two plain maps a topic index stands for, and what a publish collects from them |
| `MemTrie`, `LockFreeTrie`, `TrieAgreement` | the two topic indexes, as linked nodes changed in place, each proved to be those maps; then proved to give the same answers, and what each keeps for that |
| `FlowControl`, `Qos`, `QosSystem` | packet identifiers and quota; both ends of the QoS 1 and QoS 2 handshakes; the two ends joined by FIFO channels, over all runs |
| `WriterProtocol`, `WriterQuota`, `WriterRest`, `WriterLoop`, `TopicAlias` | the writer goroutine with its callers, interleaved between any two accesses to shared state; its send limit; why it comes to rest; its drain loop; topic aliases from one end to the other |
| `MySqlFrames`, `MySqlConn` | MySQL packets: frames, headers written over bytes already sent, the refill buffer |
| `Varint`, `Unicode`, `Properties`, `PropertySet`, `PublishCodec` | the MQTT PUBLISH codec with its properties and its fixed header |
| `RadixTree`, `CleanPath` | the HTTP router's radix tree and its path cleaner |
| `RingQueue`, `Expiry` | the resizing ring buffer and the two-stage timer for will and session |
| `Sequences`, `Options`, `Bytes` | common definitions |

Code that changes fields, arrays or linked nodes is modelled by classes and methods that do the same; a ghost value
(`content`, `tree`, `View()`, `Pending()`) says what the state stands for, and each method's contract ties the new value to
the old one. Goroutines are modelled as a step system. A Go map that is ranged over is visited in any order. Clocks, random
numbers, access lists and the network are parameters: `now`, `random`, `permitted`, the capacity of a connection and the list
of its read events.

Where a method and the function that specifies it could be wrong in the same way, the contract, or a lemma beside it, says
the same once more without naming the function: with the bytes on the wire, the fields, or the condition written out.

## What the proofs show about the code

Where the code does less than one would expect, or than its comments say, the model follows the code and states the exact
condition.

- Variable byte integers come back exactly when they are below 2^29: `uvarint` refuses a fifth byte above 1
  (`Varint.VarRoundTrip`). Lengths of MQTT packets stay below that.
- A QoS 1 or QoS 2 publish that has expired when it is popped has already taken an identifier and a unit of quota, and the
  routine then skips it; neither ever comes back (`QosSystem.LeakedForever`). For every quota there is a run in which all of
  it goes that way and the next publish waits for good although nothing is under way (`QosSystem.Starves`); that is the only
  way for one to wait at rest (`QosSystem.AtRest`).
- A PUBREC for an identifier that is not outstanding is the only acknowledgement that upsets the books
  (`Qos.AcknowledgeConserves`). On the receiving side a repeated PUBLISH costs a unit of receive quota, and a PUBREL for an
  unknown identifier adds one (`Qos.PublishBalance`, `Qos.ReleaseBalance`).
- An acknowledgement frees its identifier (ack.go:28) before it removes the table entry (ack.go:30). A publish popped in
  between loses its entry exactly when it is given that identifier, which happens exactly when this is the first free one
  after the counter (`Qos.ReleaseInTwoSteps`, `Qos.TakenInBetween`).
- A QoS 2 message updates the receiver's alias table only when it is released, so a message that refers to an alias
  introduced by it is refused if it is published earlier (`TopicAlias.Delivered`, `TopicAlias.RefusedBehindQoS2`).
- The subscription search and the retained search differ in two cases: `+` at a first level that starts with `$`, and `#`
  at an empty level (`Topics.TwoWayAgreement`, `MemTrie.TwoWay`).
- The merge of overlapping subscriptions keeps No Local exactly when every excluded subscription that is visited after the
  first visible one has no identifier and grants no more than some visible one (`Subscriptions.NoLocalKept`); it does not
  for the subscriptions of `Subscriptions.MergeIgnoresNoLocal`.
- `nodesCleanup` never lowers the parent's counter of children, so every level above a path at which anything has ever been
  stored stays in the index for good. The lock-free index has exactly those nodes and the ones that hold data, and is pruned
  like the simple one exactly when each of those levels still leads to stored data (`TrieAgreement.NodesKept`); it is not
  after one subscription to "a/b" has come and gone (`TrieAgreement.Leftover`).
- Setting a property again adds its length a second time, so the announced length is too large; a list of binary values
  counts for nothing; strings over the limit are dropped while writing (`Properties.SetLength`, `Properties.CalcLenExact`).
- An empty property set counts one byte that is never written. In a buffer that held something else there, an encoded
  packet does not come back, and that is the only such case (`PublishCodec.RoundTrip`). A packet of 4 GiB and more may be
  encoded with a length that has wrapped, and no reader takes it whole (`PublishCodec.TooLong`).
- A QoS 1 or QoS 2 PUBLISH that ends after its topic, without an identifier, is read as one with identifier 0
  (`PublishCodec.SmallPackets`).
- The seconds left to a retained message are a 32-bit number; what is known for certain is what happens with less than a
  second, and with less than 2^32 seconds, left (`TrieMaps.ExpiredMeans`, `MemTrie.Provider.RetainSearch`).
- The MySQL writer's error for "nothing was written" can also be returned between two frames
  (`MySqlConn.NoWriteIsTrue`); the comment at packets.go:141 says that it cannot.
- `Peek` and `Remove` on an empty queue give nil; their comments (queue.go:70-71, 104-105) say that they panic.
- Adding a route whose path is taken panics after the priorities on the way have been raised: the counts are exact
  afterwards exactly when the path was new, and otherwise the root counts one route too many
  (`RadixTree.Tree.AddRoute`, `RadixTree.RootOvercounts`).

## Model

| member | source | states |
|---|---|---|
| Paths.JoinSplit | src/topics/mem/node.go:86-88 | Splitting at the separator loses nothing, so distinct names have distinct paths. |
| Topics.FiltersExact | src/topics/mem/node.go:169-190 | For every wildcard-free rest of a topic, the recursive search visits a filter if and only if the positional matching relation holds, '#' at its parent level and the empty-level rule included. |
| Topics.FiltersDistinct | src/topics/mem/node.go:177-189 | The recursive search visits no filter twice. |
| Topics.TopicFiltersExact | src/topics/mem/node.go:192-202 | The same for whole topics with the '$' rule: the filters visited are exactly the matching ones, each once. |
| Topics.ReachesExact | src/topics/mem/node.go:240-264 | What the retained search reaches from a filter, level by level, is a relation by position. |
| Topics.TwoWayAgreement | src/topics/mem/node.go:240-281 | Filter-to-topics and topic-to-filters compute one relation but for exactly two cases, each of which is always a difference. |
| Topics.TwoWayExceptions | src/topics/mem/node.go:253-257 | Both cases occur. |
| Subscriptions.NonOverlappingSubscribers | src/topics/mem/node.go:331-342 | In whatever order the subscribers of a node are visited, each of them gets one more entry with its grant, options and identifier, unless it is the publisher and has No Local; nobody else changes. |
| Subscriptions.OverlappingSubscribers | src/topics/mem/node.go:312-329 | In whatever order they are visited, an entry is opened for each subscriber but a publisher with No Local, and one that is there gets the larger QoS and one more identifier. |
| Subscriptions.GatherPerSubscriber | src/topics/mem/node.go:312-342 | A whole search does to one subscriber only what that subscriber's own subscriptions say. |
| Subscriptions.SearchAgreesWithMatching | src/topics/mem/node.go:169-202 | Non-overlapping search: a subscriber's entries stand one to one, with grant, options and identifier, for its stored subscriptions whose filter matches; No Local excludes the publisher and nobody else. |
| Subscriptions.ServedMeans | src/topics/mem/node.go:323-333 | Who is served and who is excluded: a subscription with No Local is passed over if and only if its subscriber is the publisher. |
| Subscriptions.OverlappingSearchFromFirst | src/topics/mem/node.go:312-329 | Overlapping search, No Local included: at most one entry, which merges exactly the matching subscriptions from the first visible one on. |
| Subscriptions.OverlappingSearch | src/topics/mem/node.go:312-329 | Without No Local: an entry if and only if some subscription matches, with the largest QoS granted and all non-zero identifiers. |
| Subscriptions.AllIdsMean | src/topics/mem/node.go:315-317 | The identifiers of a merged entry are those above zero, each as often as there is a subscription with it. |
| Subscriptions.NoLocalKept | src/topics/mem/node.go:312-329 | For every content, topic and publisher: an entry is the merge of the visible subscriptions alone if and only if each excluded one visited after the first visible one has no identifier and grants no more than some visible one. |
| Subscriptions.MergeIgnoresNoLocal | src/topics/mem/node.go:314-321 | A client can be sent its own message with the QoS of a subscription that has No Local. |
| MemTrie.Provider.LeafInsertNode | src/topics/mem/node.go:68-86 | The node for a path exists afterwards, and the two maps are unchanged. |
| MemTrie.Provider.LeafSearchNode | src/topics/mem/node.go:88-102 | Finds the node of a path, and nil if and only if there is none. |
| MemTrie.Provider.SubscriptionInsert | src/topics/mem/node.go:104-123 | Acts on the trie exactly as an update of the map from filters to subscribers: this subscription is there with its parameters, every other as before; says whether the subscriber was known, keeps retained messages and prunedness. |
| MemTrie.Provider.SubscriptionRemove | src/topics/mem/node.go:125-167 | Acts exactly as a removal from that map, errors included: this subscription, or every one to the filter, is gone and every other is as before; the callback is told of exactly the nodes taken out. |
| MemTrie.Provider.PruneUp | src/topics/mem/node.go:150-164 | The upward walk takes out a chain of empty nodes, loses no stored data and leaves no childless empty node. |
| MemTrie.Provider.SubscriptionSearch | src/topics/mem/node.go:192-202 | The linked nodes answer as the search on the plain map. |
| MemTrie.Provider.RecurseSearch | src/topics/mem/node.go:169-190 | The same from any node and any remaining levels. |
| MemTrie.Provider.RetainInsert | src/topics/mem/node.go:204-210 | Stores one retained message and changes nothing else. |
| MemTrie.Provider.RetainRemove | src/topics/mem/node.go:212-238 | Removes one retained message, prunes, and changes no subscription. |
| MemTrie.Provider.Retain | src/topics/mem/topics.go:240-261 | An empty payload removes the message, any other replaces it, whatever its QoS. |
| MemTrie.Provider.AllRetained | src/topics/mem/node.go:304-310 | Reads every path of a subtree exactly once, in any order of the children. |
| MemTrie.Provider.RetainRecurse | src/topics/mem/node.go:240-264 | From any node, reads exactly the paths the remaining filter reaches, each once. |
| MemTrie.Provider.RetainSearch | src/topics/mem/node.go:266-310 | Returns the unexpired messages at exactly the topics the filter reaches, each once; every message returned has no expiry or a second left, none that lasts is missed or dropped, and those read with less left go. |
| TrieMaps.ReadMeans | src/github.com/VolantMQ/vlapi/mqttp/publish.go:50-68 | What reading does to messages by the time they have left, in nanoseconds. |
| TrieMaps.ExpiredMeans | src/github.com/VolantMQ/vlapi/mqttp/publish.go:50-68 | With less than a second left a message has expired; with no expiry, or at least a second and less than 2^32 seconds, it has not. |
| MemTrie.TwoWay | src/topics/mem/node.go:169-310 | On one index, the message retained at a topic is read for a filter, once, if and only if a publish to the topic gives a subscriber of the filter its entry, once, but for the two excepted cases. |
| MemTrie.Provider.NodesArePrefixes | src/topics/mem/node.go:150-167 | In a pruned trie there is a node for a path if and only if it leads to stored data. |
| MemTrie.Provider.LeadsToData | src/topics/mem/node.go:155-160 | Below every node of a pruned trie there is stored data. |
| LockFreeTrie.Provider.LeafInsertNode | src/topics/memLockFree/node.go:70-100 | The walk counts itself in at the leaf only, the retry is never taken in a sequence of completed operations, and every node above the leaf counts a child from then on. |
| LockFreeTrie.Provider.SubscriptionInsert | src/topics/memLockFree/node.go:118-138 | Same map update as the simple trie; afterwards subsCount is the number of subscribers at every node and kidsCount covers the children. |
| LockFreeTrie.Provider.SubscriptionRemove | src/topics/memLockFree/node.go:140-172 | This subscription, or every one to the filter, is gone and every other is as before, with all counters exact again; at most the filter's own node is detached, and the callback is told of exactly that one. |
| LockFreeTrie.Provider.NodesCleanup | src/topics/memLockFree/node.go:174-202 | Detaches the leaf exactly when it holds nothing and never had a child, tells the callback of it alone, and leaves every node above; afterwards the nodes are those of the parents there have ever been and of what is stored. |
| LockFreeTrie.Provider.RetainInsert | src/topics/memLockFree/node.go:239-246 | Stores one retained message and settles the counter of its node. |
| LockFreeTrie.Provider.RetainRemove | src/topics/memLockFree/node.go:248-261 | Removes one retained message and keeps all subscriptions and counters; at most the topic's own node is detached. |
| LockFreeTrie.Provider.NodesAreParents | src/topics/memLockFree/node.go:70-202 | After any operations there is a node for a path if and only if it is the root, holds data, or has once stood above a path at which something was stored. |
| LockFreeTrie.Provider.SubscriptionSearch | src/topics/memLockFree/node.go:204-237 | Answers as the search on the plain map. |
| TrieAgreement.SameAnswers | src/topics/memLockFree/node.go:118-261 | After any sequence of completed operations both indexes collect the same for every topic, namely what the plain map says. |
| TrieAgreement.StillThere | src/topics/mem/node.go:104-148 | After any operations a subscription is there, with given parameters, if and only if the last operation on it has made it with these. |
| TrieAgreement.StillRetained | src/topics/mem/node.go:204-220 | After any operations a message is retained at a topic if and only if the last operation on the topic has stored it. |
| TrieAgreement.NodesKept | src/topics/memLockFree/node.go:174-202 | After any operations: which nodes each index keeps, and that they are the same if and only if every level above anything ever stored still leads to stored data. |
| TrieAgreement.Leftover | src/topics/memLockFree/node.go:118-202 | Subscribing and unsubscribing once leaves the simple index empty and every level above the filter in the lock-free one. |
| FlowControl.Flow.Acquire | src/connection/flowControl.go:32-55 | Takes one unit of quota and the first free non-zero identifier in cyclic order, across wrap-around; the bounded loop finds a free one if and only if one is left. |
| FlowControl.Flow.Release | src/connection/flowControl.go:57-61 | Frees the identifier; true exactly when quota becomes available. |
| FlowControl.SomeFree | src/connection/flowControl.go:40-52 | With fewer than 65535 identifiers in use, one is free. |
| FlowControl.FirstFreeUnique | src/connection/flowControl.go:40-52 | The identifier that the loop ends with is determined by the counter and the identifiers in use. |
| FlowControl.NextFirst | src/connection/flowControl.go:40-52 | If the identifier after the counter, with 1 after 65535, is free, it is the one. |
| Qos.Outbound.PopPacket | src/connection/writer.go:267-290 | A publish leaves the queue if and only if there is quota, under the first free identifier if there is one, and waits in the table; straight books stay straight, and books that are not are handled as well. |
| Qos.Outbound.Release | src/connection/ack.go:23-32 | The table entry goes; identifier and quota come back on PUBACK and PUBCOMP only. |
| Qos.Outbound.OnAck | src/connection/connection.go:825-877 | The whole effect of each acknowledgement on queue, quota, identifiers and table, field by field: PUBREL in answer to a good PUBREC, nothing in answer to a failed one, which frees its identifier. |
| Qos.PopConserves | src/connection/writer.go:267-290 | Quota plus identifiers in use stays the start quota, and the identifiers are the keys of the table, when a publish is popped. |
| Qos.PopEnabled | src/connection/flowControl.go:32-55 | While the books are straight, quota left means that a fresh identifier is found. |
| Qos.AcknowledgeConserves | src/connection/connection.go:825-857 | An acknowledgement keeps the books straight if and only if it is not a PUBREC for an identifier that is not outstanding. |
| Qos.ReleaseInTwoSteps | src/connection/ack.go:26-30 | With any publishes popped between the two steps of a release, identifiers and table agree afterwards if and only if none of them was given the identifier. |
| Qos.TakenInBetween | src/connection/ack.go:26-30 | For one publish popped in between, they agree if and only if the identifier is not the first free one after the counter. |
| Qos.Inbound.OnPublish | src/connection/connection.go:743-822 | Refused, with nothing changed, if and only if the receive quota is 0; otherwise quota, stored message, delivery and answer for both QoS levels, permitted or not; the quota never falls below 0. |
| Qos.Inbound.OnRelease | src/connection/connection.go:858-867 | The stored message is delivered, if there is one, then forgotten; the quota goes up in any case. |
| Qos.Receive | src/connection/connection.go:743-867 | From a sender that ignores the receive maximum: whatever arrives, the quota stays at or above 0, and a publish is refused if and only if as many QoS 2 publishes have been taken as the maximum and the releases so far. |
| Qos.PublishBalance | src/connection/connection.go:772-792 | Receive quota plus messages held is kept by a QoS 2 PUBLISH if and only if it is permitted and its identifier is free. |
| Qos.ReleaseBalance | src/connection/connection.go:858-867 | It is kept by a PUBREL if and only if a message is held under the identifier. |
| QosSystem.NextKeeps | src/connection/connection.go:743-877 | Every step of the joined ends keeps the invariant: identifiers in use are those under way or lost, the receive quota counts the messages held, and delivered, held and in-channel messages make up what was written. |
| QosSystem.AtMostOnce | src/connection/connection.go:743-877 | In every state of every run, what has been delivered at each QoS is a prefix of the permitted messages written, which were popped in order of submission. |
| QosSystem.NeverRefused | src/connection/connection.go:773-776 | The receive quota is never 0 when a PUBLISH arrives, and the next packet can always be handled. |
| QosSystem.ExactlyOnce | src/connection/connection.go:743-877 | Wherever a run comes to rest, exactly the permitted messages that left the queue unexpired have been delivered, once and in order, and every message submitted has left it unless all identifiers are lost. |
| QosSystem.WorkEnds | src/connection/connection.go:743-877 | Every step other than a submission lowers a measure, so a run comes to rest once nothing more is submitted. |
| QosSystem.AtRest | src/connection/writer.go:259-290 | No step is left if and only if nothing is under way and either the queue is empty or every identifier has been lost. |
| QosSystem.LeakedForever | src/connection/writer.go:333-336 | An identifier taken for an expired publish is lost for good: no later publish is given it, and the quota is smaller by one. |
| QosSystem.Starves | src/connection/writer.go:267-336 | For every quota there is a run at rest with a publish that waits for good. |
| WriterProtocol.NextKeeps | src/connection/writer.go:234-392 | Every step of every actor keeps the invariant from which the next four rows follow. |
| WriterProtocol.OneWriter | src/connection/writer.go:292-328 | In every state of every run at most one routine is between Add and Done and at most one holds the running flag, and the wait group counts it. |
| WriterProtocol.NoLostWakeup | src/connection/writer.go:234-326 | When every actor is idle, the writer is alive and no write has failed, only QoS 1/2 publishes without quota are left, and everything else has been handled in order. |
| WriterQuota.QuotaSpent | src/connection/writer.go:267-290 | In every state of every run the quota is the start quota and the identifiers returned, less one for each QoS 1/2 publish that a routine holds or has dealt with, and never below 0. |
| WriterQuota.SendLimit | src/connection/writer.go:259-290 | In every state of every run there are no more QoS 1/2 publishes on the wire than the start quota and the identifiers returned. |
| WriterQuota.LimitUsed | src/connection/writer.go:234-326 | Where a publish waits although nobody is at work, exactly that many have been dealt with. |
| WriterProtocol.WrittenInOrder | src/connection/writer.go:328-392 | In every state of every run, the packets handled of each kind are a prefix of those queued, and the wire carries a prefix of them without the expired ones; after a failed write still a subsequence. |
| WriterProtocol.NoDeadlock | src/connection/writer.go:292-326 | While an actor is not idle, some actor can take a step. |
| WriterRest.WorkEnds | src/connection/writer.go:234-392 | Every step of a caller that has begun or of a routine lowers a measure, from any state and with restarts included, so without new calls the writer cannot go on for ever. |
| WriterRest.ComesToRest | src/connection/writer.go:234-392 | From every reachable state, work alone leads to the state in which nobody is at work, of which NoLostWakeup speaks. |
| WriterLoop.Writer.PopPackets | src/connection/writer.go:374-392 | One packet of each kind, in this order, is taken if there is one and, for QoS 1/2, quota; what is to be acknowledged waits in the table, and straight books stay straight. |
| WriterLoop.HeadsMean | src/connection/writer.go:376-390 | In a round the general packet comes first, then the QoS 1/2 publish, then the QoS 0 publish. |
| WriterLoop.Writer.Routine | src/connection/writer.go:328-372 | Undisturbed, the loop ends with nothing left but what waits for quota, having written round after round all that had not expired. |
| WriterLoop.UnexpiredMeans | src/connection/writer.go:332-345 | Every packet is written as often as it was taken, but publishes that have expired. |
| WriterLoop.RoundsConserve | src/connection/writer.go:374-392 | Round after round, each queue goes out whole and in its own order. |
| WriterLoop.FairShare | src/connection/writer.go:374-392 | Within the first 3k packets are the first k of every kind: no queue starves another. |
| TopicAlias.Writer.SetTopicAlias | src/connection/writer.go:394-413 | A new topic goes out with its name and a new alias, or a random one at the limit; a known one goes out as its alias alone. |
| TopicAlias.SendAll | src/connection/writer.go:394-413 | For every sequence of topics and every limit: the first message on a topic carries it and every other only the same alias, which is the one of the plain table as long as aliases suffice. |
| TopicAlias.Reader.PublishToTopic | src/connection/connection.go:589-628 | Without an alias the name stands; a name renews its alias, an alias alone gives the name it stands for, an unknown one is an error. |
| TopicAlias.TablesAgree | src/connection/connection.go:596-615 | For every order of publication, the reader knows a topic, under the writer's alias, if and only if its introduction has been published. |
| TopicAlias.Delivered | src/connection/connection.go:589-628 | For every order of publication, a message reaches its own topic if and only if its introduction is published with or before it, and is otherwise refused. |
| TopicAlias.DeliveredInOrder | src/connection/writer.go:394-413 | In the order of sending every message reaches its own topic. |
| TopicAlias.RefusedBehindQoS2 | src/connection/connection.go:631-636 | A QoS 0 message right behind the QoS 2 message that introduces its topic is refused. |
| RingQueue.MaskIsModulus | src/types/queue.go:7-9 | Masking with one less than a power of two is the remainder, for every index. |
| RingQueue.Queue.Resize | src/types/queue.go:35-53 | The contents move to a buffer of twice their number, in order, wrapped around or not. |
| RingQueue.Queue.Add | src/types/queue.go:55-68 | Appends to the sequence; the capacity stays a power of two and at least 16. |
| RingQueue.Queue.Peek | src/types/queue.go:70-81 | The first element, nil if there is none. |
| RingQueue.Queue.Get | src/types/queue.go:83-102 | The element at an index from the front or, if negative, from the back; panics exactly outside. |
| RingQueue.Queue.Remove | src/types/queue.go:104-126 | Takes the first element, nil if there is none. |
| RingQueue.Run | src/types/queue.go:37-126 | On every run of calls the queue answers as a sequence does, and its resizes together copy at most two elements per Add and Remove. |
| MySqlFrames.ParseFrames | src/github.com/go-sql-driver/mysql/packets.go:27-149 | Reading a written packet gives back its payload, whatever its length, leaves what follows, and ends at the writer's sequence number. |
| MySqlFrames.RoundTrip | src/github.com/go-sql-driver/mysql/packets.go:27-149 | A packet comes back if and only if its payload is not empty. |
| MySqlFrames.LastOnWire | src/github.com/go-sql-driver/mysql/packets.go:99-126 | The bytes of the last frame: length with the least significant byte first, sequence number, payload. |
| MySqlFrames.FullOnWire | src/github.com/go-sql-driver/mysql/packets.go:99-129 | A full frame announces FF FF FF and is followed by the rest under the next sequence number. |
| MySqlFrames.ParseOneFrame | src/github.com/go-sql-driver/mysql/packets.go:41-85 | A stream is out of step exactly by its fourth byte, and a short frame is the packet. |
| MySqlFrames.AfterCounts | src/github.com/go-sql-driver/mysql/packets.go:112-129 | The 8-bit sequence number moves by the number of frames, across wrap-around, an extra empty frame after exact multiples included. |
| MySqlFrames.FramesLength | src/github.com/go-sql-driver/mysql/packets.go:99-130 | The bytes on the wire are the payload and four for every frame. |
| MySqlFrames.ChunksJoin | src/github.com/go-sql-driver/mysql/packets.go:838-865 | The parts of a long argument join to the argument, and none is empty or too long. |
| MySqlFrames.LongDataRead | src/github.com/go-sql-driver/mysql/packets.go:821-870 | The packet read first from the commands on the wire is the byte 0x18, the statement and the parameter number, low byte first, and the first part of the argument; the other commands follow it. |
| MySqlConn.Buffer.Fill | src/github.com/go-sql-driver/mysql/buffer.go:41-90 | Succeeds if and only if the stream still has enough bytes, whatever pieces they come in, and loses none. |
| MySqlConn.Buffer.ReadNext | src/github.com/go-sql-driver/mysql/buffer.go:94-106 | Gives the next bytes of the stream, and fails if and only if there are too few. |
| MySqlConn.Conn.ReadFrame | src/github.com/go-sql-driver/mysql/packets.go:30-75 | One frame of the stream, with both sequence errors. |
| MySqlConn.Conn.ReadPacket | src/github.com/go-sql-driver/mysql/packets.go:27-89 | Exactly what the parser finds in all the bytes to come, for every chunking of the network reads, and for the first frame with its bytes named; the connection is closed exactly on an invalid packet. |
| MySqlConn.Conn.WritePacket | src/github.com/go-sql-driver/mysql/packets.go:92-149 | The wire carries the frames of the original payload although headers are written in place; bytes outside the slice stay; every outcome for a connection that stops accepting, and when it is closed. |
| MySqlConn.OutcomeMeans | src/github.com/go-sql-driver/mysql/packets.go:121-147 | What each outcome says of the bytes that a connection has accepted. |
| MySqlConn.Conn.WriteCommandLongData | src/github.com/go-sql-driver/mysql/packets.go:821-870 | Terminates; the wire carries the commands with the parts of the original argument although each command overwrites the shared array. |
| MySqlConn.NoWriteIsTrue | src/github.com/go-sql-driver/mysql/packets.go:140-143 | "Nothing was written" tells the truth on every connection if and only if the payload needs one frame. |
| Varint.VarRoundTrip | src/github.com/VolantMQ/vlapi/mqttp/header.go:309-323 | Decoding undoes encoding if and only if the value is below 2^29; above, it reports an overflow. |
| Varint.EncodeLength | src/github.com/VolantMQ/vlapi/mqttp/header.go:325-332 | The computed length is that of the encoding. |
| Varint.VarOnWire | src/github.com/VolantMQ/vlapi/mqttp/header.go:131-131 | Seven bits to a byte, least significant first, the top bit set on all but the last. |
| Varint.Uvarint | src/github.com/VolantMQ/vlapi/mqttp/header.go:300-323 | The loop over 32-bit shifts, with the signs of its three outcomes. |
| Varint.UvarintCalc | src/github.com/VolantMQ/vlapi/mqttp/header.go:325-332 | The number of bytes of the encoding. |
| Varint.PrefixRoundTrip | src/github.com/VolantMQ/vlapi/mqttp/routines.go:27-69 | A string behind its length comes back, whatever follows. |
| Varint.ReadLPBytes | src/github.com/VolantMQ/vlapi/mqttp/routines.go:27-48 | The string at the start of the bytes, or an error exactly when they are too few. |
| Varint.WriteLPBytes | src/github.com/VolantMQ/vlapi/mqttp/routines.go:51-69 | Writes the string behind its length and nothing else, or one of two errors. |
| Properties.CalcLenExact | src/github.com/VolantMQ/vlapi/mqttp/property.go:483-627 | The length computed for a value is the length written if and only if no string is over the limit and it is no list of binary values. |
| Properties.ItemRoundTrip | src/github.com/VolantMQ/vlapi/mqttp/property.go:629-742 | Each type of value comes back, whatever follows. |
| Properties.NumbersOnWire | src/github.com/VolantMQ/vlapi/mqttp/property.go:744-842 | The bytes of the numeric properties, by their numbers in section 2.2.2.2 of MQTT 5.0. |
| Properties.StringsOnWire | src/github.com/VolantMQ/vlapi/mqttp/property.go:844-920 | The bytes of the string and binary properties, likewise. |
| Properties.ItemsRoundTrip | src/github.com/VolantMQ/vlapi/mqttp/property.go:418-450 | A list of values is read back one by one and stored as the code stores them. |
| Properties.SectionRoundTrip | src/github.com/VolantMQ/vlapi/mqttp/property.go:405-481 | For every order in which the map is visited, reading the section gives the properties in normal form and consumes what was written. |
| Properties.SecondRefused | src/github.com/VolantMQ/vlapi/mqttp/property.go:432-434 | A second value is a protocol error unless it is a subscription identifier or a user property. |
| Properties.OthersRefused | src/github.com/VolantMQ/vlapi/mqttp/property.go:426-430 | Any other number is refused as malformed. |
| Properties.NormalizedSame | src/github.com/VolantMQ/vlapi/mqttp/property.go:405-481 | The normal form is the map itself if and only if every property is a single value or a non-empty list of user properties. |
| Properties.OrderFree | src/github.com/VolantMQ/vlapi/mqttp/property.go:470-478 | Every order of visiting gives the same length. |
| Properties.SetLength | src/github.com/VolantMQ/vlapi/mqttp/property.go:342-355 | Setting a property keeps the announced length exact if and only if the property was not set, or took no room. |
| PropertySet.Property.SetValue | src/github.com/VolantMQ/vlapi/mqttp/property.go:342-355 | Stores any value and adds its length, which is none if its type does not belong to the identifier; or refuses an identifier that is unknown or of another packet. |
| PropertySet.Property.FullLen | src/github.com/VolantMQ/vlapi/mqttp/property.go:337-339 | The announced length and its 32-bit prefix. |
| PropertySet.Property.Encode | src/github.com/VolantMQ/vlapi/mqttp/property.go:455-481 | Writes the section and touches nothing else; fails if and only if what is announced has no room; an empty set leaves its byte alone. |
| PropertySet.Property.Decode | src/github.com/VolantMQ/vlapi/mqttp/property.go:405-453 | Reads the section into an empty set, with every error. |
| PublishCodec.FlagsPacked | src/github.com/VolantMQ/vlapi/mqttp/publish.go:167-215 | DUP, QoS and RETAIN are independent and make up all four bits. |
| PublishCodec.RetainOnWire | src/github.com/VolantMQ/vlapi/mqttp/header.go:249-298 | RETAIN is bit 0 of the first byte, and nothing that is read depends on it but the flag. |
| PublishCodec.DupOnWire | src/github.com/VolantMQ/vlapi/mqttp/publish.go:256-277 | DUP is bit 3: refused with QoS 0; otherwise nothing that is read depends on it but the flag. |
| PublishCodec.SmallPackets | src/github.com/VolantMQ/vlapi/mqttp/publish.go:250-360 | Of the packets of five bytes with topic "a", exactly those with first byte 30 to 35 and 3A to 3D are read. |
| PublishCodec.FirstByteRefused | src/github.com/VolantMQ/vlapi/mqttp/header.go:253-272 | Another type, or QoS 3, is refused by the first byte, with the error of its version. |
| PublishCodec.ImageOnWire | src/github.com/VolantMQ/vlapi/mqttp/publish.go:384-404 | The bytes of an encoded packet, part by part, in the order of section 3.3 of MQTT 5.0. |
| PublishCodec.RefusalMeans | src/github.com/VolantMQ/vlapi/mqttp/publish.go:362-388 | When a packet is encoded, in terms of its bits, bytes and lengths. |
| PublishCodec.TopicsAllowed | src/github.com/VolantMQ/vlapi/mqttp/packet.go:252-257 | A topic that is written or read is UTF-8 and holds no `+` and no `#`. |
| Unicode.Utf8Exact | src/github.com/VolantMQ/vlapi/mqttp/packet.go:252-257 | The byte by byte test accepts exactly the encodings of character sequences after RFC 3629. |
| PublishCodec.RoundTrip | src/github.com/VolantMQ/vlapi/mqttp/publish.go:250-423 | For every order of visiting the properties and every former content of the buffer, decoding an encoded PUBLISH gives the same packet, its properties in normal form, if and only if the byte for an empty set was zero; bytes written, bytes read and size agree, and what follows is left alone. |
| PublishCodec.TooLong | src/github.com/VolantMQ/vlapi/mqttp/header.go:145-154 | A packet encoded with a wrapped length is never read whole. |
| PublishCodec.Unchanged | src/github.com/VolantMQ/vlapi/mqttp/publish.go:250-407 | From a zeroed buffer the packet comes back unchanged if and only if its properties are in normal form. |
| PublishCodec.SizeExact | src/github.com/VolantMQ/vlapi/mqttp/publish.go:409-423 | The size is the number of bytes written if and only if the properties take the room announced for them, or none is announced. |
| PublishCodec.Publish.SetDup | src/github.com/VolantMQ/vlapi/mqttp/publish.go:172-178 | Bit 3 of the flags becomes the value, the three bits below stay. |
| PublishCodec.Publish.SetRetain | src/github.com/VolantMQ/vlapi/mqttp/publish.go:189-195 | Bit 0 of the flags becomes the value, the three bits above stay. |
| PublishCodec.Publish.SetQoS | src/github.com/VolantMQ/vlapi/mqttp/publish.go:206-215 | Bits 1 and 2 become the QoS and the other two stay, or 3 and above is refused. |
| PublishCodec.Publish.Set | src/github.com/VolantMQ/vlapi/mqttp/publish.go:134-160 | All or nothing, the flags by their bits; an empty topic is let through for every version. |
| PublishCodec.Publish.SizeOf | src/github.com/VolantMQ/vlapi/mqttp/header.go:145-154 | The number of bytes of the whole packet, announced as a 32-bit number, or an error if that is negative or beyond 268435455. |
| PublishCodec.Publish.EncodeMessage | src/github.com/VolantMQ/vlapi/mqttp/publish.go:362-407 | Writes the message in its place behind the header, or refuses with the first error that applies. |
| PublishCodec.Publish.Encode | src/github.com/VolantMQ/vlapi/mqttp/header.go:115-139 | Writes the image of the packet, its first byte 30 hex and the flags, or says how much room it needs, or refuses; the packet itself does not change. |
| PublishCodec.EncodeSet | src/github.com/VolantMQ/vlapi/mqttp/publish.go:134-160 | The first byte that is written after a packet has been set is 30 hex and the weights of DUP, QoS and RETAIN. |
| PublishCodec.Publish.DecodeMessage | src/github.com/VolantMQ/vlapi/mqttp/publish.go:250-360 | Fills an empty packet with what the parser says, or gives its error, an invalid QoS included. |
| PublishCodec.Decode | src/github.com/VolantMQ/vlapi/mqttp/header.go:246-298 | Decodes from a buffer into a new packet as the parser says, errors included; its flags are the low bits of the first byte. |
| PublishCodec.EncodeNew | src/github.com/VolantMQ/vlapi/mqttp/packet.go:195-207 | The new buffer holds the complete image, and nothing more when the size is the number of bytes written. |
| RadixTree.Node.IncrementChildPrio | src/github.com/julienschmidt/httprouter/tree.go:54-76 | The child moves before those with fewer routes; children and index bytes move together, none is lost, and priorities stay in non-increasing order. |
| RadixTree.SplitKeeps | src/github.com/julienschmidt/httprouter/tree.go:103-128 | Splitting an edge keeps the map, the shape and the counts. |
| RadixTree.BumpKeeps | src/github.com/julienschmidt/httprouter/tree.go:175-182 | Counting a route below a child keeps the map and the shape, and moves the one pending count down. |
| RadixTree.LeafKeeps | src/github.com/julienschmidt/httprouter/tree.go:184-196 | A new child adds exactly the new route, and all counts are exact again. |
| RadixTree.NoBetween | src/github.com/julienschmidt/httprouter/tree.go:88-128 | No node stands strictly between a node and the one above it. |
| RadixTree.CountDone | src/github.com/julienschmidt/httprouter/tree.go:82-82 | With its route stored, the counts raised on the way are exact. |
| RadixTree.Tree.SplitEdge | src/github.com/julienschmidt/httprouter/tree.go:103-128 | The same on the linked nodes, in place. |
| RadixTree.Tree.AddRoute | src/github.com/julienschmidt/httprouter/tree.go:78-210 | Adds the path to the map, or panics if and only if it is there; the counts of all nodes are exact afterwards if and only if the path was new, and otherwise those on its way and the root's are one too many; children stay in order. |
| RadixTree.Tree.GetValue | src/github.com/julienschmidt/httprouter/tree.go:330-450 | The handle registered for the path, and none for any other path. |
| RadixTree.Tree.NodeMeans | src/github.com/julienschmidt/httprouter/tree.go:40-76 | At all times: each node holds the handle of its text, its index bytes are the distinct first bytes of its children, these stand in non-increasing order of priority, and a priority is the number of routes that start with the text. |
| RadixTree.Serve | src/github.com/julienschmidt/httprouter/tree.go:78-450 | After any routes with distinct plain paths, every path registered is answered with its handle and every other with none, and the root counts all routes. |
| RadixTree.RootCounts | src/github.com/julienschmidt/httprouter/tree.go:82-82 | The root's priority is the number of routes. |
| RadixTree.RootOvercounts | src/github.com/julienschmidt/httprouter/tree.go:198-204 | After the panic for a taken path the root's priority is one more than the number of routes. |
| CleanPath.CleanPath | src/github.com/julienschmidt/httprouter/path.go:21-110 | The pass with the lazy buffer gives what the stack of segments gives, for every input, with all indices in bounds. |
| CleanPath.BufApp | src/github.com/julienschmidt/httprouter/path.go:113-123 | One byte is appended to what has been written, whether the buffer is made, used or not needed. |
| CleanPath.Backtrack | src/github.com/julienschmidt/httprouter/path.go:68-81 | Goes back to the end of the segment before the last. |
| CleanPath.CleanIsNormal | src/github.com/julienschmidt/httprouter/path.go:8-20 | The result is a normal path: rooted, no empty, "." or ".." segment inside. |
| CleanPath.FixedIffNormal | src/github.com/julienschmidt/httprouter/path.go:8-20 | Cleaning changes a path if and only if it is not normal, so cleaning twice is cleaning once. |
| CleanPath.SlashesCollapse | src/github.com/julienschmidt/httprouter/path.go:11-20 | Rule 1: anywhere in a path, two slashes count as one. |
| CleanPath.DotsVanish | src/github.com/julienschmidt/httprouter/path.go:11-20 | Rule 2: anywhere in a path, a "." segment counts for nothing. |
| CleanPath.DotsGoBack | src/github.com/julienschmidt/httprouter/path.go:11-20 | Rule 3: anywhere in a path, a segment and a ".." after it count for nothing. |
| CleanPath.DotsAtRoot | src/github.com/julienschmidt/httprouter/path.go:11-20 | Rule 4: a ".." that begins a rooted path counts for nothing. |
| CleanPath.RootAdded | src/github.com/julienschmidt/httprouter/path.go:11-20 | A path without a slash at its beginning is taken as if it had one. |
| CleanPath.DotAtEnd | src/github.com/julienschmidt/httprouter/path.go:11-20 | A "." at the end counts as a slash at the end. |
| CleanPath.DotsAtEnd | src/github.com/julienschmidt/httprouter/path.go:11-20 | A ".." at the end takes its segment and the slash before it along. |
| Expiry.Expiry.Start | src/clients/expiry.go:40-68 | Sets the timer so that will and session end are to come at the times required, with no underflow. |
| Expiry.Expiry.TimerCallback | src/clients/expiry.go:97-123 | Nothing of what was to come is lost, repeated or moved when the timer fires. |
| Expiry.Life | src/clients/expiry.go:40-123 | A delayed will is published exactly once at the smaller of its delay and the session's expiry, the session is then signalled exactly once at its expiry, and the timer fires twice exactly when the will comes first. |

## Left out

- Sockets, TLS, deadlines, poll loops, metrics, logging, HTTP handlers and configuration. In particular `mem` never takes
  over the configured overlapping mode; the model treats it as a parameter of the index.
- The packet size limit of `send` (writer.go:175-178): a packet over it is dropped before it is queued.
- Loading persisted packets (`packetLoader`, `reAcquire`, `getQueuedPackets`): reloaded publishes get a second identifier, so
  conservation is stated for runs without reload.
- WriterProtocol.NextKeeps: popping a QoS 1/2 publish is one step there, and so is encoding and writing a packet; identifiers are in `Qos` and `QosSystem`.
- WriterProtocol.WrittenInOrder: encoding failures, which drop one packet, are not modelled.
- WriterLoop.Writer.Routine: covers the loop alone and a connection that accepts everything; interleaving, failures and
  stopping are in `WriterProtocol`.
- Writer, reader and their queues are not one class with goroutines: interleavings are steps of a state, and what the
  steps do to identifiers, tables and aliases is in the classes `Outbound`, `Inbound`, `Writer` and `Reader`.
- QosSystem.ExactlyOnce: for a connection that stays up; sessions that reconnect and resend are not modelled. The receiver is this code's own, which never sends a PUBREC with a failure code.
- TopicAlias.Delivered: for as many aliases as topics; beyond that an alias is drawn at random, may be 0 and may already
  stand for another topic, and only the sending side is modelled (`TopicAlias.SendAll`).
- MySqlConn.Conn.WritePacket: a write that is cut short without an error, and write deadlines, are left out.
- Interleavings inside one operation of `memLockFree`, and its retained search, which takes a '$' root for granted.
- MemTrie.Provider.Retain: retained values that are computed when they are read (system topics) are left out.
- RadixTree.Tree.AddRoute: wildcard routes (`:name`, `*rest`), `maxParams` and an empty path, which the router refuses, are left out; priorities do not wrap at 32 bits.
- RadixTree.Tree.GetValue: the trailing-slash recommendation and case-insensitive lookup are left out.
- PublishCodec.Publish.Encode: a buffer that the properties overrun, because they take more room than announced, is left out; the original panics or cuts the payload there.
- PublishCodec.Publish.EncodeMessage: the same, and so is a value whose type does not belong to its identifier, at which the original panics.
- PublishCodec.EncodeNew: the same, so lists of binary values with a length of their own are left out.
- PublishCodec.Decode: every packet type other than PUBLISH is one refusal.
- PropertySet.Property.Encode: a value whose type does not belong to its identifier, at which the original panics, and a buffer that the properties overrun are left out.
- SUBSCRIBE, UNSUBSCRIBE, AUTH, CONNECT and will-property codecs; the PUBLISH codec uses the same header, length and
  property code.
- Topic validation by regular expression is "no `+` and no `#`"; UTF-8 validity is written out after RFC 3629.
- Cancelling the expiry timer, its persisted state, and the pointer to the expiry interval that it shares with the session.
- The ORM, SQL builders, DSN parsing and password hashing among the vendored libraries.
