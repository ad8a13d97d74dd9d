# A verified model of the hash table, the chat protocol, bencoding and the peer protocol

The project models five parts of the repository in Dafny and proves what they promise.

**The intrusive hash table** (`examples/p2p-chat-example/uthash.h`). Items are heap objects that sit in two linked structures
at once: a doubly linked list in application order and the chain of a bucket. `UtChains` holds the chains and the in-place
doubling of the bucket array, `UtList` the list, `UtSort` the mergesort that relinks the list, and `UtHash.Table` the
operations. Its ghost field `contents` is the specification state, an insertion-ordered map (`OrderedMap`). `Valid()` is what
`HASH_FSCK` checks, with the tail, the Bloom filter and a ghost `log` of calls. Every method ties the new `contents` to the old
one and appends to the log; `Logged()` says that the table is what the run of these calls makes of an empty map, and
`OrderedMap.RunAnswersLastWrite` what such a run answers. `UtHash.Table.Fsck` passes exactly if what it looks at is right, and
`UtHash.Table.SoundPasses` says that it always is. The hash function is a parameter, so
everything holds for every hash function.

**The chat-room protocol** (`examples/p2p-chat-example/tracker.c`, `client.c`). `ChatRooms` says what each request does to the
tracker's table and which packets it sends; `ChatTracker.Tracker` and `ChatClient.Client` hold the handlers with their loops
and globals, proved against it. `ChatSystem` puts tracker and clients together: tracker requests are atomic steps and each
client has a queue that delivers in order and without loss. Agreement says that applying what is still in a client's queue
brings the client to the tracker's present room and member list for it. `ChatMessages` says who displays a chat message when
lists are out of date, `ChatAnswers` that refused requests are refused for the reason the client prints. `Endpoint` is the text key of a peer, and
`PeerIndex.Index` the tracker's table as the source keeps it: records in a `UtHash.Table` under these keys, proved to hold the
table of `ChatRooms` whatever is entered, moved, removed, pinged or marked alive.

**Bencoding** (`src/bencode.c`, `src/encode.c`). `Bencode` gives the decoder on arbitrary bytes: a tree or nothing, the bytes
used, the blocks lost on the way, or `Undefined` where the C program reads past its input or writes through a null pointer.
`BencodeCursor.Cursor` is the decoder as it is written, with a position, a remaining length, arrays that grow and a heap,
proved to do that and to leave exactly the blocks it should; `be_free` is there too. `Metainfo` writes and reads torrent files;
`MetainfoRead` says what reading makes of any tree, whoever wrote it.

**The IP registry** (`src/tracker.c`, `src/tracker_serv.c`): a linked list, the reply buffer and its reading by a client.

**Peer messages and bitfields** (`src/btp.c`, `src/util.c`, the HAVE case of `src/torrent.c`).

Some promises of the code do not hold for all inputs. There the model keeps the code's behaviour and states exactly when the
promise holds:

- A joiner whose port is 65535 (-1 in a `short`) or whose address is 0 never gets its join reply: `ChatSystem.StepAgreesIff`,
  `RunAgreesIff`, and `StrandingExample` for a concrete run.
- A chat message reaches exactly its room, the sender included, if the sender lists its real address. A creator that is still
  alone lists the wildcard address instead (`ChatSystem.LoneCreator`); then it sees its own message exactly if the network
  leads that address back to it, which the source does not settle: `ChatSystem.MessageReachesRoom`, `LoneMessageIff`.
- An encoded value decodes exactly if no list or dictionary in it is empty; an empty one makes the decoder write through a null
  pointer: `Bencode.DecodeEncode`, and `BencodeExamples.EmptyListExample` for the text `le`.
- `be_free` gives back a whole tree exactly if nothing in it lies behind a dictionary pair without a value:
  `BencodeTree.FreesAllIff`. The decoder's dictionary loop tests an array of pairs as if it were one of pointers, so it can
  pass such pairs (`Bencode.SlotIsNull`). `d1:axe` is such an input: `BencodeTree.HiddenKeyExample`.
- A file's length comes back from its metainfo exactly if it fits an int: `Metainfo.LengthComesBackIff`; `LongFileExample` is
  a file of 2^31 bytes, whose length comes back negative.
- A piece's hash is taken over that piece exactly if the piece has no zero byte and the byte behind it in memory is one, because
  the number of bytes hashed is the buffer's `strlen`: `Metainfo.HashIsOfPieceIff`. A buffer without a zero byte makes `strlen`
  read what lies behind it, to which C gives no meaning (`HashIsDefinedIff`); the model has those bytes as a parameter. So a full
  piece is hashed as it stands only by what happens to follow the buffer; `HashExamples` has a file of zeros and one of text.
- A file whose length is a multiple of the piece length gets one hash too many, because the last one is taken after the loop
  whatever the last read got: `Metainfo.HashPieces`, and `MetainfoExamples.ExtraHashExamples` for a file of 256 bytes and an empty one.
- `joinTracker` waits for an answer to its "join" message. The server answers only "list": `RegistryServer.JoinIsNotAnswered`.
- A client of the registry reads all other addresses exactly if it has room for them, they fit its receive buffer, which holds
  511, and the upper bytes of its count agree with theirs: `Registry.PeersAreOthersIff`. As `torrent.c` starts, with a count of
  zero and room for ten, that is at most ten others; with enough room it is at most 255: `Registry.FirstRequestIff`. With twelve
  clients registered every one of them writes behind its array: `TwelveClientsExample`.
- A frame of a peer message determines its message, but a state message with identifier 5 and an empty bitfield share theirs;
  streams are equal exactly if their messages are, up to that: `PeerWire.FramesEqualIff`, `StreamsEqualIff`.
- The comment of `peerContainsUndownloadedPieces` calls its third argument a number of bits; the code compares that many bytes.
  Called with n it gives the answer for n bits exactly if a piece below n is missing or none from n to 8n is:
  `Bitfield.BytesForBitsIff`, and `OneBitExample` for an input where it does not.
- `protocol.md` asks for every integer of a peer message in four bytes, highest first; the code copies them from memory, lowest
  first on the machines it is written for. A message comes out as asked exactly if it is a bitfield or a block all of whose
  integers have bytes that read the same both ways, so never for a state, have, request or cancel message:
  `PeerWire.NetworkOrderIff`, and `HaveOneExample` for both forms of one message. A peer that reads an int in the order asked
  for gets another one unless its bytes are such: `PeerWire.NetworkReadIff`.

One thing the model takes as it comes: `sendClients` copies 16 bytes from each stored address, which `strdup` gave only as many
bytes as the address has, and one. For an address of fewer than 15 characters that reads behind the block, to which C gives no
meaning; the model has whatever lies there as part of the slot (`Registry.Slot`), and the results hold for all of it.

## Model

| member | source | states |
|---|---|---|
| UtHash.Table.Find | examples/p2p-chat-example/uthash.h:93-104 | answers what the insertion-ordered map answers, which is the last write of the key over whatever run of calls came before, with whatever expansions, and the filter on or off |
| UtHash.Table.Add | examples/p2p-chat-example/uthash.h:172-195 | appends to the ordered map, keeps every structure linked and counted, and doubles the table exactly if the chain joined is too long |
| UtHash.Table.Replace | examples/p2p-chat-example/uthash.h:162-170 | returns the item replaced; the new one is last in order |
| UtHash.Table.Delete | examples/p2p-chat-example/uthash.h:214-247 | removes exactly the item, from list and chain; the last deletion leaves no table; filter bits stay |
| UtHash.Table.Sort | examples/p2p-chat-example/uthash.h:719-804 | for a comparator that is a function of the two items, the list becomes the stable sorted permutation with consistent links; chains, buckets and filter are not touched |
| UtHash.Table.AddToBkt | examples/p2p-chat-example/uthash.h:611-622 | when the table doubles, and what it keeps when it does not; unless expansion has stopped or has left an ideal length of 10 or more, every chain stays below its bucket's next threshold |
| UtHash.Table.ExpandBuckets | examples/p2p-chat-example/uthash.h:666-712 | the same items, rehashed into twice the buckets, with exact statistics and the stop after two ineffective expansions |
| UtHash.Table.Fsck | examples/p2p-chat-example/uthash.h:277-327 | on any table whose forward links end, the check passes if and only if all back-links, bucket counts and both item counts are right |
| UtHash.Table.SoundPasses | examples/p2p-chat-example/uthash.h:277-327 | every table that the operations leave behind passes |
| UtHash.BackLinkedIff | examples/p2p-chat-example/uthash.h:284-300 | the back-links the check asks for in a chain are those that undo the forward links, with none at the head |
| UtHash.PrevLinkedIff | examples/p2p-chat-example/uthash.h:308-318 | so are those of the list |
| UtHash.Table.BloomTest | examples/p2p-chat-example/uthash.h:124-130 | false only for a hash that no item of the table has, though deletes clear no bit; never false without a filter; with one it is the bit of the hash |
| UtHash.Table.BloomAdd | examples/p2p-chat-example/uthash.h:123-127 | sets the bit of the hash and clears none |
| UtHash.ExpansionSplitsBuckets | examples/p2p-chat-example/uthash.h:197-200 | an item of bucket k lands in bucket k or k + num_buckets |
| UtHash.BucketIsRemainder | examples/p2p-chat-example/uthash.h:197-200 | the mask takes the remainder of the hash by the number of buckets |
| UtHash.Table.BelowAfterExpansion | examples/p2p-chat-example/uthash.h:618-619 | in a table just expanded with an ideal length below 10 every bucket is below its next threshold |
| UtHash.Table.BelowAfterExpansionIff | examples/p2p-chat-example/uthash.h:618-619 | from 10 on, exactly which buckets are below it: those with fewer than 10 items and, among the overfull, those whose count leaves less than 10 over |
| UtHash.Table.SomeNotBelow | examples/p2p-chat-example/uthash.h:618-619 | from 20 on some bucket is not, so that the next item in it doubles the table again unless expansion has stopped |
| UtHash.IdealIsCeil | examples/p2p-chat-example/uthash.h:677-679 | the shift and mask compute the ceiling, and it is at least 1 |
| UtHash.CountMembers | examples/p2p-chat-example/uthash.h:284-307 | the bucket counts add up to the number of items |
| UtChains.FindInBucket | examples/p2p-chat-example/uthash.h:597-608 | finds a node with the key, or there is none in the chain |
| UtChains.LinkIntoBucket | examples/p2p-chat-example/uthash.h:611-617 | the item becomes the chain's head and is counted; other chains keep their nodes and links |
| UtChains.UnlinkFromBucket | examples/p2p-chat-example/uthash.h:625-635 | exactly that item leaves its chain, whatever its place in it |
| UtChains.RehashAll | examples/p2p-chat-example/uthash.h:680-700 | the nested loops move every item to the bucket its hash selects, and count items beyond the ideal length |
| UtChains.ExcessPush | examples/p2p-chat-example/uthash.h:688-692 | one more item counts as misplaced exactly if its chain already has the ideal length |
| UtList.Append | examples/p2p-chat-example/uthash.h:183-185 | the list gains its new tail |
| UtList.RemoveFromList | examples/p2p-chat-example/uthash.h:226-241 | the list without the item, with the right head and tail |
| UtSort.SortList | examples/p2p-chat-example/uthash.h:719-804 | the relinking computes the mergesort on sequences; it ends, since the run length doubles until one merge covers the list |
| UtSort.SortPass | examples/p2p-chat-example/uthash.h:729-794 | one pass merges neighbouring runs and counts the merges |
| UtSort.MergeRuns | examples/p2p-chat-example/uthash.h:744-789 | the merge loop yields the merge of two runs, a tie taken from the left |
| StableSort.MergeSortCorrect | examples/p2p-chat-example/uthash.h:715-804 | for a total preorder the result is sorted and equal elements keep their order |
| StableSort.MergeSortPermutes | examples/p2p-chat-example/uthash.h:719-804 | for any comparator the result is a permutation |
| StableSort.StableSortUnique | examples/p2p-chat-example/uthash.h:715-804 | there is only one sorted and stable permutation |
| OrderedMap.RunAnswersLastWrite | examples/p2p-chat-example/uthash.h:93-247 | over every run of adds of absent keys, replaces, deletes and reorderings, a lookup answers with the last write of its key |
| OrderedMap.RunInOrder | examples/p2p-chat-example/uthash.h:162-195 | over every such run without reorderings, the items come in the order in which their keys were last added or replaced |
| ChatRooms.LeastFreeRoom | examples/p2p-chat-example/tracker.c:255-271 | below the room limit the search returns the least free number in 1 to 5 |
| ChatRooms.InMembers | examples/p2p-chat-example/tracker.c:498-514 | an address is listed for a room exactly if its entry says so |
| ChatRooms.MembersOfRemove | examples/p2p-chat-example/tracker.c:380-411 | a removal shrinks exactly one room, by one |
| ChatSafety.CreateRoomSafe | examples/p2p-chat-example/tracker.c:244-309 | a create keeps room numbers, room sizes and one room a peer |
| ChatSafety.JoinSafe | examples/p2p-chat-example/tracker.c:311-378 | so does a join or a switch |
| ChatSafety.SweepSafe | examples/p2p-chat-example/tracker.c:233-242 | so does a sweep |
| ChatSafety.SweepKeepsLiving | examples/p2p-chat-example/tracker.c:233-242 | a sweep leaves exactly the living, in order |
| ChatTracker.Tracker.GetTotalNumRooms | examples/p2p-chat-example/tracker.c:583-608 | returns the number of distinct rooms and never writes past the five slots |
| ChatTracker.Tracker.PeerCreateRoom | examples/p2p-chat-example/tracker.c:244-309 | table and packets after a create, with both errors |
| ChatTracker.Tracker.PeerJoin | examples/p2p-chat-example/tracker.c:311-378 | table and packets after a join or a switch, with the three errors |
| ChatTracker.Tracker.PeerLeave | examples/p2p-chat-example/tracker.c:380-411 | table and packets after a leave, with its error |
| ChatTracker.Tracker.SendPeerList | examples/p2p-chat-example/tracker.c:494-551 | every member of the room gets the room's list, the joiner as the reply to its request |
| ChatTracker.Tracker.ListRoom | examples/p2p-chat-example/tracker.c:503-514 | the array filled is the room's member list in table order, and is never overrun |
| ChatTracker.Tracker.SendPingsToAll | examples/p2p-chat-example/tracker.c:209-231 | every peer is presumed dead and gets a ping |
| ChatTracker.Tracker.MarkPeerAlive | examples/p2p-chat-example/tracker.c:190-206 | marks the peer, if it is there |
| ChatTracker.Tracker.DeleteDeadPeers | examples/p2p-chat-example/tracker.c:233-242 | every dead peer leaves, with the updates of a leave |
| ChatClient.Client.ReceivePacket | examples/p2p-chat-example/client.c:166-211 | each packet changes the client's globals as the system model says, and an error reply prints its message |
| ChatClient.Client.ReadError | examples/p2p-chat-example/client.c:329-415 | which message is printed for the error field of which reply |
| ChatClient.Client.CreateRoomReply | examples/p2p-chat-example/client.c:329-355 | in the room, alone under its own address |
| ChatClient.Client.JoinRoomReply | examples/p2p-chat-example/client.c:357-396 | in the room with the list sent, or outside if the list is empty |
| ChatClient.Client.UserConnectionUpdates | examples/p2p-chat-example/client.c:422-440 | takes over a list that is not empty, and never the room |
| ChatClient.Client.SendMessage | examples/p2p-chat-example/client.c:261-289 | sends to everyone on the list, once, in order, and names its own room |
| ChatClient.Client.ReceiveMessage | examples/p2p-chat-example/client.c:467-478 | shows a message exactly if it names the client's own room; for a client that all packets have reached, that is the room in which the tracker has it |
| ChatSystem.StepAgreesIff | examples/p2p-chat-example/tracker.c:244-411 | one step keeps agreement, if and only if it is not a join that succeeds from an address peer_list does not recognise |
| ChatSystem.RunAgreesIff | examples/p2p-chat-example/tracker.c:494-551 | every state of a run agrees, if and only if no such join occurs in it |
| ChatSystem.JoinKeepsIff | examples/p2p-chat-example/tracker.c:311-378 | the same for joins against every view that agreed before |
| ChatSystem.StrandingExample | examples/p2p-chat-example/tracker.c:525-540 | a concrete run in which a joiner is never told |
| ChatSystem.RunIsSafe | examples/p2p-chat-example/tracker.c:244-411 | in every reachable state rooms with members lie in 1 to 5 and have at most 5, and each peer is in one |
| ChatSystem.MessageReachesRoom | examples/p2p-chat-example/client.c:261-289 | with queues drained, and a network that delivers to the addresses of peers, a message of a member that lists its real address is shown by exactly the room's members, once each, the sender included |
| ChatSystem.LoneMessageIff | examples/p2p-chat-example/client.c:329-355 | a member that does not is alone, and sees its message if and only if the wildcard address leads back to it |
| ChatSystem.LoneCreator | examples/p2p-chat-example/client.c:329-355 | the run that gets there: a create and its reply |
| ChatMessages.MessageStaysInRoom | examples/p2p-chat-example/client.c:467-478 | in every run without a stranding join: a message sent at any time and received at any later time by a client whose packets have all arrived is shown there exactly if the tracker has that client in the room the message names, whatever the sender's list was |
| ChatExample.StaleListExample | examples/p2p-chat-example/client.c:467-478 | a run in which a message for room 1 goes to a client that has switched to room 2, which shows nothing |
| ChatMessages.RunIsSane | examples/p2p-chat-example/client.c:422-440 | in every such run a client in no room has an empty list, now and after each packet on its way |
| ChatMessages.OnePacket | examples/p2p-chat-example/tracker.c:244-411 | every request sends each client at most one packet |
| ChatMessages.PingsReach | examples/p2p-chat-example/tracker.c:209-231 | every peer gets one ping, and nobody else any |
| ChatAnswers.CreateAnswer | examples/p2p-chat-example/tracker.c:244-309 | a create is refused exactly if all five rooms have members or the sender is in one, and told so; else it is told the least number of a room without members, and is in it |
| ChatAnswers.JoinAnswer | examples/p2p-chat-example/tracker.c:311-378 | a join is refused exactly if the room has five members, none, or the sender, and told which |
| ChatAnswers.LeaveAnswer | examples/p2p-chat-example/tracker.c:380-411 | a leave is refused exactly if the sender is in no room, and told so |
| ChatSystem.AliveIffHeard | examples/p2p-chat-example/tracker.c:190-242 | over every run the alive flag says whether the peer was heard of since the last pings |
| ChatSystem.SweepRemovesUnheard | examples/p2p-chat-example/tracker.c:233-242 | a sweep removes a peer exactly if it was not |
| Endpoint.KeyRoundTrip | examples/p2p-chat-example/tracker.c:274-277 | every 32-bit address and 16-bit port comes back from its key text, which fits 20 bytes |
| Endpoint.KeysDiffer | examples/p2p-chat-example/tracker.c:274-277 | distinct endpoints have distinct keys |
| Endpoint.KeyExamples | examples/p2p-chat-example/tracker.c:274-277 | two keys byte by byte, one with an address and a port that print as negative |
| Endpoint.StrToULOfSigned | examples/p2p-chat-example/tracker.c:634-666 | strtoul on a printed negative number wraps modulo 2^64 |
| Endpoint.StrToULExamples | examples/p2p-chat-example/tracker.c:634-666 | base 8 behind a leading zero, blanks in front, and where the scan ends |
| Endpoint.GetIp | examples/p2p-chat-example/tracker.c:634-646 | the scan of the key buffer returns the number in front of the colon |
| Endpoint.GetPort | examples/p2p-chat-example/tracker.c:648-666 | the scan returns the number behind it, and stays inside the buffer |
| PeerIndex.Index.Find | examples/p2p-chat-example/tracker.c:274-282 | the record found under the printed endpoint is that of the peer at this endpoint, and there is none exactly if the peer is not in the table |
| PeerIndex.Index.Enter | examples/p2p-chat-example/tracker.c:289-291 | the peer is added at the end of the table |
| PeerIndex.Index.Move | examples/p2p-chat-example/tracker.c:359-365 | the peer is replaced, at the end of the table |
| PeerIndex.Index.Leave | examples/p2p-chat-example/tracker.c:380-392 | exactly that peer leaves the table, if it is there |
| PeerIndex.Index.MarkAlive | examples/p2p-chat-example/tracker.c:190-206 | the flag set in the record found is the peer's |
| PeerIndex.Index.PingAll | examples/p2p-chat-example/tracker.c:209-231 | the walk along the list of the hash table clears every flag and pings, in table order, the endpoints read back from the keys |
| PeerIndex.LookupStored | examples/p2p-chat-example/tracker.c:274-282 | lookups by text and by endpoint agree |
| PeerIndex.RemoveStored | examples/p2p-chat-example/tracker.c:380-392 | so do removals |
| PeerIndex.PongStored | examples/p2p-chat-example/tracker.c:190-206 | setting one record's flag changes the one entry, since no two entries share a record |
| Decimal.StrToLLOfSigned | src/bencode.c:47-54 | a printed 64-bit integer reads back, up to exactly its last digit |
| Decimal.StrToLLExamples | src/bencode.c:47-54 | blanks and signs, a sign without a number, and numbers out of range |
| Bencode.DecodeEncode | src/bencode.c:103-188 | decoding an encoding, whatever follows, returns the value and stops right behind it with nothing lost, if and only if no list or dictionary in it is empty |
| BencodeExamples.EmptyListExample | src/bencode.c:103-188 | the encoding of an empty list, le, has no meaning to the decoder, whatever follows |
| BencodeExamples.MalformedExamples | src/bencode.c:66-188 | six malformed inputs: what is returned, how far the cursor moves and how many blocks are lost |
| BencodeExamples.EncodingExamples | src/encode.c:16-45 | two encodings byte by byte |
| Bencode.EncodingsPrefixFree | src/bencode.c:103-188 | texts that start with encodings and are equal have the same value and the same rest |
| Bencode.ConcatenationUnique | src/bencode.c:103-188 | concatenated encodings decode uniquely |
| Bencode.ImageInjective | src/bencode.c:103-188 | different values have different trees |
| Bencode.StaysInTimeIf | src/bencode.c:137-150 | the dictionary loop's test reaches a broken pair in time: the termination measure of rounds that read nothing |
| BencodeCursor.Cursor.Decode | src/bencode.c:103-188 | the recursive decoder does what the specification says, with position plus remaining length constant, in blocks of its own and with exactly the lost ones |
| BencodeCursor.Cursor.ReadStr | src/bencode.c:66-101 | reads a length-prefixed string or none, without reading past the input |
| BencodeCursor.Cursor.DecodeInt | src/bencode.c:47-54 | reads a number and moves position and remaining length together |
| BencodeCursor.Cursor.ReadItems | src/bencode.c:112-127 | the loop of a list, with its growing array and its early end |
| BencodeCursor.Cursor.ReadPairs | src/bencode.c:135-151 | the loop of a dictionary, with the test on the pair array |
| BencodeCursor.Cursor.BeFree | src/bencode.c:206-235 | releases exactly the blocks the walk reaches, each in use when it is released |
| BencodeCursor.Cursor.FreeEntries | src/bencode.c:223-231 | the loop over pairs stops at the first without a value |
| BencodeCursor.Cursor.DecodeAndFree | src/bencode.c:103-235 | nothing stays allocated, if and only if nothing was lost and nothing hides in the tree |
| BencodeCursor.Cursor.ReadWellFormed | src/bencode.c:103-188 | on a well-formed value the remaining length ends as what follows it, and be_free restores the heap |
| BencodeTree.FreesAllIff | src/bencode.c:206-235 | be_free releases a whole tree, if and only if nothing in it lies behind a pair without a value |
| BencodeTree.HiddenKeyExample | src/bencode.c:135-151 | the decoder returns such a tree for d1:axe, and has lost nothing on the way |
| BencodeTree.OwnedSize | src/bencode.c:36-44 | a tree has as many blocks as its value needs: no address occurs twice |
| BencodeAt.FirstPair | src/bencode.c:135-151 | a round of the dictionary loop, by positions in the buffer |
| Metainfo.HashPieces | src/encode.c:62-72 | n hashes of 20 bytes for the one n with 256 (n - 1) <= length < 256 n, so one more after the full reads even if nothing is left; each over the buffer's strlen as the buffer then stands, whatever lies behind it |
| MetainfoExamples.ExtraHashExamples | src/encode.c:66-73 | the metainfo of a file of 256 bytes has 40 bytes of hashes, and that of an empty file 20 |
| Metainfo.InfoDict | src/encode.c:48-80 | writes the encoding of the info dictionary, length before piece length before pieces |
| Metainfo.EncodeFile | src/encode.c:83-114 | writes the encoding of the metainfo value |
| Metainfo.EncodeDict | src/encode.c:37-45 | the encoded parts in order, between the marks |
| MetainfoExamples.InfoTextIs | src/encode.c:48-80 | the text of the info dictionary, byte by byte but for its values |
| MetainfoExamples.FileTextIs | src/encode.c:83-114 | the text of the whole file, likewise |
| Metainfo.MetainfoRoundTrip | src/bencode.c:325-369 | a metainfo file reads back as its address, name, length as an int and piece length, with the k-th hash in slice k, whatever the structure held before |
| Metainfo.LengthComesBackIff | src/bencode.c:344-353 | the length is the file's, if and only if it fits an int; then num_pieces is the length over 256, rounded up |
| Metainfo.LongFileExample | src/bencode.c:344-353 | the length of a file of 2^31 bytes comes back as -2^31 |
| Metainfo.PiecesCovered | src/encode.c:62-72 | the hashes written cover the pieces read |
| Metainfo.HashIsOfPieceIff | src/encode.c:66-72 | a hash is over its piece, if and only if the piece has no zero byte and the byte behind it in memory is one; where C defines it, never for a full piece |
| Metainfo.HashIsDefinedIff | src/encode.c:66-72 | the hash depends on the buffer alone, if and only if the buffer holds a zero byte |
| Metainfo.HashExamples | src/encode.c:66-72 | a file of zeros is hashed as empty, and one of text together with what follows the buffer |
| Metainfo.BtInfo.ReadFile | src/bencode.c:334-369 | the loop over the top dictionary fills the structure field by field |
| Metainfo.BtInfo.ReadInfo | src/bencode.c:340-366 | so does the loop over the info dictionary |
| Metainfo.PiecesIsCeiling | src/bencode.c:347-353 | for every length and every positive piece length the number of pieces is the quotient, rounded up |
| MetainfoRead.AnnounceIsLast | src/bencode.c:334-339 | from any tree: the address is the string of the last "announce", or what it was if there is none |
| MetainfoRead.OthersDropped | src/bencode.c:334-369 | entries with keys other than "announce" and "info" make no difference |
| MetainfoRead.InfoIsRead | src/bencode.c:340-366 | with one "info", the other fields are read from it alone |
| MetainfoRead.InfoIsLast | src/bencode.c:340-366 | in an info dictionary name, length and piece length are those of the last entries with these keys, or what they were |
| MetainfoRead.InfoOthersDropped | src/bencode.c:340-366 | entries with other keys than the four make no difference |
| MetainfoRead.NumPiecesIsCeiling | src/bencode.c:346-353 | for every positive piece length the number of pieces is the length over it, rounded up; the length is the one read before the last "piece length" |
| MetainfoRead.HashesAreBlocks | src/bencode.c:354-365 | the hashes are the blocks of 20 bytes of the last "pieces", as many as there are pieces by then |
| MetainfoExamples.MobyDickExample | src/bencode.c:325-369 | a file with two other entries and a piece length of 262144, with all keys byte by byte |
| Metainfo.BtInfo.CopyHashes | src/bencode.c:357-364 | copies 20 bytes a piece |
| Registry.RegisteredIsFirstContacts | src/tracker_serv.c:46-97 | over every run of requests the registry lists everyone in contact, in order of first contact, without duplicates |
| Registry.FirstContactsUnique | src/tracker_serv.c:46-97 | there is only one such list |
| Registry.PeersAreOthersIff | src/tracker.c:15-25 | the client gets all the others in order, if and only if its destination and its receive buffer have room for them and the upper bytes of its count agree with theirs |
| Registry.ReplyReads | src/tracker.c:15-25 | what it gets otherwise: the first of them, as many as the count tells, or a read behind what it received or a write behind its destination |
| Registry.FirstRequestIff | src/torrent.c:79-84 | as the client starts, all of them, if and only if there are at most ten; with enough room, at most 255 |
| Registry.TwelveClientsExample | src/torrent.c:79-84 | twelve registered clients, each of which writes behind its array |
| Registry.TwoClientsExample | src/tracker.c:203-244 | the reply to one of two clients is a byte 1 and the other's 16 bytes |
| Registry.OthersSkipsOne | src/tracker.c:203-244 | the others are the registry without the one place of the requester |
| RegistryServer.Server.AddIfAbsent | src/tracker.c:116-146 | the list gains a node at its end exactly if the address is new |
| RegistryServer.Server.SendClients | src/tracker.c:203-244 | the buffer sent: the count byte and every other address, never past its end |
| RegistryServer.Server.Accept | src/tracker_serv.c:46-97 | a turn of the loop: the five bytes of the "list" message are answered and register their sender; the "join" message and a closed connection are not, and leave the registry as it was; for every destination and count, the reply is read as every other address under exactly that condition |
| RegistryServer.BuildMsg | src/tracker.c:52-61 | a length byte and the text without its zero |
| RegistryServer.ListIsAnswered | src/tracker_serv.c:60-68 | the message that asks for the list is taken for one, whatever follows it in the receive buffer |
| RegistryServer.JoinIsNotAnswered | src/tracker_serv.c:60-68 | the message that joins is not, nor is a closed connection |
| PeerWire.StreamComesApart | src/btp.c:248-260 | get_next_msg, applied again and again to any concatenation of constructed messages, returns them in order |
| PeerWire.NextOfFrame | src/btp.c:248-260 | the first message, its identifier and its size, whatever follows |
| PeerWire.StreamsEqualIff | src/btp.c:81-260 | two streams of any constructed messages are equal, if and only if their messages are, one by one, up to a state message 5 and an empty bitfield |
| PeerWire.FramesEqualIff | src/btp.c:81-239 | two frames are equal, if and only if their messages are, up to that pair |
| PeerWire.StateFiveIsEmptyBitfield | src/btp.c:81-113 | two constructors can build the same bytes |
| PeerWire.NetworkOrderIff | protocol.md:89 | a constructed message is the big-endian one, if and only if it is a bitfield or block all of whose integers are symmetric |
| PeerWire.NetworkReadIff | protocol.md:89 | an int of a constructed message read as big-endian is the one meant, if and only if its bytes read the same both ways |
| PeerWire.HaveOneExample | protocol.md:89 | the announcement of piece 1, as it is built and as it is asked for |
| PeerWire.IntReadBack | src/btp.c:118-134 | an int survives memcpy to bytes and back, and the bytes are its base-256 digits, lowest first |
| PeerWire.GetNextMsg | src/btp.c:248-260 | where the buffer starts with a constructed message, that message whole, its identifier and its size |
| PeerWire.ConstructBitfieldMessage | src/btp.c:81-93 | the buffer is the message's frame: identifier 5, and behind it the bitfield |
| PeerWire.ConstructStateMessage | src/btp.c:103-113 | the buffer is the bytes 1, 0, 0, 0 and the identifier |
| PeerWire.ConstructHaveMessage | src/btp.c:118-134 | the buffer is the message's frame: identifier 4, and the piece at byte 5 |
| PeerWire.ConstructRequestMessage | src/btp.c:141-169 | the buffer is the message's frame: identifier 6, and piece, offset and length at bytes 5, 9 and 13 |
| PeerWire.ConstructPieceMessage | src/btp.c:178-203 | the buffer is the message's frame: identifier 7, piece and offset at bytes 5 and 9, and the data from byte 13 |
| PeerWire.ConstructCancelMessage | src/btp.c:211-239 | the buffer is the message's frame: identifier 8, and piece, offset and length at bytes 5, 9 and 13 |
| PeerWire.Connection.HandleHave | src/torrent.c:323-333 | the piece is added to those of the peer, and no other |
| PeerWire.HaveCarries | src/btp.c:118-134 | what the receiver of a HAVE message reads: length 5, identifier 4 and the piece |
| PeerWire.RequestCarries | src/btp.c:141-169 | what the receiver of a request reads: length 13, identifier 6, piece, offset and block length in this order, as protocol.md lays them out |
| PeerWire.CancelCarries | src/btp.c:211-239 | the same with identifier 8 for a cancel |
| PeerWire.BlockCarries | src/btp.c:178-203 | length 9 more than the data, identifier 7, piece, offset and data for a block |
| PeerWire.BitfieldCarries | src/btp.c:81-93 | length one more than the bitfield, identifier 5 and the bitfield |
| Bitfield.AnnounceAllAdds | src/torrent.c:323-333 | after any run of HAVE messages the bitfield stands for the pieces it had and those announced |
| Bitfield.CountCharBits | src/util.c:93-105 | clearing the lowest set bit until none is left counts the bits |
| Bitfield.CountBitfieldBits | src/util.c:111-122 | the count is the number of pieces |
| Bitfield.BitCountIsSize | src/util.c:111-122 | bits counted byte by byte are as many as pieces |
| Bitfield.PeerContainsUndownloadedPieces | src/btp.c:270-286 | 1 if and only if the peer's pieces are not a subset of ours |
| Bitfield.BytesForBitsIff | src/btp.c:262-286 | with n for the number of bits, the answer is that for n bits, if and only if a piece below n is missing or none from n to 8n is |
| Bitfield.OneBitExample | src/btp.c:262-286 | asked for one bit, the function reports the eighth piece |

## Left out

- The width of the unsigned counters and of the run length in `uthash.h`: tables of 2^31 buckets and lists longer than 2^31 items.
- Failing `malloc`; allocation always succeeds.
- The concrete hash functions, `HASH_SELECT`, `HASH_EMIT_KEY`, the table pointer in each handle (a table is one object), and adds of a key that is present.
- The handlers of `ChatTracker.Tracker` work on the peer table as a sequence. That the hash table keeps this sequence is proved of the calls in `PeerIndex.Index`.
- `room_list` and the client's room listing: it indexes its array with -1 for a new room.
- Sockets, threads, locks, polling and lost or reordered packets; every handler is one atomic step.
- `delete_dead_peers` takes the next link from a peer already freed; the model takes it before.
- Endpoint.StrToULOfSigned: hexadecimal input of `strtoul`, which no key holds.
- Numbers whose digits run to the end of the decoder's input, which `strtoll` would read past, count as undefined; so `be_decode` on a string that ends in a zero byte has a meaning in more cases than the model gives it.
- Sizes of fixed buffers and truncation by `strncat` in `src/encode.c`; strings have any length, and a digest is appended as 20 bytes even if it holds a zero byte.
- Metainfo.BtInfo.ReadFile: the 1024-byte name and announce fields are unbounded, because the source does not check them.
- Decoding of empty lists and dictionaries beyond the fact that it is undefined.
- BencodeCursor.Cursor.BeFree: a null tree, which the C function would read through.
- `be_dump`, reading files, `fileSHA`, and writing the torrent file.
- `destroyClientList` and the debug output of the registry server; a request is taken to arrive in one piece.
- Bitfield.CountCharBits: `char` is an unsigned byte here; on a machine where it is signed the loop clears the same bits.
- UtHash.Table.Sort: the comparator is a function of the two items as such; one that reads their fields enters as what it answers before the sort, which is what it answers throughout unless it reads the links of the list, the only fields the sort changes.
- Handshakes: `verify_handshake` compares a byte it never wrote.
- `Set_Flag`, the `Send_` functions and the main loop of `src/torrent.c`, which do not settle a choke and interest protocol.
- Piece files, `torrent_client.c`, `torrent_main.c` and the duplicate or unfinished programs under `examples/` and `torrent_encoding_decoding/`.
