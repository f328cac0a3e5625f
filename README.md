# Chord node, currency-arbitrage subscriber and CSV loader — a Dafny model

This project models the core of two distributed-systems labs written in Python.

Lab 4 is a Chord distributed hash table (`lab4/chord_node.py`, `lab4/chord_populate.py`):
- identifiers live on a ring of 2^m values;
- a `ModRange` is a half-open interval on that ring, walked by a `ModRangeIter`;
- a `FingerEntry` is one row of a node's finger table;
- a `ChordNode` keeps its finger table, predecessor and key store, answers the remote calls of its peers, joins a network and routes `put_value` / `get_value` to the owner of an identifier;
- the loader turns every row of a CSV file into a dataset and puts it into the table under the key (Player Id, Year).

Lab 3 is a currency-arbitrage subscriber (`lab3/lab3.py`, `lab3/bellman_ford.py`, `lab3/fxp_bytes_subscriber.py`):
- it unmarshals 32-byte quote records from a datagram;
- it serialises its own address for the publisher;
- it keeps a graph of exchange-rate edges in which each quote adds an edge and its inverse and stale quotes are evicted;
- it runs Bellman-Ford with a tolerance to find a negative cycle;
- it walks the predecessor map back to print the arbitrage path.

Modules:

| file | module | models |
|---|---|---|
| `wrappers.dfy` | `Wrappers` | `Option` and `Result` |
| `py_dict.dfy` | `PyDicts` | a Python dict: insertion-ordered keys, assignment, `del` |
| `ring_math.dfy` | `RingMath` | powers of two, clockwise distance on the ring, the owner of an identifier |
| `mod_range.dfy` | `ModRanges` | `ModRange`, `ModRangeIter` |
| `finger_entry.dfy` | `Fingers` | `FingerEntry` |
| `chord_node.dfy` | `ChordNodes` | `ChordNode`, and a network as a map from node identifier to node |
| `chord_populate.dfy` | `ChordPopulate` | `populate_from_csv` |
| `fxp_bytes.dfy` | `FxpBytes` | `serialize_address`, `unmarshal_message`, the byte layout of a record |
| `bellman_ford.dfy` | `BellmanFord` | `BellmanFord.shortest_paths` |
| `lab3.dfy` | `Lab3s` | `add_node`, `manage_nodes`, the filter loop of `listen`, the path walk of `arbitrage` |

A network of Chord nodes is a `map<int, ChordNode<V>>`. A remote call to node n is a call on `net[n]`. A remote call to an identifier that is not in the map fails with `ConnectionFailure`. The number of bits `m` is a parameter: the source fixes it to 160, while its doctests assume 3.

## Model

| member | source | states |
|---|---|---|
| `ModRanges.NewModRange` | lab4/chord_node.py:56-73 | the constructor normalises start and stop into [0, divisor) without moving them on the ring, and gives a well-formed range |
| `ModRanges.NewModRangeCovers` | lab4/chord_node.py:56-84 | x is in ModRange(start, stop, d) iff 0 <= x < d and x is reached walking clockwise from start before stop (or is anywhere on the ring when start == stop) |
| `ModRanges.StopExcluded` | lab4/chord_node.py:56-73 | the stop identifier is never inside its own range unless the range is the whole ring |
| `ModRanges.IntervalsWalk` | lab4/chord_node.py:56-84 | membership in one of the one or two Python `range` intervals equals the clockwise-walk membership |
| `ModRanges.IntervalsLength` | lab4/chord_node.py:56-90 | the interval lengths add up to the clockwise span from start to stop |
| `ModRanges.Contains` | lab4/chord_node.py:79-84 | `__contains__` loops over the intervals and answers true exactly when the id is covered |
| `ModRanges.Length` | lab4/chord_node.py:86-90 | `__len__` sums the interval lengths: the divisor when start == stop, (stop - start) mod divisor otherwise, and the number of elements iteration yields |
| `ModRanges.ElementAt` | lab4/chord_node.py:92-117 | the k-th element yielded is on the ring and k steps clockwise from start |
| `ModRanges.MemberIsElement` | lab4/chord_node.py:79-117 | every member appears in the iteration at its distance from start |
| `ModRanges.ElementsAreMembers` | lab4/chord_node.py:79-117 | iteration yields exactly the members of the range |
| `ModRanges.ElementsDistinct` | lab4/chord_node.py:92-117 | iteration never yields an identifier twice |
| `ModRanges.ModRangeIter.constructor` | lab4/chord_node.py:102-104 | the iterator starts at interval i, offset j |
| `ModRanges.ModRangeIter.Next` | lab4/chord_node.py:108-117 | `__next__` yields the element at the iterator's position and advances it, moving to the next interval when one is exhausted; StopIteration (None) once past the last element, leaving the state unchanged |
| `ModRanges.Iterate` | lab4/chord_node.py:92-93 | iterating a range with `ModRangeIter(self, 0, -1)` yields exactly its elements in clockwise order |
| `ModRanges.Doctests` | lab4/chord_node.py:38-50 | the doctest ranges cover and omit the identifiers the docstring lists |
| `Fingers.NewFingerEntry` | lab4/chord_node.py:142-147 | ValueError unless 0 <= n < 2^m and 1 <= k <= m; otherwise the entry keeps the node and holds a well-formed interval |
| `Fingers.FingerStartOffset` | lab4/chord_node.py:142-147 | entry k starts 2^(k-1) identifiers clockwise of n |
| `Fingers.FingerSpan` | lab4/chord_node.py:142-147 | entry k spans 2^(k-1) identifiers, the last entry ending at n itself |
| `Fingers.FingerIntervalExact` | lab4/chord_node.py:142-156 | x is in entry k's interval iff its distance from n lies in [2^(k-1), 2^k) |
| `Fingers.FingersChain` | lab4/chord_node.py:142-147 | entry k stops where entry k+1 starts |
| `Fingers.FingerIntervalsSkipSelf` | lab4/chord_node.py:142-156 | n lies in none of its own finger intervals |
| `Fingers.FingerIntervalsCover` | lab4/chord_node.py:142-156 | every identifier other than n lies in some finger interval |
| `Fingers.FingerIntervalsDisjoint` | lab4/chord_node.py:142-156 | no identifier lies in two finger intervals |
| `Fingers.Doctests` | lab4/chord_node.py:121-147 | the doctest entries (lines 121-137) cover and omit the identifiers listed; the constructor's guard (lines 142-143) rejects k = 0 and n = 8 on a ring of 8 |
| `RingMath.OwnerUnique` | lab4/chord_node.py:260-270 | an identifier has at most one owner (first live node clockwise) |
| `RingMath.IntervalOwner` | lab4/chord_node.py:356 | an id in (p, s] is owned by s when s owns p + 1 |
| `RingMath.OwnerInInterval` | lab4/chord_node.py:356 | conversely, an id that s owns lies in (p, s] when p is live and s owns p + 1 |
| `RingMath.OwnerNormalize` | lab4/chord_node.py:260-270 | the owner of an id also owns the id reduced onto the ring |
| `RingMath.CopyForwardSound` | lab4/chord_node.py:251-256 | the owner of an earlier finger start also owns a later start that lies before it |
| `ChordNodes.LookupNode` | lab4/chord_node.py:651-663 | the node id is the address's hash reduced onto the ring |
| `ChordNodes.SuccessorOwns` | lab4/chord_node.py:260-270 | when successor pointers are consistent, an id between p and its successor s is owned by s |
| `ChordNodes.OnlyEntrySetPointsAt` | lab4/chord_node.py:317-335 | changing only entry i to s changes entries only to s |
| `ChordNodes.OnlyPointedAtTrans` | lab4/chord_node.py:306-315 | successive updates that only redirect entries to s compose |
| `ChordNodes.OnlyEntrySetTrans` | lab4/chord_node.py:317-335 | successive updates of entry i to s compose |
| `ChordNodes.PendingShrinks` | lab4/chord_node.py:330-333 | each forwarded update lowers the number of nodes whose entry i still differs from s, so the recursion ends |
| `ChordNodes.UpdateTargetStart` | lab4/chord_node.py:312-315 | the identifier update_others looks up for entry i is the one whose entry i starts just past n |
| `ChordNodes.Lookup` | lab4/chord_node.py:383 | the value stored under the key, or None exactly when the key is absent |
| `ChordNodes.OwnershipInterval` | lab4/chord_node.py:356 | the test `id in ModRange(predecessor + 1, node + 1, NODES)` holds iff the node owns id |
| `ChordNodes.OwnsIffOwner` | lab4/chord_node.py:356 | with consistent predecessors, a node's ownership test agrees with the ring owner |
| `ChordNodes.OwnersAgree` | lab4/chord_node.py:356 | with consistent predecessors, no two nodes both accept an id |
| `ChordNodes.CopyForwardKeepsOwner` | lab4/chord_node.py:251-256 | copying finger k's node to finger k+1 keeps the owner of the start |
| `ChordNodes.AnswerOwns` | lab4/chord_node.py:260-270 | when every successor pointer names the next live node, a find_successor answer for id is the owner of id |
| `ChordNodes.AnswerInNet` | lab4/chord_node.py:260-270 | a node's successor whose range covers id is a successor answer over the network's tables |
| `ChordNodes.ConsistentSuccessors` | lab4/chord_node.py:213-222 | with consistent successors, the tables name a successor for every live node and it is the next live node |
| `ChordNodes.LookedUpOwn` | lab4/chord_node.py:258 | with consistent successors, every entry filled by a find_successor answer holds the owner of its start |
| `ChordNodes.CopiedEntryOwns` | lab4/chord_node.py:254-256 | an entry copied from an entry that holds its owner holds the owner too |
| `ChordNodes.OwnersForward` | lab4/chord_node.py:251-258 | by induction over the loop, entries 1..k each hold the owner of their start |
| `ChordNodes.FilledFingersOwn` | lab4/chord_node.py:251-258 | when entry 1 holds the owner and successors are consistent, every entry of the filled table holds the owner of its start |
| `ChordNodes.ChordNode.constructor` | lab4/chord_node.py:164-200 | a new node has m empty finger entries, no predecessor, an empty store and has not joined |
| `ChordNodes.ChordNode.SetTable` | lab4/chord_node.py:329 | replacing the node's finger table changes no other node's table |
| `ChordNodes.ChordNode.SetPredecessor` | lab4/chord_node.py:245-248 | setting the predecessor changes only this node's predecessor |
| `ChordNodes.ChordNode.SetKeys` | lab4/chord_node.py:357 | replacing the store changes only this node's store |
| `ChordNodes.ChordNode.SetFingerNode` | lab4/chord_node.py:329 | setting entry k's node changes only that entry |
| `ChordNodes.ChordNode.SetSuccessor` | lab4/chord_node.py:224-234 | the successor setter sets entry 1's node and nothing else |
| `ChordNodes.ChordNode.ClosestPrecedingFinger` | lab4/chord_node.py:289-304 | the result is the node of the highest entry whose node lies in ModRange(node + 1, id) (the ring from node + 1 up to id, the whole ring when id == node + 1), or the node itself when no entry's node does |
| `ChordNodes.ChordNode.AloneAccepts` | lab4/chord_node.py:260-287 | a node alone in the network is its own successor and its successor range covers the whole ring |
| `ChordNodes.ChordNode.AloneFingers` | lab4/chord_node.py:289-304 | a lone node's closest preceding finger is itself |
| `ChordNodes.ChordNode.RpcSuccessor` | lab4/chord_node.py:390-416 | asking node n for its successor succeeds iff n is live, returning that node's entry 1 |
| `ChordNodes.ChordNode.RpcClosestPrecedingFinger` | lab4/chord_node.py:390-416 | the remote answer is n or one of n's fingers |
| `ChordNodes.ChordNode.FindPredecessor` | lab4/chord_node.py:272-287 | the result is a live node with a successor; a lone node answers itself; no call it makes names an unknown method |
| `ChordNodes.ChordNode.FindSuccessor` | lab4/chord_node.py:260-270 | the result is some node's successor and, with consistent successors, the owner of id; a lone node answers itself |
| `ChordNodes.ChordNode.AppliesMoves` | lab4/chord_node.py:317-335 | when the update applies, entry i does not already hold s |
| `ChordNodes.ChordNode.ApplyUpdate` | lab4/chord_node.py:317-329 | the local half of update_finger_table: IndexError outside 1..m, TypeError on an empty entry, Ok(false) with no change when the test fails; it succeeds iff the test holds, and then entry i, which did not hold s, becomes s and no other table changes |
| `ChordNodes.ChordNode.UpdateFingerTable` | lab4/chord_node.py:317-335 | IndexError outside 1..m, TypeError on an empty entry, no change when s is not in (node, entry i); otherwise entry i becomes s and the call goes on to the predecessor: TypeError when there is none, ConnectionFailure when it is not live, and when it is another live node for which the update applies, that node's entry i becomes s too; nothing but entries set to s changes |
| `ChordNodes.ChordNode.UpdateRound` | lab4/chord_node.py:313-315 | one round i: the node asked is a find_predecessor answer for (1 + node - 2^(i-1)) mod 2^m, and if its entry i passed update_finger_table's test for this node, that entry now points at this node; only entries i change, and only to this node |
| `ChordNodes.ChordNode.UpdateOthers` | lab4/chord_node.py:306-315 | update_others only redirects finger entries to this node; on success it ran all m rounds, and each round k asked the node find_predecessor gave for the k-th target, whose entry k now points at this node wherever it passed update_finger_table's test before the rounds |
| `ChordNodes.DeliveredStep` | lab4/chord_node.py:311-315 | a completed round, which writes only entries k, keeps the earlier rounds' entries and adds its own |
| `ChordNodes.RoundDelivered` | lab4/chord_node.py:311-315 | a completed round extends what update_others has delivered, and the successors the later rounds read are those after round 1 |
| `ChordNodes.RoundFailed` | lab4/chord_node.py:311-315 | a round that fails part way keeps what the earlier rounds delivered |
| `ChordNodes.ChordNode.PutValue` | lab4/chord_node.py:338-363 | an owning node stores data under id and nothing else changes; a routed put succeeds only at an owner; a failed put changes no store |
| `ChordNodes.ChordNode.GetValue` | lab4/chord_node.py:365-388 | an owning node returns its stored value or None; any successful get returns what the store of a node owning id holds under id |
| `ChordNodes.ChordNode.DispatchRpc` | lab4/chord_node.py:418-477 | UnknownMethod iff the name is unknown, changing nothing; 'successor' returns entry 1; 'predecessor' sets entry 1 to arg1 when one is given and returns entry 1; 'find_successor' returns some node's successor whose range covers id, the owner when successors are consistent; 'get_value' returns what an owner of id holds; 'put_value' stores the data at an owner and changes no other store; 'closest_preceding_finger' returns the node or one of its fingers; 'update_finger_table' sets entry i to s when the update applies and reports no change otherwise |
| `ChordNodes.ChordNode.CallRpc` | lab4/chord_node.py:390-416 | a call to a dead node fails with ConnectionFailure and changes nothing; an unknown name fails with UnknownMethod; a 'find_successor', 'get_value' or 'put_value' call carries the same result and store guarantees as in DispatchRpc |
| `ChordNodes.ChordNode.InitFingerTable` | lab4/chord_node.py:237-258 | as written it always fails: once the buddy has named the successor, it asks the successor for 'get_predecessor', which dispatch_rpc does not serve; no store and no predecessor changes, and the only table change is this node's entry 1 set to the successor the buddy named |
| `ChordNodes.ChordNode.NextEntry` | lab4/chord_node.py:254-258 | the node for entry i + 1 is entry i's node when the new start lies in ModRange(node, entry i's node); otherwise it is the buddy's find_successor answer: some node's successor whose range covers the start, and its owner when successors are consistent |
| `ChordNodes.ChordNode.FillFingers` | lab4/chord_node.py:251-258 | only this node's table changes and entry 1 is kept; on success every finger has a node, each entry whose start lies in ModRange(node, previous entry's node) copies that node, and every other entry holds a successor answer of the network for its start |
| `ChordNodes.ChordNode.AskSuccessor` | lab4/chord_node.py:244 | ConnectionFailure when the buddy is not live; otherwise an answer is some node's successor whose range covers entry 1's start, and its owner when successors are consistent |
| `ChordNodes.ChordNode.SwapPredecessor` | lab4/chord_node.py:245-248 | this node takes the successor's old predecessor and the successor's predecessor becomes this node; no other predecessor changes |
| `ChordNodes.ChordNode.TakeSuccessor` | lab4/chord_node.py:244-248 | only this node's table changes; a failure changes no predecessor; on success entry 1 is a live node answering find_successor for its start (its owner when successors were consistent) and the predecessors were swapped with it |
| `ChordNodes.ChordNode.InitFingerTableFixed` | lab4/chord_node.py:237-258 | with the calls evidently intended: only this node's table changes; predecessors are unchanged or swapped with the successor; on success the successor is a live node that answered find_successor for entry 1's start, every finger is filled by the copy rule or a successor answer, and, when every node's successor is the next live node, every entry holds the owner of its start |
| `ChordNodes.ChordNode.FilledTableOwns` | lab4/chord_node.py:237-258 | when every node's successor is the next live node, a table filled by the copy rule and find_successor answers holds the owner of every entry's start |
| `ChordNodes.ChordNode.StartAlone` | lab4/chord_node.py:547-550 | every finger and the predecessor become the node itself, and no other node changes |
| `ChordNodes.ChordNode.Join` | lab4/chord_node.py:536-553 | as written a join through a buddy always fails, leaving the node not joined, every store and predecessor unchanged and at most this node's entry 1 changed; without a buddy every finger and the predecessor are the node itself; the node counts as joined iff a join succeeded |
| `ChordNodes.ChordNode.JoinThroughBuddy` | lab4/chord_node.py:542-544 | on success there is an intermediate state in which only this node's table has changed, to a filled table whose entry 1 answered find_successor; the predecessors were swapped with that successor; update_others then ran all m rounds from that state, only pointing entries at this node and delivering each round as UpdateOthers states |
| `ChordNodes.ChordNode.JoinFixed` | lab4/chord_node.py:536-553 | join with the corrected init_finger_table: through a buddy, a success gives the intermediate state and the m delivered update_others rounds of JoinThroughBuddy; without a buddy as in Join; the node counts as joined iff a join succeeded |
| `ChordNodes.PutThenGet` | lab4/chord_node.py:595-615 | with consistent predecessors, a successful put followed by a successful get returns the data put |
| `ChordNodes.BootstrapLookup` | lab4/chord_node.py:536-553 | the first node of a network is its own predecessor and successor for every id |
| `ChordPopulate.ShowNat` | lab4/chord_populate.py:64-67 | the numeral of a number is decimal and has no leading zero |
| `ChordPopulate.DecimalShowNat` | lab4/chord_populate.py:64-67 | reading the numeral of n gives n back |
| `ChordPopulate.Normalize` | lab4/chord_populate.py:58-70 | a cell is None iff it is '--', an int iff it is a decimal numeral, and is otherwise kept |
| `ChordPopulate.NormalizeNumeral` | lab4/chord_populate.py:64-67 | a numeral normalises to its number |
| `ChordPopulate.NormalizeLeadingZero` | lab4/chord_populate.py:64-67 | leading zeros do not change the number a cell becomes |
| `ChordPopulate.NormalizedRow` | lab4/chord_populate.py:55-70 | the dataset keeps the row's columns in order, each cell normalised |
| `ChordPopulate.NormalizeRow` | lab4/chord_populate.py:55-70 | the column loop builds exactly that dataset |
| `ChordPopulate.RowKey` | lab4/chord_populate.py:73 | the key is (Player Id, Year), or KeyError naming the first missing column |
| `ChordPopulate.KeyOf` | lab4/chord_populate.py:73 | a row with both columns has the key of its normalised cells |
| `ChordPopulate.PopulateFromCsv` | lab4/chord_populate.py:54-80 | rows are put in file order; the count is the number of rows put; a row without a key column stops the load with its KeyError |
| `ChordPopulate.LastRowWins` | lab4/chord_populate.py:79 | a key maps to the dataset of the last row that carries it |
| `ChordPopulate.UntouchedKey` | lab4/chord_populate.py:79 | a key no row carries keeps what the table held |
| `PyDicts.Put` | lab3/lab3.py:178 | dict assignment maps k to v and leaves other keys alone |
| `PyDicts.PutValid` | lab3/lab3.py:178 | assignment keeps the key order a list of the keys |
| `PyDicts.Remove` | lab3/lab3.py:206 | `del` removes exactly k |
| `PyDicts.RemoveValid` | lab3/lab3.py:206 | `del` keeps the key order a list of the keys |
| `PyDicts.RemoveAt` | lab3/lab3.py:206 | `del` takes k out of the key order and keeps the others in place |
| `FxpBytes.FromBigEndian` | lab3/fxp_bytes_subscriber.py:98 | a big-endian integer of k bytes is below 256^k |
| `FxpBytes.DecodeEncode` | lab3/fxp_bytes_subscriber.py:78 | decoding the big-endian bytes of n gives n back |
| `FxpBytes.EncodeDecode` | lab3/fxp_bytes_subscriber.py:98 | encoding the value of a byte string gives the bytes back |
| `FxpBytes.ToBytes` | lab3/fxp_bytes_subscriber.py:78 | `to_bytes(len, 'big')` succeeds iff 0 <= n < 256^len, giving len bytes whose value is n; otherwise OverflowError |
| `FxpBytes.ToBytesFromBigEndian` | lab3/fxp_bytes_subscriber.py:78-98 | `to_bytes` inverts `from_bytes` |
| `FxpBytes.SerializeAddress` | lab3/fxp_bytes_subscriber.py:61-80 | the packed host followed by the port as two big-endian bytes; OverflowError for a port outside 0..65535 |
| `FxpBytes.AddressRoundTrip` | lab3/fxp_bytes_subscriber.py:61-80 | the publisher's reading of the address bytes gives the host and port back |
| `FxpBytes.AddressBytesRoundTrip` | lab3/fxp_bytes_subscriber.py:61-80 | every 6- or 18-byte string is the serialisation of exactly the address read from it |
| `FxpBytes.DeserializeUtcDatetime` | lab3/fxp_bytes_subscriber.py:83-104 | as written: OverflowError iff the microsecond count reaches 2932897 * 10^6, since the count is read as days' worth of seconds and passes the year 9999; otherwise a time before the year 10000 |
| `FxpBytes.DeserializeUtcDatetimeFixed` | lab3/fxp_bytes_subscriber.py:83-104 | with the count taken as microseconds: OverflowError iff the time is past the year 9999, and otherwise the count itself |
| `FxpBytes.TimestampRoundTrip` | lab3/fxp_bytes_subscriber.py:83-104 | the corrected reading gives back every time the 8-byte field can carry before the year 10000 |
| `FxpBytes.SecondsReadAsDays` | lab3/fxp_bytes_subscriber.py:101-104 | where the reading as written succeeds, its time is 86400 times the intended one |
| `FxpBytes.OneSecondIsOneDay` | lab3/fxp_bytes_subscriber.py:101-104 | one second after the epoch reads as one day, and a 2020 timestamp raises OverflowError, while the corrected reading gives both back |
| `FxpBytes.AsciiUtf8` | lab3/fxp_bytes_subscriber.py:135 | ASCII bytes decode as UTF-8 |
| `FxpBytes.Utf8Examples` | lab3/fxp_bytes_subscriber.py:135 | the euro sign's bytes decode; a lone continuation byte and an encoded surrogate do not |
| `FxpBytes.RecordFault` | lab3/fxp_bytes_subscriber.py:133-135 | with the corrected calls, reading a record raises (OverflowError, then UnicodeDecodeError) exactly when its quote is not readable |
| `FxpBytes.RecordFaultAsWritten` | lab3/fxp_bytes_subscriber.py:133-135 | as written a record raises OverflowError iff its time field reaches 2932897 * 10^6, else UnicodeDecodeError iff its first code is not UTF-8, else AttributeError |
| `FxpBytes.Records` | lab3/fxp_bytes_subscriber.py:123 | a message holds len(msg) // 32 records, a trailing partial record ignored |
| `FxpBytes.ReadRecords` | lab3/fxp_bytes_subscriber.py:123-140 | a successful corrected reading of n records gives the first n parsed records |
| `FxpBytes.ReadRecordsOk` | lab3/fxp_bytes_subscriber.py:123-140 | n records read iff none of them has a fault |
| `FxpBytes.ReadRecordsFirstFault` | lab3/fxp_bytes_subscriber.py:123-140 | a failed reading raises the exception of the first record with a fault |
| `FxpBytes.ReadRecordsErr` | lab3/fxp_bytes_subscriber.py:123-140 | once a prefix of the records fails, every longer one fails with the same exception |
| `FxpBytes.UnmarshalMessage` | lab3/fxp_bytes_subscriber.py:106-140 | with `.decode` and the time in seconds, the loop reads record r from bytes 32r..32r+32 (fields at 0-8, 8-11, 11-14, 14-22) and returns the corrected reading of all records |
| `FxpBytes.UnmarshalAsWritten` | lab3/fxp_bytes_subscriber.py:106-140 | as written only a message shorter than one record reads, as no quotes |
| `FxpBytes.ParseMarshalQuote` | lab3/fxp_bytes_subscriber.py:131-136 | parsing a record built from a quote gives the quote back |
| `FxpBytes.UnmarshalMarshal` | lab3/fxp_bytes_subscriber.py:106-140 | unmarshalling a message of marshalled quotes, plus fewer than 32 trailing bytes, gives the quotes back |
| `FxpBytes.MarshalQuoteFault` | lab3/fxp_bytes_subscriber.py:133-135 | a quote's record reads without fault iff the quote is readable, and its fault as written is decided by its time and first code |
| `FxpBytes.DecoRejectsQuotes` | lab3/fxp_bytes_subscriber.py:133-135 | as written every message holding a quote fails: OverflowError for a time from about 34 days after the epoch on, else UnicodeDecodeError for a first code that is not UTF-8, else AttributeError from `.deco` |
| `FxpBytes.ReadMarshalled` | lab3/fxp_bytes_subscriber.py:106-140 | the corrected reading of a message of readable quotes gives the quotes back |
| `BellmanFord.EdgePosition` | lab3/bellman_ford.py:88-89 | every edge is visited by the nested loops at some position |
| `BellmanFord.WalkExtend` | lab3/bellman_ford.py:92-94 | extending a walk by an edge adds that edge's weight |
| `BellmanFord.RelaxStep` | lab3/bellman_ford.py:92-94 | a relaxation keeps the invariant: every finite distance is the weight of a walk from the start, every predecessor is linked, and the distance does not grow |
| `BellmanFord.RelaxState` | lab3/bellman_ford.py:92-94 | a relaxation lowers only the relaxed distance |
| `BellmanFord.WalkBound` | lab3/bellman_ford.py:98-108 | when no edge can be relaxed, every walk from a reached vertex bounds the distance at its end, up to the tolerance per edge |
| `BellmanFord.NoReportNoNegativeCycle` | lab3/bellman_ford.py:53-54 | when nothing is reported, every cycle through a reached vertex weighs at least -tolerance per edge |
| `BellmanFord.InitialDistances` | lab3/bellman_ford.py:76-80 | every vertex starts at infinity except the start at 0 |
| `BellmanFord.UnreportedBound` | lab3/bellman_ford.py:98-108 | without a report, the distance of a vertex is at most the weight of any walk to it, up to the tolerance |
| `BellmanFord.ShortestPaths` | lab3/bellman_ford.py:44-108 | distances are walk weights with linked predecessors; a reported edge is the first in loop order that can still be relaxed; without a report no edge can, and distances are shortest within the tolerance; with tolerance 0 there is a report iff a negative cycle is reachable from the start |
| `BellmanFord.InitialBounded` | lab3/bellman_ford.py:76-80 | before any pass, the start's distance bounds the one-vertex walk |
| `BellmanFord.EdgeSettled` | lab3/bellman_ford.py:92-94 | after relaxing u -> v, every walk of k + 1 edges ending with that edge bounds v's distance |
| `BellmanFord.PassDone` | lab3/bellman_ford.py:85-94 | after a pass over every edge, every walk of at most k + 1 edges bounds the distance at its end |
| `BellmanFord.WeightSplit` | lab3/bellman_ford.py:92 | a walk's weight is the sum of the weights of its two halves |
| `BellmanFord.CutCycle` | lab3/bellman_ford.py:85-94 | cutting a closed sub-walk out of a walk leaves a walk to the same end, lighter by the cycle's weight |
| `BellmanFord.Shorten` | lab3/bellman_ford.py:85-94 | without a reachable negative cycle, every walk has one to the same end with at most len(graph) vertices and no greater weight |
| `BellmanFord.ReportMeansNegativeCycle` | lab3/bellman_ford.py:98-105 | with tolerance 0, an edge that still improves after len(graph) - 1 passes shows a negative cycle reachable from the start |
| `BellmanFord.NoReportNoReachableCycle` | lab3/bellman_ford.py:98-108 | with tolerance 0 and no edge improving, no negative cycle is reachable from the start |
| `BellmanFord.RelaxPass` | lab3/bellman_ford.py:85-94 | one pass keeps the invariant and never raises a distance |
| `BellmanFord.RelaxOut` | lab3/bellman_ford.py:88-94 | relaxing one vertex's out-edges keeps the invariant and never raises a distance |
| `BellmanFord.RelaxEdge` | lab3/bellman_ford.py:92-94 | an edge that improves by more than the tolerance sets the distance and predecessor of its target; any other edge changes nothing |
| `BellmanFord.Detect` | lab3/bellman_ford.py:98-108 | the reported edge can still be relaxed, and None means no edge can |
| `Lab3s.SetEdge` | lab3/lab3.py:173-186 | writing `graph[u][v]` adds u to the graph (last in order if new) |
| `Lab3s.SetEdgeValid` | lab3/lab3.py:173-186 | writing an edge keeps the graph well formed |
| `Lab3s.SetEdgeEdges` | lab3/lab3.py:173-186 | writing an edge sets exactly that edge |
| `Lab3s.SetEdgeSame` | lab3/lab3.py:173-186 | rewriting an edge with its own value changes nothing |
| `Lab3s.SetEdgeOverwrite` | lab3/lab3.py:173-186 | the second write of the same edge wins |
| `Lab3s.AddQuote` | lab3/lab3.py:158-186 | add_node adds both currencies to the graph |
| `Lab3s.AddQuoteValid` | lab3/lab3.py:158-186 | add_node keeps the graph well formed |
| `Lab3s.AddQuoteEdges` | lab3/lab3.py:158-186 | b -> a carries -w; a -> b carries w unless a == b; every other edge is unchanged |
| `Lab3s.AddQuoteClosed` | lab3/lab3.py:158-186 | every edge target is a vertex after add_node |
| `Lab3s.AddQuoteIdempotent` | lab3/lab3.py:158-186 | adding the same quote twice is the same as adding it once |
| `Lab3s.KeepFresh` | lab3/lab3.py:202-207 | the kept targets are the listed ones newer than the cutoff |
| `Lab3s.KeptPlusStale` | lab3/lab3.py:202-208 | kept plus removed edges is every edge |
| `Lab3s.KeepFreshDistinct` | lab3/lab3.py:202-207 | the kept order lists no target twice |
| `Lab3s.FreshEdges` | lab3/lab3.py:202-207 | exactly the edges newer than the cutoff survive, unchanged |
| `Lab3s.FreshEdgesValid` | lab3/lab3.py:202-207 | the swept edge dict is well formed |
| `Lab3s.Evict` | lab3/lab3.py:188-209 | manage_nodes keeps every vertex and their order |
| `Lab3s.EvictValid` | lab3/lab3.py:188-209 | manage_nodes keeps the graph well formed |
| `Lab3s.EvictEdges` | lab3/lab3.py:202-207 | an edge survives iff it is newer than the cutoff, unchanged |
| `Lab3s.EvictClosed` | lab3/lab3.py:188-209 | eviction keeps every edge target a vertex |
| `Lab3s.SweptItems` | lab3/lab3.py:203-207 | after sweeping the first j targets, exactly the stale ones among them are gone |
| `Lab3s.SweptOrder` | lab3/lab3.py:203-207 | after sweeping the first j targets, the order is the kept ones followed by the rest |
| `Lab3s.SweptAll` | lab3/lab3.py:203-207 | sweeping every target keeps exactly the fresh edges |
| `Lab3s.SweptGraphOrder` | lab3/lab3.py:202-207 | the vertex order is unchanged throughout the sweep |
| `Lab3s.SweptGraphAtVertex` | lab3/lab3.py:202-207 | after sweeping the first i vertices, those are swept and the rest untouched |
| `Lab3s.SweptGraphAll` | lab3/lab3.py:202-207 | sweeping every vertex is the eviction |
| `Lab3s.Filtered` | lab3/lab3.py:110-131 | the filter loop never removes a vertex |
| `Lab3s.FilteredLogTimeAfter` | lab3/lab3.py:110-131 | the log_time the filter loop leaves depends only on the quotes and the starting log_time |
| `Lab3s.NoneAcceptedLogTime` | lab3/lab3.py:116-127 | when no quote passes the filter, log_time ends as it began |
| `Lab3s.LastAcceptedLogTime` | lab3/lab3.py:116-127 | log_time ends as the timestamp of the last quote that passed the filter |
| `Lab3s.FilteredLogTime` | lab3/lab3.py:116-127 | after the filter loop, log_time is the starting one when no quote passed, and the timestamp of the last quote that passed otherwise |
| `Lab3s.FilteredValid` | lab3/lab3.py:110-131 | the filter loop keeps the graph well formed |
| `Lab3s.FilteredClosed` | lab3/lab3.py:110-131 | the filter loop keeps every edge target a vertex |
| `Lab3s.DuplicateHarmless` | lab3/lab3.py:110-131 | a quote received twice in a row has the effect of one |
| `Lab3s.Reverse` | lab3/lab3.py:236 | `records.reverse()` puts element i at position n - 1 - i |
| `Lab3s.ArbitragePath` | lab3/lab3.py:224-236 | the path starts and ends at the money, each step follows a predecessor link backward and no inner vertex is the money; KeyError when the walk meets a vertex without predecessor |
| `Lab3s.Lab3.constructor` | lab3/lab3.py:50 | the graph starts empty |
| `Lab3s.Lab3.AddNode` | lab3/lab3.py:158-186 | the graph becomes AddQuote of the old graph |
| `Lab3s.Lab3.ManageNodes` | lab3/lab3.py:188-209 | the graph becomes the eviction at now - QUOTE_EXPIRY and the count is the number of stale edges |
| `Lab3s.Lab3.EvictFrom` | lab3/lab3.py:203-207 | the inner loop sweeps one vertex's edges and counts the stale ones |
| `Lab3s.Lab3.Receive` | lab3/lab3.py:110-131 | the graph and log_time become those of the filter loop over the message |

## Left out

- Sockets, threads, `pickle`, `handle_rpc`, `listening_server`, `run_server`, `Chord.call_rpc`, `Chord.lookup_address` and the subscription and `listen` I/O of lab 3: a remote call is a method call on a node of the network map, and the quotes of a datagram are a parameter.
- SHA-1 (`Chord.hash`): `LookupNode` takes the hash function as a parameter.
- `ChordNodes.ChordNode.PutValue`, `ChordNodes.ChordNode.GetValue`: they take the already-hashed id. The source's call `Chord.hash(key, M)` passes two arguments to a one-argument function, so it raises TypeError before routing. A forwarded put or get passes the hashed id on (lines 363 and 388), and the receiving node hashes it again (lines 353 and 378); the model forwards the id and does not hash it again.
- `ChordNodes.ChordNode.FindPredecessor`, `FindSuccessor`, `PutValue`, `GetValue`, `UpdateOthers`, `DispatchRpc`, `CallRpc`, `Join`, `JoinFixed`: remote recursion is bounded by a `fuel` parameter. When fuel runs out they fail with `HopLimit`, which the source does not have; the contracts are stated for whatever fuel is given.
- `ChordNodes.ChordNode.DispatchRpc`: an argument of the wrong kind (no id where a method needs one, data where 'predecessor' takes an id) fails at once with TypeError. The source passes the argument on and fails later, or not at all, as Python happens to.
- `ChordNodes.ChordNode.CallRpc` and every remote call: `ConnectionFailure` stands for two different Python errors. For an identifier that `lookup_address` cannot place, it returns None (chord_node.py:646) and `sock.connect(None)` raises TypeError (line 582). An identifier that was placed but whose node is down gives ConnectionRefusedError.
- `ChordNodes.ChordNode.JoinFixed`: that successor and predecessor pointers are consistent around the ring after a join is not proved.
- `ChordNodes.ChordNode.UpdateFingerTable`: an index outside 1..m is IndexError. Python would raise a different error for 0 and index from the end for negatives. The source returns `str(self)`, modelled as a boolean.
- `__repr__` of ModRange, FingerEntry and ChordNode: they only format text.
- Lab 3's `-math.log(price)`, `math.exp`, the profit printout and `deserialize_price` (`struct.unpack` of a native-order double, returned as a 1-tuple): prices are `real` in the model, and a record's price is its 8 raw bytes.
- `datetime`/`timedelta`: times are integer microseconds. `utcnow()` and `now()` are parameters.
- `FxpBytes.DeserializeUtcDatetime`: the time as written is exactly 86400 times the count. The float rounding of `duration / MICROS_PER_SECOND` and of the day fraction is not modelled.
- `BellmanFord.ShortestPaths`: requires every edge target to be a vertex and a tolerance >= 0. On an edge to a vertex outside the graph, the source raises KeyError at line 92 only when the edge's source has a finite distance, because the `is not FLOAT_REF` test short-circuits. A negative tolerance makes its detection meaningless.
- `BellmanFord.ShortestPaths`: what a report means is proved for tolerance 0 only. The reported edge is not shown to lie on the negative cycle: it only shows that one is reachable.
- `Lab3s.ArbitragePath`: the backward walk is bounded by `fuel`. Past it the model reports `NoReturn`, where the source loops forever on a predecessor cycle that avoids the money.
- The `'cross'` string: a quote keeps the three raw bytes of each code, and only whether `decode('utf-8')` succeeds is modelled.
- `ipaddress.ip_address` parsing: `SerializeAddress` takes an already parsed IPv4 or IPv6 address.
- The annotation `Tuple(str, int)` on `serialize_address` raises at import time in Python; the model treats it as the intended `Tuple[str, int]`.
- `ChordPopulate.PopulateFromCsv`: models the load the docstring describes (lines 15-21), where each row is put into the ring in file order. As written, line 48 passes the port to `Chord.lookup_address`, which expects a node id. It returns None unless the hash of some local address happens to equal the port number, so the first `put_value(None, ...)` raises TypeError at `sock.connect(None)` (chord_node.py:582) and no row is stored. A put that did arrive would also raise TypeError at chord_node.py:353 (see PutValue above).
- `ChordPopulate.Normalize`: only ASCII digits count as decimal. `int(float(cell))` is exact in the model, whereas Python rounds numerals longer than 15 or so digits.
- `csv.DictReader`'s `restkey`/`restval` handling of ragged rows: a row is the dict of its columns.
- `time.sleep` and every `print`.
- Concurrency: the network is changed by one call at a time.
- `lab1`, `lab2` and `lab4/chord_query.py` are not part of this model.

## Findings

| source | as written | input that shows it | evidently intended | confidence | as-written member | corrected member |
|---|---|---|---|---|---|---|
| lab4/chord_node.py:237-258 | `init_finger_table` calls `get_predecessor` and `set_predecessor` on the successor and `find_sucessor` on the buddy, and `dispatch_rpc` serves none of them | any node started with a buddy port | read the successor's predecessor and set it to this node (dispatch_rpc has no RPC for either), and call `find_successor` at line 258 | not executed | `ChordNodes.ChordNode.InitFingerTable` | `ChordNodes.ChordNode.InitFingerTableFixed` |
| lab3/fxp_bytes_subscriber.py:135 | the second currency is read with `.deco(ENCODING)`, an attribute bytes does not have | a 32-byte record whose time is below 2932897 * 10^6 and whose first code is ASCII (lemma `FxpBytes.DecoRejectsQuotes`) | `.decode(ENCODING)` | not executed | `FxpBytes.UnmarshalAsWritten` | `FxpBytes.UnmarshalMessage` |
| lab3/fxp_bytes_subscriber.py:104 | `timedelta(seconds)` passes the seconds as days | a time of 10^6 microseconds (one second) reads as one day later; a 2020 time of 1.6 * 10^15 microseconds raises OverflowError (lemma `FxpBytes.OneSecondIsOneDay`) | `timedelta(seconds=seconds)` | not executed | `FxpBytes.DeserializeUtcDatetime` | `FxpBytes.DeserializeUtcDatetimeFixed` |
