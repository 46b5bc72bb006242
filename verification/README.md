# Verified models of the BitTorrent engine

This project models the stateful and algorithmic core of the BitTorrent engine in
`src-tauri/risuko-bt/src` and proves what that core promises. Every operation is written twice. A
function says what one step makes of a state. A class or a method, in the shape of the source with its
fields and loops, is proved to compute that function. The promises are then lemmas about the
functions, for every input, every run or every interleaving.

| modules | models |
|---|---|
| `BencodeText`, `BencodeParser`, `BencodeGrammar`, `BencodeErrors`, `BencodeEncoder`, `BencodeScanner` | the bencoding parser in both modes, what its errors say, the printer, and the raw field scanner |
| `RoutingTable`, `RoutingInvariant`, `RoutingRebuild`, `RoutingTableState`, `RoutingFailures` | the Kademlia routing table: insertion, splitting, displacement, one node per host, rebuilding for a new id, failures and answers |
| `DhtReply`, `DhtQuery`, `DhtAnswers`, `DhtGrants` | granting, refusing and answering a DHT query, and trimming the reply to 1024 bytes |
| `WriteTokens`, `InboundLimiter`, `InboundLimiterState` | announce tokens, and the limits on inbound queries and reply bytes |
| `ReadCache`, `CacheRecency`, `ProcessBytes`, `CacheCoherence`, `CoherentRuns`, `WaitersServed`, `Undisturbed` | the shared read cache, what it evicts, the byte total of the process, agreement with the disk, who is served, and single reads and writes |
| `ExternalAddress`, `ExternalElection`, `ExternalVoters`, `ExternalAddressState` | the election of our external address |
| `MetadataBudget`, `MetadataShareState` | metadata blocks under a shared byte budget |
| `HashPipeline`, `TorrentHasher` | the hashing pipeline of a new torrent |
| `BlockList`, `ConnBudget` | the block list, and the connection budget |
| `Common` | bytes, addresses, bits of an address, and small shared types |

Conventions. Times are natural numbers or reals passed in. Hash functions, "is this address public"
and "does this id derive from this address" are function-valued parameters, so nothing is assumed of
them unless a lemma says so. Random secrets are numbered in the order they are drawn. Ids are 160-bit
sequences and distance is pointwise exclusive-or. The body of a locked section is one step; where the
source shares an atomic counter without a lock (`ConnBudget`, `ProcessBytes`), every atomic operation
is a step of its own. Where a source function leaves a choice open (which worker finishes next, which
of several equals an unstable selection takes), so does the model.

Four things the proofs show that a reader might not expect. The block of the inbound limiter resets its
bucket, so a source that keeps asking while blocked can be granted more after the block than a token
bucket left to itself would grant. That is so exactly when such a bucket is not full by then, and a
pause of two seconds before the first query after the block rules it out. Growing a lease with `sync`
adds to the connection counter without looking. The counter stays within its limit, and the metadata
reserve free, exactly in the runs whose every `sync` would have passed such a look. A reply to a DHT
query loses only peers: refusals and replies without peers are never trimmed, and no reply loses a
node. A write token is good for more than five and at most ten minutes, and beyond that only by a
collision of the hash.

`dafny verify dfyconfig.toml` checks the project.

## Model

| member | source | states |
|---|---|---|
| BencodeText.AcceptIntExact | src-tauri/risuko-bt/src/bencode.rs:225-274 | an integer text is accepted with value n exactly when it is how the printer writes n and n fits 64 bits: no plus sign, no negative zero, no leading zero |
| BencodeText.AcceptLengthExact | src-tauri/risuko-bt/src/bencode.rs:276-297 | a length text is accepted with value n exactly when it is the printed form of n within 64 unsigned bits |
| BencodeGrammar.RefusesExactly | src-tauri/risuko-bt/src/bencode.rs:324-357 | the lazy test (last key while keys ascend, a set once they do not) refuses a key exactly when the dictionary so far has it: no duplicate is missed, no merely unsorted key refused |
| BencodeGrammar.ParseSound | src-tauri/risuko-bt/src/bencode.rs:203-357 | from any position, depth and value count: the bytes a successful parse consumes are the order-preserving rendering of the value, which is within the limits |
| BencodeGrammar.ParseComplete | src-tauri/risuko-bt/src/bencode.rs:203-357 | the converse: wherever the rendering of an admissible value stands, parsing returns that value and stops at its end |
| BencodeGrammar.DecodeExactly | src-tauri/risuko-bt/src/bencode.rs:101-142 | in either mode, decoding gives v exactly when the input starts with the rendering of v and v is within the mode's depth, value, key and number limits |
| BencodeGrammar.DecodeAllExactly | src-tauri/risuko-bt/src/bencode.rs:106-134 | decoding a whole input gives v exactly when the input is the rendering of v, in external mode followed by ASCII whitespace at most; anything else after it is the trailing-bytes error |
| BencodeGrammar.Unambiguous | src-tauri/risuko-bt/src/bencode.rs:203-357 | no rendering is a proper prefix of another, and no two values share one |
| BencodeGrammar.DecodeInjective | src-tauri/risuko-bt/src/bencode.rs:101-142 | whole inputs, in any two modes, decode to the same value exactly when they are the same bytes |
| BencodeGrammar.StrictExactly | src-tauri/risuko-bt/src/bencode.rs:324-357 | strict decoding accepts exactly the inputs of the relaxed, limitless grammar whose dictionaries have pairwise distinct keys and whose depth is at most 256 |
| BencodeErrors.DecodeExplains | src-tauri/risuko-bt/src/bencode.rs:180-357 | every decoding error is true of the input at the place it names: the input ends there, no value starts there, what stands there is no printed integer or length, or too long a length, or no key, or the limit named is the one passed |
| BencodeParser.Parser.Note | src-tauri/risuko-bt/src/bencode.rs:180-201 | counts a value, and refuses one too deep or, in external mode, one too many |
| BencodeParser.Parser.Value | src-tauri/risuko-bt/src/bencode.rs:203-223 | the recursive-descent parser in place: outcome, position and value count are those of the specification, errors with their positions included |
| BencodeParser.Parser.Integer | src-tauri/risuko-bt/src/bencode.rs:225-274 | the integer parser in place, for every input and error |
| BencodeParser.Parser.String | src-tauri/risuko-bt/src/bencode.rs:276-311 | the string parser in place: missing colon, bad, over-long and overrunning lengths |
| BencodeParser.Parser.Items | src-tauri/risuko-bt/src/bencode.rs:313-322 | the list loop in place |
| BencodeParser.Parser.Entries | src-tauri/risuko-bt/src/bencode.rs:324-357 | the dictionary loop in place, with the switch from last-key comparison to a set |
| BencodeEncoder.EncodeToWriter | src-tauri/risuko-bt/src/bencode.rs:431-464 | the printer appends the rendering of the key-sorted value, and fails exactly when some dictionary repeats a key |
| BencodeEncoder.EncodeEntries | src-tauri/risuko-bt/src/bencode.rs:446-464 | the dictionary case: an ordered map filled entry by entry, failing exactly on a repeated key |
| BencodeEncoder.CanonKeeps | src-tauri/risuko-bt/src/bencode.rs:446-464 | sorting keeps distinctness, depth, value count and text length, and leaves every dictionary ascending |
| BencodeEncoder.EncodeThenDecode | src-tauri/risuko-bt/src/bencode.rs:431-464 | for a value with distinct keys and depth within 256, strict decoding of what the printer writes gives the value with sorted dictionaries and consumes all of it |
| BencodeEncoder.DecodeThenEncode | src-tauri/risuko-bt/src/bencode.rs:203-464 | printing what strict decoding returned has the length consumed, and reproduces the bytes exactly when they were sorted |
| BencodeScanner.SkipComplete | src-tauri/risuko-bt/src/bencode.rs:361-395 | the allocation-free scan steps over the rendering of any value to its exact end |
| BencodeScanner.SkipValue | src-tauri/risuko-bt/src/bencode.rs:361-380 | the recursive skip in place |
| BencodeScanner.TopLevelFieldSpan | src-tauri/risuko-bt/src/bencode.rs:360-395 | the top-level field scan in place |
| BencodeScanner.ScanAgrees | src-tauri/risuko-bt/src/bencode.rs:360-395 | on input that decodes to a dictionary in either mode, the scan finds a key exactly when the decoded value has it, and its span is the rendering of the first matching value |
| RoutingTable.ExactlyOneBucket | src-tauri/risuko-bt/src/dht.rs:2245-2249 | bucket prefixes are 0^k and 0^j 1 for j < k, so every distance matches exactly one bucket, the one the look-up returns |
| RoutingTable.SplitShaped | src-tauri/risuko-bt/src/dht.rs:2251-2266 | only the first bucket, the one with our own id, can split, and splitting keeps the shape |
| RoutingTable.Victim | src-tauri/risuko-bt/src/dht.rs:2332-2365 | whom a newcomer displaces from a full bucket: a Bad node if any, else the longest silent questionable node it outranks, never a Good one |
| RoutingInvariant.InsertKeeps | src-tauri/risuko-bt/src/dht.rs:2312-2368 | insertion keeps the invariant, costs at most one node and never a Good one, and lands the newcomer unless it is us or its bucket holds eight nodes it may not displace |
| RoutingInvariant.SettleKeeps | src-tauri/risuko-bt/src/dht.rs:2370-2395 | clearing the newcomer's host and inserting keeps the invariant and every Good node but one at its own endpoint |
| RoutingInvariant.AddKeeps | src-tauri/risuko-bt/src/dht.rs:2272-2310 | adding keeps buckets, sizes, placement and one node per id and host; a Good node is lost only to a Good add of the same endpoint under another id, or renewed in place |
| RoutingInvariant.NewContactLands | src-tauri/risuko-bt/src/dht.rs:2272-2310 | a new contact is in the table afterwards unless it is us, its host is held under another id by a node that is not Bad (and, if the contact answered, Good and at another endpoint), or its bucket holds eight nodes it may not displace |
| RoutingInvariant.AddLands | src-tauri/risuko-bt/src/dht.rs:2272-2310 | a contact that answered is in the table afterwards, Good, at its address, seen now and without failures, or the table shows which of four reasons kept it out |
| RoutingRebuild.SortRanked | src-tauri/risuko-bt/src/dht.rs:2206-2225 | survivors are inserted Good first, then verified, then most recent |
| RoutingRebuild.SortStable | src-tauri/risuko-bt/src/dht.rs:2206-2225 | nodes of equal rank keep their order, as in the stable sort the code uses |
| RoutingRebuild.RebuildMeets | src-tauri/risuko-bt/src/dht.rs:2206-2225 | the rebuilt table equals its specification: each bucket holds exactly the first eight of the nodes that belong to it in rank order, and the depth is the least possible |
| RoutingRebuild.LastDisplacesNone | src-tauri/risuko-bt/src/dht.rs:2332-2365 | inserted in rank order, no later node displaces an earlier one |
| RoutingRebuild.RebuildLoses | src-tauri/risuko-bt/src/dht.rs:2206-2225 | a live node is lost only if it equals the new id or its bucket holds eight nodes that rank no later; a Good one only to eight Good ones |
| RoutingTableState.Routing.SplitBucket | src-tauri/risuko-bt/src/dht.rs:2251-2266 | the split loop in place |
| RoutingTableState.Routing.Insert | src-tauri/risuko-bt/src/dht.rs:2312-2368 | the insertion loop in place; it ends because the remaining split depth falls |
| RoutingTableState.Routing.MakeRoomForHost | src-tauri/risuko-bt/src/dht.rs:2370-2395 | the scan for nodes of the same host in place: refuses without change if one must stay, else removes the last conflicting node |
| RoutingTableState.Routing.AddWithLiveness | src-tauri/risuko-bt/src/dht.rs:2272-2310 | adding in place, for every case of a known id |
| RoutingTableState.Routing.SetNodeId | src-tauri/risuko-bt/src/dht.rs:2206-2225 | the rebuild in place |
| RoutingTableState.Routing.RecordFailure | src-tauri/risuko-bt/src/dht.rs:2424-2439 | a live node at the address, if there is one, is charged and nothing else changes: its failures grow by one up to 255, the first leaves it Questionable and the second makes it Bad, and its id, address, time and verification stay |
| RoutingFailures.TwoFailuresMakeBad | src-tauri/risuko-bt/src/dht.rs:2424-2439 | in every run of adds, failures, silences and id changes, two unanswered queries to a node held throughout, with no answer from it in between, make it Bad |
| RoutingFailures.OneFailureSpares | src-tauri/risuko-bt/src/dht.rs:2424-2439 | in every run, one unanswered query to a node whose record is clear leaves it Questionable |
| RoutingFailures.AnswerClears | src-tauri/risuko-bt/src/dht.rs:2285-2297 | an answer from a known node's own host makes it Good, seen now, at the address it answered from and without failures, and changes no other node |
| RoutingFailures.HearsayIgnored | src-tauri/risuko-bt/src/dht.rs:2282-2284 | hearsay about a node already held changes nothing |
| RoutingFailures.AddTouchesOne | src-tauri/risuko-bt/src/dht.rs:2272-2310 | adding a contact leaves every other node as it is, or out |
| Common.SameHostExactly | src-tauri/risuko-bt/src/net.rs:19-28 | two addresses share a host exactly if they are the same IPv4 address, or IPv6 addresses whose first 64 bits agree |
| RoutingTableState.Routing.RefreshStale | src-tauri/risuko-bt/src/dht.rs:2441-2463 | the first `limit` silent nodes in bucket order are downgraded one step; the list returned is those nodes, and exactly the nodes that changed |
| RoutingTableState.RunKeeps | src-tauri/risuko-bt/src/dht.rs:2128-2463 | every table reached by any sequence of adds, failures, refreshes and id changes keeps the invariant |
| RoutingTableState.HearsayHarmless | src-tauri/risuko-bt/src/dht.rs:2272-2395 | no sequence of hearsay adds changes, moves out or removes a Good node |
| DhtReply.CappedDistinct | src-tauri/risuko-bt/src/dht.rs:2846-2869 | the first cut repeats no key |
| DhtReply.TrimDistinct | src-tauri/risuko-bt/src/dht.rs:2880-2909 | no round of trimming repeats a key, so the encoder never fails |
| DhtReply.TrimShrinks | src-tauri/risuko-bt/src/dht.rs:2880-2909 | every round of trimming lowers the number of entries and of bytes in them: the loop ends |
| DhtQuery.BoundedResponseBytes | src-tauri/risuko-bt/src/dht.rs:2846-2915 | the encode-and-trim loop in place |
| DhtQuery.TrimIsCut | src-tauri/risuko-bt/src/dht.rs:2880-2909 | a round on the entry list is one halving of the first long field present |
| DhtQuery.RepliesFit | src-tauri/risuko-bt/src/dht.rs:2846-2915 | however large the fields, the reply sent is the first of the successive cuts that encodes within 1024 bytes; `values`, `nodes` and `nodes6` are whole-entry beginnings, halved one at a time in order, and all else is unchanged |
| DhtQuery.OnlyPeersCut | src-tauri/risuko-bt/src/dht.rs:2880-2909 | with at most eight contacts of each family, trimming never reaches the node lists: only peers are cut, and a reply without peers not at all |
| DhtAnswers.CompactEntries | src-tauri/risuko-bt/src/dht.rs:2794-2806 | a compact node list has 26 or 38 bytes per contact, id then address, each at its own place, and nothing of the other family |
| DhtAnswers.SentAsDrafted | src-tauri/risuko-bt/src/dht.rs:2917-3058 | replies to `ping`, `find_node` and `announce_peer` are sent as drafted, in full |
| DhtAnswers.AnswersReadBack | src-tauri/risuko-bt/src/dht.rs:2917-3058 | every granted answer decodes in full at the asker, echoes its transaction id and shows the answer with every node entry; of the peers it shows a beginning, halved no oftener than 1024 bytes demand |
| DhtAnswers.ErrorShort | src-tauri/risuko-bt/src/dht.rs:2824-2843 | every refusal fits and repeats no key |
| DhtAnswers.Respond | src-tauri/risuko-bt/src/dht.rs:2917-3058 | a message gets a reply exactly when its transaction id is a string of 1 to 32 bytes, and the reply is at most 1024 bytes |
| DhtGrants.GrantedExactly | src-tauri/risuko-bt/src/dht.rs:2922-3055 | a query is granted exactly if it names a method, has arguments with a 20-byte id, and: for `find_node` a 20-byte target, for `get_peers` a 20-byte hash, for `announce_peer` a 20-byte hash, a token the server accepts and an implied or given port from 1 to 65535 |
| DhtGrants.GrantHolds | src-tauri/risuko-bt/src/dht.rs:2938-3016 | what a grant holds: our id; for `find_node` and `get_peers` the closest contacts of the families wanted, by default the asker's own; for `get_peers` also a token and the first hundred peers; otherwise nothing |
| DhtGrants.RefusedExactly | src-tauri/risuko-bt/src/dht.rs:2925-3055 | which of nine complaints a refused query gets: the first thing wrong with it |
| DhtGrants.RefusalReadsBack | src-tauri/risuko-bt/src/dht.rs:2821-2843 | a refusal decodes at the asker as an error 203, or 204 for an unknown method, with its words and the transaction id |
| DhtGrants.RefusalShows | src-tauri/risuko-bt/src/dht.rs:2824-2843 | a refusal names our version, and shows the asker its address exactly once the id of the asker was read |
| WriteTokens.TokenLifetime | src-tauri/risuko-bt/src/dht.rs:123-160 | whatever calls come between, a token issued at t in the period that began at r is accepted exactly from its own address before r plus ten minutes, or where the hash collides under one of the two secrets then in use; nothing is assumed of the hash |
| WriteTokens.TokenExpires | src-tauri/risuko-bt/src/dht.rs:134-148 | from r plus ten minutes on, neither secret in use is the one the token was made with |
| WriteTokens.FateAfter | src-tauri/risuko-bt/src/dht.rs:134-148 | after any calls, a secret is current, then previous, then gone, by the clock alone |
| WriteTokens.TokenState.RotateIfNeeded | src-tauri/risuko-bt/src/dht.rs:134-148 | rotation in place |
| WriteTokens.TokenState.TokenFor | src-tauri/risuko-bt/src/dht.rs:150-153 | issuing in place |
| WriteTokens.TokenState.IsValid | src-tauri/risuko-bt/src/dht.rs:155-159 | checking in place, against both secrets |
| InboundLimiter.QueryConforms | src-tauri/risuko-bt/src/dht.rs:3216-3242 | a query is granted exactly when the plain bucket of rate 5 and burst 10, charged for granted queries, would grant it and the source is not blocked; one refused otherwise blocks the source for 300 seconds, and the reset after a block adds nothing |
| InboundLimiter.OthersUntouched | src-tauri/risuko-bt/src/dht.rs:3216-3265 | a query touches no other source's bucket, and none is forgotten but to make room for a new source among 4096 |
| InboundLimiter.FullCoversExactly | src-tauri/risuko-bt/src/dht.rs:3229-3238 | after a block the limiter grants, until it next refuses and at whatever times, only what a bucket left to answer for itself grants, exactly if that bucket is full at the end of the block |
| InboundLimiter.PausersCovered | src-tauri/risuko-bt/src/dht.rs:3216-3242 | a source that pauses two seconds before it asks again after a block is, over a whole run of queries and blocks, granted nothing that a bucket left to itself refuses |
| InboundLimiter.ChargingBlockedQueriesDiffers | src-tauri/risuko-bt/src/dht.rs:3229-3232 | ten queries just before a block ends make the two differ |
| InboundLimiter.ForgettingIsFree | src-tauri/risuko-bt/src/dht.rs:3244-3252 | forgetting a source neither blocked nor heard from for ten seconds loses nothing: its plain bucket is full |
| InboundLimiter.RunConforms | src-tauri/risuko-bt/src/dht.rs:3207-3265 | in every run at most 4096 sources are tracked, and the bucket of a source never forcibly forgotten matches its plain bucket |
| InboundLimiter.GrantsBounded | src-tauri/risuko-bt/src/dht.rs:3216-3242 | over any stretch of calls a source is granted at most ten queries and five more per second |
| InboundLimiter.BlockedGoLast | src-tauri/risuko-bt/src/dht.rs:3253-3265 | when room must be made by force, a blocked source goes only if no other is left |
| InboundLimiter.ReplyBytesBounded | src-tauri/risuko-bt/src/dht.rs:3267-3277 | over any stretch of time at most 32 KiB times one plus its seconds are sent |
| InboundLimiter.ReplyGrantedExactly | src-tauri/risuko-bt/src/dht.rs:3267-3277 | a reply is sent exactly if, with it, no stretch of the replies sent exceeds 32768 bytes and 32768 more per second |
| InboundLimiter.QuietSecondGranted | src-tauri/risuko-bt/src/dht.rs:3267-3277 | a reply of at most 32768 bytes is sent whenever nothing was sent in the second before |
| InboundLimiterState.QueryLimiter.Admit | src-tauri/risuko-bt/src/dht.rs:3216-3242 | `allow` in place |
| InboundLimiterState.QueryLimiter.MakeRoom | src-tauri/risuko-bt/src/dht.rs:3244-3265 | making room in place: idle sources, then 512 that come first |
| InboundLimiterState.QueryLimiter.TakeReplyBudget | src-tauri/risuko-bt/src/dht.rs:3267-3277 | the reply budget in place |
| ReadCache.CompleteStep | src-tauri/risuko-bt/src/read_cache.rs:304-359 | a finished load changes bytes and total alike, never carries the total past the cap, and adds nothing but its own data while registered |
| ReadCache.LoadIsCached | src-tauri/risuko-bt/src/read_cache.rs:304-359 | a load still registered with nothing invalidated since is cached whenever other caches leave room, and the next read of it hits |
| ReadCache.OneFlight | src-tauri/risuko-bt/src/read_cache.rs:250-284 | in any state with a registered load of an extent that is not cached, a read of it waits for that load; a read leads exactly when there is neither |
| ReadCache.EvictsOldest | src-tauri/risuko-bt/src/read_cache.rs:327-341 | whatever is evicted was used less recently than whatever stays |
| CacheRecency.HitRenews | src-tauri/risuko-bt/src/read_cache.rs:257-267 | a hit makes its extent the one used last, notes the time, and changes no other extent; any other read changes none |
| CacheRecency.EvictsLeastRecent | src-tauri/risuko-bt/src/read_cache.rs:304-345 | in every run, whatever a stored load drives out was last read or stored before everything it leaves |
| CacheRecency.TrimTakesIdle | src-tauri/risuko-bt/src/read_cache.rs:207-229 | in every run, trimming takes exactly the extents last read or stored thirty or more seconds ago |
| ReadCache.EvictMakesRoom | src-tauri/risuko-bt/src/read_cache.rs:320-345 | nothing is evicted for an entry that fits, and evicting is enough whenever other caches leave room |
| ReadCache.InvalidatesExactly | src-tauri/risuko-bt/src/read_cache.rs:177-205 | invalidation removes exactly the overlapping entries and loads, and moves the generation exactly when it removed something |
| ReadCache.ForgetsExactly | src-tauri/risuko-bt/src/read_cache.rs:163-175 | full invalidation leaves no entry and no load, and moves the generation exactly when there was something |
| ReadCache.OverlapsExactly | src-tauri/risuko-bt/src/read_cache.rs:183-195 | an extent overlaps a range exactly if they share a byte |
| ReadCache.DropKeeps | src-tauri/risuko-bt/src/read_cache.rs:183-200 | removing entries keeps bytes the sum of entry lengths and the recency map one-to-one |
| ReadCache.ProcessKeeps | src-tauri/risuko-bt/src/read_cache.rs:20-28 | whatever operation one cache does, every cache stays accounted and the total stays the sum over all caches and within the cap |
| ReadCache.AlwaysAccounted | src-tauri/risuko-bt/src/read_cache.rs:163-359 | over every run of operations on any number of caches, the total is the sum over all caches and within the cap |
| ReadCache.Cache.Begin | src-tauri/risuko-bt/src/read_cache.rs:250-284 | the first locked section of a read in place |
| ReadCache.Cache.Complete | src-tauri/risuko-bt/src/read_cache.rs:304-359 | the second locked section in place |
| ReadCache.Cache.EvictFor | src-tauri/risuko-bt/src/read_cache.rs:327-341 | the eviction loop in place |
| ReadCache.Cache.DropGuard | src-tauri/risuko-bt/src/read_cache.rs:88-106 | the leader guard in place: a load still registered is withdrawn |
| ReadCache.Cache.InvalidateRange | src-tauri/risuko-bt/src/read_cache.rs:177-205 | range invalidation in place |
| ReadCache.Cache.InvalidateAll | src-tauri/risuko-bt/src/read_cache.rs:163-175 | full invalidation in place |
| ReadCache.Cache.TrimIdle | src-tauri/risuko-bt/src/read_cache.rs:207-229 | idle trimming in place: exactly the entries unused for thirty seconds |
| ReadCache.AdmitsExactly | src-tauri/risuko-bt/src/read_cache.rs:130-146 | a read is admitted exactly when the extent could ever be cached and the read is not futile: it hits, shares a load, or leads one that an undisturbed completion keeps |
| ProcessBytes.AlwaysWithinCap | src-tauri/risuko-bt/src/read_cache.rs:20-28 | in every interleaving of the atomic operations of any number of caches, the bytes cached stay within the cap together, and the total is exactly those bytes whenever no reservation is under way |
| ProcessBytes.ReservesExactly | src-tauri/risuko-bt/src/read_cache.rs:20-27 | a reservation nothing comes between succeeds exactly if it fits, and otherwise leaves no trace |
| CacheCoherence.StepKeeps | src-tauri/risuko-bt/src/storage.rs:272-312 | every step of reads, loads, writes and invalidations keeps coherence, accounting and disk order |
| CoherentRuns.AlwaysCoherent | src-tauri/risuko-bt/src/read_cache.rs:177-364 | in every interleaving, each cached extent and each load still registered equals the disk at every byte no unfinished write covers |
| CoherentRuns.OneLeader | src-tauri/risuko-bt/src/read_cache.rs:250-284 | in every interleaving at most one reader leads the registered load of an extent |
| WaitersServed.AllServed | src-tauri/risuko-bt/src/read_cache.rs:269-325 | in every interleaving, every reader waiting for a load that is still registered when it finishes is served with the bytes its leader read |
| CoherentRuns.ReadAfterWrite | src-tauri/risuko-bt/src/storage.rs:272-312 | a read begun after a write returned never yields older bytes, whether it hits, waits or loads |
| Undisturbed.MissReads | src-tauri/risuko-bt/src/read_cache.rs:236-325 | a read of what is neither cached nor being loaded can always be carried through, and yields the bytes of the disk |
| Undisturbed.HitReads | src-tauri/risuko-bt/src/read_cache.rs:255-263 | a hit is served at once with what the disk holds wherever no write is under way |
| Undisturbed.WriteThenRead | src-tauri/risuko-bt/src/storage.rs:272-312 | what a write left is what the next read of any extent touching it yields, whatever was cached before, and the rest of the extent is as it was |
| ExternalAddress.Weakest | src-tauri/risuko-bt/src/external_ip.rs:189-202 | the victim considered is the first of the weakest: unprotected, fewest votes, longest untouched |
| ExternalAddress.Best | src-tauri/risuko-bt/src/external_ip.rs:246-264 | the challenger is the first of the strongest addresses with quorum |
| ExternalElection.CastKeeps | src-tauri/risuko-bt/src/external_ip.rs:145-187 | a vote keeps at most 32 candidates of at most 64 networks, none empty, one candidate per network; the address then has the vote unless all 32 places are held by candidates that are protected or have two votes |
| ExternalVoters.NetworksExactly | src-tauri/risuko-bt/src/external_ip.rs:48-65 | a voter has a network exactly if it is known by name or public; two share one exactly if both are known by name, or their IPv4 addresses, IPv4-mapped ones included, agree in the first 24 bits, or their IPv6 addresses in the first 48 |
| ExternalVoters.StrengthExactly | src-tauri/risuko-bt/src/external_ip.rs:121-139 | an address is as strong as the networks that vote for it are many, and at least three strong while a gateway stands by it |
| ExternalVoters.CastLeaves | src-tauri/risuko-bt/src/external_ip.rs:145-187 | a vote takes nothing else from anyone: every other vote stays, but for the oldest of 64 for the address itself and those of one unprotected candidate that makes room among 32 |
| ExternalVoters.CastTouches | src-tauri/risuko-bt/src/external_ip.rs:145-187 | a vote, new or not, makes its address the one touched last and leaves the times of the others alone |
| ExternalElection.WithdrawExactly | src-tauri/risuko-bt/src/external_ip.rs:155-161 | a vote takes its network from every other candidate and nothing else from anyone |
| ExternalElection.EvictionSpares | src-tauri/risuko-bt/src/external_ip.rs:189-212 | a newcomer displaces at most one candidate, with at most one vote, never the elected or a gateway-backed one |
| ExternalElection.GatewaySays | src-tauri/risuko-bt/src/external_ip.rs:214-244 | a renewal of the same address changes neither office nor tallies; a changed address drops the candidate of the old one and no other; a new or changed address takes office unless the incumbent is strictly stronger |
| ExternalVoters.GatewaysKept | src-tauri/risuko-bt/src/external_ip.rs:214-230 | a gateway's word is noted with its time, and the other gateways stay, but for the oldest of eight when a ninth reports |
| ExternalVoters.BackingExpires | src-tauri/risuko-bt/src/external_ip.rs:281-288 | halving ends a gateway's backing after three hours without its word, and changes nothing else about gateways |
| ExternalElection.ReportKeeps | src-tauri/risuko-bt/src/external_ip.rs:214-244 | a gateway report keeps the bounds and adds no votes |
| ExternalElection.HalveExactly | src-tauri/risuko-bt/src/external_ip.rs:271-288 | halving leaves exactly the newer half of each candidate's votes, and no candidate without one |
| ExternalElection.HalveKeeps | src-tauri/risuko-bt/src/external_ip.rs:271-288 | halving keeps the bounds, the elected and who reported |
| ExternalElection.ReelectBest | src-tauri/risuko-bt/src/external_ip.rs:246-269 | re-election leaves a strongest address in office once any reaches quorum, keeps an incumbent nobody strictly beats, and never empties the office |
| ExternalElection.StrongEarned | src-tauri/risuko-bt/src/external_ip.rs:128-139 | whoever reaches quorum was reported by a gateway or voted for by three networks |
| ExternalElection.VoteKeeps | src-tauri/risuko-bt/src/external_ip.rs:385-419 | one report: bounds and earnedness are kept; if it re-elects, the observed family's office is maximal; without a gateway's word the incumbent yields only to a strictly stronger address; no office is emptied |
| ExternalElection.ElectionSafe | src-tauri/risuko-bt/src/external_ip.rs:385-419 | over every run, an address no gateway reported and fewer than three networks voted for is never in office |
| ExternalVoters.TwoNetworksNeverElect | src-tauri/risuko-bt/src/external_ip.rs:385-419 | over every run, an address no gateway reports and only voters of two networks vote for is never in office |
| ExternalVoters.ThirdNetworkElects | src-tauri/risuko-bt/src/external_ip.rs:385-419 | from a fresh start, an address that alone is voted for is elected by its third network, within the hour, and not before |
| ExternalVoters.UncountedChangesNothing | src-tauri/risuko-bt/src/external_ip.rs:385-398 | a report counts exactly if it is about a public address and from a gateway, or direct and from a voter that may vote; any other changes nothing |
| ExternalVoters.ReelectsExactly | src-tauri/risuko-bt/src/external_ip.rs:399-412 | every report that counts ends in a re-election, unless it repeats, within the hour, a vote its address already has |
| ExternalVoters.AgesHourly | src-tauri/risuko-bt/src/external_ip.rs:305-318 | ageing halves both families once per full hour since the last time, at most eight times, and after eight starts the clock over |
| ExternalAddressState.FamilyCell.CastVote | src-tauri/risuko-bt/src/external_ip.rs:145-187 | casting in place |
| ExternalAddressState.FamilyCell.Evict | src-tauri/risuko-bt/src/external_ip.rs:189-212 | eviction in place |
| ExternalAddressState.FamilyCell.Report | src-tauri/risuko-bt/src/external_ip.rs:214-244 | gateway reports in place |
| ExternalAddressState.FamilyCell.Elect | src-tauri/risuko-bt/src/external_ip.rs:246-269 | re-election in place |
| ExternalAddressState.FamilyCell.HalveVotes | src-tauri/risuko-bt/src/external_ip.rs:271-288 | halving in place |
| ExternalAddressState.ExternalIp.AgeBy | src-tauri/risuko-bt/src/external_ip.rs:305-318 | the ageing loop in place, at most eight halvings |
| ExternalAddressState.ExternalIp.VoteAt | src-tauri/risuko-bt/src/external_ip.rs:385-419 | a whole report in place; what is published is always who is in office |
| MetadataBudget.HeaviestOther | src-tauri/risuko-bt/src/magnet.rs:789-799 | the victim is a heaviest assembly that may be emptied, other than the requester |
| MetadataBudget.HeaviestIsLast | src-tauri/risuko-bt/src/magnet.rs:789-799 | of several equally heavy assemblies the one made last is the victim |
| MetadataBudget.HeldMeansComplete | src-tauri/risuko-bt/src/magnet.rs:698-705 | with full-length blocks an assembly holds its size exactly when complete, so it may be emptied exactly when incomplete and not empty |
| MetadataBudget.StoreOutcome | src-tauri/risuko-bt/src/magnet.rs:801-808 | a store puts the block, or changes nothing, in its own assembly; every other is kept as it was or emptied |
| MetadataBudget.StoreKeeps | src-tauri/risuko-bt/src/magnet.rs:801-808 | used bytes stay equal to the stored bytes and within the limit; a complete assembly is never emptied |
| MetadataBudget.StoreFailsExactly | src-tauri/risuko-bt/src/magnet.rs:801-808 | a store fails exactly when its block is wanted and would not fit with every other incomplete assembly emptied |
| MetadataBudget.DeliverExactly | src-tauri/risuko-bt/src/magnet.rs:944-957 | a block of its piece's length for a missing piece is in its place afterwards, unless it would not fit beside the bytes that may not be emptied, and the fetch is told exactly then; any other block changes nothing |
| MetadataBudget.EvictsOnlyAsNeeded | src-tauri/risuko-bt/src/magnet.rs:789-808 | nothing is emptied for a block that fits; otherwise the heaviest first, and none that could have been spared |
| MetadataBudget.StepKeeps | src-tauri/risuko-bt/src/magnet.rs:768-808 | attaching, refetching, receiving, resetting and dropping keep the balance, and touch a complete assembly only if its own fetch did |
| MetadataBudget.AlwaysBalanced | src-tauri/risuko-bt/src/magnet.rs:553-585 | over every run, used bytes are the stored bytes of the live assemblies and within the limit |
| MetadataBudget.AttachExactly | src-tauri/risuko-bt/src/magnet.rs:768-787 | a fetch of the shared assembly's size works on it; any other gets a new and empty one, which is shared from then on if none was |
| MetadataBudget.SameSizeShares | src-tauri/risuko-bt/src/magnet.rs:776-787 | in every run, fetches of the size the first one had all work on one assembly |
| MetadataBudget.AssembledWhole | src-tauri/risuko-bt/src/magnet.rs:682-689 | metadata comes out exactly when complete, has the declared size, and every block stands at its own offset |
| MetadataShareState.MetadataShare.StoreBlock | src-tauri/risuko-bt/src/magnet.rs:801-808 | the eviction loop in place; it ends because every round empties an assembly that held something |
| MetadataShareState.MetadataShare.StorePiece | src-tauri/risuko-bt/src/magnet.rs:665-680 | storing a piece in place |
| MetadataShareState.MetadataShare.FindHeaviest | src-tauri/risuko-bt/src/magnet.rs:789-799 | the search for a victim in place |
| MetadataShareState.MetadataShare.ResetAssembly | src-tauri/risuko-bt/src/magnet.rs:691-696 | emptying in place |
| MetadataShareState.MetadataShare.AddAssembly | src-tauri/risuko-bt/src/magnet.rs:768-774 | a private assembly in place, with the list of live ones pruned |
| MetadataShareState.MetadataShare.AttachTo | src-tauri/risuko-bt/src/magnet.rs:776-787 | attaching in place: the assembly has the asked size |
| MetadataShareState.MetadataShare.Receive | src-tauri/risuko-bt/src/magnet.rs:944-957 | a block off the wire in place: its piece holds it afterwards exactly if it has the piece's length, the piece was missing and the bytes that may not be emptied leave room; `ok` is false exactly if they do not |
| MetadataShareState.MetadataShare.Forget | src-tauri/risuko-bt/src/magnet.rs:1046-1050 | the end of an assembly in place: its reservation goes back |
| MetadataShareState.MetadataShare.Metadata | src-tauri/risuko-bt/src/magnet.rs:682-689 | assembling in place |
| MetadataShareState.ByteBudget.Reserve | src-tauri/risuko-bt/src/magnet.rs:566-575 | the budget's reservation in place |
| MetadataShareState.ByteBudget.Release | src-tauri/risuko-bt/src/magnet.rs:577-580 | the budget's release in place |
| HashPipeline.PaddingAfter | src-tauri/risuko-bt/src/create.rs:182-185 | padding brings a file to a whole number of pieces and is less than one piece |
| HashPipeline.CutSnoc | src-tauri/risuko-bt/src/create.rs:260-334 | a piece appended after whole pieces is the next one cut |
| HashPipeline.StartsOnBoundary | src-tauri/risuko-bt/src/create.rs:340-347 | with padding, every file starts on a piece boundary of the declared list |
| HashPipeline.AutoPieceLength | src-tauri/risuko-bt/src/create.rs:113-120 | the least power of two from 16 KiB to 16 MiB that reaches a 1500th of the total |
| TorrentHasher.Hash | src-tauri/risuko-bt/src/create.rs:601-625 | what one worker computes; padding is fed in 16 KiB blocks of zeros |
| TorrentHasher.Pipeline.Submit | src-tauri/risuko-bt/src/create.rs:646-654 | submission in place: the job is next in order, whichever results come back meanwhile |
| TorrentHasher.Pipeline.Collect | src-tauri/risuko-bt/src/create.rs:656-664 | receiving from whichever worker finishes next, in place |
| TorrentHasher.Pipeline.Finish | src-tauri/risuko-bt/src/create.rs:666-671 | one result per job in submission order, for every order of the workers, and all bytes reported as hashed |
| TorrentHasher.Pipeline.Buffer | src-tauri/risuko-bt/src/create.rs:642-644 | recycled buffers come back empty |
| TorrentHasher.Pipeline.constructor | src-tauri/risuko-bt/src/create.rs:244-252 | as many jobs in flight as fit in 64 MiB, but at least one and at most two per thread |
| TorrentHasher.ReadFile | src-tauri/risuko-bt/src/create.rs:260-331 | the read loop of one file in place: pieces across files for version 1, padded pieces for hybrid, the file's own pieces for version 2; a file of another length or time is reported |
| TorrentHasher.CreateOn | src-tauri/risuko-bt/src/create.rs:209-377 | the finished torrent is the plain reading: version 1 pieces cut from the declared list laid end to end, per-file roots over each file's own pieces; a change names the first changed file; the work is given up exactly if the flag is seen among the looks taken, one per read and one at the end |
| TorrentHasher.BuildList | src-tauri/risuko-bt/src/create.rs:340-347 | the version 1 file list in place |
| BlockList.PrefixRange | src-tauri/risuko-bt/src/blocklist.rs:183-207 | an address is within `network ..= network or !mask` exactly when it shares the prefix |
| BlockList.CidrExactly | src-tauri/risuko-bt/src/blocklist.rs:183-207 | a prefix rule covers exactly the addresses of its kind, IPv4-mapped ones included, whose first bits are those of the rule |
| BlockList.MergeCovers | src-tauri/risuko-bt/src/blocklist.rs:140-150 | sorting and merging covers the same addresses and leaves ascending ranges with gaps between them |
| BlockList.LooksUpExactly | src-tauri/risuko-bt/src/blocklist.rs:51-70 | looking up the prepared form finds exactly what scanning the rules one by one finds, IPv4-mapped addresses included |
| BlockList.BanLastsExactly | src-tauri/risuko-bt/src/blocklist.rs:72-85 | a ban that is not renewed stands exactly as long as fewer than 4096 other addresses have been banned after it |
| BlockList.BanLasts | src-tauri/risuko-bt/src/blocklist.rs:72-85 | renewed or not, a ban outlasts any calls that, with the bans already behind it, number fewer than 4096 |
| BlockList.MergeRanges | src-tauri/risuko-bt/src/blocklist.rs:140-150 | the merging loop in place |
| BlockList.PartitionPoint | src-tauri/risuko-bt/src/blocklist.rs:152-155 | binary search for the number of ranges starting at or below a value |
| BlockList.RangeContains | src-tauri/risuko-bt/src/blocklist.rs:152-155 | one look at the last such range decides |
| BlockList.ParseRules | src-tauri/risuko-bt/src/blocklist.rs:114-137 | preparing a list in place |
| BlockList.List.Contains | src-tauri/risuko-bt/src/blocklist.rs:51-70 | blocked exactly when some rule covers the address or its canonical form is banned |
| BlockList.List.Ban | src-tauri/risuko-bt/src/blocklist.rs:72-85 | banning in place: queue and set stay the same at most 4096 addresses, the oldest gives way, the revision wraps |
| BlockList.List.Replace | src-tauri/risuko-bt/src/blocklist.rs:91-103 | replacing the rules in place; bans stay |
| ConnBudget.Reserve | src-tauri/risuko-bt/src/conn_budget.rs:93-98 | the metadata reserve is a quarter of a limit below 32, then 8, and a fiftieth from 400 on |
| ConnBudget.ResolveLimit | src-tauri/risuko-bt/src/conn_budget.rs:48-55 | the limit is never zero and stays within half the open-file limit |
| ConnBudget.StepCounts | src-tauri/risuko-bt/src/conn_budget.rs:138-208 | every load, compare-exchange, wrap, drop and resize keeps the counter exact, without underflow |
| ConnBudget.AlwaysCounted | src-tauri/risuko-bt/src/conn_budget.rs:108-208 | in every interleaving the counter is exactly the live guards and the lease holdings |
| ConnBudget.NeverStuck | src-tauri/risuko-bt/src/conn_budget.rs:108-208 | no task is ever stuck: in every phase of taking, giving up, wrapping or resizing exactly the next step of the code is possible, and a limit set is at least one |
| ConnBudget.LimitKeptExactly | src-tauri/risuko-bt/src/conn_budget.rs:138-202 | with a fixed limit, the counter stays within it throughout a run exactly when every `sync` of the run finds, before it adds, that used plus the growth is within the limit |
| ConnBudget.ReserveKeptExactly | src-tauri/risuko-bt/src/conn_budget.rs:93-202 | with a fixed limit of at least 4, the metadata reserve stays free throughout a run exactly when every `sync` of the run leaves the leases within the torrents' part |
| ConnBudget.ReserveIsReachable | src-tauri/risuko-bt/src/conn_budget.rs:93-159 | with a fixed limit and every `sync` so far within the torrents' part, while fewer guards than the reserve are out a slot is free and an undisturbed attempt gets it |
| ConnBudget.RefusedOnlyWhenTaken | src-tauri/risuko-bt/src/conn_budget.rs:108-159 | with a fixed limit and every `sync` so far within the torrents' part, a metadata fetch is turned away only if, when it looked, the whole reserve was out in guards |
| ConnBudget.SyncMayOvershoot | src-tauri/risuko-bt/src/conn_budget.rs:190-202 | `sync` adds without that look: one that does not fit carries the counter past any limit |
| ConnBudget.Counter.TryAddUpTo | src-tauri/risuko-bt/src/conn_budget.rs:138-157 | the compare-exchange loop in place, with other tasks moving the counter between exchanges and spurious failures: one is added to the value last seen exactly if that is below the cap |
| ConnBudget.Counter.TryAcquire | src-tauri/risuko-bt/src/conn_budget.rs:108-116 | a guard is taken exactly below the limit |
| ConnBudget.Lease.TryReserve | src-tauri/risuko-bt/src/conn_budget.rs:181-188 | reserving for a lease in place, exactly below the torrent cap, with other tasks at work |
| ConnBudget.Lease.SyncTo | src-tauri/risuko-bt/src/conn_budget.rs:190-202 | resizing a lease in place |

## Left out

- BencodeParser.Parser.Integer: the reason strings inside integer and length errors are not modelled, only the kind of error and its position.
- BencodeEncoder.EncodeToWriter: what has been written when the printer fails on a repeated key is left unspecified; the source only reports the failure.
- RoutingTableState.Routing.AddWithLiveness: whether an id derives from its address is an argument; the derivation itself is a library hash and is not part of this model.
- RoutingTableState.Routing.RecordFailure: times are seconds, and the failure counter is modelled with its saturation at 255.
- DhtAnswers.Respond: the effects a query has on the routing table and the peer store are not part of the answer's model; the store's answers are parameters of the size the source gives them.
- InboundLimiter.RunConforms: a source forcibly forgotten while 4096 others are kept starts again with a full bucket, so the match with its plain bucket is stated for sources never forgotten by force.
- ReadCache.Cache.Begin: the test of the `active` flag before the lock is taken together with the locked section, and the load counter is not modelled.
- CoherentRuns.ReadAfterWrite: the disk is a byte sequence written byte by byte in any order; shadow files, promotion, handle caches, sparse files, fsync and a write future cancelled midway are not modelled.
- MetadataShareState.MetadataShare.StoreBlock: one step, although the source releases its locks between choosing and emptying a victim; claim counters are not modelled.
- TorrentHasher.CreateOn: I/O errors other than a changed file, the sharing of piece layers between identical files and the layout of the metainfo dictionary are not modelled; cancellation is a number of looks at the flag.
- BlockList.ParseRules: the text of a line is read by library parsers, so lines arrive as an address, an address with a prefix length, or unreadable.
- ConnBudget.ReserveIsReachable: the two loads of the limit in `torrent_cap` are one snapshot, and the width of the counter is not modelled.
- ExternalElection.VoteKeeps: after ageing, only the observed family re-elects, so nothing is claimed of the other family's office until its own next report.
- Sockets, tasks, timeouts, proxies, name resolution and everything in the network loops.
- Nearest-node selection and refresh targets of the routing table, the announce store, and private torrents: they would add only easy members.
- Merkle trees, checksums and the other engine files (`upnp.rs`, `natpmp.rs`, `lsd.rs`, `tracker.rs`, `webseed.rs`, `session.rs`, `peer_priority.rs`).
