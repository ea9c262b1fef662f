# A verified model of the crawler's stateful core

The crawler discovers Ethereum peers, shakes hands with them, decides whether they are in
step with the chain, stores what it learned, and an API server keeps a replica of that
store. This project models the five parts of that pipeline that carry state or encode
meaning in text, and proves what they promise for every input, every history and every
interleaving.

- **The block-hash service** (`LruCache.dfy`, `BlockHashNum.dfy`, `StateListener.dfy`,
  `SyncedLag.dfy`, `SyncedAnswers.dfy`). One task owns a 100-entry cache and drains two
  independent channels. The service is a labelled step system: sending, answering, applying, receiving; sends and
  receives happen anywhere, and a poll may stop early on either channel. The class
  `BlockHashNum` carries the run it has taken, so that every theorem about runs is a theorem
  about the object.
- **The handshake tasks** (`Handshakes.dfy`, `BanChains.dfy`, `BanBacking.dfy`,
  `ExactCounting.dfy`, `BanCounting.dfy`, `OverlapFree.dfy`, `Outcomes.dfy`,
  `UpdateListener.dfy`). Reading a failure count, finishing the handshake,
  resetting the count, finishing the eth handshake and saving are separate steps of each
  task, and steps of different tasks interleave freely. Results of handshakes, and what is
  observed of a peer when it is saved, are arbitrary.
- **The stores** (`Peers.dfy`, `Rows.dfy`, `Tables.dfy`, `Stores.dfy`, `DynamoCodec.dfy`,
  `Decimal.dfy`). Rows and their codecs, the two upserts, and the queries by their
  documented meaning. Each store carries the history of what was ever added to it, and its
  queries are specified by that history alone.
- **The replica** (`DbSync.dfy`, `Replica.dfy`, `Timestamps.dfy`). Full copy first, then copies of a sliding
  window selected by comparing timestamps as text.
- **Text** (`Text.dfy`, `ClientVersion.dfy`). Splitting, joining and bytewise order; the
  client version splitter.

## How the code is read

- A one-shot channel is named by the position its message has in its own channel.
- The service never ends: it holds copies of its own senders, so its channels never close,
  and its `poll` never returns ready. Requests and updates therefore never fail to be sent.
- A hash is a number below 2^256 of which only equality is used. `U64` numbers are bounded.
- Failure counts are `u64` in the code; they are shown never to exceed five.
- Instants are nanoseconds since 0000-01-01, in years 0000 to 9999, and render as date, time,
  a fraction of 0, 3, 6 or 9 digits, and " UTC". The calendar is the proleptic Gregorian one.
  Text columns are compared bytewise. The crawler and the API server are taken to read one
  clock; any skew between theirs counts as part of the delay from stamp to commit.
- Which scans and insertions of the sync fail, and how often a channel reports that it is ready in
  one poll, are inputs. A failed insertion changes nothing.
- The texts that a node's id, address and record are displayed as are arbitrary.
- Times of the sync are bounds on what happens, not assumptions about scheduling: `gap` bounds
  the time between two samples of `now`, `delay` the time from the stamp to the commit.

## Where the code falls short of its own description

- "Every ban has five failures of its own" is false when handshakes with one peer overlap: two
  tasks can ban for the same four failures (`BanCounting.OverlapSharesFailures`). Every ban has
  one chain of five (`BanBacking.BanChainIsUnique`); no two bans share a failure exactly when no
  count that a failure wrote is read by two tasks whose failures both go into bans
  (`BanBacking.BansOwnFailuresExactly`).
- "Every counted failure is kept" is false for the same reason (`BanCounting.OverlapDropsAFailure`).
  Each failure is part of a ban or of the stored count exactly when no count is overwritten before
  a task that fails has read it (`BanBacking.KeptExactly`).
- Both hold whenever the peer's tasks do not overlap (`OverlapFree.OwnAndKeptWithoutOverlap`).
  They are about which failures stand behind what. What the numbers say on balance, gains against
  losses, is a weaker matter with conditions of its own (`ExactCounting.BackedOnBalanceExactly`,
  `ExactCounting.KeptOnBalanceExactly`, `ExactCounting.ExactlyWhenCurrent`).
- An incremental sync "collects all" only while the gap between samples plus the delay from
  stamp to commit stays strictly below the period plus 60 seconds (`DbSync.BoundIsExact`). At the
  bound a row can be missed, and as long as the syncs' own times do not go back it then stays
  missing after every later sync until its peer is stored again (`DbSync.LostUntilStoredAgain`)
  or the API server restarts, which copies everything (`Replica.RestartRecovers`).
- A stored capability list comes back changed when it is empty or a capability holds a comma
  (`Rows.ReadBackUnchanged`).
- The DynamoDB writer stores the architecture under `client_arch` (db/src/db.rs:104) and the
  reader looks under `client_architecture` (db/src/types.rs:122), so it is lost
  (`DynamoCodec.RoundTripExactly`).
- The PostgreSQL client queries select the client name (db/src/db.rs:915, 934) where the SQLite
  ones return the client version (`Tables.ClientQueriesDiffer`).
- The PostgreSQL queries with a parameter write it `?1` (db/src/db.rs:795, 835, 875, 934), which
  PostgreSQL does not accept; they are modelled by what they are documented to select.
- `split_version` maps different texts to the same fields (`ClientVersion.SplitIsNotInjective`);
  `ClientVersion.DeterminedExactly` says exactly which texts can be told from their fields.

## Model

| member | source | states |
|---|---|---|
| `LruCaches.HoldsExactlyTheRecent` | bins/reth-crawler/src/crawler/block_hash_num.rs:15-22 | After any sequence of puts a key is held iff it was put and fewer than `capacity` distinct other keys were put since its last put, with the value of that put; never more than `capacity` keys. |
| `LruCaches.LruCache.Put` | bins/reth-crawler/src/crawler/block_hash_num.rs:77 | The put is added to the history, and the table is again the one that history leaves. |
| `LruCaches.LruCache.Contains` | bins/reth-crawler/src/crawler/block_hash_num.rs:66 | The answer is whether the key is recent in the history; nothing is promoted. |
| `BlockHashNums.ServiceInvariant` | bins/reth-crawler/src/crawler/block_hash_num.rs:60-82 | In every run both channels hold what was sent and not yet taken, in order; the cache is what the applied updates leave, untouched by requests; each waiting reply is the answer for its own request. |
| `BlockHashNums.RepliesExactly` | bins/reth-crawler/src/crawler/block_hash_num.rs:63-68 | No answer is lost: in every run a reply waits exactly from the answer to its request until it is received. |
| `BlockHashNums.AcksExactly` | bins/reth-crawler/src/crawler/block_hash_num.rs:70-79 | No acknowledgement is lost: in every run one waits exactly from the application of its update until it is received. |
| `BlockHashNums.Linearizable` | bins/reth-crawler/src/crawler/block_hash_num.rs:60-133 | In every interleaving each answer is membership after some prefix of the updates, with all those acknowledged before the request was sent and none sent after the answer; prefixes never shrink in request order; no request is answered twice. |
| `BlockHashNums.UnacknowledgedMayBeMissed` | bins/reth-crawler/src/crawler/block_hash_num.rs:63-79 | In every run, an update not yet applied whose hash is not recent can be missed: the run can go on so that a request sent now receives "absent". |
| `BlockHashNums.SureExactlyWhenApplied` | bins/reth-crawler/src/crawler/block_hash_num.rs:63-79 | In every run, a request sent now counts an update however the run goes on iff that update has been applied. |
| `BlockHashNums.AnswerMissesAtMostOne` | bins/reth-crawler/src/crawler/listener/state_listener.rs:23-36 | With a producer that awaits each acknowledgement, an answer misses at most the one update in flight when the request was sent. |
| `BlockHashNums.BlockHashNum.SendRequest` | bins/reth-crawler/src/crawler/block_hash_num.rs:116-119 | The request joins the end of its channel with a reply channel of its own. |
| `BlockHashNums.BlockHashNum.SendUpdate` | bins/reth-crawler/src/crawler/block_hash_num.rs:124-131 | The update joins the end of its channel with an acknowledgement channel of its own. |
| `BlockHashNums.BlockHashNum.ReceiveReply` | bins/reth-crawler/src/crawler/block_hash_num.rs:120 | The reply is received iff it is there, and is then gone. |
| `BlockHashNums.BlockHashNum.ReceiveAck` | bins/reth-crawler/src/crawler/block_hash_num.rs:132 | The acknowledgement is received iff it is there, and is then gone. |
| `BlockHashNums.BlockHashNum.AnswerOne` | bins/reth-crawler/src/crawler/block_hash_num.rs:63-68 | One request is taken and answered, as the step system says. |
| `BlockHashNums.BlockHashNum.ApplyOne` | bins/reth-crawler/src/crawler/block_hash_num.rs:70-79 | One update is taken, put and acknowledged, as the step system says. |
| `BlockHashNums.BlockHashNum.Poll` | bins/reth-crawler/src/crawler/block_hash_num.rs:60-82 | A poll answers requests as long as there are any and their channel reports them ready, then applies updates likewise. |
| `StateListeners.NewBlock` | bins/reth-crawler/src/crawler/block_hash_num.rs:124-133 | Whatever others do while it waits, exactly this update is sent; it returns with the acknowledgement iff the update has been applied, and then everything sent is acknowledged. |
| `StateListeners.BlockSubscriptionManager` | bins/reth-crawler/src/crawler/listener/state_listener.rs:23-36 | The updates sent are the first blocks of the stream in order, each acknowledged before the next is sent; only a block without hash or number, or an update not yet applied, stops the listener early. |
| `SyncedLag.FoundHashLag` | bins/reth-crawler/src/crawler/block_hash_num.rs:15-22 | If a hash determines its number, the highest number rises by at most one per update, and no update is more than d below it, a hash found in the cache lags the highest by at most 99 + d, repeated updates included. |
| `SyncedLag.FoundHashLagIsReached` | bins/reth-crawler/src/crawler/block_hash_num.rs:15-22 | A stream on which that lag is reached, for every d whose numbers fit 64 bits. |
| `SyncedLag.ConsecutiveExactly` | bins/reth-crawler/src/crawler/block_hash_num.rs:15-22 | On consecutive distinct blocks a streamed hash is found iff its lag is below 100. |
| `SyncedAnswers.SyncedAnswer` | bins/reth-crawler/src/crawler/listener/update_listener.rs:240-249 | End to end: in any run, a received answer is the membership after the updates applied when it was given, which include all those acknowledged before the request and none sent after the answer; "present" means the block was streamed by then and lags the highest of them by less than 100 + d. |
| `SyncedAnswers.ConsecutiveAnswer` | bins/reth-crawler/src/crawler/listener/update_listener.rs:240-249 | On consecutive blocks the answer received is "present" iff the block was streamed by then and lags by less than 100. |
| `SyncedAnswers.SyncedWhenAsked` | bins/reth-crawler/src/crawler/listener/update_listener.rs:240-249 | With the awaiting producer, a hash reported present lagged by at most 100 + d the highest of all blocks sent when it was asked for. |
| `SyncedAnswers.ConsecutiveWhenAsked` | bins/reth-crawler/src/crawler/listener/update_listener.rs:240-249 | With that producer and consecutive blocks, "present" means at most 100 behind the highest sent when asked, and "absent" that the block, unless it is the last one sent by then, is at least 100 behind the highest sent when the answer comes. |
| `SyncedAnswers.LagWhenAskedIsReached` | bins/reth-crawler/src/crawler/listener/state_listener.rs:23-36 | A run of the service with that producer in which a hash reported present lagged by 100 + d when it was asked for. |
| `Handshakes.CountsStayBelowThreshold` | bins/reth-crawler/src/crawler/listener/update_listener.rs:274-309 | In every interleaving stored and read counts stay below five, so a task's own count never exceeds five. |
| `BanChains.StoredCountChain` | bins/reth-crawler/src/crawler/listener/update_listener.rs:304-309 | A stored count of n was written by the last of a chain of n failures of that peer, counted from 0, 1, ..., n - 1, each from the count the one before it wrote, and nobody has written it since. |
| `BanChains.BanHasFiveFailures` | bins/reth-crawler/src/crawler/listener/update_listener.rs:287-303 | Every threshold ban is the last of a chain of exactly five counted failures of the same peer by five different tasks: the first read zero, each other read the count the one before it wrote, with no write of that count in between. |
| `BanChains.BansExactlyOnTheFifth` | bins/reth-crawler/src/crawler/listener/update_listener.rs:287-309 | A counted failure bans iff it is the fifth of such a chain. |
| `BanBacking.SharedFailureSharesPast` | bins/reth-crawler/src/crawler/listener/update_listener.rs:274-309 | Two chains that share a failure share everything before it: a failure has one past. |
| `BanBacking.BanChainIsUnique` | bins/reth-crawler/src/crawler/listener/update_listener.rs:287-303 | Every threshold ban has exactly one chain of five. |
| `BanBacking.DisjointExactly` | bins/reth-crawler/src/crawler/listener/update_listener.rs:287-303 | Two bans share no failure iff their chains start at different failures. |
| `BanBacking.BansOwnFailuresExactly` | bins/reth-crawler/src/crawler/listener/update_listener.rs:274-309 | All bans of a peer in a run are pairwise without a common failure iff no count written by a failure is read by two tasks whose failures both go into bans. |
| `BanBacking.OwnWhenNoCountReadTwice` | bins/reth-crawler/src/crawler/listener/update_listener.rs:274-309 | In particular they are if no written count is read by two tasks that then fail. |
| `BanBacking.KeptExactly` | bins/reth-crawler/src/crawler/listener/update_listener.rs:274-309 | Every counted failure is on the chain of some ban or of the stored count iff the count of every failure that does not ban is still stored or was read by a task that then failed. |
| `BanCounting.OwnFailuresCount` | bins/reth-crawler/src/crawler/listener/update_listener.rs:274-309 | If no two bans share a failure, there are at least five failures per ban. |
| `BanCounting.KeptFailuresCount` | bins/reth-crawler/src/crawler/listener/update_listener.rs:274-309 | If every failure is kept, there are at most five failures per ban and those that are stored. |
| `BanCounting.OverlapSharesFailures` | bins/reth-crawler/src/crawler/listener/update_listener.rs:275-303 | For every peer a run of six failures with two bans whose chains have the first four failures in common. |
| `BanCounting.OverlapDropsAFailure` | bins/reth-crawler/src/crawler/listener/update_listener.rs:275-309 | For every peer a run of two failures of which one is on no ban's chain and not on that of the stored count. |
| `OverlapFree.OwnAndKeptWithoutOverlap` | bins/reth-crawler/src/crawler/listener/update_listener.rs:274-313 | If the peer's tasks do not overlap, under any interleaving with other peers, no two of its bans share a failure and every failure is kept. |
| `ExactCounting.ExactlyWhenCurrent` | bins/reth-crawler/src/crawler/listener/update_listener.rs:274-311 | At every point of a run the count is the failures modulo five and the bans are the failures divided by five, iff no failure is ever counted from an out-of-date count. |
| `ExactCounting.ExactWithoutOverlap` | bins/reth-crawler/src/crawler/listener/update_listener.rs:274-313 | If the peer's tasks do not overlap, under any interleaving with other peers, that law holds of the stored count whenever none is in flight. |
| `ExactCounting.OtherEventsKeepCount` | bins/reth-crawler/src/crawler/listener/update_listener.rs:279-286 | Successes, "Too many peers" failures and everything other peers do leave a peer's standing count alone. |
| `ExactCounting.OverlapLosesAFailure` | bins/reth-crawler/src/crawler/listener/update_listener.rs:275-309 | For every peer a run of two overlapping tasks that counts two failures and stores one. |
| `ExactCounting.OverlapBansTwice` | bins/reth-crawler/src/crawler/listener/update_listener.rs:275-303 | For every peer a run of six failures that bans it twice, the last two tasks having overlapped. |
| `ExactCounting.AccountsBalance` | bins/reth-crawler/src/crawler/listener/update_listener.rs:274-311 | After every run, overlap or not, five failures per ban plus those that stand plus those lost to stale reads equal those that happened plus those gained from stale reads. |
| `ExactCounting.BackedOnBalanceExactly` | bins/reth-crawler/src/crawler/listener/update_listener.rs:274-311 | On balance, at every point of a run, five times the bans plus the standing count is at most the failures iff no failure gains more than was lost, net of what was gained, before it. |
| `ExactCounting.KeptOnBalanceExactly` | bins/reth-crawler/src/crawler/listener/update_listener.rs:274-311 | On balance, at every point of a run, the failures are at most five times the bans plus the standing count iff no failure loses more than was gained, net of what was lost, before it. |
| `ExactCounting.BansAreBackedOnBalance` | bins/reth-crawler/src/crawler/listener/update_listener.rs:274-311 | If no failure is counted from a count above the one that stands, nothing is gained and the bans are backed on balance at every point. |
| `Outcomes.AtMostOneOutcome` | bins/reth-crawler/src/crawler/listener/update_listener.rs:335-423 | In every run a task bans at most once or saves at most once, never both. |
| `Outcomes.ExactlyOneEnding` | bins/reth-crawler/src/crawler/listener/update_listener.rs:335-423 | In every run the task of a discovered peer has ended once if it is finished or only has a count to reset, and not at all before: refused for lack of room, failed, turned away after the eth handshake, or saved. |
| `Outcomes.BannedForACause` | bins/reth-crawler/src/crawler/listener/update_listener.rs:287-303 | An address is banned iff some task with it failed too often, failed the eth handshake or had no client version. |
| `Outcomes.SavedPeerPassed` | bins/reth-crawler/src/crawler/listener/update_listener.rs:343-396 | Every saved peer has a client version, and the hello and status it is saved with are those of its own task: of its p2p and then its eth handshake if it was discovered, of its session otherwise. |
| `Handshakes.RecordExactly` | bins/reth-crawler/src/crawler/listener/update_listener.rs:373-421 | The record kept is the one of which the chain, difficulty, best block, genesis and eth version are the status's, the capabilities and client fields the hello's, id, address, enode and port the peer's, and time, place, provider and synced what was observed. |
| `Outcomes.PassedIsSaved` | bins/reth-crawler/src/crawler/listener/update_listener.rs:351-423 | Conversely a task that passes the eth handshake with a client version is about to save its peer or has saved it. |
| `Outcomes.SessionIsSaved` | bins/reth-crawler/src/crawler/listener/update_listener.rs:158-221 | The task of an inbound session is about to save its peer, or has saved it, if the peer has given a client version, and never saves it otherwise. |
| `Outcomes.SavedByATask` | bins/reth-crawler/src/crawler/listener/update_listener.rs:398-422 | The store receives exactly the records that state, field by field, what a saving task's own peer said and what was observed of it. |
| `Outcomes.QueriedWasSaved` | bins/reth-crawler/src/crawler/listener/update_listener.rs:60-81 | Whatever a query of either store returns after a run was saved by a task of that run, states field by field what that task's peer said, is what the query asks for, and is the last record saved for its id. |
| `UpdateListeners.UpdateListener.StartDiscovered` | bins/reth-crawler/src/crawler/listener/update_listener.rs:94-108 | A discovered peer gets a task of its own. |
| `UpdateListeners.UpdateListener.StartSession` | bins/reth-crawler/src/crawler/listener/update_listener.rs:158-165 | An inbound session gets one task, finished if the client version is empty and about to save hello and status otherwise. |
| `UpdateListeners.UpdateListener.ReadFailureCount` | bins/reth-crawler/src/crawler/listener/update_listener.rs:274-278 | The step up to the wait: the stored count is read, zero if there is none. |
| `UpdateListeners.UpdateListener.FinishP2p` | bins/reth-crawler/src/crawler/listener/update_listener.rs:279-314 | The step after the wait: the shared state becomes what the step system says for the result. |
| `UpdateListeners.UpdateListener.ResetFailureCount` | bins/reth-crawler/src/crawler/listener/update_listener.rs:296-302 | The step after a ban: the count becomes zero. |
| `UpdateListeners.UpdateListener.FinishEth` | bins/reth-crawler/src/crawler/listener/update_listener.rs:316-370 | A refused handshake or an empty version bans the address; otherwise the peer is about to be saved. |
| `UpdateListeners.UpdateListener.SavePeer` | bins/reth-crawler/src/crawler/listener/update_listener.rs:373-422 | One record is added to the store, stating field by field what the peer said and what was observed. |
| `UpdateListeners.UpdateListener.HandshakeP2pHandle` | bins/reth-crawler/src/crawler/listener/update_listener.rs:266-314 | Uninterrupted, a failure moves the stored count one step round a cycle of five and bans exactly when it was four; anything else changes nothing. |
| `UpdateListeners.UpdateListener.HandshakeEthAndSave` | bins/reth-crawler/src/crawler/listener/update_listener.rs:351-423 | The part after the p2p handshake, uninterrupted: one record stating what the peer said and what was observed is added iff the eth handshake succeeds and the version is not empty, and the address is banned otherwise. |
| `UpdateListeners.UpdateListener.HandshakeAndSavePeer` | bins/reth-crawler/src/crawler/listener/update_listener.rs:335-423 | Uninterrupted, one record stating what the peer said and what was observed is added iff both handshakes succeed with a non-empty version; the address is banned iff the p2p handshake failed with four failures stored, the eth one was refused, or the version is empty. |
| `Text.JoinOfSplit` | db/src/db.rs:383-388 | Splitting a capabilities column and joining it again gives the same text, for every text. |
| `Text.SplitOfJoin` | db/src/db.rs:347 | Joining a list and splitting it again gives the list iff it is non-empty and no element holds the separator. |
| `Text.JoinOfNothing` | db/src/db.rs:347 | An empty list is joined to the empty text, which splits into one empty part. |
| `Text.TextLessExactly` | db/src/db.rs:414 | One text is below another iff it is a proper prefix of it or its character at the first difference is lower. |
| `Rows.ReadBack` | db/src/db.rs:324-404 | A written row is read by both backends as the normalised peer, its numbers surviving the casts, and is never skipped. |
| `Rows.ColumnsOfPeer` | db/src/db.rs:324-357 | Each of the 21 columns of a written row holds the field it is named after. |
| `Rows.NoCapabilities` | db/src/db.rs:383-388 | A peer without capabilities is read back by both backends with one, the empty text, and otherwise unchanged. |
| `Rows.StrangeNumbers` | db/src/db.rs:365-404 | A row is skipped by SQLite iff one of its two numbers does not fit; PostgreSQL reads it with the low bits of that number; otherwise both read the same peer. |
| `Rows.NormaliseIsIdempotent` | db/src/db.rs:347 | Storing again what was read changes nothing, row included. |
| `Rows.ReadBackUnchanged` | db/src/db.rs:383-388 | A peer is read back unchanged iff it has a capability and none holds a comma. |
| `Rows.CopyKeepsRow` | bins/api-server/src/db_sync.rs:31-34 | Copying a row through a decoded peer keeps every column, the capabilities text included, iff its numbers are in range. |
| `Tables.InsertOrReplaceSetsOne` | db/src/db.rs:327-328 | INSERT OR REPLACE keeps ids unique and sets exactly the entry of the new row's id. |
| `Tables.InsertOnConflictSetsOne` | db/src/db.rs:700-722 | ON CONFLICT DO UPDATE keeps ids unique and sets exactly the entry of the new row's id, every column of it. |
| `Tables.LastWritesAreLast` | db/src/db.rs:324-357 | The reference list holds exactly the writes whose id is never written again, each id once. |
| `Tables.LastWritesInOrder` | db/src/db.rs:324-357 | They are listed in the order they were written in. |
| `Tables.SqliteHoldsLastWrites` | db/src/db.rs:324-357 | After any history the SQLite table is the encoded last write of every id, in the order of those writes. |
| `Tables.SqliteAnswers` | db/src/db.rs:359-549 | Every SQLite query returns exactly the last writes it asks for, normalised, skipping no row. |
| `Tables.ByIdFindsLastWrite` | db/src/db.rs:457-502 | A lookup by id returns the last write of that id alone, or nothing iff it was never written. |
| `Tables.PostgresAnswers` | db/src/db.rs:750-946 | Every PostgreSQL query returns the same last writes up to order; its client queries return their names. |
| `Tables.QueriesFindLastWrites` | db/src/db.rs:359-549 | On both backends each query returns the normalised last writes it asks for, by any id, by timestamp text, by id or by address, and no others, each id once. |
| `Tables.BackendsAgree` | db/src/db.rs:697-912 | After the same history both backends answer every query with the same peers, counted with repetition. |
| `Tables.ClientQueriesDiffer` | db/src/db.rs:914-946 | The backends' client queries agree iff the matching peers' names and versions are the same, counted with repetition. |
| `Tables.ClientQueriesDifferOnOne` | db/src/db.rs:914-927 | With one stored peer they agree iff its name is its version. |
| `Stores.SqlPeerDB.AddPeer` | db/src/db.rs:324-357 | The peer joins the history, the table is the one with its row inserted or replaced, and only its entry changes. |
| `Stores.SqlPeerDB.ReadRows` | db/src/db.rs:394-398 | The loop returns every row that decodes, in order. |
| `Stores.SqlPeerDB.AllPeers` | db/src/db.rs:359-404 | The last write of every id in the store's history, normalised, in the order of those writes. |
| `Stores.SqlPeerDB.AllActivePeers` | db/src/db.rs:406-455 | Those of them whose timestamp text is greater than the argument. |
| `Stores.SqlPeerDB.NodeById` | db/src/db.rs:457-502 | Exactly the normalised last write of the store's history with that id, if there is one. |
| `Stores.SqlPeerDB.NodeByIp` | db/src/db.rs:504-549 | Exactly the normalised last writes of the store's history whose address is the argument, each id once. |
| `Stores.SqlPeerDB.ReadClients` | db/src/db.rs:586-593 | The loop returns the version of every row that decodes, in order. |
| `Stores.SqlPeerDB.Clients` | db/src/db.rs:551-599 | Their versions. |
| `Stores.SqlPeerDB.ActiveClients` | db/src/db.rs:601-653 | The versions of the active ones. |
| `Stores.PostgreSQLPeerDb.AddPeer` | db/src/db.rs:697-748 | The peer joins the history, the table is the one with its row inserted or updated in place, and only its entry changes. |
| `Stores.PostgreSQLPeerDb.AllPeers` | db/src/db.rs:750-788 | The last write of every id in the store's history, normalised, in some order. |
| `Stores.PostgreSQLPeerDb.AllActivePeers` | db/src/db.rs:790-832 | Those of them whose timestamp text is greater than the argument, in some order. |
| `Stores.PostgreSQLPeerDb.NodeById` | db/src/db.rs:834-872 | Exactly the normalised last write of the store's history with that id, if there is one. |
| `Stores.PostgreSQLPeerDb.NodeByIp` | db/src/db.rs:874-912 | Exactly the normalised last writes of the store's history whose address is the argument, each id once, in some order. |
| `Stores.PostgreSQLPeerDb.Clients` | db/src/db.rs:914-927 | Their names, in some order. |
| `Stores.PostgreSQLPeerDb.ActiveClients` | db/src/db.rs:929-946 | The names of the active ones, in some order. |
| `Stores.FillSqlite` | db/src/db.rs:324-357 | Adding peers one by one to a new store leaves the last write of each id. |
| `Stores.FillPostgres` | db/src/db.rs:697-748 | Adding the same peers leaves the same rows, in some order. |
| `Timestamps.TextOrderIsTimeOrder` | db/src/db.rs:414 | For any two instants in range, their texts compare bytewise as the instants do, whatever the lengths of their fractions. |
| `Timestamps.MonthLengths` | bins/api-server/src/db_sync.rs:15-20 | The months have their Gregorian lengths, with February's by the rule for leap years. |
| `Timestamps.FourHundredYears` | bins/api-server/src/db_sync.rs:15-20 | 146097 days later it is the same month, day and time 400 years on. |
| `Timestamps.DatedTexts` | bins/api-server/src/db_sync.rs:15-20 | The Unix epoch is shown as "1970-01-01 00:00:00 UTC", and a leap day of 2000 likewise. |
| `Timestamps.FractionExactly` | bins/api-server/src/db_sync.rs:15-20 | A fraction is shown as a point and the first three, six or nine of its nine digits, as few groups as are exact, and not at all when it is zero. |
| `DbSync.CopySetsRows` | bins/api-server/src/db_sync.rs:31-34 | Copying scanned rows sets exactly their entries of the replica. |
| `DbSync.ScanOrderDoesNotMatter` | bins/api-server/src/db_sync.rs:22-34 | The replica a sync leaves does not depend on the order of the scan. |
| `DbSync.CopyTwice` | bins/api-server/src/db_sync.rs:31-34 | Copying the same rows again changes nothing. |
| `DbSync.DisplayedTextIsOrdered` | bins/api-server/src/db_sync.rs:15-20 | The rendering that stamps and cutoffs share keeps the order of instants. |
| `DbSync.IncrementalSelects` | bins/api-server/src/db_sync.rs:15-29 | An incremental sync selects a row iff it was stamped less than the period plus 60 seconds before the sync's own time. |
| `DbSync.ReplicaAgreement` | bins/api-server/src/db_sync.rs:8-49 | If gap plus delay is strictly below the period plus 60 seconds, every sync of every run leaves the replica equal to the source as scanned, from any replica whose ids the source has. |
| `DbSync.BoundIsExact` | bins/api-server/src/db_sync.rs:15-20 | All runs agree iff gap plus delay is strictly below the period plus 60 seconds, for any rendering that keeps the order of instants. |
| `DbSync.RenderedBoundIsExact` | bins/api-server/src/db_sync.rs:15-20 | The same for the rendering in use. |
| `DbSync.LosingRunLoses` | bins/api-server/src/db_sync.rs:15-30 | At or beyond the bound, a run of two syncs and one commit that misses the row. |
| `DbSync.StaysMissed` | bins/api-server/src/db_sync.rs:15-30 | A row that the replica misses stays missing as long as its peer is not stored again and no later sync looks back further than its stamp. |
| `DbSync.LostUntilStoredAgain` | bins/api-server/src/db_sync.rs:15-30 | So the row that run misses is missing after every run that goes on from it without storing its peer again and without the syncs' times going back. |
| `DbSync.MidSyncRows` | bins/api-server/src/db_sync.rs:22-34 | After any number of rows of a sync, in any scan order, every replica row is the source's at this scan or the previous one. |
| `Replica.ReplicaAnswers` | bins/api-server/src/db_sync.rs:8-49 | Below the bound, after every sync of every run, every query for peers returns from the replica what it returns from the source, counted with repetition. |
| `Replica.NothingInvented` | bins/api-server/src/db_sync.rs:22-34 | Without any bound, after every run every replica row was the source's row for that id at some sync's scan, or the initial replica's. |
| `Replica.NothingInventedMidSync` | bins/api-server/src/db_sync.rs:22-34 | The same after any number of rows of a sync, in any scan order. |
| `Replica.FirstSyncAgrees` | bins/api-server/src/db_sync.rs:22-26 | The first sync leaves the replica equal to the source, whatever the bound. |
| `Replica.RestartRecovers` | bins/api-server/src/db_sync.rs:40-49 | Whenever the server stops, in the middle of a sync or not, the first sync after its restart leaves the replica equal to the source. |
| `DbSync.AddAll` | bins/api-server/src/db_sync.rs:31-34 | The peers are added in order up to the first insertion that fails, all of them iff none does. |
| `DbSync.DbSync` | bins/api-server/src/db_sync.rs:8-37 | One sync adds the selected peers to the replica one by one, all of them the first time, the window's afterwards; it succeeds iff neither the scan nor an insertion fails, and otherwise ends with what came before the first failure. |
| `DbSync.DbSyncHandler` | bins/api-server/src/db_sync.rs:40-49 | Over any run, and whatever scans and insertions fail, both stores follow the step system up to the first sync in which something fails, to the end iff there is none; that sync leaves the rows before the failure copied. |
| `Decimal.ParseOfPrint` | db/src/types.rs:153-174 | A printed number is read back, and rejected iff it does not fit the type. |
| `Decimal.ParseExactly` | db/src/types.rs:153-174 | A text is read as a number iff it is that number as printed, after zeros and an optional plus sign, and the number fits the type. |
| `DynamoCodec.AsUnsignedExactly` | db/src/types.rs:153-174 | A number attribute whose text denotes a number that fits is read as that number; anything missing, ill-typed, unreadable or too big gives the default. |
| `DynamoCodec.ReadDefaults` | db/src/types.rs:112-140 | An item whose attributes are missing or ill-typed is read as the peer of all defaults, port 30303 among them. |
| `DynamoCodec.ReadList` | db/src/types.rs:177-189 | A list is read element by element, the empty text standing for what is not a text. |
| `DynamoCodec.WrittenRegion` | db/src/db.rs:63-122 | The region the crawler runs in is written with the peer. |
| `DynamoCodec.ReadBackLosesOnlyArch` | db/src/types.rs:112-140 | Writing and reading a peer changes its architecture to "" and nothing else. |
| `DynamoCodec.RoundTripExactly` | db/src/db.rs:63-122 | The round trip is the identity iff the architecture is empty. |
| `ClientVersion.SplitLosesOnlySeparators` | bins/reth-crawler/src/crawler/listener/update_listener.rs:432-457 | A text with exactly three slashes is its fields put together with one separator per inner segment; any other text is the name, whole. |
| `ClientVersion.SplitExactly` | bins/reth-crawler/src/crawler/listener/update_listener.rs:432-474 | The fields are exactly those that describe the text: its four segments, the inner ones cut at the first dash, else the first plus, if it has three slashes; the whole text as the name otherwise. |
| `ClientVersion.SegmentReassembles` | bins/reth-crawler/src/crawler/listener/update_listener.rs:462-474 | A segment is cut at its first dash, else its first plus, else not at all. |
| `ClientVersion.SplitOfPrint` | bins/reth-crawler/src/crawler/listener/update_listener.rs:432-474 | Printing six fields with either sign and splitting gives them back iff no field holds a slash and both inner segments are cut at the printed sign. |
| `ClientVersion.DeterminedExactly` | bins/reth-crawler/src/crawler/listener/update_listener.rs:432-474 | No other text has the same fields iff the text has some slashes other than three, or has three and each inner segment's cut holds a plus before or a dash after. |
| `ClientVersion.SplitIsNotInjective` | bins/reth-crawler/src/crawler/listener/update_listener.rs:447-456 | "a" and "a///" have the same fields. |

## Left out

- StateListeners.BlockSubscriptionManager: does not say that an acknowledgement ever arrives, because that depends on the scheduler; while it waits, others poll the service and send requests but no further producer sends updates.
- DbSync.DbSyncHandler: covers every finite run of commits and syncs up to the first failure, rather than an endless loop.
- UpdateListeners.UpdateListener.HandshakeP2pHandle: states the uninterrupted case; the interleaved one is what the theorems about runs state of its steps.
- UpdateListeners.UpdateListener.HandshakeEthAndSave: states the uninterrupted case; Outcomes.PassedIsSaved states the interleaved one.
- UpdateListeners.UpdateListener.HandshakeAndSavePeer: states the uninterrupted case; Outcomes.ExactlyOneEnding, Outcomes.SavedPeerPassed and Outcomes.PassedIsSaved state the interleaved one.
- Stores.SqlPeerDB.constructor: takes an existing table to be what earlier additions left, so rows that other programs put there are not covered.
- Stores.PostgreSQLPeerDb.constructor: takes an existing table to be what earlier additions left, likewise.
- Liveness and fairness of the scheduler, wakers and lock poisoning: safety over all interleavings is proved instead.
- The result of `is_synced` when the service is gone: the service never ends in this model.
- Several listeners with counts of their own: the model is of one listener, and nothing is shared between two but the stores.
- The handshakes, discovery, DNS and websocket themselves: their results are arbitrary.
- Geolocation, logging, configuration, command lines and the HTTP routes: they carry no state of interest.
- SQL parsing, physical row order in PostgreSQL, DynamoDB pagination and queries: tables are modelled as rows with unique ids and queries by their documented meaning.
- NULL text columns: neither store ever writes one.
- Reputation inside the discovery service: bans are a growing set of addresses.
