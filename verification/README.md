# selfoss-discord in Dafny

A verified model of the core of selfoss-discord. The program is a batch job. It
fetches the unread items of a selfoss feed reader and posts each one into a
Discord channel named after the item's feed. The channel is created when it
does not exist yet. After that the item is marked read in selfoss.

The model has four parts:

- **Item formatting** (`formatting.dfy`, module `Formatting`). This is the
  channel name derived from the feed title, the character-safe `truncate`, and
  the message body (content truncated to 2000 characters, then reduced to its
  text). Helpers shared with the Python poller are in `text.dfy` (module `Text`).
- **The sync loop** (`sync.dfy`, module `Sync`). `send_messages` is a recursive
  function over the batch. It threads the channel-name to channel-id map.
  Before the loop, `main` builds that map from the guild's channel listing. The
  HTTP calls are replaced by an oracle indexed by the item's position:
  `create(i)` gives the new id or `None`, and `post(i)` and `mark(i)` give
  success or failure. A run returns three things: the trace of calls
  (`Create`, `Post`, `Mark`, each tagged with the item position), the final
  map, and an outcome. The outcome is `Completed`, `StoppedAt(i, PostFailed |
  MarkFailed)` for the `break`s, or `PanickedAt(i)` for the `unwrap` on a
  channel whose create failed.
- **The properties of the loop** (`sync_proofs.dfy`, module `SyncProofs`).
  Each one is first stated for a single call of `HandleItem`. It is then
  lifted to the whole batch by induction over `GenericLoop.Loop`
  (`generic_loop.dfy`), which is the same loop with its body left abstract.
  `SyncProofs.SameAsLoop` shows that `SyncFrom` is that loop with
  `HandleItem` as the body.
- **The legacy Python poller** (`legacy.dfy`, module `Legacy`). This covers
  `new_items` as a loop with invariants, and the inline per-item formatting of
  `my_background_task`.

The HTML text extractor, `scraper` in Rust and BeautifulSoup in Python, is a
function-valued parameter (`extractText`, `getText`). Nothing is assumed about it.

Two behaviours of the code are worth stating explicitly:

- A failed channel creation does not end the run. src/main.rs:35-37 ignores
  the failure, and the `unwrap` at src/main.rs:43 panics only when the item has
  something to post. An item with nothing to post is marked read as usual.
  `SyncProofs.FailedCreate` states this.
- The rate-limit test (src/discord/adapter.rs:157-166) uses `send_messages` as
  if it returned a `Result`. The function as written returns nothing
  (src/main.rs:21-25). The model returns an explicit outcome instead.
  `SyncProofs.RateLimitedScenario` states the test's expectation in those terms
  for an item whose channel is already in the map: the failure is reported and
  the item is not marked.

## Model

| member | source | states |
|---|---|---|
| Formatting.Truncate | src/selfoss/models.rs:17-22 | the result is a prefix of the input whose length is the smaller of the input's length and n; a string of at most n characters comes back unchanged |
| Formatting.TruncateIdempotent | src/selfoss/models.rs:17-22 | truncating twice to the same bound equals truncating once |
| Formatting.ChannelName | src/selfoss/models.rs:25-30 | the name has the title's length, no space and no period; each character is `-` where the title had a space or period and the ASCII lowercase of the title character otherwise |
| Formatting.ChannelNameIdempotent | src/selfoss/models.rs:25-30 | deriving a channel name from a channel name changes nothing |
| Formatting.SameChannelName | src/selfoss/models.rs:25-30 | two titles get the same channel exactly when they have equal length and agree position by position up to case and space/period/hyphen |
| Formatting.MessageContent | src/selfoss/models.rs:31-37 | the content cut to 2000 characters, then the extractor; no contract of its own: `MessageDependsOnPrefix`, `MessageIgnoresTail` and `MessageWithinLimit` characterise it |
| Formatting.MessageDependsOnPrefix | src/selfoss/models.rs:31-37 | two contents with the same first 2000 characters give the same message |
| Formatting.MessageIgnoresTail | src/selfoss/models.rs:31-37 | text appended after 2000 characters never changes the message |
| Formatting.MessageWithinLimit | src/selfoss/models.rs:31-37 | the message never exceeds 2000 characters, provided the extractor never lengthens its input |
| Sync.ChannelsFromListing | src/main.rs:79-83 | the initial map has exactly the listed names as keys, and a name listed twice keeps the id of its last occurrence |
| Sync.HandleItem | src/main.rs:28-58 | one iteration of the loop; no contract of its own: `SyncProofs.StepIsLocal`, `StepMarks`, `StepChannels`, `StepMarkFollowsPost`, `StepHalts` and `StepReplay` state what it does |
| Sync.SyncFrom | src/main.rs:28-59 | the loop over the rest of the batch; no contract of its own: `SyncProofs.SameAsLoop` identifies it with `GenericLoop.Loop` over `HandleItem`, whose properties are the `SyncProofs` rows below |
| Sync.SendMessages | src/main.rs:21-60 | `send_messages` on the whole batch; no contract of its own: every `SyncProofs` row below is a statement about it |
| Sync.RunOnce | src/main.rs:79-85 | `main` after fetching: the listing's map, then `send_messages`; no contract of its own: `SyncProofs.ListedChannelsNotCreated` states what the listing guarantees |
| SyncProofs.EffectsInOrder | src/main.rs:21-60 | the calls are strictly increasing in (item position, create < post < mark), so items are handled in input order and no item makes two calls of one kind; a stop or panic lies inside the batch; every call belongs to an item at or before the one the loop ended at |
| SyncProofs.KeepsEntries | src/main.rs:29-37 | an entry of the starting map is never overwritten or removed |
| SyncProofs.MarkCallsArePrefix | src/main.rs:28-58 | the ids passed to mark-as-read are exactly the ids of the batch's first items, in order, up to where the loop ended (including the item whose mark failed) |
| SyncProofs.AcknowledgedPrefix | src/main.rs:48-58 | an item is marked read successfully if and only if it lies before the position the loop ended at |
| SyncProofs.PostsAreGuarded | src/main.rs:40-46 | a post is made only for an item with non-empty content and non-empty message, and carries that message |
| SyncProofs.MarkFollowsPost | src/main.rs:40-58 | a mark of an item with something to post comes immediately after that item's post, and that post succeeded |
| SyncProofs.KnownChannelIsStable | src/main.rs:29-37 | a name already in the map is never created, and every post to it uses the id the map holds |
| SyncProofs.CreateOnlyWhenAbsent | src/main.rs:29-37 | a create is issued only for the item's own channel name, only when the name was not in the starting map, and only when every earlier create for it failed |
| SyncProofs.CreateWhenAbsent | src/main.rs:29-38 | conversely, every item the loop reaches whose channel name is missing from the map at that moment (not in the starting map, every earlier create of it failed) calls create, whether or not it then posts |
| SyncProofs.CreatedChannelIsReused | src/main.rs:30-43 | after a successful create, no later item creates that name again, and every post to that channel goes to the returned id |
| SyncProofs.FailedCreate | src/main.rs:33-54 | after a failed create the run panics at that item if it has something to post; otherwise the item is still marked read |
| SyncProofs.FinalRegistry | src/main.rs:33-37 | the final map equals the starting map with the successful creates of the trace replayed on it |
| SyncProofs.HowTheLoopEnds | src/main.rs:40-58 | a panic follows a failed create of a posting item; a post stop follows a failed post of a posting item; a mark stop follows a failed mark; in each case that call is the last one in the trace |
| SyncProofs.PostFailureStops | src/main.rs:48-51 | after a failed post, that item is never marked, no later item makes any call, and exactly the earlier items were marked read |
| SyncProofs.MarkFailureStops | src/main.rs:54-58 | after a failed mark, no later item makes any call, and exactly the earlier items count as read |
| SyncProofs.ListedChannelsNotCreated | src/main.rs:79-85 | a channel in the guild listing is never created, and posts to it use the listed id |
| SyncProofs.SampleChannelName | src/selfoss/models.rs:25-30 | the feed title "My Channel" gives the channel "my-channel" |
| SyncProofs.SingleItemScenario | src/main.rs:28-58 | one item with a new channel and every call succeeding: create, post of the message to the new id, mark, completed |
| SyncProofs.RateLimitedScenario | src/discord/adapter.rs:145-166 | a post that fails on a known channel ends the run at that item; the trace is that post alone, so the item is not marked |
| SyncProofs.SharedChannelScenario | src/main.rs:29-37 | two items of the same feed: one create in total, and both posts go to the created id |
| Legacy.NewItems | selfoss.py:30-46 | returns the entries strictly newer than the last run, in order; the file is written iff one is returned; the written value is at least the baseline and every timestamp, equals one of them, and is after the last run |
| Legacy.After | selfoss.py:34-38 | the entries newer than the last run; no contract of its own: `AfterConcat` and `AfterMembers` characterise it, and `NewItems` is proved to return it |
| Legacy.AfterConcat | selfoss.py:34-38 | the filter distributes over concatenation, so it preserves the original order |
| Legacy.AfterMembers | selfoss.py:34-38 | an entry is returned iff it was fetched and its timestamp is strictly after the last run |
| Legacy.ChannelName | selfoss.py:86 | the name has the source's length and no space; each space becomes `-`; periods stay exactly where they were; every other non-space character is lowercased |
| Legacy.ChannelNamesAgree | selfoss.py:86 | the Python and Rust channel names coincide exactly for titles without a period |
| Legacy.CollapseNewlines | selfoss.py:93 | `replace('\n\n', '\n')`; no contract of its own: `CollapseLength`, `CollapseChangesIffBlankLine`, `CollapseKeepsText` and `CollapseRun` characterise it |
| Legacy.CollapseLength | selfoss.py:93 | the collapsed text is shorter by exactly the number of replaced pairs, which is at most half its length |
| Legacy.CollapseChangesIffBlankLine | selfoss.py:93 | the collapse changes the text iff it contains two newlines in a row |
| Legacy.CollapseKeepsText | selfoss.py:93 | only newlines are removed: the other characters survive in order |
| Legacy.CollapseRun | selfoss.py:93 | a run of n newlines becomes ceil(n/2) newlines, so the collapse is not idempotent |
| Legacy.Truncate | selfoss.py:95-96 | the result is a prefix of at most 2000 characters; text of at most 2000 is unchanged; longer text keeps exactly 1999 |
| Legacy.TruncateDropsOneMore | selfoss.py:95-96 | 2000 characters are kept whole while 2001 are cut to 1999 |
| Legacy.TruncateAgainstRust | selfoss.py:95-96 | equals the Rust truncation to 2000 when nothing is cut, and keeps one character less than it when something is |
| Legacy.MessageBody | selfoss.py:92-96 | the embed description of an entry never exceeds 2000 characters |

## Left out

- HTTP collaborators are replaced by the per-position oracle. These are `discord_request`, `get_channels`, `create_channel` and `post_message` in src/discord/adapter.rs, and `get_tree` and `mark_items_as_read` in src/selfoss/adapter.rs.
- The retry/backoff and Retry-After middleware and the "four hits" of the rate-limit test are left out. They belong to the transport layer, which the oracle stands for.
- The `RequestError` kinds and their conversions (src/discord/errors.rs) are left out. A failed call is a single failure.
- HTML text extraction (`scraper`, BeautifulSoup) is a foreign library. It is a parameter, and nothing about entities or whitespace is assumed. So no property of the extracted text is stated, and the 2000-character bound of `Formatting.MessageWithinLimit` is conditional on the extractor never lengthening its input.
- Formatting.ChannelName: the lowercase is ASCII only. Rust's full Unicode `to_lowercase` can change a string's length, and that is not modelled.
- Legacy.ChannelName: the lowercase is ASCII only. Python's `str.lower()` is full Unicode and can change a string's length (`'İ'.lower()` is two code points), so the length the contract fixes holds only for the modelled lowercase.
- Configuration and environment loading (src/config.rs, src/utils.rs) are left out. So are `main`'s panics when fetching items or listing channels fails.
- Timestamps are not modelled. This covers the item `datetime` field and serde/chrono parsing in Rust, and `strptime`/`strftime` and the `[:-3]` slice in Python. Python timestamps are integers.
- `println!` and `print` logging are left out.
- The Python file write is modelled as the returned `Option<int>`. Argparse, reading the last-update file, `datetime.now()` (now a parameter), the discord client, the event loop and the embed construction (selfoss.py:49-112, apart from lines 86 and 92-96) are left out.
- The Python channel lookup and creation through the guild's cache (selfoss.py:87-90) are left out. They are calls into the discord library.
