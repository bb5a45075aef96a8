/**
 The item-to-channel synchronization loop of src/main.rs (`send_messages`) and
 the channel map it starts from.

 The HTTP collaborators are replaced by an oracle indexed by the position of the
 item being handled: each item makes at most one create, one post and one
 mark-as-read call, so the position says which call is meant. The loop returns
 the calls it made (an effect trace), the final channel map and how it ended.
 */
module Sync {
  import opened Wrappers
  import opened Formatting

  /** Channel name to channel id, as built in `main` and extended by the loop. */
  type ChannelMap = map<string, string>

  /** One existing channel of the guild as listed by the chat platform. */
  datatype Channel = Channel(name: string, id: string)

  /**
   The collaborators' answers for the call made while handling item `i`:
   the id of a newly created channel (None when creation failed), whether the
   post succeeded and whether marking the item read succeeded.
   */
  datatype Oracle = Oracle(create: nat -> Option<string>, post: nat -> bool, mark: nat -> bool)

  /** A collaborator call, tagged with the position of the item that made it. */
  datatype Effect =
    | Create(at: nat, name: string)
    | Post(at: nat, channel: string, text: string)
    | Mark(at: nat, id: u64)

  /** Which call ended the loop with a `break`. */
  datatype Failure = PostFailed | MarkFailed

  /**
   How the loop ended: every item handled, a `break` after a failed call at
   `index`, or the panic of the channel-map `unwrap` at `index`.
   */
  datatype Outcome = Completed | StoppedAt(index: nat, cause: Failure) | PanickedAt(index: nat)

  datatype Run = Run(trace: seq<Effect>, channels: ChannelMap, outcome: Outcome)

  /** The calls made for one item, the map afterwards, and the outcome when the loop ends here. */
  datatype Step = Step(effects: seq<Effect>, channels: ChannelMap, halt: Option<Outcome>)

  /** No later entry of the listing carries the same name as entry `k`. */
  predicate LastWithName(listing: seq<Channel>, k: nat)
    requires k < |listing|
  {
    forall j :: k < j < |listing| ==> listing[j].name != listing[k].name
  }

  /**
   The map `main` collects from the listed channels: one key per listed name,
   and a name listed twice keeps the id of its last occurrence.
   */
  function ChannelsFromListing(listing: seq<Channel>): (m: ChannelMap)
    ensures m.Keys == set c | c in listing :: c.name
    ensures forall k :: 0 <= k < |listing| && LastWithName(listing, k) ==> m[listing[k].name] == listing[k].id
  {
    if |listing| == 0 then map[]
    else
      var last := listing[|listing| - 1];
      var front := listing[..|listing| - 1];
      assert listing == front + [last];
      ChannelsFromListing(front)[last.name := last.id]
  }

  /** The loop posts an item only when both its raw content and its message are non-empty. */
  predicate ShouldPost(item: Item, extractText: string -> string) {
    |item.content| > 0 && |MessageContent(item.content, extractText)| > 0
  }

  /** The body of the `for` loop for item `i` with the map `m`. */
  function HandleItem(items: seq<Item>, i: nat, m: ChannelMap, o: Oracle, extractText: string -> string): Step
    requires i < |items|
  {
    var item := items[i];
    var name := ChannelName(item.sourceTitle);
    var content := MessageContent(item.content, extractText);
    var created := if name in m then [] else [Create(i, name)];
    var m' := if name !in m && o.create(i).Some? then m[name := o.create(i).value] else m;
    if ShouldPost(item, extractText) then
      if name !in m' then
        Step(created, m', Some(PanickedAt(i)))
      else if !o.post(i) then
        Step(created + [Post(i, m'[name], content)], m', Some(StoppedAt(i, PostFailed)))
      else
        var effects := created + [Post(i, m'[name], content), Mark(i, item.id)];
        Step(effects, m', if o.mark(i) then None else Some(StoppedAt(i, MarkFailed)))
    else
      Step(created + [Mark(i, item.id)], m', if o.mark(i) then None else Some(StoppedAt(i, MarkFailed)))
  }

  /** The position the loop ended at: the item count when it completed. */
  function EndIndex(outcome: Outcome, count: nat): nat {
    if outcome.Completed? then count else outcome.index
  }

  /**
   The loop over `items[i..]` starting from map `m`: handle item `i`, stop if
   it halted, otherwise go on with the next item and the map it left behind.
   Its properties are proved in SyncProofs.
   */
  function SyncFrom(items: seq<Item>, i: nat, m: ChannelMap, o: Oracle, extractText: string -> string): Run
    requires i <= |items|
    decreases |items| - i
  {
    if i == |items| then Run([], m, Completed)
    else
      var step := HandleItem(items, i, m, o, extractText);
      match step.halt
      case Some(outcome) => Run(step.effects, step.channels, outcome)
      case None =>
        var rest := SyncFrom(items, i + 1, step.channels, o, extractText);
        Run(step.effects + rest.trace, rest.channels, rest.outcome)
  }

  /** `send_messages`: the loop over the whole batch. */
  function SendMessages(items: seq<Item>, m: ChannelMap, o: Oracle, extractText: string -> string): Run {
    SyncFrom(items, 0, m, o, extractText)
  }

  /** One run after fetching: build the map from the listing, then send. */
  function RunOnce(items: seq<Item>, listing: seq<Channel>, o: Oracle, extractText: string -> string): Run {
    SendMessages(items, ChannelsFromListing(listing), o, extractText)
  }
}
