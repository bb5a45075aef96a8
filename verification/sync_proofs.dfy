/**
 Properties of the synchronization loop: calls happen in item order, marks form
 a prefix of the batch, an item is marked only after its post succeeded or was
 skipped, a failed call ends the loop, and the channel map only ever gains the
 channels the loop created, each created at most once.

 Each property is first stated for one call of `HandleItem` (the `Step...`
 lemmas), then lifted to the whole loop through `GenericLoop`: `SyncFrom` is
 `GenericLoop.Loop` with `HandleItem` as its body (`SameAsLoop`).
 */
module SyncProofs {
  import opened Wrappers
  import opened Formatting
  import opened Sync
  import opened GenericLoop

  // ---------------------------------------------------------------- one item

  /** The calls of one item all carry its position and are in phase order; a halt is at that item. */
  lemma StepIsLocal(items: seq<Item>, i: nat, m: ChannelMap, o: Oracle, x: string -> string)
    requires i < |items|
    ensures Local(HandleItem(items, i, m, o, x), i)
  {
  }

  /** One item passes its own id to mark-as-read unless the loop stops before the mark. */
  lemma StepMarks(items: seq<Item>, i: nat, m: ChannelMap, o: Oracle, x: string -> string)
    requires i < |items|
    ensures Marks(HandleItem(items, i, m, o, x), i, items[i], o)
  {
    StepMarkIds(items, i, m, o, x);
  }

  lemma StepMarkIds(items: seq<Item>, i: nat, m: ChannelMap, o: Oracle, x: string -> string)
    requires i < |items|
    ensures var step := HandleItem(items, i, m, o, x);
      MarkIds(step.effects) ==
        if step.halt.None? || step.halt == Some(StoppedAt(i, MarkFailed)) then [items[i].id] else []
  {
    var item := items[i];
    var name := ChannelName(item.sourceTitle);
    var created: seq<Effect> := if name in m then [] else [Create(i, name)];
    var m' := if name !in m && o.create(i).Some? then m[name := o.create(i).value] else m;
    var content := MessageContent(item.content, x);
    assert MarkIds(created) == [];
    if ShouldPost(item, x) {
      if name in m' {
        var post := Post(i, m'[name], content);
        assert MarkIds([post]) == [];
        assert [post, Mark(i, item.id)][1..] == [Mark(i, item.id)];
        assert MarkIds([Mark(i, item.id)]) == [item.id];
        assert MarkIds([post, Mark(i, item.id)]) == [item.id];
        MarkIdsConcat(created, [post]);
        MarkIdsConcat(created, [post, Mark(i, item.id)]);
      }
    } else {
      assert MarkIds([Mark(i, item.id)]) == [item.id];
      MarkIdsConcat(created, [Mark(i, item.id)]);
    }
  }

  /**
   What one item does to the channel map: a create only for its own channel
   name and only when that name is absent, an insert only on success, and a
   post only to the id the map then holds for the name.
   */
  lemma StepChannels(items: seq<Item>, i: nat, m: ChannelMap, o: Oracle, x: string -> string)
    requires i < |items|
    ensures Channels(HandleItem(items, i, m, o, x), i, m, items, o, x)
  {
  }

  /** Within one item's calls, a mark of a posting item comes right after its successful post. */
  lemma StepMarkFollowsPost(items: seq<Item>, i: nat, m: ChannelMap, o: Oracle, x: string -> string)
    requires i < |items|
    ensures MarkAfterPost(HandleItem(items, i, m, o, x), i, items, o, x)
  {
  }

  /** How one item ends the loop, and which of its calls was the last one made. */
  lemma StepHalts(items: seq<Item>, i: nat, m: ChannelMap, o: Oracle, x: string -> string)
    requires i < |items|
    ensures Halts(HandleItem(items, i, m, o, x), i, m, items, o, x)
  {
  }

  /** Replaying one item's calls gives the map that item leaves behind. */
  lemma StepReplay(items: seq<Item>, i: nat, m: ChannelMap, o: Oracle, x: string -> string)
    requires i < |items|
    ensures var step := HandleItem(items, i, m, o, x);
      Replay(m, step.effects, o) == step.channels
  {
    var step := HandleItem(items, i, m, o, x);
    var h := step.effects;
    StepIsLocal(items, i, m, o, x);
    StepChannels(items, i, m, o, x);
    var m1 := Apply(m, h[0], o);
    assert m1 == step.channels by {
      assert h[0] in h;
    }
    forall e | e in h[1..]
      ensures !e.Create?
    {
      var a :| 0 <= a < |h[1..]| && h[1..][a] == e;
      assert Rank(h[0]) < Rank(h[a + 1]);
    }
    ReplayWithoutCreates(m1, h[1..], o);
  }

  // ---------------------------------------------------------------- the loop as GenericLoop.Loop

  /** `HandleItem` as the body of `GenericLoop.Loop`. */
  function ItemBody(items: seq<Item>, o: Oracle, x: string -> string): LoopBody {
    (j: nat, mm: ChannelMap) => if j < |items| then HandleItem(items, j, mm, o, x) else Step([], mm, None)
  }

  /** `SyncFrom` runs `HandleItem` over the batch exactly as `Loop` runs its body. */
  lemma {:induction false} SameAsLoop(items: seq<Item>, i: nat, m: ChannelMap, o: Oracle, x: string -> string)
    requires i <= |items|
    ensures SyncFrom(items, i, m, o, x) == Loop(items, i, m, ItemBody(items, o, x))
    decreases |items| - i
  {
    if i < |items| {
      var body := ItemBody(items, o, x);
      var step := body(i, m);
      assert step == HandleItem(items, i, m, o, x);
      match step.halt {
        case Some(outcome) =>
        case None =>
          SameAsLoop(items, i + 1, step.channels, o, x);
      }
    }
  }

  lemma BodyIsLocal(items: seq<Item>, o: Oracle, x: string -> string)
    ensures AllLocal(items, ItemBody(items, o, x))
  {
    var body := ItemBody(items, o, x);
    forall j: nat, mm | j < |items|
      ensures Local(body(j, mm), j)
    {
      StepIsLocal(items, j, mm, o, x);
    }
  }

  lemma BodyMarks(items: seq<Item>, o: Oracle, x: string -> string)
    ensures AllMarks(items, o, ItemBody(items, o, x))
  {
    var body := ItemBody(items, o, x);
    forall j: nat, mm | j < |items|
      ensures Marks(body(j, mm), j, items[j], o)
    {
      StepMarks(items, j, mm, o, x);
    }
  }

  lemma BodyChannels(items: seq<Item>, o: Oracle, x: string -> string)
    ensures AllChannels(items, o, x, ItemBody(items, o, x))
  {
    var body := ItemBody(items, o, x);
    forall j: nat, mm | j < |items|
      ensures Channels(body(j, mm), j, mm, items, o, x)
    {
      StepChannels(items, j, mm, o, x);
    }
  }

  lemma BodyMarkAfterPost(items: seq<Item>, o: Oracle, x: string -> string)
    ensures AllMarkAfterPost(items, o, x, ItemBody(items, o, x))
  {
    var body := ItemBody(items, o, x);
    forall j: nat, mm | j < |items|
      ensures MarkAfterPost(body(j, mm), j, items, o, x)
    {
      StepMarkFollowsPost(items, j, mm, o, x);
    }
  }

  lemma BodyHalts(items: seq<Item>, o: Oracle, x: string -> string)
    ensures AllHalts(items, o, x, ItemBody(items, o, x))
  {
    var body := ItemBody(items, o, x);
    forall j: nat, mm | j < |items|
      ensures Halts(body(j, mm), j, mm, items, o, x)
    {
      StepHalts(items, j, mm, o, x);
    }
  }

  lemma BodyReplay(items: seq<Item>, o: Oracle, x: string -> string)
    ensures AllReplay(items, o, ItemBody(items, o, x))
  {
    var body := ItemBody(items, o, x);
    forall j: nat, mm | j < |items|
      ensures Replay(mm, body(j, mm).effects, o) == body(j, mm).channels
    {
      StepReplay(items, j, mm, o, x);
    }
  }

  // ---------------------------------------------------------------- the loop

  /**
   Items are handled strictly in input order: the trace is strictly increasing
   in (position, phase), so no item makes two calls of the same kind and no
   call of a later item comes before a call of an earlier one.
   */
  lemma EffectsInOrder(items: seq<Item>, i: nat, m: ChannelMap, o: Oracle, x: string -> string)
    requires i <= |items|
    ensures InOrder(SyncFrom(items, i, m, o, x).trace)
    ensures var r := SyncFrom(items, i, m, o, x);
      r.outcome.Completed? || i <= r.outcome.index < |items|
    ensures var r := SyncFrom(items, i, m, o, x);
      forall e :: e in r.trace ==> i <= e.at <= EndIndex(r.outcome, |items|) && e.at < |items|
  {
    SameAsLoop(items, i, m, o, x);
    BodyIsLocal(items, o, x);
    LoopInOrder(items, i, m, ItemBody(items, o, x));
  }

  /**
   An entry of the map the loop starts from is never overwritten or removed:
   the loop only ever adds the channels it creates.
   */
  lemma KeepsEntries(items: seq<Item>, i: nat, m: ChannelMap, o: Oracle, x: string -> string, name: string)
    requires i <= |items|
    requires name in m
    ensures var r := SyncFrom(items, i, m, o, x);
      name in r.channels && r.channels[name] == m[name]
  {
    SameAsLoop(items, i, m, o, x);
    BodyChannels(items, o, x);
    LoopKeepsEntries(items, i, m, o, x, ItemBody(items, o, x), name);
  }

  /**
   The ids passed to mark-as-read are exactly the ids of the items from the
   start of the batch up to where the loop ended, in order: all of them when it
   completed, up to the failing item otherwise, and that item too when it was
   the mark itself that failed.
   */
  lemma MarkCallsArePrefix(items: seq<Item>, i: nat, m: ChannelMap, o: Oracle, x: string -> string)
    requires i <= |items|
    ensures var r := SyncFrom(items, i, m, o, x);
      i <= MarkCallEnd(r.outcome, |items|) <= |items| &&
      MarkIds(r.trace) == Ids(items[i..MarkCallEnd(r.outcome, |items|)])
  {
    SameAsLoop(items, i, m, o, x);
    BodyIsLocal(items, o, x);
    BodyMarks(items, o, x);
    LoopMarkIds(items, i, m, o, ItemBody(items, o, x));
  }

  /**
   Exactly the items before the position the loop ended at were marked read:
   every one of them, and none from there on.
   */
  lemma AcknowledgedPrefix(items: seq<Item>, i: nat, m: ChannelMap, o: Oracle, x: string -> string, k: nat)
    requires i <= k < |items|
    ensures var r := SyncFrom(items, i, m, o, x);
      Acknowledged(r.trace, o, items, k) <==> k < EndIndex(r.outcome, |items|)
  {
    SameAsLoop(items, i, m, o, x);
    BodyIsLocal(items, o, x);
    BodyMarks(items, o, x);
    LoopAcknowledged(items, i, m, o, ItemBody(items, o, x), k);
  }

  /**
   Posts are guarded: an item's post is made only when its content and message
   are non-empty, and carries its message.
   */
  lemma PostsAreGuarded(items: seq<Item>, i: nat, m: ChannelMap, o: Oracle, x: string -> string)
    requires i <= |items|
    ensures var r := SyncFrom(items, i, m, o, x);
      forall k: nat, ch, text :: Post(k, ch, text) in r.trace ==>
        k < |items| && ShouldPost(items[k], x) && text == MessageContent(items[k].content, x)
  {
    SameAsLoop(items, i, m, o, x);
    BodyChannels(items, o, x);
    LoopPostsGuarded(items, i, m, o, x, ItemBody(items, o, x));
  }

  /**
   An item is marked read only right after its post succeeded, or with no post
   at all when its content or message is empty (the second case is the
   contrapositive of PostsAreGuarded).
   */
  lemma MarkFollowsPost(items: seq<Item>, i: nat, m: ChannelMap, o: Oracle, x: string -> string, a: nat)
    requires i <= |items|
    requires a < |SyncFrom(items, i, m, o, x).trace|
    requires var t := SyncFrom(items, i, m, o, x).trace;
      t[a].Mark? && t[a].at < |items| && ShouldPost(items[t[a].at], x)
    ensures var t := SyncFrom(items, i, m, o, x).trace;
      0 < a && t[a - 1].Post? && t[a - 1].at == t[a].at && o.post(t[a].at)
  {
    SameAsLoop(items, i, m, o, x);
    BodyIsLocal(items, o, x);
    BodyMarkAfterPost(items, o, x);
    LoopMarkAfterPost(items, i, m, o, x, ItemBody(items, o, x), a);
  }

  /**
   A name already in the map is never created again, and every later post to
   that channel uses the id the map holds for it.
   */
  lemma KnownChannelIsStable(items: seq<Item>, i: nat, m: ChannelMap, o: Oracle, x: string -> string, name: string)
    requires i <= |items|
    requires name in m
    ensures var t := SyncFrom(items, i, m, o, x).trace;
      forall k :: Create(k, name) !in t
    ensures var t := SyncFrom(items, i, m, o, x).trace;
      forall k: nat, ch, text :: Post(k, ch, text) in t && k < |items| && NameOf(items, k) == name ==> ch == m[name]
  {
    SameAsLoop(items, i, m, o, x);
    BodyChannels(items, o, x);
    LoopKnownChannel(items, i, m, o, x, ItemBody(items, o, x), name);
  }

  /**
   `create_channel` is called for a name only while the map has no entry for
   it: the name is the item's channel name, it was not in the starting map, and
   every earlier create for the same name failed.
   */
  lemma CreateOnlyWhenAbsent(items: seq<Item>, i: nat, m: ChannelMap, o: Oracle, x: string -> string, j: nat, name: string)
    requires i <= |items|
    requires Create(j, name) in SyncFrom(items, i, m, o, x).trace
    ensures j < |items| && name == NameOf(items, j) && name !in m
    ensures var t := SyncFrom(items, i, m, o, x).trace;
      forall k :: i <= k < j && Create(k, name) in t ==> o.create(k).None?
  {
    SameAsLoop(items, i, m, o, x);
    BodyIsLocal(items, o, x);
    BodyChannels(items, o, x);
    LoopCreateWhenAbsent(items, i, m, o, x, ItemBody(items, o, x), j, name);
  }

  /**
   The converse of CreateOnlyWhenAbsent: every item the loop reaches calls
   `create_channel` when its name is missing from the map at that moment (not
   in the starting map, and every earlier create of it failed), whether or not
   the item then has something to post.
   */
  lemma CreateWhenAbsent(items: seq<Item>, i: nat, m: ChannelMap, o: Oracle, x: string -> string, k: nat)
    requires i <= k < |items|
    requires k <= EndIndex(SyncFrom(items, i, m, o, x).outcome, |items|)
    requires NameOf(items, k) !in m
    requires var t := SyncFrom(items, i, m, o, x).trace;
      forall j :: i <= j < k && Create(j, NameOf(items, k)) in t ==> o.create(j).None?
    ensures Create(k, NameOf(items, k)) in SyncFrom(items, i, m, o, x).trace
  {
    SameAsLoop(items, i, m, o, x);
    BodyIsLocal(items, o, x);
    BodyChannels(items, o, x);
    LoopCreatesMissing(items, i, m, o, x, ItemBody(items, o, x), k);
  }

  /**
   Once a create for a name succeeded, no later item creates that name again,
   and every post to that channel in the run, the creating item's included,
   goes to the returned id.
   */
  lemma CreatedChannelIsReused(items: seq<Item>, i: nat, m: ChannelMap, o: Oracle, x: string -> string, j: nat, name: string, id: string)
    requires i <= |items|
    requires Create(j, name) in SyncFrom(items, i, m, o, x).trace
    requires o.create(j) == Some(id)
    ensures var t := SyncFrom(items, i, m, o, x).trace;
      forall k :: j < k ==> Create(k, name) !in t
    ensures var t := SyncFrom(items, i, m, o, x).trace;
      forall k: nat, ch, text :: Post(k, ch, text) in t && k < |items| && NameOf(items, k) == name ==> ch == id
  {
    SameAsLoop(items, i, m, o, x);
    BodyIsLocal(items, o, x);
    BodyChannels(items, o, x);
    LoopCreatedReused(items, i, m, o, x, ItemBody(items, o, x), j, name, id);
  }

  /**
   Why the loop ended: a panic comes from posting to a channel whose create
   just failed, a stop on a post from a failed post of a posting item, a stop
   on a mark from a failed mark; in each case that call is the last one made.
   */
  lemma HowTheLoopEnds(items: seq<Item>, i: nat, m: ChannelMap, o: Oracle, x: string -> string)
    requires i <= |items|
    ensures var r := SyncFrom(items, i, m, o, x);
      r.outcome.PanickedAt? ==>
        var j := r.outcome.index;
        j < |items| && ShouldPost(items[j], x) && o.create(j).None? && |r.trace| > 0 &&
        r.trace[|r.trace| - 1] == Create(j, NameOf(items, j))
    ensures var r := SyncFrom(items, i, m, o, x);
      r.outcome.StoppedAt? && r.outcome.cause == PostFailed ==>
        var j := r.outcome.index;
        j < |items| && ShouldPost(items[j], x) && !o.post(j) && |r.trace| > 0 &&
        r.trace[|r.trace| - 1].Post? && r.trace[|r.trace| - 1].at == j
    ensures var r := SyncFrom(items, i, m, o, x);
      r.outcome.StoppedAt? && r.outcome.cause == MarkFailed ==>
        var j := r.outcome.index;
        j < |items| && !o.mark(j) && |r.trace| > 0 && r.trace[|r.trace| - 1] == Mark(j, items[j].id)
  {
    SameAsLoop(items, i, m, o, x);
    BodyIsLocal(items, o, x);
    BodyHalts(items, o, x);
    LoopEnds(items, i, m, o, x, ItemBody(items, o, x));
  }

  /**
   A failed post ends the run there: the failing item is never marked read,
   nothing is called for any later item, and exactly the items before it were
   marked read.
   */
  lemma PostFailureStops(items: seq<Item>, m: ChannelMap, o: Oracle, x: string -> string, j: nat)
    requires SendMessages(items, m, o, x).outcome == StoppedAt(j, PostFailed)
    ensures var t := SendMessages(items, m, o, x).trace;
      && j < |items| && !o.post(j)
      && (forall id :: Mark(j, id) !in t)
      && (forall e :: e in t ==> e.at <= j)
      && (forall k :: 0 <= k < |items| ==> (Acknowledged(t, o, items, k) <==> k < j))
  {
    var t := SendMessages(items, m, o, x).trace;
    HowTheLoopEnds(items, 0, m, o, x);
    EffectsInOrder(items, 0, m, o, x);
    NoMarkAfterLastPost(t, j);
    forall k | 0 <= k < |items|
      ensures Acknowledged(t, o, items, k) <==> k < j
    {
      AcknowledgedPrefix(items, 0, m, o, x, k);
    }
  }

  /**
   A failed mark-as-read ends the run there: nothing is called for any later
   item, the failing item counts as unread, and exactly the items before it
   were marked read.
   */
  lemma MarkFailureStops(items: seq<Item>, m: ChannelMap, o: Oracle, x: string -> string, j: nat)
    requires SendMessages(items, m, o, x).outcome == StoppedAt(j, MarkFailed)
    ensures var t := SendMessages(items, m, o, x).trace;
      && j < |items| && !o.mark(j)
      && |t| > 0 && t[|t| - 1] == Mark(j, items[j].id)
      && (forall e :: e in t ==> e.at <= j)
      && (forall k :: 0 <= k < |items| ==> (Acknowledged(t, o, items, k) <==> k < j))
  {
    var t := SendMessages(items, m, o, x).trace;
    HowTheLoopEnds(items, 0, m, o, x);
    EffectsInOrder(items, 0, m, o, x);
    forall k | 0 <= k < |items|
      ensures Acknowledged(t, o, items, k) <==> k < j
    {
      AcknowledgedPrefix(items, 0, m, o, x, k);
    }
  }

  /**
   A create that failed leaves the name unmapped for that item: if the item has
   something to post, the `unwrap` of the lookup panics right there; otherwise
   the item is still marked read.
   */
  lemma FailedCreate(items: seq<Item>, i: nat, m: ChannelMap, o: Oracle, x: string -> string, j: nat, name: string)
    requires i <= |items|
    requires Create(j, name) in SyncFrom(items, i, m, o, x).trace
    requires o.create(j).None?
    ensures var r := SyncFrom(items, i, m, o, x);
      && j < |items|
      && (ShouldPost(items[j], x) ==> r.outcome == PanickedAt(j))
      && (!ShouldPost(items[j], x) ==> Mark(j, items[j].id) in r.trace)
  {
    SameAsLoop(items, i, m, o, x);
    BodyIsLocal(items, o, x);
    BodyChannels(items, o, x);
    BodyHalts(items, o, x);
    BodyMarks(items, o, x);
    LoopFailedCreate(items, i, m, o, x, ItemBody(items, o, x), j, name);
  }

  /**
   The final map is the starting map with the channels the run created
   successfully inserted, in call order; nothing else is ever written to it.
   */
  lemma FinalRegistry(items: seq<Item>, i: nat, m: ChannelMap, o: Oracle, x: string -> string)
    requires i <= |items|
    ensures var r := SyncFrom(items, i, m, o, x);
      r.channels == Replay(m, r.trace, o)
  {
    SameAsLoop(items, i, m, o, x);
    BodyReplay(items, o, x);
    LoopReplay(items, i, m, o, ItemBody(items, o, x));
  }

  // ---------------------------------------------------------------- examples

  /** A title whose characters each map to the expected channel-name character has that channel name. */
  lemma ChannelNameFromChars(title: string, expected: string)
    requires |title| == |expected|
    requires forall k :: 0 <= k < |title| ==> NameChar(title[k]) == expected[k]
    ensures ChannelName(title) == expected
  {
    var n := ChannelName(title);
    forall k | 0 <= k < |n|
      ensures n[k] == expected[k]
    {
    }
  }

  /** The feed title "My Channel" names the channel "my-channel". */
  lemma SampleChannelName()
    ensures ChannelName("My Channel") == "my-channel"
  {
    ChannelNameFromChars("My Channel", "my-channel");
  }

  /**
   One item whose channel does not exist yet, with every call succeeding: the
   channel is created under the item's channel name, the extracted text is
   posted to the new id, the item is marked read and the run completes.
   */
  lemma SingleItemScenario(item: Item, o: Oracle, x: string -> string, id: string)
    requires ShouldPost(item, x)
    requires o.create(0) == Some(id) && o.post(0) && o.mark(0)
    ensures var name := ChannelName(item.sourceTitle);
      SendMessages([item], map[], o, x) ==
        Run([Create(0, name), Post(0, id, MessageContent(item.content, x)), Mark(0, item.id)],
            map[name := id], Completed)
  {
    var name := ChannelName(item.sourceTitle);
    var step := HandleItem([item], 0, map[], o, x);
    assert step.effects == [Create(0, name), Post(0, id, MessageContent(item.content, x)), Mark(0, item.id)];
    assert SyncFrom([item], 1, step.channels, o, x) == Run([], map[name := id], Completed);
  }

  /**
   The rate-limited post: the channel is known, the post fails, so the run
   reports the failure at that item and never marks it read.
   */
  lemma RateLimitedScenario(item: Item, m: ChannelMap, o: Oracle, x: string -> string)
    requires ChannelName(item.sourceTitle) in m
    requires ShouldPost(item, x)
    requires !o.post(0)
    ensures SendMessages([item], m, o, x) ==
      Run([Post(0, m[ChannelName(item.sourceTitle)], MessageContent(item.content, x))], m, StoppedAt(0, PostFailed))
  {
  }

  /** Two items of the same feed: the channel is created once and both posts go to it. */
  lemma SharedChannelScenario(first: Item, second: Item, o: Oracle, x: string -> string, id: string)
    requires first.sourceTitle == second.sourceTitle
    requires ShouldPost(first, x) && ShouldPost(second, x)
    requires o.create(0) == Some(id) && o.post(0) && o.mark(0) && o.post(1) && o.mark(1)
    ensures var name := ChannelName(first.sourceTitle);
      SendMessages([first, second], map[], o, x) ==
        Run([Create(0, name), Post(0, id, MessageContent(first.content, x)), Mark(0, first.id),
             Post(1, id, MessageContent(second.content, x)), Mark(1, second.id)],
            map[name := id], Completed)
  {
    var items := [first, second];
    var name := ChannelName(first.sourceTitle);
    var step0 := HandleItem(items, 0, map[], o, x);
    assert step0.effects == [Create(0, name), Post(0, id, MessageContent(first.content, x)), Mark(0, first.id)];
    var step1 := HandleItem(items, 1, step0.channels, o, x);
    assert step1.effects == [Post(1, id, MessageContent(second.content, x)), Mark(1, second.id)];
    assert SyncFrom(items, 2, step1.channels, o, x) == Run([], map[name := id], Completed);
    assert SyncFrom(items, 1, step0.channels, o, x) == Run(step1.effects, map[name := id], Completed);
  }

  /**
   A channel the guild already listed is never created by the run, and every
   post to it goes to the listed id (the last one, for a name listed twice).
   */
  lemma ListedChannelsNotCreated(items: seq<Item>, listing: seq<Channel>, o: Oracle, x: string -> string, c: nat)
    requires c < |listing| && LastWithName(listing, c)
    ensures var t := RunOnce(items, listing, o, x).trace;
      && (forall k :: Create(k, listing[c].name) !in t)
      && (forall k: nat, ch, text :: Post(k, ch, text) in t && k < |items| && NameOf(items, k) == listing[c].name ==> ch == listing[c].id)
  {
    var m := ChannelsFromListing(listing);
    assert listing[c] in listing;
    KnownChannelIsStable(items, 0, m, o, x, listing[c].name);
  }
}
