/**
 The loop of `send_messages` with its body left abstract: `Loop` runs a step
 function over the positions of the batch exactly as `Sync.SyncFrom` runs
 `HandleItem`. Every property of the loop is proved here once, by induction,
 from facts about a single step (the predicates `Local`, `Marks`, ...). The
 module SyncProofs shows that `HandleItem` has those facts and transfers the
 results to `SyncFrom`.
 */
module GenericLoop {
  import opened Wrappers
  import opened Formatting
  import opened Sync

  /** The handling of the item at a position, given the map the loop holds then. */
  type LoopBody = (nat, ChannelMap) -> Step

  /** The loop over `items[i..]` from map `m`, with `body` handling each position. */
  function Loop(items: seq<Item>, i: nat, m: ChannelMap, body: LoopBody): Run
    requires i <= |items|
    decreases |items| - i
  {
    if i == |items| then Run([], m, Completed)
    else
      var step := body(i, m);
      match step.halt
      case Some(outcome) => Run(step.effects, step.channels, outcome)
      case None =>
        var rest := Loop(items, i + 1, step.channels, body);
        Run(step.effects + rest.trace, rest.channels, rest.outcome)
  }

  // ---------------------------------------------------------------- traces

  /** The order of the calls one item makes: create, then post, then mark. */
  function Phase(e: Effect): nat {
    match e
    case Create(_, _) => 0
    case Post(_, _, _) => 1
    case Mark(_, _) => 2
  }

  /** Calls ordered by item position first and by phase second. */
  function Rank(e: Effect): nat {
    3 * e.at + Phase(e)
  }

  /** Every call comes strictly after the previous one in (position, phase) order. */
  predicate InOrder(t: seq<Effect>) {
    forall a, b :: 0 <= a < b < |t| ==> Rank(t[a]) < Rank(t[b])
  }

  lemma ConcatInOrder(a: seq<Effect>, b: seq<Effect>, bound: nat)
    requires InOrder(a) && InOrder(b)
    requires forall e :: e in a ==> Rank(e) < bound
    requires forall e :: e in b ==> Rank(e) >= bound
    ensures InOrder(a + b)
  {
    var t := a + b;
    forall x, y | 0 <= x < y < |t|
      ensures Rank(t[x]) < Rank(t[y])
    {
      if y < |a| {
        assert t[x] == a[x] && t[y] == a[y];
      } else if x >= |a| {
        assert t[x] == b[x - |a|] && t[y] == b[y - |a|];
      } else {
        assert t[x] == a[x] && t[y] == b[y - |a|];
        assert a[x] in a && b[y - |a|] in b;
      }
    }
  }

  /** In an ordered trace that ends with a post of item `j`, item `j` was never marked. */
  lemma NoMarkAfterLastPost(t: seq<Effect>, j: nat)
    requires InOrder(t)
    requires |t| > 0 && t[|t| - 1].Post? && t[|t| - 1].at == j
    ensures forall id :: Mark(j, id) !in t
  {
    forall a | 0 <= a < |t|
      ensures !(t[a].Mark? && t[a].at == j)
    {
      if a < |t| - 1 {
        assert Rank(t[a]) < Rank(t[|t| - 1]);
      }
    }
  }

  /** The item ids passed to mark-as-read, in call order. */
  function MarkIds(t: seq<Effect>): seq<u64> {
    if |t| == 0 then []
    else (if t[0].Mark? then [t[0].id] else []) + MarkIds(t[1..])
  }

  /** The ids of a run of items, in order. */
  function Ids(items: seq<Item>): seq<u64> {
    if |items| == 0 then [] else [items[0].id] + Ids(items[1..])
  }

  lemma IdsCons(items: seq<Item>, i: nat, n: nat)
    requires i < n <= |items|
    ensures Ids(items[i..n]) == [items[i].id] + Ids(items[i + 1..n])
  {
    assert items[i..n][1..] == items[i + 1..n];
  }

  lemma {:induction false} MarkIdsConcat(a: seq<Effect>, b: seq<Effect>)
    ensures MarkIds(a + b) == MarkIds(a) + MarkIds(b)
    decreases |a|
  {
    if |a| > 0 {
      assert (a + b)[1..] == a[1..] + b;
      MarkIdsConcat(a[1..], b);
    } else {
      assert a + b == b;
    }
  }

  /** Mark-as-read was called for every item before this position: on a failed mark, including it. */
  function MarkCallEnd(outcome: Outcome, count: nat): nat {
    match outcome
    case StoppedAt(j, MarkFailed) => j + 1
    case _ => EndIndex(outcome, count)
  }

  /** Item `k` counts as read once its mark-as-read call was made and succeeded. */
  predicate Acknowledged(t: seq<Effect>, o: Oracle, items: seq<Item>, k: nat)
    requires k < |items|
  {
    Mark(k, items[k].id) in t && o.mark(k)
  }

  /** The channel an item is posted to. */
  function NameOf(items: seq<Item>, k: nat): string
    requires k < |items|
  {
    ChannelName(items[k].sourceTitle)
  }

  /** The map after one call: a successful create inserts the returned id, every other call leaves it. */
  function Apply(m: ChannelMap, e: Effect, o: Oracle): ChannelMap {
    if e.Create? && o.create(e.at).Some? then m[e.name := o.create(e.at).value] else m
  }

  /** The map obtained by replaying the calls of a trace on `m`. */
  function Replay(m: ChannelMap, t: seq<Effect>, o: Oracle): ChannelMap
    decreases |t|
  {
    if |t| == 0 then m else Replay(Apply(m, t[0], o), t[1..], o)
  }

  lemma {:induction false} ReplayConcat(m: ChannelMap, a: seq<Effect>, b: seq<Effect>, o: Oracle)
    ensures Replay(m, a + b, o) == Replay(Replay(m, a, o), b, o)
    decreases |a|
  {
    if |a| == 0 {
      assert a + b == b;
    } else {
      assert (a + b)[1..] == a[1..] + b;
      ReplayConcat(Apply(m, a[0], o), a[1..], b, o);
    }
  }

  lemma {:induction false} ReplayWithoutCreates(m: ChannelMap, t: seq<Effect>, o: Oracle)
    requires forall e :: e in t ==> !e.Create?
    ensures Replay(m, t, o) == m
    decreases |t|
  {
    if |t| > 0 {
      assert t[0] in t;
      assert forall e :: e in t[1..] ==> e in t;
      ReplayWithoutCreates(m, t[1..], o);
    }
  }

  // ---------------------------------------------------------------- facts about one step

  /** The calls of a step for item `j` carry `j` and are in phase order, and a halt is at `j`. */
  ghost predicate Local(s: Step, j: nat) {
    && InOrder(s.effects)
    && (forall e :: e in s.effects ==> e.at == j)
    && (s.halt.Some? ==> !s.halt.value.Completed? && s.halt.value.index == j)
  }

  /** The mark-as-read call of a step: the item's own id, made unless the step stopped before it. */
  ghost predicate Marks(s: Step, j: nat, item: Item, o: Oracle) {
    var marked := s.halt.None? || s.halt == Some(StoppedAt(j, MarkFailed));
    && MarkIds(s.effects) == (if marked then [item.id] else [])
    && (forall id :: Mark(j, id) in s.effects ==> id == item.id)
    && (Mark(j, item.id) in s.effects <==> marked)
    && (s.halt.None? ==> o.mark(j))
    && (s.halt == Some(StoppedAt(j, MarkFailed)) ==> !o.mark(j))
  }

  /**
   What a step does to the map: a create only for the item's own name and only
   when it is absent, an insert only on success, a post only to the id the map
   then holds for the name, and only with the item's message.
   */
  ghost predicate Channels(s: Step, j: nat, mm: ChannelMap, items: seq<Item>, o: Oracle, x: string -> string)
    requires j < |items|
  {
    var name := NameOf(items, j);
    && s.channels == (if name !in mm && o.create(j).Some? then mm[name := o.create(j).value] else mm)
    && (forall k, n :: Create(k, n) in s.effects ==> k == j && n == name && name !in mm)
    && (name !in mm ==> Create(j, name) in s.effects)
    && (forall k, ch, text :: Post(k, ch, text) in s.effects ==>
          && k == j && name in s.channels && ch == s.channels[name]
          && ShouldPost(items[j], x) && text == MessageContent(items[j].content, x))
  }

  /** Within a step, a mark of a posting item comes right after its successful post. */
  ghost predicate MarkAfterPost(s: Step, j: nat, items: seq<Item>, o: Oracle, x: string -> string)
    requires j < |items|
  {
    forall a :: 0 <= a < |s.effects| && s.effects[a].Mark? && ShouldPost(items[j], x) ==>
      0 < a && s.effects[a - 1].Post? && s.effects[a - 1].at == j && o.post(j)
  }

  /** Why a step halts, and which of its calls is the last one. */
  ghost predicate Halts(s: Step, j: nat, mm: ChannelMap, items: seq<Item>, o: Oracle, x: string -> string)
    requires j < |items|
  {
    var h := s.effects;
    var name := NameOf(items, j);
    && |h| > 0
    && (s.halt == Some(PanickedAt(j)) <==> ShouldPost(items[j], x) && name !in mm && o.create(j).None?)
    && (s.halt == Some(PanickedAt(j)) ==> h[|h| - 1] == Create(j, name))
    && (s.halt == Some(StoppedAt(j, PostFailed)) ==> ShouldPost(items[j], x) && !o.post(j) && h[|h| - 1].Post?)
    && (s.halt == Some(StoppedAt(j, MarkFailed)) ==> !o.mark(j) && h[|h| - 1] == Mark(j, items[j].id))
  }

  ghost predicate AllLocal(items: seq<Item>, body: LoopBody) {
    forall j: nat, mm {:trigger Local(body(j, mm), j)} :: j < |items| ==> Local(body(j, mm), j)
  }

  ghost predicate AllMarks(items: seq<Item>, o: Oracle, body: LoopBody) {
    forall j: nat, mm {:trigger Marks(body(j, mm), j, items[j], o)} :: j < |items| ==> Marks(body(j, mm), j, items[j], o)
  }

  ghost predicate AllChannels(items: seq<Item>, o: Oracle, x: string -> string, body: LoopBody) {
    forall j: nat, mm {:trigger Channels(body(j, mm), j, mm, items, o, x)} :: j < |items| ==> Channels(body(j, mm), j, mm, items, o, x)
  }

  ghost predicate AllMarkAfterPost(items: seq<Item>, o: Oracle, x: string -> string, body: LoopBody) {
    forall j: nat, mm {:trigger MarkAfterPost(body(j, mm), j, items, o, x)} :: j < |items| ==> MarkAfterPost(body(j, mm), j, items, o, x)
  }

  ghost predicate AllHalts(items: seq<Item>, o: Oracle, x: string -> string, body: LoopBody) {
    forall j: nat, mm {:trigger Halts(body(j, mm), j, mm, items, o, x)} :: j < |items| ==> Halts(body(j, mm), j, mm, items, o, x)
  }

  ghost predicate AllReplay(items: seq<Item>, o: Oracle, body: LoopBody) {
    forall j: nat, mm :: j < |items| ==> Replay(mm, body(j, mm).effects, o) == body(j, mm).channels
  }

  // ---------------------------------------------------------------- the loop

  /** A stop lies inside the batch, at or after the starting position. */
  lemma {:induction false} LoopOutcome(items: seq<Item>, i: nat, m: ChannelMap, body: LoopBody)
    requires i <= |items|
    requires AllLocal(items, body)
    ensures var r := Loop(items, i, m, body);
      r.outcome.Completed? || i <= r.outcome.index < |items|
    decreases |items| - i
  {
    if i < |items| {
      var step := body(i, m);
      assert Local(step, i);
      if step.halt.None? {
        LoopOutcome(items, i + 1, step.channels, body);
      }
    }
  }

  /** Calls are in (position, phase) order, belong to positions the loop reached, and a stop lies in the batch. */
  lemma {:induction false} LoopInOrder(items: seq<Item>, i: nat, m: ChannelMap, body: LoopBody)
    requires i <= |items|
    requires AllLocal(items, body)
    ensures var r := Loop(items, i, m, body);
      && InOrder(r.trace)
      && (r.outcome.Completed? || i <= r.outcome.index < |items|)
      && (forall e :: e in r.trace ==> i <= e.at <= EndIndex(r.outcome, |items|) && e.at < |items|)
    decreases |items| - i
  {
    if i < |items| {
      var step := body(i, m);
      assert Local(step, i);
      if step.halt.None? {
        var rest := Loop(items, i + 1, step.channels, body);
        LoopInOrder(items, i + 1, step.channels, body);
        ConcatInOrder(step.effects, rest.trace, 3 * i + 3);
      }
    }
  }

  lemma {:induction false} LoopKeepsEntries(items: seq<Item>, i: nat, m: ChannelMap, o: Oracle, x: string -> string, body: LoopBody, name: string)
    requires i <= |items|
    requires AllChannels(items, o, x, body)
    requires name in m
    ensures var r := Loop(items, i, m, body);
      name in r.channels && r.channels[name] == m[name]
    decreases |items| - i
  {
    if i < |items| {
      var step := body(i, m);
      assert Channels(step, i, m, items, o, x);
      if step.halt.None? {
        LoopKeepsEntries(items, i + 1, step.channels, o, x, body, name);
      }
    }
  }

  lemma {:induction false} LoopMarkIds(items: seq<Item>, i: nat, m: ChannelMap, o: Oracle, body: LoopBody)
    requires i <= |items|
    requires AllLocal(items, body) && AllMarks(items, o, body)
    ensures var r := Loop(items, i, m, body);
      i <= MarkCallEnd(r.outcome, |items|) <= |items| &&
      MarkIds(r.trace) == Ids(items[i..MarkCallEnd(r.outcome, |items|)])
    decreases |items| - i
  {
    var r := Loop(items, i, m, body);
    if i == |items| {
      assert items[i..i] == [];
    } else {
      var step := body(i, m);
      assert Local(step, i) && Marks(step, i, items[i], o);
      var n := MarkCallEnd(r.outcome, |items|);
      if step.halt.None? {
        var rest := Loop(items, i + 1, step.channels, body);
        LoopOutcome(items, i + 1, step.channels, body);
        LoopMarkIds(items, i + 1, step.channels, o, body);
        MarkIdsConcat(step.effects, rest.trace);
        IdsCons(items, i, n);
      } else if n == i {
        assert items[i..i] == [];
      } else {
        IdsCons(items, i, n);
        assert items[i + 1..n] == [];
      }
    }
  }

  lemma {:induction false} LoopAcknowledged(items: seq<Item>, i: nat, m: ChannelMap, o: Oracle, body: LoopBody, k: nat)
    requires i <= k < |items|
    requires AllLocal(items, body) && AllMarks(items, o, body)
    ensures var r := Loop(items, i, m, body);
      Acknowledged(r.trace, o, items, k) <==> k < EndIndex(r.outcome, |items|)
    decreases |items| - i
  {
    var step := body(i, m);
    assert Local(step, i) && Marks(step, i, items[i], o);
    if step.halt.None? {
      var rest := Loop(items, i + 1, step.channels, body);
      LoopInOrder(items, i + 1, step.channels, body);
      if k > i {
        LoopAcknowledged(items, i + 1, step.channels, o, body, k);
        assert Mark(k, items[k].id) !in step.effects;
      } else {
        assert Mark(k, items[k].id) !in rest.trace;
      }
    }
  }

  lemma {:induction false} LoopPostsGuarded(items: seq<Item>, i: nat, m: ChannelMap, o: Oracle, x: string -> string, body: LoopBody)
    requires i <= |items|
    requires AllChannels(items, o, x, body)
    ensures var r := Loop(items, i, m, body);
      forall k: nat, ch, text :: Post(k, ch, text) in r.trace ==>
        k < |items| && ShouldPost(items[k], x) && text == MessageContent(items[k].content, x)
    decreases |items| - i
  {
    if i < |items| {
      var step := body(i, m);
      assert Channels(step, i, m, items, o, x);
      if step.halt.None? {
        LoopPostsGuarded(items, i + 1, step.channels, o, x, body);
      }
    }
  }

  lemma {:induction false} LoopMarkAfterPost(items: seq<Item>, i: nat, m: ChannelMap, o: Oracle, x: string -> string, body: LoopBody, a: nat)
    requires i <= |items|
    requires AllLocal(items, body) && AllMarkAfterPost(items, o, x, body)
    requires a < |Loop(items, i, m, body).trace|
    requires var t := Loop(items, i, m, body).trace;
      t[a].Mark? && t[a].at < |items| && ShouldPost(items[t[a].at], x)
    ensures var t := Loop(items, i, m, body).trace;
      0 < a && t[a - 1].Post? && t[a - 1].at == t[a].at && o.post(t[a].at)
    decreases |items| - i
  {
    var step := body(i, m);
    var h := step.effects;
    assert Local(step, i) && MarkAfterPost(step, i, items, o, x);
    if a < |h| {
      assert h[a] in h;
    } else {
      var rest := Loop(items, i + 1, step.channels, body);
      assert Loop(items, i, m, body).trace == h + rest.trace;
      LoopMarkAfterPost(items, i + 1, step.channels, o, x, body, a - |h|);
    }
  }

  lemma {:induction false} LoopKnownChannel(items: seq<Item>, i: nat, m: ChannelMap, o: Oracle, x: string -> string, body: LoopBody, name: string)
    requires i <= |items|
    requires name in m
    requires AllChannels(items, o, x, body)
    ensures var t := Loop(items, i, m, body).trace;
      forall k :: Create(k, name) !in t
    ensures var t := Loop(items, i, m, body).trace;
      forall k: nat, ch, text :: Post(k, ch, text) in t && k < |items| && NameOf(items, k) == name ==> ch == m[name]
    decreases |items| - i
  {
    if i < |items| {
      var step := body(i, m);
      assert Channels(step, i, m, items, o, x);
      if step.halt.None? {
        LoopKnownChannel(items, i + 1, step.channels, o, x, body, name);
      }
    }
  }

  /**
   Every position the loop reaches creates its channel when the name is missing
   from the map it then holds: absent from the start map and every earlier
   create of the name failed.
   */
  lemma {:induction false} LoopCreatesMissing(items: seq<Item>, i: nat, m: ChannelMap, o: Oracle, x: string -> string, body: LoopBody, k: nat)
    requires i <= k < |items|
    requires AllLocal(items, body) && AllChannels(items, o, x, body)
    requires k <= EndIndex(Loop(items, i, m, body).outcome, |items|)
    requires NameOf(items, k) !in m
    requires var t := Loop(items, i, m, body).trace;
      forall j :: i <= j < k && Create(j, NameOf(items, k)) in t ==> o.create(j).None?
    ensures Create(k, NameOf(items, k)) in Loop(items, i, m, body).trace
    decreases |items| - i
  {
    var name := NameOf(items, k);
    var step := body(i, m);
    var t := Loop(items, i, m, body).trace;
    assert Local(step, i) && Channels(step, i, m, items, o, x);
    if k == i {
      assert Create(i, name) in step.effects;
      assert step.halt.None? ==> t == step.effects + Loop(items, i + 1, step.channels, body).trace;
    } else {
      assert step.halt.None?;
      var rest := Loop(items, i + 1, step.channels, body);
      assert t == step.effects + rest.trace;
      assert Create(i, name) in t ==> o.create(i).None?;
      assert name !in step.channels;
      LoopCreatesMissing(items, i + 1, step.channels, o, x, body, k);
    }
  }

  lemma {:induction false} LoopCreateWhenAbsent(items: seq<Item>, i: nat, m: ChannelMap, o: Oracle, x: string -> string, body: LoopBody, j: nat, name: string)
    requires i <= |items|
    requires AllLocal(items, body) && AllChannels(items, o, x, body)
    requires Create(j, name) in Loop(items, i, m, body).trace
    ensures j < |items| && name == NameOf(items, j) && name !in m
    ensures var t := Loop(items, i, m, body).trace;
      forall k :: i <= k < j && Create(k, name) in t ==> o.create(k).None?
    decreases |items| - i
  {
    var step := body(i, m);
    var t := Loop(items, i, m, body).trace;
    assert Local(step, i) && Channels(step, i, m, items, o, x);
    if Create(j, name) !in step.effects {
      var rest := Loop(items, i + 1, step.channels, body);
      assert t == step.effects + rest.trace;
      LoopCreateWhenAbsent(items, i + 1, step.channels, o, x, body, j, name);
      LoopInOrder(items, i + 1, step.channels, body);
      forall k | i <= k < j && Create(k, name) in t
        ensures o.create(k).None?
      {
        if k == i {
          assert Create(k, name) !in rest.trace;
        }
      }
    }
  }

  lemma {:induction false} LoopCreatedReused(items: seq<Item>, i: nat, m: ChannelMap, o: Oracle, x: string -> string, body: LoopBody, j: nat, name: string, id: string)
    requires i <= |items|
    requires AllLocal(items, body) && AllChannels(items, o, x, body)
    requires Create(j, name) in Loop(items, i, m, body).trace
    requires o.create(j) == Some(id)
    ensures var t := Loop(items, i, m, body).trace;
      forall k :: j < k ==> Create(k, name) !in t
    ensures var t := Loop(items, i, m, body).trace;
      forall k: nat, ch, text :: Post(k, ch, text) in t && k < |items| && NameOf(items, k) == name ==> ch == id
    decreases |items| - i
  {
    var step := body(i, m);
    assert Local(step, i) && Channels(step, i, m, items, o, x);
    if step.halt.None? {
      var rest := Loop(items, i + 1, step.channels, body);
      assert Loop(items, i, m, body).trace == step.effects + rest.trace;
      if Create(j, name) in step.effects {
        LoopKnownChannel(items, i + 1, step.channels, o, x, body, name);
      } else {
        LoopInOrder(items, i + 1, step.channels, body);
        LoopCreateWhenAbsent(items, i + 1, step.channels, o, x, body, j, name);
        LoopCreatedReused(items, i + 1, step.channels, o, x, body, j, name, id);
        forall k: nat, ch, text | Post(k, ch, text) in step.effects
          ensures NameOf(items, k) != name
        {
        }
      }
    }
  }

  /** A run that did not complete ends with the calls of the step that stopped it. */
  lemma {:induction false} LoopEndsWithHaltingStep(items: seq<Item>, i: nat, m: ChannelMap, body: LoopBody)
    returns (mj: ChannelMap, prefix: seq<Effect>)
    requires i <= |items|
    requires AllLocal(items, body)
    ensures var r := Loop(items, i, m, body);
      !r.outcome.Completed? ==>
        && i <= r.outcome.index < |items|
        && body(r.outcome.index, mj).halt == Some(r.outcome)
        && r.trace == prefix + body(r.outcome.index, mj).effects
    decreases |items| - i
  {
    mj, prefix := m, [];
    if i < |items| {
      var step := body(i, m);
      assert Local(step, i);
      if step.halt.None? {
        var rest := Loop(items, i + 1, step.channels, body);
        var mj', prefix' := LoopEndsWithHaltingStep(items, i + 1, step.channels, body);
        mj, prefix := mj', step.effects + prefix';
        if !rest.outcome.Completed? {
          var last := body(rest.outcome.index, mj');
          assert step.effects + (prefix' + last.effects) == step.effects + prefix' + last.effects;
        }
      }
    }
  }

  lemma LoopEnds(items: seq<Item>, i: nat, m: ChannelMap, o: Oracle, x: string -> string, body: LoopBody)
    requires i <= |items|
    requires AllLocal(items, body) && AllHalts(items, o, x, body)
    ensures var r := Loop(items, i, m, body);
      r.outcome.PanickedAt? ==>
        var j := r.outcome.index;
        j < |items| && ShouldPost(items[j], x) && o.create(j).None? && |r.trace| > 0 &&
        r.trace[|r.trace| - 1] == Create(j, NameOf(items, j))
    ensures var r := Loop(items, i, m, body);
      r.outcome.StoppedAt? && r.outcome.cause == PostFailed ==>
        var j := r.outcome.index;
        j < |items| && ShouldPost(items[j], x) && !o.post(j) && |r.trace| > 0 &&
        r.trace[|r.trace| - 1].Post? && r.trace[|r.trace| - 1].at == j
    ensures var r := Loop(items, i, m, body);
      r.outcome.StoppedAt? && r.outcome.cause == MarkFailed ==>
        var j := r.outcome.index;
        j < |items| && !o.mark(j) && |r.trace| > 0 && r.trace[|r.trace| - 1] == Mark(j, items[j].id)
  {
    var r := Loop(items, i, m, body);
    var mj, prefix := LoopEndsWithHaltingStep(items, i, m, body);
    if !r.outcome.Completed? {
      var j := r.outcome.index;
      var step := body(j, mj);
      assert Local(step, j) && Halts(step, j, mj, items, o, x);
      assert r.trace[|r.trace| - 1] == step.effects[|step.effects| - 1];
    }
  }

  lemma {:induction false} LoopFailedCreate(items: seq<Item>, i: nat, m: ChannelMap, o: Oracle, x: string -> string, body: LoopBody, j: nat, name: string)
    requires i <= |items|
    requires AllLocal(items, body) && AllChannels(items, o, x, body)
    requires AllHalts(items, o, x, body) && AllMarks(items, o, body)
    requires Create(j, name) in Loop(items, i, m, body).trace
    requires o.create(j).None?
    ensures var r := Loop(items, i, m, body);
      && j < |items|
      && (ShouldPost(items[j], x) ==> r.outcome == PanickedAt(j))
      && (!ShouldPost(items[j], x) ==> Mark(j, items[j].id) in r.trace)
    decreases |items| - i
  {
    var step := body(i, m);
    assert Local(step, i) && Channels(step, i, m, items, o, x);
    assert Halts(step, i, m, items, o, x) && Marks(step, i, items[i], o);
    if Create(j, name) !in step.effects {
      assert step.halt.None?;
      LoopFailedCreate(items, i + 1, step.channels, o, x, body, j, name);
    } else if !ShouldPost(items[j], x) {
      assert step.halt.Some? ==> step.halt.value.StoppedAt? && step.halt.value.cause == MarkFailed;
      assert Mark(i, items[i].id) in step.effects;
    }
  }

  lemma {:induction false} LoopReplay(items: seq<Item>, i: nat, m: ChannelMap, o: Oracle, body: LoopBody)
    requires i <= |items|
    requires AllReplay(items, o, body)
    ensures var r := Loop(items, i, m, body);
      r.channels == Replay(m, r.trace, o)
    decreases |items| - i
  {
    if i < |items| {
      var step := body(i, m);
      assert Replay(m, step.effects, o) == step.channels;
      if step.halt.None? {
        var rest := Loop(items, i + 1, step.channels, body);
        LoopReplay(items, i + 1, step.channels, o, body);
        ReplayConcat(m, step.effects, rest.trace, o);
      }
    }
  }
}
