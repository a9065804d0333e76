// Observer subscriptions (hynergy-engine/src/runtime/subscription.rs and
// collect_subscription_updates in lib.rs): after every successful tick only the observations that
// changed are published. A client that replays the updates is proved to know, after every
// successful tick, exactly what every one of its subscriptions observes.
module Subscriptions {
  import opened Support

  datatype Observer = Observer(device: nat, index: nat)

  /** What an observer shows: the bits of its value, or that its island is unavailable. */
  datatype Observation<B> = Available(bits: B) | Unavailable

  datatype Subscription<B> = Subscription(id: nat, observer: Observer, published: Option<Observation<B>>)

  datatype Update<B> = Update(subscription: nat, observation: Observation<B>)

  datatype SubscriptionError =
    | UnknownDevice(device: nat)
    | UnknownObserver(observer: Observer)
    | IdExhausted
    | UnknownSubscription(id: nat)

  /** The island runtimes after a tick, as far as observers can tell: each observer's observation,
      and whether its island's outputs have been marked dirty since they were last marked clean. */
  datatype View<!B> = View(observe: Observer -> Observation<B>, dirty: Observer -> bool)

  /** What the runtimes guarantee about the dirty flag: an available island whose flag is clean shows
      what it showed when the flag was cleaned. */
  ghost predicate Honest<B>(cleaned: View<B>, now: View<B>) {
    forall o ::
      !now.dirty(o) && now.observe(o).Available? && cleaned.observe(o).Available? ==>
      now.observe(o) == cleaned.observe(o)
  }

  ghost predicate IdsAscend<B>(subscriptions: seq<Subscription<B>>) {
    forall i, j | 0 <= i < j < |subscriptions| :: subscriptions[i].id < subscriptions[j].id
  }

  /** The client's knowledge after replaying a list of updates. */
  ghost function Replay<B>(known: map<nat, Observation<B>>, updates: seq<Update<B>>): map<nat, Observation<B>> {
    if updates == [] then known
    else
      var last := updates[|updates| - 1];
      Replay(known, updates[..|updates| - 1])[last.subscription := last.observation]
  }

  /** A published baseline is what the client knows, and what was observed at the last cleaning. */
  ghost predicate IsBaseline<B>(s: Subscription<B>, known: map<nat, Observation<B>>, cleaned: View<B>) {
    s.published.Some? ==> s.id in known && known[s.id] == s.published.value == cleaned.observe(s.observer)
  }

  /** Client and subscription agree on the present observation. */
  ghost predicate UpToDate<B>(s: Subscription<B>, known: map<nat, Observation<B>>, view: View<B>) {
    s.id in known && s.published == Some(known[s.id]) && known[s.id] == view.observe(s.observer)
  }

  ghost predicate UpdatesAscend<B>(updates: seq<Update<B>>) {
    forall i, j | 0 <= i < j < |updates| :: updates[i].subscription < updates[j].subscription
  }

  /** The update for one subscription, or none if the baseline already says it. */
  ghost function Due<B>(s: Subscription<B>, view: View<B>): seq<Update<B>> {
    if s.published == Some(view.observe(s.observer)) then [] else [Update(s.id, view.observe(s.observer))]
  }

  /** Exactly the changed observations, once each, in subscription order. */
  ghost function AllDue<B>(subscriptions: seq<Subscription<B>>, view: View<B>): seq<Update<B>> {
    if subscriptions == [] then []
    else AllDue(subscriptions[..|subscriptions| - 1], view) + Due(subscriptions[|subscriptions| - 1], view)
  }

  ghost predicate Changed<B>(s: Subscription<B>, view: View<B>) {
    s.published != Some(view.observe(s.observer))
  }

  ghost predicate IsDue<B>(s: Subscription<B>, view: View<B>, u: Update<B>) {
    Changed(s, view) && u == Update(s.id, view.observe(s.observer))
  }

  lemma {:induction false} DueBelow<B>(subscriptions: seq<Subscription<B>>, view: View<B>, bound: nat)
    requires forall i | 0 <= i < |subscriptions| :: subscriptions[i].id < bound
    ensures forall i | 0 <= i < |AllDue(subscriptions, view)| :: AllDue(subscriptions, view)[i].subscription < bound
  {
    if subscriptions != [] {
      DueBelow(subscriptions[..|subscriptions| - 1], view, bound);
    }
  }

  /** The due updates are minimal: one for every changed subscription and none for the others, in
      ascending order of id. */
  lemma {:induction false} AllDueIsMinimal<B>(subscriptions: seq<Subscription<B>>, view: View<B>)
    requires IdsAscend(subscriptions)
    ensures UpdatesAscend(AllDue(subscriptions, view))
    ensures forall u ::
      u in AllDue(subscriptions, view) <==> exists i :: 0 <= i < |subscriptions| && IsDue(subscriptions[i], view, u)
  {
    if subscriptions != [] {
      var n := |subscriptions| - 1;
      var older, last := subscriptions[..n], subscriptions[n];
      AllDueIsMinimal(older, view);
      assert forall i | 0 <= i < n :: older[i] == subscriptions[i];
      var a, b := AllDue(older, view), Due(last, view);
      forall k | 0 <= k < n ensures older[k].id < last.id { assert subscriptions[k].id < subscriptions[n].id; }
      DueBelow(older, view, last.id);
      forall u ensures u in a + b <==> exists i :: 0 <= i < |subscriptions| && IsDue(subscriptions[i], view, u) {
        assert u in b <==> IsDue(subscriptions[n], view, u);
        if u in a {
          var i :| 0 <= i < |older| && IsDue(older[i], view, u);
          assert IsDue(subscriptions[i], view, u);
        }
      }
    }
  }

  ghost function Refreshed<B>(s: Subscription<B>, view: View<B>): Subscription<B> {
    s.(published := Some(view.observe(s.observer)))
  }

  /** The identifiers from one up to `next`, exclusive. */
  ghost function IdsBelow(next: nat): set<nat> {
    set id: nat | id < next && IsId(id)
  }

  ghost predicate IsId(id: nat) {
    1 <= id
  }

  lemma {:induction false} IdsBelowCount(next: nat)
    requires 1 <= next
    ensures |IdsBelow(next)| == next - 1
  {
    if next > 1 {
      IdsBelowCount(next - 1);
      assert IdsBelow(next) == IdsBelow(next - 1) + {next - 1};
    }
  }

  class World<B(==,!new)> {
    var nextId: Option<nat>
    var subscriptions: seq<Subscription<B>>
    var updates: seq<Update<B>>
    /** Every id ever handed out. */
    ghost var issued: set<nat>
    /** What a client that replays all updates knows. */
    ghost var known: map<nat, Observation<B>>
    /** The runtimes when their flags were last cleaned. */
    ghost var cleaned: View<B>

    ghost predicate Valid()
      reads this
    {
      && IdsAscend(subscriptions) && (forall s | s in subscriptions :: s.id in issued)
      && (nextId.Some? ==> 1 <= nextId.value < U32_LIMIT)
      && issued == IdsBelow(if nextId.Some? then nextId.value else U32_LIMIT)
      && (forall i | 0 <= i < |subscriptions| :: IsBaseline(subscriptions[i], known, cleaned))
      && (forall id | id in known :: id in issued)
    }

    constructor (view: View<B>)
      ensures Valid() && subscriptions == [] && updates == [] && issued == {} && known == map[] && cleaned == view
    {
      nextId, subscriptions, updates, issued, known, cleaned := Some(1), [], [], {}, map[], view;
    }

    /** `subscribe_observer`. `observerCount` is the number of observers of the device's definition,
        or None for an unknown device. Ids are handed out in ascending order and never twice; a known observer is
        refused only once all of them are gone. */
    method Subscribe(observer: Observer, observerCount: Option<nat>) returns (result: Result<nat, SubscriptionError>)
      requires Valid()
      modifies this
      ensures Valid() && updates == old(updates) && known == old(known) && cleaned == old(cleaned)
      ensures observerCount.None? ==> result == Err(UnknownDevice(observer.device))
      ensures observerCount.Some? && observer.index >= observerCount.value ==> result == Err(UnknownObserver(observer))
      ensures observerCount.Some? && observer.index < observerCount.value ==>
        if |old(issued)| < U32_LIMIT - 1 then result == Ok(|old(issued)| + 1) else result == Err(IdExhausted)
      ensures result.Err? ==> subscriptions == old(subscriptions) && issued == old(issued)
      ensures result.Ok? ==>
                && result.value !in old(issued) && issued == old(issued) + {result.value}
                && subscriptions == old(subscriptions) + [Subscription(result.value, observer, None)]
    {
      if observerCount.None? {
        return Err(UnknownDevice(observer.device));
      }
      if observer.index >= observerCount.value {
        return Err(UnknownObserver(observer));
      }
      IdsBelowCount(if nextId.Some? then nextId.value else U32_LIMIT);
      if nextId.None? {
        return Err(IdExhausted);
      }
      var id := nextId.value;
      assert forall i | 0 <= i < |subscriptions| :: subscriptions[i] in subscriptions;
      nextId := if id + 1 < U32_LIMIT then Some(id + 1) else None;
      subscriptions := subscriptions + [Subscription(id, observer, None)];
      issued := issued + {id};
      result := Ok(id);
    }

    /** `unsubscribe`. */
    method Unsubscribe(id: nat) returns (result: Result<(), SubscriptionError>)
      requires Valid()
      modifies this`subscriptions
      ensures Valid()
      ensures result ==
                if exists s :: s in old(subscriptions) && s.id == id then Ok(()) else Err(UnknownSubscription(id))
      ensures forall s :: s in subscriptions <==> s in old(subscriptions) && s.id != id
    {
      var low: nat, high: nat := 0, |subscriptions|;
      while low < high
        invariant low <= high <= |subscriptions|
        invariant forall i | 0 <= i < low :: subscriptions[i].id < id
        invariant forall i | high <= i < |subscriptions| :: id < subscriptions[i].id
      {
        var middle := low + (high - low) / 2;
        if subscriptions[middle].id == id {
          RemoveAt(middle);
          return Ok(());
        } else if subscriptions[middle].id < id {
          low := middle + 1;
        } else {
          high := middle;
        }
      }
      return Err(UnknownSubscription(id));
    }

    method RemoveAt(i: nat)
      requires Valid() && i < |subscriptions|
      modifies this`subscriptions
      ensures Valid()
      ensures forall s :: s in subscriptions <==> s in old(subscriptions) && s.id != old(subscriptions)[i].id
    {
      ghost var before := subscriptions;
      subscriptions := subscriptions[..i] + subscriptions[i + 1..];
      assert before == before[..i] + [before[i]] + before[i + 1..];
      forall k | 0 <= k < |subscriptions| ensures subscriptions[k] in before { }
    }

    /** `SubscriptionRegistry::remove_device`: keep the subscriptions of other devices, in order. */
    method RemoveDevice(device: nat)
      requires Valid()
      modifies this`subscriptions
      ensures Valid()
      ensures forall s :: s in subscriptions <==> s in old(subscriptions) && s.observer.device != device
    {
      var kept: seq<Subscription<B>> := [];
      for i := 0 to |subscriptions|
        invariant IdsAscend(kept) && forall s | s in kept :: i > 0 && s.id <= subscriptions[i - 1].id
        invariant forall s :: s in kept <==> s in subscriptions[..i] && s.observer.device != device
      {
        assert subscriptions[..i + 1] == subscriptions[..i] + [subscriptions[i]];
        assert forall k | 0 <= k < |kept| :: kept[k] in kept;
        if subscriptions[i].observer.device != device {
          kept := kept + [subscriptions[i]];
        }
      }
      assert subscriptions[..|subscriptions|] == subscriptions;
      forall k | 0 <= k < |kept| ensures IsBaseline(kept[k], known, cleaned) { assert kept[k] in kept; }
      subscriptions := kept;
    }

    /** The part of a tick that concerns subscriptions. A failed tick publishes nothing; a successful
        one publishes exactly the changed observations, after which the client knows everything. */
    method Tick(succeeds: bool, view: View<B>)
      requires Valid() && (succeeds ==> Honest(cleaned, view))
      modifies this
      ensures Valid() && issued == old(issued)
      ensures !succeeds ==>
        updates == [] && subscriptions == old(subscriptions) && known == old(known) && cleaned == old(cleaned)
      ensures succeeds ==>
                && updates == AllDue(old(subscriptions), view) && known == Replay(old(known), updates)
                  && cleaned == view
                && |subscriptions| == |old(subscriptions)|
                && forall i | 0 <= i < |subscriptions| ::
                     subscriptions[i] == Refreshed(old(subscriptions)[i], view)
                       && UpToDate(subscriptions[i], known, view)
    {
      updates := [];
      if succeeds {
        Collect(view);
      }
    }

    /** `collect_subscription_updates`. */
    method Collect(view: View<B>)
      requires Valid() && Honest(cleaned, view)
      modifies this
      ensures Valid() && issued == old(issued)
      ensures updates == AllDue(old(subscriptions), view) && known == Replay(old(known), updates) && cleaned == view
      ensures |subscriptions| == |old(subscriptions)|
      ensures forall i | 0 <= i < |subscriptions| ::
                subscriptions[i] == Refreshed(old(subscriptions)[i], view) && UpToDate(subscriptions[i], known, view)
    {
      ghost var start := subscriptions;
      PublishAll(view);
      CollectedIsFaithful(start, subscriptions, known, cleaned, view, issued);
      known, cleaned := Replay(known, updates), view;
    }

    method PublishAll(view: View<B>)
      requires Honest(cleaned, view)
        && forall i | 0 <= i < |subscriptions| :: IsBaseline(subscriptions[i], known, cleaned)
      modifies this`subscriptions, this`updates
      ensures updates == AllDue(old(subscriptions), view) && |subscriptions| == |old(subscriptions)|
      ensures forall i | 0 <= i < |subscriptions| :: subscriptions[i] == Refreshed(old(subscriptions)[i], view)
    {
      ghost var start := subscriptions;
      updates := [];
      assert start[..0] == [];
      for i := 0 to |subscriptions|
        invariant |subscriptions| == |start| && updates == AllDue(start[..i], view)
        invariant forall j | 0 <= j < i :: subscriptions[j] == Refreshed(start[j], view)
        invariant forall j | i <= j < |start| :: subscriptions[j] == start[j]
      {
        assert start[..i + 1][..i] == start[..i];
        assert IsBaseline(start[i], known, cleaned);
        Publish(i, view);
      }
      assert start[..|start|] == start;
    }

    /** Publish one subscription if its observation changed. A clean island need not be asked. */
    method Publish(i: nat, view: View<B>)
      requires i < |subscriptions| && Honest(cleaned, view) && IsBaseline(subscriptions[i], known, cleaned)
      modifies this`subscriptions, this`updates
      ensures subscriptions == old(subscriptions)[i := Refreshed(old(subscriptions)[i], view)]
      ensures updates == old(updates) + Due(old(subscriptions)[i], view)
    {
      var subscription := subscriptions[i];
      match view.observe(subscription.observer) {
        case Available(bits) =>
          if subscription.published.Some? && subscription.published.value.Available?
              && !view.dirty(subscription.observer) {
            return;
          }
          if subscription.published == Some(Available(bits)) {
            return;
          }
          subscriptions := subscriptions[i := subscription.(published := Some(Available(bits)))];
          updates := updates + [Update(subscription.id, Available(bits))];
        case Unavailable =>
          if subscription.published == Some(Unavailable) {
            return;
          }
          subscriptions := subscriptions[i := subscription.(published := Some(Unavailable))];
          updates := updates + [Update(subscription.id, Unavailable)];
      }
    }
  }

  lemma CollectedIsFaithful<B>(start: seq<Subscription<B>>, end: seq<Subscription<B>>, known: map<nat, Observation<B>>,
                               cleaned: View<B>, view: View<B>, issued: set<nat>)
    requires IdsAscend(start) && forall i | 0 <= i < |start| :: IsBaseline(start[i], known, cleaned)
    requires (forall s | s in start :: s.id in issued) && forall id | id in known :: id in issued
    requires |end| == |start| && forall i | 0 <= i < |start| :: end[i] == Refreshed(start[i], view)
    ensures var after := Replay(known, AllDue(start, view));
            && IdsAscend(end) && (forall s | s in end :: s.id in issued) && (forall id | id in after :: id in issued)
            && forall i | 0 <= i < |end| :: UpToDate(end[i], after, view) && IsBaseline(end[i], after, view)
  {
    var after := Replay(known, AllDue(start, view));
    forall i | 0 <= i < |end| ensures UpToDate(end[i], after, view) && end[i].id in issued {
      assert start[i] in start && IsBaseline(start[i], known, cleaned);
      ReplayReaches(start, known, view, i);
    }
    forall id | id in after ensures id in issued {
      ReplayedIds(start, known, view, id);
    }
    forall i, j | 0 <= i < j < |end| ensures end[i].id < end[j].id {
      assert start[i].id < start[j].id;
    }
    assert forall i | 0 <= i < |start| :: start[i] in start;
  }

  /** What the client knows of one subscription. */
  ghost function Told<B>(known: map<nat, Observation<B>>, id: nat): Option<Observation<B>> {
    if id in known then Some(known[id]) else None
  }

  /** Replaying the updates of one more subscription tells the client about that one only. */
  lemma ReplayOneMore<B>(
      known: map<nat, Observation<B>>, subscriptions: seq<Subscription<B>>, view: View<B>, id: nat)
    requires subscriptions != []
    ensures
      var older, s := subscriptions[..|subscriptions| - 1], subscriptions[|subscriptions| - 1];
      Told(Replay(known, AllDue(subscriptions, view)), id)
      == if Changed(s, view) && s.id == id then Some(view.observe(s.observer))
         else Told(Replay(known, AllDue(older, view)), id)
  {
    var n := |subscriptions| - 1;
    ReplayConcat(known, AllDue(subscriptions[..n], view), Due(subscriptions[n], view));
  }

  lemma {:induction false} ReplayAvoids<B>(
      subscriptions: seq<Subscription<B>>, known: map<nat, Observation<B>>, view: View<B>, id: nat)
    requires forall i | 0 <= i < |subscriptions| :: subscriptions[i].id != id
    ensures Told(Replay(known, AllDue(subscriptions, view)), id) == Told(known, id)
  {
    if subscriptions != [] {
      var n := |subscriptions| - 1;
      assert subscriptions[n].id != id;
      ReplayOneMore(known, subscriptions, view, id);
      ReplayAvoids(subscriptions[..n], known, view, id);
    }
  }

  /** Replaying the due updates tells the client the present observation of a changed subscription,
      and leaves its knowledge of an unchanged one. */
  lemma {:induction false} ReplayReaches<B>(
      subscriptions: seq<Subscription<B>>, known: map<nat, Observation<B>>, view: View<B>, i: nat)
    requires IdsAscend(subscriptions) && i < |subscriptions|
    ensures
      var s := subscriptions[i];
      Told(Replay(known, AllDue(subscriptions, view)), s.id)
      == if Changed(s, view) then Some(view.observe(s.observer)) else Told(known, s.id)
    decreases |subscriptions|
  {
    var n := |subscriptions| - 1;
    var older, id := subscriptions[..n], subscriptions[i].id;
    ReplayOneMore(known, subscriptions, view, id);
    if i < n {
      assert older[i] == subscriptions[i] && id < subscriptions[n].id;
      ReplayReaches(older, known, view, i);
    } else {
      forall k | 0 <= k < n ensures older[k].id != id { assert subscriptions[k].id < subscriptions[n].id; }
      ReplayAvoids(older, known, view, id);
    }
  }

  lemma ReplayConcat<B>(known: map<nat, Observation<B>>, older: seq<Update<B>>, due: seq<Update<B>>)
    requires |due| <= 1
    ensures Replay(known, older + due) ==
            if due == [] then Replay(known, older) else Replay(known, older)[due[0].subscription := due[0].observation]
  {
    if due == [] {
      assert older + due == older;
    } else {
      assert (older + due)[..|older|] == older;
    }
  }

  lemma ReplayedIds<B>(subscriptions: seq<Subscription<B>>, known: map<nat, Observation<B>>, view: View<B>, id: nat)
    requires id in Replay(known, AllDue(subscriptions, view))
    ensures id in known || exists i :: 0 <= i < |subscriptions| && subscriptions[i].id == id
  {
    if forall i | 0 <= i < |subscriptions| :: subscriptions[i].id != id {
      ReplayAvoids(subscriptions, known, view, id);
    }
  }
}
