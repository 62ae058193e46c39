/** The entity hierarchy and component registry of
    Assets/EGamePlay/Entity/Entity.cs as a class whose fields the methods
    update in place.  Every C# `Entity` object is a key of `entities`; the
    fields of that object are its `EntityState`.  `AllComponents` is the
    global tracking set that `EntityFactory.GlobalEntity` holds in the
    source, and `Trace` records the calls made into component code. */
module Entities {
  import opened Wrappers
  import opened EntitySpec

  class World {
    var entities: Population
    var components: map<ComponentRef, ComponentState>
    var AllComponents: set<ComponentRef>
    var Trace: seq<Call>
    var nextEntity: nat
    var nextComponent: nat

    ghost predicate Valid()
      reads this
    {
      WellFormed(entities, components, AllComponents, nextEntity, nextComponent)
    }

    constructor ()
      ensures Valid()
      ensures entities == map[] && components == map[] && AllComponents == {} && Trace == []
    {
      entities, components, AllComponents, Trace := map[], map[], {}, [];
      nextEntity, nextComponent := 0, 0;
    }

    /** `new T()` for an entity kind followed by the factory setting a
        non-zero `Id`: a fresh, live, parentless entity with empty lists. */
    method CreateEntity(kind: EntityKind, id: int) returns (e: EntityRef)
      requires Valid() && id != 0
      modifies this
      ensures Valid()
      ensures e.kind == kind && e !in old(entities)
      ensures entities == old(entities)[e := EntityState(id, None, [], map[], map[], [])]
      ensures !IsDisposed(entities[e])
      ensures components == old(components) && AllComponents == old(AllComponents) && Trace == old(Trace)
      ensures old(ParentLinked(entities)) ==> ParentLinked(entities)
    {
      e := EntityRef(nextEntity, kind);
      entities := entities[e := EntityState(id, None, [], map[], map[], [])];
      nextEntity := nextEntity + 1;
      assert FitsIn(entities, components, e, entities[e]);
      forall x | x in entities
        ensures x.index < nextEntity && FitsIn(entities, components, x, entities[x])
      {
        if x != e {
          assert FitsIn(old(entities), components, x, entities[x]);
        }
      }
      if ParentLinked(old(entities)) {
        LinksKeptFresh(old(entities), e, entities[e]);
      }
    }

    /** `AddComponent<T>()`: fails, changing nothing, when a component of
        kind T is already filed; otherwise creates a component owned by `e`
        and not disposed, files it under T, adds it to the global set and
        runs its setup hook. */
    method AddComponent(e: EntityRef, kind: ComponentKind) returns (r: Result<ComponentRef, EntityError>)
      requires Valid() && e in entities
      modifies this
      ensures Valid()
      ensures kind in old(entities[e].components) ==>
        r == Err(DuplicateComponent(kind)) && unchanged(this)
      ensures kind !in old(entities[e].components) ==>
        r.Ok? && r.value.kind == kind && r.value !in old(components) &&
        components == old(components)[r.value := ComponentState(e, false)] &&
        AllComponents == old(AllComponents) + {r.value} &&
        entities == old(entities)[e := WithComponent(old(entities[e]), kind, r.value)] &&
        Trace == old(Trace) + [Setup(r.value)] &&
        nextEntity == old(nextEntity)
      ensures old(ParentLinked(entities)) ==> ParentLinked(entities)
    {
      if kind in entities[e].components {
        return Err(DuplicateComponent(kind));
      }
      var c := ComponentRef(nextComponent, kind);
      AddComponentWellFormed(entities, components, AllComponents, nextEntity, nextComponent, e, kind);
      components := components[c := ComponentState(e, false)];
      ComponentsKeepLinks(entities, e, WithComponent(entities[e], kind, c));
      entities := entities[e := WithComponent(entities[e], kind, c)];
      AllComponents := AllComponents + {c};
      nextComponent := nextComponent + 1;
      Trace := Trace + [Setup(c)];
      r := Ok(c);
    }

    /** `RemoveComponent<T>()`: fails, changing nothing, when no component
        of kind T is filed; otherwise disposes that component and drops
        only its key.  The global set is not touched here. */
    method RemoveComponent(e: EntityRef, kind: ComponentKind) returns (r: Result<(), EntityError>)
      requires Valid() && e in entities
      modifies this
      ensures Valid()
      ensures kind !in old(entities[e].components) ==>
        r == Err(MissingComponent(kind)) && unchanged(this)
      ensures kind in old(entities[e].components) ==>
        r == Ok(()) &&
        Trace == old(Trace) + [DisposeComponent(old(entities[e].components[kind]))] &&
        entities == old(entities)[e := WithoutComponent(old(entities[e]), kind)] &&
        components == old(components) && AllComponents == old(AllComponents) &&
        nextEntity == old(nextEntity) && nextComponent == old(nextComponent)
      ensures old(ParentLinked(entities)) ==> ParentLinked(entities)
    {
      if kind !in entities[e].components {
        return Err(MissingComponent(kind));
      }
      ComponentsKeepLinks(entities, e, WithoutComponent(entities[e], kind));
      Trace := Trace + [DisposeComponent(entities[e].components[kind])];
      RemoveComponentWellFormed(entities, components, AllComponents, nextEntity, nextComponent, e, kind);
      entities := entities[e := WithoutComponent(entities[e], kind)];
      r := Ok(());
    }

    /** `GetComponent<T>()`: the component filed under T, or null; never fails. */
    method GetComponent(e: EntityRef, kind: ComponentKind) returns (r: Option<ComponentRef>)
      requires Valid() && e in entities
      ensures r.Some? <==> kind in entities[e].components
      ensures r.Some? ==>
        r.value == entities[e].components[kind] && r.value.kind == kind &&
        r.value in components && components[r.value].owner == e
    {
      assert FitsIn(entities, components, e, entities[e]);
      if kind in entities[e].components {
        r := Some(entities[e].components[kind]);
      } else {
        r := None;
      }
    }

    /** `p.AddChild(c)`: appends `c` to `p`'s child list and to the bucket
        of `c`'s kind (creating the bucket if needed), then sets `c`'s
        parent to `p`. */
    method AddChild(p: EntityRef, c: EntityRef)
      requires Valid() && p in entities && c in entities
      modifies this
      ensures Valid()
      ensures entities == WithChild(old(entities), p, c)
      ensures c in entities[p].children && c in entities[p].type2Children[c.kind]
      ensures entities[c].parent == Some(p)
      ensures old(ParentLinked(entities)) && old(entities[c].parent).None? ==>
        ParentLinked(entities) && multiset(entities[p].children)[c] == 1
      ensures components == old(components) && AllComponents == old(AllComponents) && Trace == old(Trace)
      ensures nextEntity == old(nextEntity) && nextComponent == old(nextComponent)
    {
      ghost var es0 := entities;
      WithChildWellFormed(entities, components, AllComponents, nextEntity, nextComponent, p, c);
      if ParentLinked(es0) && es0[c].parent.None? {
        WithChildLinked(es0, p, c);
      }
      assert FitsIn(entities, components, p, entities[p]);
      AttachKeepsSynced(entities[p], c);
      var st := entities[p];
      var bucket := if c.kind in st.type2Children then st.type2Children[c.kind] else [];
      var grown := st.(children := st.children + [c], type2Children := st.type2Children[c.kind := bucket + [c]]);
      assert grown == AttachChild(es0[p], c);
      var es := entities[p := grown];
      es := es[c := es[c].(parent := Some(p))];
      assert es == WithChild(es0, p, c);
      entities := es;
    }

    /** `p.RemoveChild(c)`: drops the first occurrence of `c` from `p`'s
        child list and from the bucket of its kind (the bucket stays even
        when it becomes empty), then clears `c`'s parent. */
    method RemoveChild(p: EntityRef, c: EntityRef)
      requires Valid() && p in entities && c in entities
      modifies this
      ensures Valid()
      ensures entities == WithoutChild(old(entities), p, c)
      ensures entities[c].parent.None?
      ensures old(ParentLinked(entities)) && old(entities[c].parent) == Some(p) ==>
        ParentLinked(entities) && forall q :: q in entities ==> c !in entities[q].children
      ensures components == old(components) && AllComponents == old(AllComponents) && Trace == old(Trace)
      ensures nextEntity == old(nextEntity) && nextComponent == old(nextComponent)
    {
      ghost var es0 := entities;
      WithoutChildWellFormed(entities, components, AllComponents, nextEntity, nextComponent, p, c);
      if ParentLinked(es0) && es0[c].parent == Some(p) {
        WithoutChildLinked(es0, p, c);
      }
      var st := entities[p];
      var buckets := st.type2Children;
      if c.kind in buckets {
        buckets := buckets[c.kind := RemoveFirst(buckets[c.kind], c)];
      }
      assert st.(children := RemoveFirst(st.children, c), type2Children := buckets) == DetachChild(st, c);
      var es := entities[p := st.(children := RemoveFirst(st.children, c), type2Children := buckets)];
      es := es[c := es[c].(parent := None)];
      assert es == WithoutChild(es0, p, c);
      entities := es;
    }

    /** `c.SetParent(np)`: leaves the current parent, if any, then joins
        `np`, if not null.  From consistent links, the child ends up listed
        exactly once under `np`, by no other entity, pointing at `np`. */
    method SetParent(c: EntityRef, np: Option<EntityRef>)
      requires Valid() && c in entities && (np.Some? ==> np.value in entities)
      modifies this
      ensures Valid()
      ensures entities == Reparent(old(entities), c, np)
      ensures entities[c].parent == np
      ensures old(ParentLinked(entities)) ==>
        ParentLinked(entities) &&
        (forall q :: q in entities && Some(q) != np ==> c !in entities[q].children) &&
        (np.Some? ==> multiset(entities[np.value].children)[c] == 1)
      ensures components == old(components) && AllComponents == old(AllComponents) && Trace == old(Trace)
      ensures nextEntity == old(nextEntity) && nextComponent == old(nextComponent)
    {
      ghost var es0 := entities;
      if ParentLinked(es0) {
        ReparentLinked(es0, c, np);
      }
      assert FitsIn(entities, components, c, entities[c]);
      if entities[c].parent.Some? {
        RemoveChild(entities[c].parent.value, c);
      }
      if np.Some? {
        AddChild(np.value, c);
      }
    }

    /** `GetChildren()`: a snapshot of the child list, consistent with every
        bucket. */
    method GetChildren(e: EntityRef) returns (s: seq<EntityRef>)
      requires Valid() && e in entities
      ensures s == entities[e].children
      ensures forall k :: k in entities[e].type2Children ==> entities[e].type2Children[k] == OfKind(s, k)
      ensures forall c :: c in s ==> c.kind in entities[e].type2Children
    {
      assert FitsIn(entities, components, e, entities[e]);
      s := entities[e].children;
    }

    /** `GetTypeChildren<T>()`: fails when the entity has no bucket for the
        kind (none was ever created, or `Dispose` cleared them); otherwise a
        snapshot of exactly the children of that kind, in child-list order
        (empty once they have all been removed). */
    method GetTypeChildren(e: EntityRef, kind: EntityKind) returns (r: Result<seq<EntityRef>, EntityError>)
      requires Valid() && e in entities
      ensures r.Err? <==> kind !in entities[e].type2Children
      ensures r.Err? ==> r.error == MissingChildKind(kind)
      ensures r.Ok? ==> r.value == OfKind(entities[e].children, kind)
    {
      assert FitsIn(entities, components, e, entities[e]);
      if kind !in entities[e].type2Children {
        return Err(MissingChildKind(kind));
      }
      r := Ok(entities[e].type2Children[kind]);
    }

    /** `Dispose()`: disposes every child, in list order, then every
        component, then clears the lists and the map and sets `Id` to 0.
        `path` holds the entities whose `Dispose` is still running. */
    method Dispose(e: EntityRef, ghost path: set<EntityRef>)
      requires Valid() && NoCycleBelow(entities, e, path)
      modifies this
      decreases entities.Keys - path, 0
      ensures Valid()
      ensures OrdersListComponents(old(entities))
      ensures entities == DisposeRun(old(entities), e, path).0
      ensures e in entities && IsDisposed(entities[e]) && entities[e].children == [] &&
              entities[e].type2Children == map[] && entities[e].components == map[]
      ensures Trace == old(Trace) + DisposeRun(old(entities), e, path).1
      ensures ClearedOn(old(entities), entities, Below(old(entities), e, path))
      ensures forall c ::
        multiset(Trace[|old(Trace)|..])[DisposeComponent(c)] ==
          if HeldWithin(old(entities), components, c, Below(old(entities), e, path)) then 1 else 0
      ensures components == old(components) && AllComponents == old(AllComponents)
      ensures nextEntity == old(nextEntity) && nextComponent == old(nextComponent)
    {
      ghost var es0 := entities;
      ghost var t0 := Trace;
      WellFormedOrders(entities, components, AllComponents, nextEntity, nextComponent);
      DisposeRunClears(es0, e, path);
      DisposeRunDisposesEach(es0, components, e, path);
      DisposeChildren(entities[e].children, path + {e});
      ghost var done := DisposeAll(es0, es0[e].children, path + {e});
      DisposeRunUnfold(es0, e, path);
      var st := entities[e];
      assert st == es0[e];
      DisposeOwnComponents(st);
      AppendAssoc(t0, done.1, ComponentDisposals(st.componentOrder, st.components));
      entities := entities[e := Cleared(st)];
      assert Trace[|t0|..] == DisposeRun(es0, e, path).1;
      EvolvesWellFormed(es0, entities, path, components, AllComponents, nextEntity, nextComponent);
    }

    /** `foreach (Entity child in Children) child.Dispose();` */
    method DisposeChildren(kids: seq<EntityRef>, ghost path: set<EntityRef>)
      requires Valid() && forall c :: c in kids ==> NoCycleBelow(entities, c, path)
      modifies this
      decreases entities.Keys - path, 1
      ensures Valid()
      ensures OrdersListComponents(old(entities))
      ensures entities == DisposeAll(old(entities), kids, path).0
      ensures Trace == old(Trace) + DisposeAll(old(entities), kids, path).1
      ensures components == old(components) && AllComponents == old(AllComponents)
      ensures nextEntity == old(nextEntity) && nextComponent == old(nextComponent)
    {
      ghost var es0 := entities;
      ghost var t0 := Trace;
      WellFormedOrders(entities, components, AllComponents, nextEntity, nextComponent);
      var i := 0;
      while i < |kids|
        invariant 0 <= i <= |kids|
        invariant Valid()
        invariant entities == DisposeAll(es0, kids[..i], path).0
        invariant Trace == t0 + DisposeAll(es0, kids[..i], path).1
        invariant components == old(components) && AllComponents == old(AllComponents)
        invariant nextEntity == old(nextEntity) && nextComponent == old(nextComponent)
      {
        ghost var done := DisposeAll(es0, kids[..i], path);
        DisposeAllStep(es0, kids, i, path);
        Dispose(kids[i], path);
        ghost var step := DisposeRun(done.0, kids[i], path).1;
        AppendAssoc(t0, done.1, step);
        i := i + 1;
      }
      assert kids[..|kids|] == kids;
    }

    /** `foreach (Component component in Components.Values) component.Dispose();` */
    method DisposeOwnComponents(st: EntityState)
      requires forall k :: k in st.componentOrder ==> k in st.components
      modifies this`Trace
      ensures Trace == old(Trace) + ComponentDisposals(st.componentOrder, st.components)
    {
      var order := st.componentOrder;
      var j := 0;
      while j < |order|
        invariant 0 <= j <= |order|
        invariant |Trace| == |old(Trace)| + j && Trace[..|old(Trace)|] == old(Trace)
        invariant forall m :: 0 <= m < j ==> Trace[|old(Trace)| + m] == DisposeComponent(st.components[order[m]])
      {
        Trace := Trace + [DisposeComponent(st.components[order[j]])];
        j := j + 1;
      }
      assert Trace == old(Trace) + ComponentDisposals(order, st.components);
    }

    /** The lookup-or-create of the event component that `Publish` and
        `Subscribe` perform: an existing one is reused, otherwise one is
        added, so the entity never holds two. */
    method EnsureEventComponent(e: EntityRef) returns (c: ComponentRef)
      requires Valid() && e in entities
      modifies this
      ensures Valid()
      ensures e in entities && EventComponentKind in entities[e].components && entities[e].components[EventComponentKind] == c
      ensures EventComponentKind in old(entities[e].components) ==>
        c == old(entities[e].components[EventComponentKind]) && unchanged(this)
      ensures EventComponentKind !in old(entities[e].components) ==>
        c.kind == EventComponentKind && c !in old(components) &&
        components == old(components)[c := ComponentState(e, false)] &&
        AllComponents == old(AllComponents) + {c} &&
        entities == old(entities)[e := WithComponent(old(entities[e]), EventComponentKind, c)] &&
        Trace == old(Trace) + [Setup(c)] &&
        nextEntity == old(nextEntity)
      ensures old(ParentLinked(entities)) ==> ParentLinked(entities)
    {
      var found := GetComponent(e, EventComponentKind);
      if found.Some? {
        c := found.value;
      } else {
        var added := AddComponent(e, EventComponentKind);
        c := added.value;
      }
    }

    /** `Publish(event)`: hands the event to the entity's event component,
        creating that component first if the entity has none. */
    method Publish(e: EntityRef, event: EventValue) returns (published: EventValue)
      requires Valid() && e in entities
      modifies this
      ensures Valid() && published == event
      ensures e in entities && EventComponentKind in entities[e].components
      ensures EventComponentKind in old(entities[e].components) ==>
        entities == old(entities) && components == old(components) && AllComponents == old(AllComponents) &&
        Trace == old(Trace) + [PublishEvent(old(entities[e].components[EventComponentKind]), event)]
      ensures EventComponentKind !in old(entities[e].components) ==>
        var c := entities[e].components[EventComponentKind];
        c.kind == EventComponentKind && c !in old(components) &&
        components == old(components)[c := ComponentState(e, false)] &&
        AllComponents == old(AllComponents) + {c} &&
        entities == old(entities)[e := WithComponent(old(entities[e]), EventComponentKind, c)] &&
        Trace == old(Trace) + [Setup(c), PublishEvent(c, event)] &&
        nextEntity == old(nextEntity)
      ensures old(ParentLinked(entities)) ==> ParentLinked(entities)
    {
      var c := EnsureEventComponent(e);
      Trace := Trace + [PublishEvent(c, event)];
      published := event;
    }

    /** `Subscribe(action)`: registers the handler with the entity's event
        component, creating that component first if the entity has none. */
    method Subscribe(e: EntityRef, handler: Handler)
      requires Valid() && e in entities
      modifies this
      ensures Valid()
      ensures e in entities && EventComponentKind in entities[e].components
      ensures EventComponentKind in old(entities[e].components) ==>
        entities == old(entities) && components == old(components) && AllComponents == old(AllComponents) &&
        Trace == old(Trace) + [SubscribeHandler(old(entities[e].components[EventComponentKind]), handler)]
      ensures EventComponentKind !in old(entities[e].components) ==>
        var c := entities[e].components[EventComponentKind];
        c.kind == EventComponentKind && c !in old(components) &&
        components == old(components)[c := ComponentState(e, false)] &&
        AllComponents == old(AllComponents) + {c} &&
        entities == old(entities)[e := WithComponent(old(entities[e]), EventComponentKind, c)] &&
        Trace == old(Trace) + [Setup(c), SubscribeHandler(c, handler)] &&
        nextEntity == old(nextEntity)
      ensures old(ParentLinked(entities)) ==> ParentLinked(entities)
    {
      var c := EnsureEventComponent(e);
      Trace := Trace + [SubscribeHandler(c, handler)];
    }

    /** `UnSubscribe(action)`: forwards to the event component when there is
        one and never creates it. */
    method UnSubscribe(e: EntityRef, handler: Handler)
      requires Valid() && e in entities
      modifies this
      ensures Valid()
      ensures entities == old(entities) && components == old(components) && AllComponents == old(AllComponents)
      ensures Trace == if EventComponentKind in entities[e].components
                       then old(Trace) + [UnsubscribeHandler(entities[e].components[EventComponentKind], handler)]
                       else old(Trace)
    {
      var found := GetComponent(e, EventComponentKind);
      if found.Some? {
        Trace := Trace + [UnsubscribeHandler(found.value, handler)];
      }
    }
  }
}
