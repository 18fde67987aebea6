/**
 The store of roots: a table, and a cache of the roots of recent frames that is kept in step.
 */
module RootStore {
  import opened Dag
  import opened Frames
  import opened ElectionState

  /** The list holds each accepted root of the frame once. */
  ghost predicate ListsFrame(d: Dag, ids: set<EventId>, f: nat, slots: seq<RootSlot>)
    requires ids <= d.Keys
  {
    SlotsOk(d, f, slots) && Ids(slots) == RootsAt(d, ids, f)
  }

  /** The slot describes an accepted root. */
  predicate Describes(d: map<EventId, Event>, ids: set<EventId>, s: RootSlot)
  {
    RootOf(d, ids, s.frame, s.id) && d[s.id].creator == s.validator
  }

  class Store {
    var table: set<RootSlot>
    var cache: map<nat, seq<RootSlot>>

    ghost predicate TableOk(d: Dag, ids: set<EventId>)
      reads this`table
    {
      forall s {:trigger s in table} :: s in table <==> Describes(d, ids, s)
    }

    ghost predicate CacheOk(d: Dag, ids: set<EventId>)
      requires ids <= d.Keys
      reads this`cache
    {
      forall f {:trigger cache[f]} | f in cache :: ListsFrame(d, ids, f, cache[f])
    }

    ghost predicate Valid(d: Dag, ids: set<EventId>)
      reads this
    {
      ids <= d.Keys && TableOk(d, ids) && CacheOk(d, ids)
    }

    constructor (ghost d: Dag)
      ensures Valid(d, {}) && table == {} && cache == map[]
    {
      table := {};
      cache := map[];
    }

    /** Stores a root, in the table and in the cached list of its frame if there is one. */
    method AddRoot(r: RootSlot, ghost d: Dag, ghost ids: set<EventId>)
      requires Valid(d, ids) && r.id in d && r.id !in ids
      requires d[r.id].isRoot && d[r.id].frame == r.frame && d[r.id].creator == r.validator
      modifies this
      ensures Valid(d, ids + {r.id})
      ensures table == old(table) + {r}
    {
      AddedRoot(d, ids, r, cache);
      table := table + {r};
      if r.frame in cache {
        cache := cache[r.frame := cache[r.frame] + [r]];
      }
    }

    /** A frame may leave the cache at any time. */
    method Evict(f: nat, ghost d: Dag, ghost ids: set<EventId>)
      requires Valid(d, ids)
      modifies this`cache
      ensures Valid(d, ids)
    {
      cache := cache - {f};
    }

    /** A restarted node has nothing in its cache. */
    method Purge(ghost d: Dag, ghost ids: set<EventId>)
      requires Valid(d, ids)
      modifies this`cache
      ensures Valid(d, ids)
    {
      cache := map[];
    }

    /** All roots of a frame, from the cache or from the table. */
    method GetFrameRoots(f: nat, ghost d: Dag, ghost ids: set<EventId>) returns (slots: seq<RootSlot>)
      requires Valid(d, ids)
      modifies this`cache
      ensures Valid(d, ids)
      ensures ListsFrame(d, ids, f, slots)
    {
      hide ListsFrame;
      if f in cache {
        return cache[f];
      }
      slots := [];
      var rest := set s | s in table && s.frame == f;
      while rest != {}
        invariant cache == old(cache)
        invariant rest <= table && (forall s | s in rest :: s.frame == f)
        invariant SlotsOk(d, f, slots)
        invariant forall s | s in table && s.frame == f :: s in rest <==> s.id !in Ids(slots)
        invariant forall x | x in Ids(slots) :: RootOf(d, ids, f, x)
        decreases rest
      {
        var s :| s in rest;
        SlotsSnoc(d, f, slots, s);
        IdsSnoc(slots, s);
        forall t | t in table && t.frame == f
          ensures t in rest - {s} <==> t.id !in Ids(slots) + {s.id}
        {
          SameSlot(d, ids, s, t);
        }
        slots := slots + [s];
        rest := rest - {s};
      }
      TableListed(d, ids, f, table, slots);
      cache := cache[f := slots];
    }
  }

  lemma SameSlot(d: Dag, ids: set<EventId>, s: RootSlot, t: RootSlot)
    requires Describes(d, ids, s) && Describes(d, ids, t)
    ensures s.id == t.id ==> s == t
  {}

  lemma TableListed(d: Dag, ids: set<EventId>, f: nat, table: set<RootSlot>, slots: seq<RootSlot>)
    requires ids <= d.Keys && SlotsOk(d, f, slots)
    requires forall s {:trigger s in table} :: s in table <==> Describes(d, ids, s)
    requires forall s | s in table && s.frame == f :: s.id in Ids(slots)
    requires forall x | x in Ids(slots) :: RootOf(d, ids, f, x)
    ensures ListsFrame(d, ids, f, slots)
  {
    forall x | x in RootsAt(d, ids, f)
      ensures x in Ids(slots)
    {
      var s := RootSlot(x, f, d[x].creator);
      assert Describes(d, ids, s) && s in table;
    }
  }

  /** What a new root changes: one slot, and the list of its own frame. */
  lemma AddedRoot(d: Dag, ids: set<EventId>, r: RootSlot, cache: map<nat, seq<RootSlot>>)
    requires ids <= d.Keys && r.id in d && r.id !in ids
    requires d[r.id].isRoot && d[r.id].frame == r.frame && d[r.id].creator == r.validator
    requires forall f {:trigger cache[f]} | f in cache :: ListsFrame(d, ids, f, cache[f])
    ensures forall s :: Describes(d, ids + {r.id}, s) <==> Describes(d, ids, s) || s == r
    ensures forall f {:trigger cache[f]} | f in cache ::
              ListsFrame(d, ids + {r.id}, f, if f == r.frame then cache[f] + [r] else cache[f])
  {
    forall f | f in cache
      ensures ListsFrame(d, ids + {r.id}, f, if f == r.frame then cache[f] + [r] else cache[f])
    {
      if f == r.frame {
        SlotsSnoc(d, f, cache[f], r);
        IdsSnoc(cache[f], r);
        assert RootsAt(d, ids + {r.id}, f) == RootsAt(d, ids, f) + {r.id};
      } else {
        assert RootsAt(d, ids + {r.id}, f) == RootsAt(d, ids, f);
      }
    }
  }

  /** An event that is no root changes nothing. */
  lemma AddedEvent(d: Dag, ids: set<EventId>, id: EventId, f: nat, slots: seq<RootSlot>)
    requires ids <= d.Keys && id in d && !d[id].isRoot && ListsFrame(d, ids, f, slots)
    ensures ListsFrame(d, ids + {id}, f, slots)
  {
    assert RootsAt(d, ids + {id}, f) == RootsAt(d, ids, f);
  }
}
