/**
 * The in-memory store of server/selectorStore.ts: one selector per id in a
 * JavaScript `Map`, which iterates in insertion order. The store keeps each
 * selector's state (`SelectorState`) as a value; `order` is the `Map`'s
 * insertion order.
 */
module SelectorStore {
  import opened Strings
  import opened MemorySelector

  /** What the store holds: every selector by id, and the ids in insertion order. */
  datatype Contents = Contents(selectors: map<string, SelectorState>, order: seq<string>)

  /** Every stored id occurs once in the order, and its selector carries that id and no file twice. */
  ghost predicate WellFormed(c: Contents) {
    && Distinct(c.order)
    && (forall k :: k in c.order <==> k in c.selectors)
    && (forall k :: k in c.selectors ==> c.selectors[k].id == k && Distinct(c.selectors[k].foundInFile))
  }

  /** The selector `id` would have after `_getOrCreate`. */
  function Current(c: Contents, id: string): SelectorState {
    if id in c.selectors then c.selectors[id] else Fresh(id)
  }

  /** `_getOrCreate`: a new selector, unseen and in no file, joins at the end unless `id` is stored. */
  function Enrolled(c: Contents, id: string): (r: Contents)
    ensures id in r.selectors && r.selectors[id] == Current(c, id)
  {
    if id in c.selectors then c else Contents(c.selectors[id := Fresh(id)], c.order + [id])
  }

  /** `linkSelector`. */
  function Linking(c: Contents, id: string, master: string): (r: Contents)
    ensures r.selectors.Keys == c.selectors.Keys + {id}
    ensures master in r.selectors[id].foundInFile
    ensures forall k :: k in c.selectors && k != id ==> r.selectors[k] == c.selectors[k]
  {
    var e := Enrolled(c, id);
    e.(selectors := e.selectors[id := LinkedTo(Current(c, id), master)])
  }

  /** `selectorSeen` at `now`. */
  function Seeing(c: Contents, id: string, now: int): (r: Contents)
    ensures r.selectors.Keys == c.selectors.Keys + {id}
    ensures r.selectors[id].seenAt == Some(now)
    ensures forall k :: k in c.selectors && k != id ==> r.selectors[k] == c.selectors[k]
  {
    var e := Enrolled(c, id);
    e.(selectors := e.selectors[id := MarkedSeen(Current(c, id), now)])
  }

  /** `unlinkSelector`. */
  function Unlinking(c: Contents, id: string, master: string): (r: Contents)
    ensures r.selectors.Keys == c.selectors.Keys + {id}
    ensures master !in r.selectors[id].foundInFile
    ensures forall k :: k in c.selectors && k != id ==> r.selectors[k] == c.selectors[k]
  {
    var e := Enrolled(c, id);
    e.(selectors := e.selectors[id := UnlinkedFrom(Current(c, id), master)])
  }

  /**
   * `_getOrCreate` keeps the store well formed, keeps every stored id and
   * its place in the order, and adds `id`.
   */
  lemma EnrolledKeeps(c: Contents, id: string)
    requires WellFormed(c)
    ensures var r := Enrolled(c, id);
      && WellFormed(r)
      && r.selectors.Keys == c.selectors.Keys + {id}
      && |c.order| <= |r.order| && r.order[..|c.order|] == c.order
      && (forall k :: k in c.selectors ==> r.selectors[k] == c.selectors[k])
  {
    if id !in c.selectors {
      var r := Enrolled(c, id);
      assert r.order[..|c.order|] == c.order;
      forall k
        ensures k in r.order <==> k in r.selectors
      {
        assert k in r.order <==> k in c.order || k == id;
      }
    }
  }

  /**
   * `r` is `c` after an update of `id`: well formed, `id` stored, every
   * other selector as it was, and the ids already stored kept in their order.
   */
  ghost predicate UpdatedOnly(c: Contents, id: string, r: Contents) {
    && WellFormed(r)
    && r.selectors.Keys == c.selectors.Keys + {id}
    && |c.order| <= |r.order| && r.order[..|c.order|] == c.order
    && (forall k :: k in c.selectors && k != id ==> r.selectors[k] == c.selectors[k])
  }

  /** Linking changes only the selector `id`. */
  lemma LinkingKeeps(c: Contents, id: string, master: string)
    requires WellFormed(c)
    ensures UpdatedOnly(c, id, Linking(c, id, master))
  {
    EnrolledKeeps(c, id);
  }

  /** Marking seen changes only the selector `id`. */
  lemma SeeingKeeps(c: Contents, id: string, now: int)
    requires WellFormed(c)
    ensures UpdatedOnly(c, id, Seeing(c, id, now))
  {
    EnrolledKeeps(c, id);
  }

  /** Unlinking changes only the selector `id`. */
  lemma UnlinkingKeeps(c: Contents, id: string, master: string)
    requires WellFormed(c)
    ensures UpdatedOnly(c, id, Unlinking(c, id, master))
  {
    EnrolledKeeps(c, id);
  }

  /** Linking stores `id` linked to `master`, its other files and its seen time as they were. */
  lemma LinkingEffect(c: Contents, id: string, master: string)
    ensures var s := Linking(c, id, master).selectors[id];
      && master in s.foundInFile
      && (forall m :: m != master ==> (m in s.foundInFile <==> m in Current(c, id).foundInFile))
      && s.seenAt == Current(c, id).seenAt && s.id == Current(c, id).id
  {
  }

  /** Unlinking stores `id` not linked to `master`, its other files and its seen time as they were. */
  lemma UnlinkingEffect(c: Contents, id: string, master: string)
    ensures var s := Unlinking(c, id, master).selectors[id];
      && master !in s.foundInFile
      && (forall m :: m != master ==> (m in s.foundInFile <==> m in Current(c, id).foundInFile))
      && s.seenAt == Current(c, id).seenAt && s.id == Current(c, id).id
  {
  }

  /** Unlinking after linking a file a stored selector did not have restores the store. */
  lemma LinkThenUnlink(c: Contents, id: string, master: string)
    requires id in c.selectors && master !in c.selectors[id].foundInFile
    ensures Unlinking(Linking(c, id, master), id, master) == c
  {
    LinkUnlinkRoundTrip(c.selectors[id], master);
  }

  /** The stored selectors linked to `master`, in insertion order. */
  function OfMaster(c: Contents, order: seq<string>, master: string): (r: seq<SelectorState>)
    requires forall k :: k in order ==> k in c.selectors
    decreases |order|
  {
    if order == [] then []
    else
      var last := order[|order| - 1];
      var s := c.selectors[last];
      OfMaster(c, order[..|order| - 1], master) + (if master in s.foundInFile then [s] else [])
  }

  /**
   * `OfMaster` lists exactly the selectors of `order` linked to `master`,
   * each once, in the order of `order`.
   */
  lemma {:induction false} OfMasterExactly(c: Contents, order: seq<string>, master: string)
    requires WellFormed(c) && Distinct(order) && forall k :: k in order ==> k in c.selectors
    ensures var r := OfMaster(c, order, master);
      && (forall s :: s in r <==> s.id in order && s == c.selectors[s.id] && master in s.foundInFile)
      && (forall i, j :: 0 <= i < j < |r| ==> r[i].id != r[j].id)
    decreases |order|
  {
    if order != [] {
      var init := order[..|order| - 1];
      var last := order[|order| - 1];
      OfMasterExactly(c, init, master);
      assert forall k :: k in order <==> k in init || k == last;
      assert last !in init;
      var prev := OfMaster(c, init, master);
      forall s | s in prev
        ensures s.id != last
      {
      }
    }
  }

  class Store {
    var selectors: map<string, SelectorState>
    var order: seq<string>

    /** The store's contents. */
    function State(): (c: Contents)
      reads this
      ensures c.selectors == selectors && c.order == order
    {
      Contents(selectors, order)
    }

    ghost predicate Valid()
      reads this
    {
      WellFormed(State())
    }

    /** An empty store. */
    constructor()
      ensures Valid()
      ensures State() == Contents(map[], [])
    {
      selectors := map[];
      order := [];
    }

    /** `_getOrCreate`: the one selector with this id, created (unseen, in no file, last in the order) when there is none yet. */
    method GetOrCreate(id: string) returns (s: SelectorState)
      requires Valid()
      modifies this
      ensures Valid()
      ensures State() == Enrolled(old(State()), id)
      ensures s == Current(old(State()), id) && s.id == id
    {
      EnrolledKeeps(State(), id);
      if id !in selectors {
        selectors := selectors[id := Fresh(id)];
        order := order + [id];
      }
      s := selectors[id];
    }

    /** `linkSelector`: the selector (created if needed) is linked to `master`. */
    method LinkSelector(id: string, master: string)
      requires Valid()
      modifies this
      ensures Valid()
      ensures State() == Linking(old(State()), id, master)
    {
      LinkingKeeps(State(), id, master);
      var instance := GetOrCreate(id);
      selectors := selectors[id := LinkedTo(instance, master)];
    }

    /** `selectorSeen`: the selector (created if needed) is seen at `now`. */
    method SelectorSeen(id: string, now: int)
      requires Valid()
      modifies this
      ensures Valid()
      ensures State() == Seeing(old(State()), id, now)
    {
      SeeingKeeps(State(), id, now);
      var instance := GetOrCreate(id);
      selectors := selectors[id := MarkedSeen(instance, now)];
    }

    /** `unlinkSelector`: the selector (created if needed) is no longer linked to `master`. */
    method UnlinkSelector(id: string, master: string)
      requires Valid()
      modifies this
      ensures Valid()
      ensures State() == Unlinking(old(State()), id, master)
    {
      UnlinkingKeeps(State(), id, master);
      var instance := GetOrCreate(id);
      selectors := selectors[id := UnlinkedFrom(instance, master)];
    }

    /**
     * `getSelectorsOfMaster`: every stored selector linked to `master`,
     * once each, in insertion order.
     */
    method GetSelectorsOfMaster(master: string) returns (r: seq<SelectorState>)
      requires Valid()
      ensures r == OfMaster(State(), order, master)
      ensures forall s :: s in r <==> s.id in selectors && s == selectors[s.id] && master in s.foundInFile
    {
      r := [];
      for i := 0 to |order|
        invariant r == OfMaster(State(), order[..i], master)
      {
        assert order[..i + 1][..i] == order[..i];
        var s := selectors[order[i]];
        if master in s.foundInFile {
          r := r + [s];
        }
      }
      assert order[..|order|] == order;
      OfMasterExactly(State(), order, master);
    }

    /** `getState`: every stored entry, once each, in insertion order. */
    method GetState() returns (r: seq<(string, SelectorState)>)
      requires Valid()
      ensures |r| == |order|
      ensures forall i :: 0 <= i < |r| ==> r[i].0 == order[i] && r[i].1 == selectors[order[i]]
      ensures forall k :: k in selectors ==> exists i :: 0 <= i < |r| && r[i] == (k, selectors[k])
    {
      r := [];
      for i := 0 to |order|
        invariant |r| == i
        invariant forall j :: 0 <= j < i ==> r[j].0 == order[j] && r[j].1 == selectors[order[j]]
      {
        r := r + [(order[i], selectors[order[i]])];
      }
      forall k | k in selectors
        ensures exists i :: 0 <= i < |r| && r[i] == (k, selectors[k])
      {
        var i :| 0 <= i < |order| && order[i] == k;
        assert r[i] == (k, selectors[k]);
      }
    }
  }
}
