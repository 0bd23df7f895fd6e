/** One shard of the LRU cache: reference counts, the two lists, the charge, and the deleters. */
module Cache {
  import opened DbFormat
  import opened Coding
  import HandleTable

  type Key = HandleTable.Key

  // refs counts the references of clients, and one more while the entry is in the cache.
  datatype Handle = Handle(key: Key, value: int, charge: nat, inCache: bool, refs: nat) {
    function Clients(): int {
      refs - if inCache then 1 else 0
    }
  }

  // The allocated handles by address, the lists from oldest to newest, the sum of the charges of
  // cached entries, and the handles whose deleter has run, in order.
  datatype CacheState = CacheState(handles: map<nat, Handle>, lru: seq<nat>, inUse: seq<nat>, usage: int, deleted: seq<nat>)

  // ----- list operations -----

  function Without(ids: seq<nat>, id: nat): seq<nat> {
    if ids == [] then [] else if ids[0] == id then ids[1..] else [ids[0]] + Without(ids[1..], id)
  }

  ghost predicate Distinct(ids: seq<nat>) {
    forall i, j :: 0 <= i < j < |ids| ==> ids[i] != ids[j]
  }

  function Charge(handles: map<nat, Handle>, ids: seq<nat>): nat {
    if ids == [] then 0
    else Charge(handles, ids[1..]) + if ids[0] in handles then handles[ids[0]].charge else 0
  }

  lemma {:induction false} WithoutMembers(ids: seq<nat>, id: nat)
    requires Distinct(ids)
    ensures Distinct(Without(ids, id))
    ensures forall k :: k in Without(ids, id) <==> k in ids && k != id
    ensures |Without(ids, id)| == |ids| - if id in ids then 1 else 0
  {
    if ids != [] {
      assert forall k :: k in ids <==> k == ids[0] || k in ids[1..];
      if ids[0] != id {
        WithoutMembers(ids[1..], id);
        var r := Without(ids[1..], id);
        forall j | 0 <= j < |r| ensures r[j] != ids[0] {
          assert r[j] in r;
        }
      } else {
        forall j | 0 < j < |ids| ensures ids[j] != id {
        }
      }
    }
  }

  lemma {:induction false} WithoutAbsent(ids: seq<nat>, id: nat)
    requires id !in ids
    ensures Without(ids, id) == ids
  {
    if ids != [] {
      WithoutAbsent(ids[1..], id);
    }
  }

  lemma {:induction false} WithoutAppend(ids: seq<nat>, id: nat, k: nat)
    requires id != k
    ensures Without(ids + [k], id) == Without(ids, id) + [k]
  {
    if ids != [] {
      assert (ids + [k])[1..] == ids[1..] + [k];
      WithoutAppend(ids[1..], id, k);
    }
  }

  lemma {:induction false} ChargeWithout(handles: map<nat, Handle>, ids: seq<nat>, id: nat)
    requires id in ids && id in handles
    ensures Charge(handles, Without(ids, id)) == Charge(handles, ids) - handles[id].charge
  {
    if ids[0] != id {
      ChargeWithout(handles, ids[1..], id);
    }
  }

  lemma {:induction false} ChargeAppend(handles: map<nat, Handle>, ids: seq<nat>, id: nat)
    requires id in handles
    ensures Charge(handles, ids + [id]) == Charge(handles, ids) + handles[id].charge
  {
    if ids == [] {
      assert [id][1..] == [];
    } else {
      assert (ids + [id])[1..] == ids[1..] + [id];
      ChargeAppend(handles, ids[1..], id);
    }
  }

  // Only the charges of the listed handles matter.
  lemma {:induction false} ChargeSame(a: map<nat, Handle>, b: map<nat, Handle>, ids: seq<nat>)
    requires forall id :: id in ids ==> id in a && id in b && a[id].charge == b[id].charge
    ensures Charge(a, ids) == Charge(b, ids)
  {
    if ids != [] {
      ChargeSame(a, b, ids[1..]);
    }
  }

  // ----- the steps -----

  function Unlisted(s: CacheState, id: nat): CacheState {
    s.(lru := Without(s.lru, id), inUse := Without(s.inUse, id))
  }

  function Reffed(s: CacheState, id: nat): CacheState
    requires id in s.handles
  {
    var h := s.handles[id];
    var t := if h.refs == 1 && h.inCache then var u := Unlisted(s, id); u.(inUse := u.inUse + [id]) else s;
    t.(handles := t.handles[id := h.(refs := h.refs + 1)])
  }

  function Unreffed(s: CacheState, id: nat): CacheState
    requires id in s.handles && s.handles[id].refs > 0
  {
    var h := s.handles[id].(refs := s.handles[id].refs - 1);
    if h.refs == 0 then s.(handles := s.handles - {id}, deleted := s.deleted + [id])
    else
      var t := if h.inCache && h.refs == 1 then var u := Unlisted(s, id); u.(lru := u.lru + [id]) else s;
      t.(handles := t.handles[id := h])
  }

  // The cache gives up its entry.
  function Erased(s: CacheState, id: nat): CacheState
    requires id in s.handles && s.handles[id].refs > 0
  {
    var h := s.handles[id];
    var t := Unlisted(s, id);
    Unreffed(t.(handles := t.handles[id := h.(inCache := false)], usage := t.usage - h.charge), id)
  }

  // A new entry, held by the cache and by the caller.
  function Added(s: CacheState, id: nat, key: Key, value: int, charge: nat): CacheState {
    s.(handles := s.handles[id := Handle(key, value, charge, true, 2)], inUse := s.inUse + [id], usage := s.usage + charge)
  }

  // ----- the invariant -----

  ghost predicate ListsInv(s: CacheState) {
    && Distinct(s.lru) && Distinct(s.inUse)
    && (forall id :: id in s.lru <==> id in s.handles && s.handles[id].inCache && s.handles[id].refs == 1)
    && (forall id :: id in s.inUse <==> id in s.handles && s.handles[id].inCache && s.handles[id].refs >= 2)
  }

  ghost predicate TableInv(s: CacheState, contents: map<Key, nat>) {
    && (forall id :: id in s.handles && s.handles[id].inCache ==> s.handles[id].key in contents && contents[s.handles[id].key] == id)
    && (forall key :: key in contents ==>
          contents[key] in s.handles && s.handles[contents[key]].inCache && s.handles[contents[key]].key == key)
  }

  // Every handle ever made is either allocated or has had its deleter run, once.
  ghost predicate LivesInv(s: CacheState, nextId: nat) {
    && (forall id :: id in s.handles ==> s.handles[id].refs > 0 && id < nextId)
    && Distinct(s.deleted)
    && (forall id :: id in s.deleted ==> id < nextId && id !in s.handles)
    && (forall id :: 0 <= id < nextId ==> id in s.handles || id in s.deleted)
  }

  ghost predicate Inv(s: CacheState, contents: map<Key, nat>, nextId: nat) {
    && ListsInv(s)
    && TableInv(s, contents)
    && LivesInv(s, nextId)
    && s.usage == Charge(s.handles, s.lru) + Charge(s.handles, s.inUse)
  }

  lemma RefKeepsInv(s: CacheState, contents: map<Key, nat>, nextId: nat, id: nat)
    requires Inv(s, contents, nextId) && id in s.handles
    ensures Inv(Reffed(s, id), contents, nextId)
  {
    hide Distinct, Charge, Without;
    var h := s.handles[id];
    var t := Reffed(s, id);
    if h.refs == 1 && h.inCache {
      MoveMembers(s.lru, s.inUse, id);
      MoveCharges(s.handles, t.handles, s.lru, s.inUse, id);
    } else {
      ChargeSame(s.handles, t.handles, s.lru);
      ChargeSame(s.handles, t.handles, s.inUse);
    }
  }

  // An entry taken from one list and put at the end of the other.
  lemma MoveMembers(from: seq<nat>, to: seq<nat>, id: nat)
    requires Distinct(from) && Distinct(to) && id in from && id !in to
    ensures Without(to, id) == to
    ensures Distinct(Without(from, id)) && Distinct(to + [id])
    ensures forall k :: k in Without(from, id) <==> k in from && k != id
    ensures forall k :: k in to + [id] <==> k in to || k == id
  {
    WithoutMembers(from, id);
    WithoutAbsent(to, id);
  }

  lemma MoveCharges(a: map<nat, Handle>, b: map<nat, Handle>, from: seq<nat>, to: seq<nat>, id: nat)
    requires id in from && id !in to && Distinct(from)
    requires forall k :: k in from || k in to ==> k in a && k in b && a[k].charge == b[k].charge
    ensures Charge(b, Without(from, id)) + Charge(b, to + [id]) == Charge(a, from) + Charge(a, to)
  {
    ChargeSame(a, b, from);
    ChargeSame(a, b, to);
    ChargeWithout(b, from, id);
    ChargeAppend(b, to, id);
  }

  lemma UnrefKeepsInv(s: CacheState, contents: map<Key, nat>, nextId: nat, id: nat)
    requires Inv(s, contents, nextId) && id in s.handles && s.handles[id].Clients() > 0
    ensures Inv(Unreffed(s, id), contents, nextId)
  {
    var h := s.handles[id];
    if h.refs == 1 {
      FreeKeepsInv(s, contents, nextId, id);
    } else if h.inCache && h.refs == 2 {
      RestKeepsInv(s, contents, nextId, id);
    } else {
      hide Distinct, Charge, Without;
      var t := Unreffed(s, id);
      ChargeSame(s.handles, t.handles, s.lru);
      ChargeSame(s.handles, t.handles, s.inUse);
    }
  }

  // The last reference goes.
  lemma FreeKeepsInv(s: CacheState, contents: map<Key, nat>, nextId: nat, id: nat)
    requires Inv(s, contents, nextId) && id in s.handles && s.handles[id].refs == 1 && !s.handles[id].inCache
    ensures Inv(Unreffed(s, id), contents, nextId)
  {
    hide Distinct, Charge, Without;
    var t := Unreffed(s, id);
    ChargeSame(s.handles, t.handles, s.lru);
    ChargeSame(s.handles, t.handles, s.inUse);
    OneMore(s.deleted, id);
  }

  // The last client lets go of a cached entry.
  lemma RestKeepsInv(s: CacheState, contents: map<Key, nat>, nextId: nat, id: nat)
    requires Inv(s, contents, nextId) && id in s.handles && s.handles[id].refs == 2 && s.handles[id].inCache
    ensures Inv(Unreffed(s, id), contents, nextId)
  {
    hide Distinct, Charge, Without;
    var t := Unreffed(s, id);
    MoveMembers(s.inUse, s.lru, id);
    MoveCharges(s.handles, t.handles, s.inUse, s.lru, id);
  }

  lemma OneMore(ids: seq<nat>, id: nat)
    requires Distinct(ids) && id !in ids
    ensures Distinct(ids + [id])
  {
  }

  lemma EraseKeepsInv(s: CacheState, contents: map<Key, nat>, nextId: nat, id: nat)
    requires Inv(s, contents, nextId) && id in s.handles && s.handles[id].inCache
    ensures s.handles[id].key in contents && contents[s.handles[id].key] == id
    ensures Inv(Erased(s, id), contents - {s.handles[id].key}, nextId)
  {
    hide Distinct, Charge, Without;
    var h := s.handles[id];
    var t := Erased(s, id);
    WithoutMembers(s.lru, id);
    WithoutMembers(s.inUse, id);
    if id in s.lru {
      WithoutAbsent(s.inUse, id);
      ChargeWithout(s.handles, s.lru, id);
      OneMore(s.deleted, id);
    } else {
      WithoutAbsent(s.lru, id);
      ChargeWithout(s.handles, s.inUse, id);
    }
    ChargeSame(s.handles, t.handles, t.lru);
    ChargeSame(s.handles, t.handles, t.inUse);
    forall key | key in contents - {h.key}
      ensures contents[key] in t.handles && t.handles[contents[key]].inCache && t.handles[contents[key]].key == key
    {
      assert contents[key] != id;
    }
  }

  lemma AddKeepsInv(s: CacheState, contents: map<Key, nat>, nextId: nat, key: Key, value: int, charge: nat)
    requires Inv(s, contents, nextId) && key !in contents
    ensures Inv(Added(s, nextId, key, value, charge), contents[key := nextId], nextId + 1)
  {
    hide Distinct, Charge, Without;
    var t := Added(s, nextId, key, value, charge);
    OneMore(s.inUse, nextId);
    ChargeAppend(t.handles, s.inUse, nextId);
    ChargeSame(s.handles, t.handles, s.lru);
    ChargeSame(s.handles, t.handles, s.inUse);
  }

  /** Insert adds the new entry before it erases the one it replaces; the other order gives the
      same state. */
  lemma EraseAfterAdd(s: CacheState, id: nat, next: nat, key: Key, value: int, charge: nat)
    requires id in s.handles && s.handles[id].refs > 0 && id != next
    ensures Erased(Added(s, next, key, value, charge), id) == Added(Erased(s, id), next, key, value, charge)
  {
    WithoutAppend(s.inUse, id, next);
    var a, b := Erased(Added(s, next, key, value, charge), id), Added(Erased(s, id), next, key, value, charge);
    assert a.handles == b.handles;
  }

  // Handles that clients hold keep their key and value.
  ghost predicate Kept(a: CacheState, b: CacheState) {
    forall id :: id in a.handles && a.handles[id].Clients() > 0 ==>
      id in b.handles && b.handles[id].key == a.handles[id].key && b.handles[id].value == a.handles[id].value
      && b.handles[id].Clients() == a.handles[id].Clients()
  }

  lemma EraseKeepsClients(s: CacheState, id: nat)
    requires id in s.handles && s.handles[id].refs > 0 && s.handles[id].inCache
    ensures Kept(s, Erased(s, id))
  {
  }

  // ----- the order of the list -----

  // The entries that no client holds, in the order in which their last clients let go of them.
  ghost predicate ByLastUse(lru: seq<nat>, lastUse: map<nat, nat>, clock: nat) {
    && (forall i :: 0 <= i < |lru| ==> lru[i] in lastUse && lastUse[lru[i]] < clock)
    && forall i, j :: 0 <= i < j < |lru| ==> lastUse[lru[i]] < lastUse[lru[j]]
  }

  // One entry taken out, the others as they were.
  ghost predicate TakenOut(from: seq<nat>, id: nat, to: seq<nat>) {
    exists i :: 0 <= i < |from| && from[i] == id && to == from[..i] + from[i + 1..]
  }

  lemma {:induction false} WithoutTakesOut(ids: seq<nat>, id: nat)
    requires id in ids
    ensures TakenOut(ids, id, Without(ids, id))
  {
    if ids[0] == id {
      assert Without(ids, id) == ids[..0] + ids[1..];
    } else {
      WithoutTakesOut(ids[1..], id);
      var i :| 0 <= i < |ids[1..]| && ids[1..][i] == id && Without(ids[1..], id) == ids[1..][..i] + ids[1..][i + 1..];
      assert ids[..i + 1] + ids[i + 2..] == [ids[0]] + (ids[1..][..i] + ids[1..][i + 1..]);
    }
  }

  lemma WithoutByLastUse(ids: seq<nat>, id: nat, lastUse: map<nat, nat>, clock: nat)
    requires ByLastUse(ids, lastUse, clock)
    ensures ByLastUse(Without(ids, id), lastUse, clock)
  {
    if id in ids {
      WithoutTakesOut(ids, id);
    } else {
      WithoutAbsent(ids, id);
    }
  }

  // The last client of the entry lets go of it now.
  lemma ReleasedByLastUse(lru: seq<nat>, id: nat, lastUse: map<nat, nat>, clock: nat)
    requires ByLastUse(lru, lastUse, clock) && id !in lru
    ensures ByLastUse(lru, lastUse[id := clock], clock + 1)
    ensures ByLastUse(lru + [id], lastUse[id := clock], clock + 1)
  {
    forall i | 0 <= i < |lru| ensures lru[i] != id {
    }
  }

  // The list when its oldest entry has gone.
  lemma TailByLastUse(lru: seq<nat>, n: nat, lastUse: map<nat, nat>, clock: nat)
    requires ByLastUse(lru, lastUse, clock) && n <= |lru|
    ensures ByLastUse(lru[n..], lastUse, clock)
  {
  }

  // What a new reference does, handle by handle.
  lemma RefParts(s: CacheState, contents: map<Key, nat>, nextId: nat, id: nat)
    requires Inv(s, contents, nextId) && id in s.handles
    ensures var h, t := s.handles[id], Reffed(s, id);
            && t.handles == s.handles[id := h.(refs := h.refs + 1)] && t.usage == s.usage && t.deleted == s.deleted
            && if h.inCache && h.Clients() == 0 then TakenOut(s.lru, id, t.lru) && t.inUse == s.inUse + [id]
               else t.lru == s.lru && t.inUse == s.inUse
  {
    if id in s.lru {
      WithoutTakesOut(s.lru, id);
      WithoutAbsent(s.inUse, id);
    }
  }

  // What letting go of one does.
  lemma UnrefParts(s: CacheState, contents: map<Key, nat>, nextId: nat, id: nat)
    requires Inv(s, contents, nextId) && id in s.handles && s.handles[id].Clients() > 0
    ensures id !in s.lru
    ensures var h, t := s.handles[id], Unreffed(s, id);
            && t.usage == s.usage
            && (if h.refs == 1 then t.handles == s.handles - {id} && t.deleted == s.deleted + [id]
                else t.handles == s.handles[id := h.(refs := h.refs - 1)] && t.deleted == s.deleted)
            && if h.inCache && h.Clients() == 1 then t.lru == s.lru + [id] && TakenOut(s.inUse, id, t.inUse)
               else t.lru == s.lru && t.inUse == s.inUse
  {
    if id in s.inUse {
      WithoutTakesOut(s.inUse, id);
    }
    WithoutAbsent(s.lru, id);
  }

  // What giving up an entry of the cache does.
  lemma ErasedParts(s: CacheState, contents: map<Key, nat>, nextId: nat, id: nat)
    requires Inv(s, contents, nextId) && id in s.handles && s.handles[id].inCache
    ensures var h, t := s.handles[id], Erased(s, id);
            && t.usage == s.usage - h.charge
            && if h.Clients() == 0 then
                 t.handles == s.handles - {id} && t.deleted == s.deleted + [id] && TakenOut(s.lru, id, t.lru) && t.inUse == s.inUse
               else
                 && t.handles == s.handles[id := h.(inCache := false, refs := h.refs - 1)] && t.deleted == s.deleted
                 && t.lru == s.lru && TakenOut(s.inUse, id, t.inUse)
  {
    var h := s.handles[id];
    CachedInOneList(s, contents, nextId, id);
    hide Inv, TakenOut, Without;
    if h.Clients() == 0 {
      WithoutTakesOut(s.lru, id);
      WithoutAbsent(s.inUse, id);
      UpdatedAway(s.handles, id, h.(inCache := false));
    } else {
      WithoutTakesOut(s.inUse, id);
      WithoutAbsent(s.lru, id);
    }
  }

  lemma UpdatedAway(handles: map<nat, Handle>, id: nat, h: Handle)
    ensures handles[id := h] - {id} == handles - {id}
  {
  }

  lemma CachedInOneList(s: CacheState, contents: map<Key, nat>, nextId: nat, id: nat)
    requires Inv(s, contents, nextId) && id in s.handles && s.handles[id].inCache
    ensures s.handles[id].refs > 0
    ensures if s.handles[id].Clients() == 0 then id in s.lru && id !in s.inUse else id in s.inUse && id !in s.lru
  {
    hide Distinct, Charge;
  }

  // ----- the cache -----

  class LRUCache {
    const capacity: nat
    const table: HandleTable.Table
    var handles: map<nat, Handle>
    var lru: seq<nat>
    var inUse: seq<nat>
    var usage: int
    var nextId: nat
    // The handles whose deleter has been called.
    var deleted: seq<nat>
    // The time, and when each handle was last released.
    ghost var clock: nat
    ghost var lastUse: map<nat, nat>

    ghost function Abs(): CacheState
      reads this
    {
      CacheState(handles, lru, inUse, usage, deleted)
    }

    ghost predicate Valid()
      reads this, table
    {
      table.Valid() && Inv(Abs(), table.contents, nextId) && ByLastUse(lru, lastUse, clock)
    }

    constructor (capacity: nat)
      ensures Valid() && fresh(table) && this.capacity == capacity && table.contents == map[] && usage == 0
    {
      this.capacity := capacity;
      table := new HandleTable.Table();
      handles, lru, inUse, usage, nextId, deleted := map[], [], [], 0, 0, [];
      clock, lastUse := 0, map[];
    }

    method Unlist(id: nat)
      modifies this`lru, this`inUse
      ensures Abs() == Unlisted(old(Abs()), id)
    {
      lru, inUse := Without(lru, id), Without(inUse, id);
    }

    method Ref(id: nat)
      requires id in handles
      modifies this`handles, this`lru, this`inUse
      ensures Abs() == Reffed(old(Abs()), id)
    {
      var h := handles[id];
      if h.refs == 1 && h.inCache {
        Unlist(id);
        inUse := inUse + [id];
      }
      handles := handles[id := h.(refs := h.refs + 1)];
    }

    method Unref(id: nat)
      requires id in handles && handles[id].refs > 0
      modifies this`handles, this`lru, this`inUse, this`deleted
      ensures Abs() == Unreffed(old(Abs()), id)
    {
      var h := handles[id].(refs := handles[id].refs - 1);
      if h.refs == 0 {
        deleted := deleted + [id];
        handles := handles - {id};
      } else {
        if h.inCache && h.refs == 1 {
          Unlist(id);
          lru := lru + [id];
        }
        handles := handles[id := h];
      }
    }

    method FinishErase(e: Option<nat>) returns (erased: bool)
      requires e.Some? ==> e.value in handles && handles[e.value].refs > 0
      modifies this`handles, this`lru, this`inUse, this`usage, this`deleted
      ensures erased == e.Some? && Abs() == if e.Some? then Erased(old(Abs()), e.value) else old(Abs())
    {
      if e.Some? {
        var id := e.value;
        Unlist(id);
        handles := handles[id := handles[id].(inCache := false)];
        usage := usage - handles[id].charge;
        Unref(id);
      }
      erased := e.Some?;
    }

    /** Finds the entry of the key, if there is one, and holds it for the caller: one client more
        of this handle, and nothing else changes but the list it is in. */
    method Lookup(key: Key) returns (r: Option<nat>)
      requires Valid()
      modifies this
      ensures Valid() && table.contents == old(table.contents) && clock == old(clock) && lastUse == old(lastUse)
      ensures r == HandleTable.Find(table.contents, key)
      ensures r.None? ==> Abs() == old(Abs())
      ensures r.Some? ==>
                var h := old(handles)[r.value];
                && r.value in old(handles) && h.key == key && h.inCache
                && handles == old(handles)[r.value := h.(refs := h.refs + 1)] && usage == old(usage) && deleted == old(deleted)
                && if h.Clients() == 0 then TakenOut(old(lru), r.value, lru) && inUse == old(inUse) + [r.value]
                   else lru == old(lru) && inUse == old(inUse)
    {
      hide Inv, Reffed;
      CachedHandle(Abs(), table.contents, nextId, key);
      r := table.Lookup(key);
      if r.Some? {
        RefKeepsInv(Abs(), table.contents, nextId, r.value);
        RefParts(Abs(), table.contents, nextId, r.value);
        KeepsOrder(old(lru), Reffed(Abs(), r.value).lru, r.value, lastUse, clock);
        Ref(r.value);
      }
    }

    /** One client less of this handle.  When the last one lets go, an entry of the cache becomes
        the newest of those that may be evicted, and another handle is freed. */
    method Release(id: nat)
      requires Valid() && id in handles && handles[id].Clients() > 0
      modifies this
      ensures Valid() && table.contents == old(table.contents) && usage == old(usage)
      ensures clock == old(clock) + 1 && lastUse == old(lastUse)[id := old(clock)]
      ensures var h := old(handles)[id];
              && (if h.refs == 1 then handles == old(handles) - {id} && deleted == old(deleted) + [id]
                  else handles == old(handles)[id := h.(refs := h.refs - 1)] && deleted == old(deleted))
              && if h.inCache && h.Clients() == 1 then lru == old(lru) + [id] && TakenOut(old(inUse), id, inUse)
                 else lru == old(lru) && inUse == old(inUse)
    {
      hide Inv, Unreffed;
      UnrefKeepsInv(Abs(), table.contents, nextId, id);
      UnrefParts(Abs(), table.contents, nextId, id);
      ReleasedByLastUse(lru, id, lastUse, clock);
      Unref(id);
      clock, lastUse := clock + 1, lastUse[id := clock];
    }

    /** The key is gone: its entry is freed at once, or by its last client. */
    method Erase(key: Key)
      requires Valid()
      modifies this, table
      ensures Valid() && table.contents == old(table.contents) - {key} && Kept(old(Abs()), Abs())
      ensures clock == old(clock) && lastUse == old(lastUse)
      ensures key !in old(table.contents) ==> Abs() == old(Abs())
      ensures key in old(table.contents) ==>
                var id := old(table.contents)[key];
                && id in old(handles) && var h := old(handles)[id];
                && usage == old(usage) - h.charge
                && if h.Clients() == 0 then
                     handles == old(handles) - {id} && deleted == old(deleted) + [id] && TakenOut(old(lru), id, lru) && inUse == old(inUse)
                   else
                     && handles == old(handles)[id := h.(inCache := false, refs := h.refs - 1)] && deleted == old(deleted)
                     && lru == old(lru) && TakenOut(old(inUse), id, inUse)
    {
      hide HandleTable.Represents, HandleTable.IsPowerOfTwo, Inv, Kept, Erased, ByLastUse, TakenOut;
      ghost var s, contents := Abs(), table.contents;
      var e := table.Remove(key);
      CachedHandle(s, contents, nextId, key);
      if e.Some? {
        EraseKeepsInv(s, contents, nextId, e.value);
        EraseKeepsClients(s, e.value);
        ErasedParts(s, contents, nextId, e.value);
        KeepsOrder(lru, Erased(s, e.value).lru, e.value, lastUse, clock);
      } else {
        assert contents - {key} == contents;
        KeptSelf(s);
      }
      var erased := FinishErase(e);
    }

    /** Drops every entry that no client holds, and nothing else. */
    method Prune()
      requires Valid()
      modifies this, table
      ensures Valid() && lru == [] && inUse == old(inUse) && Kept(old(Abs()), Abs())
      ensures clock == old(clock) && lastUse == old(lastUse) && deleted == old(deleted) + old(lru)
    {
      hide Inv, Erased, ByLastUse, Kept;
      ghost var n := 0;
      KeptSelf(Abs());
      assert deleted == old(deleted) + old(lru)[..0];
      while lru != []
        invariant Valid() && inUse == old(inUse) && Kept(old(Abs()), Abs())
        invariant clock == old(clock) && lastUse == old(lastUse)
        invariant n <= |old(lru)| && lru == old(lru)[n..] && deleted == old(deleted) + old(lru)[..n]
        decreases |lru|
      {
        ghost var t := Abs();
        EvictOldest();
        KeptTransitive(old(Abs()), t, Abs());
        assert old(lru)[..n + 1] == old(lru)[..n] + [old(lru)[n]];
        n := n + 1;
      }
    }

    // Erases the oldest entry of the LRU list.
    method EvictOldest()
      requires Valid() && lru != []
      modifies this, table
      ensures Valid() && lru == old(lru)[1..] && inUse == old(inUse) && nextId == old(nextId)
      ensures Abs() == Erased(old(Abs()), old(lru)[0]) && Kept(old(Abs()), Abs())
      ensures old(lru[0]) in old(handles) && deleted == old(deleted) + [old(lru)[0]]
      ensures table.contents == old(table.contents) - {old(handles)[old(lru)[0]].key}
      ensures clock == old(clock) && lastUse == old(lastUse)
    {
      hide Inv, Kept;
      ghost var s, contents := Abs(), table.contents;
      var old' := lru[0];
      OldestIsCached(s, contents, nextId);
      EraseKeepsInv(s, contents, nextId, old');
      EraseKeepsClients(s, old');
      TailByLastUse(lru, 1, lastUse, clock);
      var e := table.Remove(handles[old'].key);
      var erased := FinishErase(e);
    }

    /** The new entry takes the place of one with the same key; then of the entries that no client
        holds those go whose last use is longest ago, as many as it takes to get within the
        capacity, and their deleters run in that order. */
    method Insert(key: Key, value: int, charge: nat) returns (id: nat, ghost evicted: nat)
      requires Valid()
      modifies this, table
      ensures Valid() && Kept(old(Abs()), Abs())
      ensures id == old(nextId) && id in handles
      ensures handles[id] == Handle(key, value, charge, capacity > 0, if capacity > 0 then 2 else 1)
      ensures usage <= capacity || lru == []
      ensures var before := if capacity > 0 then Replaced(old(Abs()), old(table.contents), key) else old(Abs());
              && evicted <= |before.lru| && lru == before.lru[evicted..]
              && (evicted > 0 ==> LastWasNeeded(before, evicted, usage, capacity))
              && deleted == before.deleted + before.lru[..evicted]
              && Earlier(before.lru, evicted, lastUse)
      ensures clock == old(clock) && lastUse == old(lastUse)
      ensures capacity > 0 ==> HandleTable.Find(table.contents, key) == Some(id)
    {
      hide Inv, Kept, Replaced, LastWasNeeded, ByLastUse, Earlier;
      ghost var s, contents := Abs(), table.contents;
      CachedHandle(s, contents, nextId, key);
      ghost var before := if capacity > 0 then Replaced(s, contents, key) else s;
      id := InsertNew(key, value, charge);
      ghost var added := Abs();
      assert ByLastUse(before.lru, lastUse, clock);
      evicted := EvictToCapacity(id);
      KeptTransitive(s, added, Abs());
      SameNeed(before, added, evicted, usage, capacity);
      EvictedEarlier(before.lru, evicted, lastUse, clock);
    }

    // The first half of Insert: the entry is in, and the one it replaces is out.
    method InsertNew(key: Key, value: int, charge: nat) returns (id: nat)
      requires Valid()
      modifies this, table
      ensures Valid() && Kept(old(Abs()), Abs()) && id == old(nextId) && id in handles && id !in lru
      ensures handles[id] == Handle(key, value, charge, capacity > 0, if capacity > 0 then 2 else 1)
      ensures key in old(table.contents) ==> old(table.contents)[key] in old(handles) && old(handles)[old(table.contents)[key]].refs > 0
      ensures SameRest(if capacity > 0 then Replaced(old(Abs()), old(table.contents), key) else old(Abs()), Abs())
      ensures deleted == (if capacity > 0 then Replaced(old(Abs()), old(table.contents), key) else old(Abs())).deleted
      ensures clock == old(clock) && lastUse == old(lastUse)
      ensures capacity > 0 ==> HandleTable.Find(table.contents, key) == Some(id)
    {
      hide Inv, Kept, Erased, Added, Charge, ByLastUse, TakenOut;
      ghost var s, contents := Abs(), table.contents;
      CachedHandle(s, contents, nextId, key);
      id := nextId;
      nextId := nextId + 1;
      if capacity > 0 {
        InsertKeepsInv(s, contents, id, key, value, charge);
        AddedParts(s, id, key, value, charge);
        ghost var t := if key in contents then Erased(Added(s, id, key, value, charge), contents[key]) else Added(s, id, key, value, charge);
        KeepsOrder(lru, t.lru, if key in contents then contents[key] else 0, lastUse, clock);
        handles := handles[id := Handle(key, value, charge, true, 2)];
        inUse := inUse + [id];
        usage := usage + charge;
        var replaced := table.Insert(HandleTable.Slot(key, id));
        var erased := FinishErase(replaced);
      } else {
        UncachedKeepsInv(s, contents, id, Handle(key, value, charge, false, 1));
        handles := handles[id := Handle(key, value, charge, false, 1)];
      }
    }

    // The second half: eviction from the old end of the LRU list.
    method EvictToCapacity(ghost id: nat) returns (ghost evicted: nat)
      requires Valid() && id in handles && id !in lru
      modifies this, table
      ensures clock == old(clock) && lastUse == old(lastUse)
      ensures evicted <= |old(lru)| && deleted == old(deleted) + old(lru)[..evicted]
      ensures Valid() && Kept(old(Abs()), Abs())
      ensures id in handles && handles[id] == old(handles)[id]
      ensures usage <= capacity || lru == []
      ensures evicted <= |old(lru)| && lru == old(lru)[evicted..]
      ensures evicted > 0 ==> LastWasNeeded(old(Abs()), evicted, usage, capacity)
      ensures handles[id].inCache && HandleTable.Find(old(table.contents), handles[id].key) == Some(id) ==>
                HandleTable.Find(table.contents, handles[id].key) == Some(id)
    {
      hide HandleTable.Represents, HandleTable.IsPowerOfTwo, Inv, Kept, Erased, ByLastUse, Evicting;
      ghost var s := Abs();
      NothingEvicted(s, table.contents, nextId, id, capacity);
      evicted := 0;
      while usage > capacity && lru != []
        invariant Valid() && Evicting(s, Abs(), id, evicted, capacity) && id in s.handles
        invariant clock == old(clock) && lastUse == old(lastUse)
        invariant s.handles[id].inCache && HandleTable.Find(old(table.contents), s.handles[id].key) == Some(id) ==>
                    HandleTable.Find(table.contents, s.handles[id].key) == Some(id)
        decreases |lru|
      {
        EvictedOneMore(s, Abs(), table.contents, nextId, id, evicted, capacity);
        EvictOldest();
        evicted := evicted + 1;
      }
      assert Evicting(s, Abs(), id, evicted, capacity);
      EvictingMeans(s, Abs(), id, evicted, capacity);
    }
  }

  // The oldest entries of s have been evicted, as many as are needed.
  ghost predicate Evicting(s: CacheState, t: CacheState, id: nat, evicted: nat, capacity: nat) {
    && evicted <= |s.lru| && t.lru == s.lru[evicted..] && t.deleted == s.deleted + s.lru[..evicted]
    && id in t.handles && id in s.handles && t.handles[id] == s.handles[id] && id !in t.lru
    && Kept(s, t)
    && (forall k :: k in t.lru ==> k in t.handles && k in s.handles && t.handles[k] == s.handles[k])
    && (evicted > 0 ==> LastWasNeeded(s, evicted, t.usage, capacity))
  }

  lemma NothingEvicted(s: CacheState, contents: map<Key, nat>, nextId: nat, id: nat, capacity: nat)
    requires Inv(s, contents, nextId) && id in s.handles && id !in s.lru
    ensures Evicting(s, s, id, 0, capacity)
  {
    LruAllocated(s, contents, nextId);
    KeptSelf(s);
    assert s.deleted + s.lru[..0] == s.deleted;
  }

  lemma EvictingMeans(s: CacheState, t: CacheState, id: nat, evicted: nat, capacity: nat)
    requires Evicting(s, t, id, evicted, capacity)
    ensures evicted <= |s.lru| && t.lru == s.lru[evicted..] && t.deleted == s.deleted + s.lru[..evicted]
    ensures id in t.handles && id in s.handles && t.handles[id] == s.handles[id] && Kept(s, t)
    ensures evicted > 0 ==> LastWasNeeded(s, evicted, t.usage, capacity)
  {
  }

  lemma EvictedOneMore(s: CacheState, t: CacheState, contents: map<Key, nat>, nextId: nat, id: nat, evicted: nat, capacity: nat)
    requires Evicting(s, t, id, evicted, capacity) && Inv(t, contents, nextId) && t.usage > capacity && t.lru != []
    ensures t.lru[0] in t.handles && t.handles[t.lru[0]].refs > 0
    ensures Evicting(s, Erased(t, t.lru[0]), id, evicted + 1, capacity)
    ensures id in t.handles && id in s.handles && t.handles[id] == s.handles[id]
    ensures t.handles[id].inCache ==> t.handles[id].key != t.handles[t.lru[0]].key
  {
    hide Inv, Erased, Kept, LastWasNeeded, Distinct;
    var o := t.lru[0];
    EvictedOne(t, contents, nextId, id);
    OldestIsCached(t, contents, nextId);
    EraseKeepsClients(t, o);
    OldestGone(t, contents, nextId);
    var u := Erased(t, o);
    KeptTransitive(s, t, u);
    EvictionGoesOn(s, t, u, id, evicted, capacity);
  }

  lemma EvictionGoesOn(s: CacheState, t: CacheState, u: CacheState, id: nat, evicted: nat, capacity: nat)
    requires Evicting(s, t, id, evicted, capacity) && t.usage > capacity && t.lru != [] && t.lru[0] in t.handles
    requires u.lru == t.lru[1..] && u.deleted == t.deleted + [t.lru[0]] && u.handles == t.handles - {t.lru[0]}
    requires u.usage == t.usage - t.handles[t.lru[0]].charge && t.lru[0] != id && t.lru[0] !in t.lru[1..] && Kept(s, u)
    ensures Evicting(s, u, id, evicted + 1, capacity)
  {
    hide Kept;
    var o := t.lru[0];
    assert s.lru[evicted] == o && s.lru[evicted..][1..] == s.lru[evicted + 1..];
    assert s.lru[..evicted + 1] == s.lru[..evicted] + [o];
    assert o in t.lru;
    forall k | k in u.lru ensures k in u.handles && k in s.handles && u.handles[k] == s.handles[k] {
      assert k in t.lru && k != o;
    }
  }

  lemma OldestGone(t: CacheState, contents: map<Key, nat>, nextId: nat)
    requires Inv(t, contents, nextId) && t.lru != [] && t.lru[0] in t.handles && t.handles[t.lru[0]].refs > 0
    ensures Erased(t, t.lru[0]).lru == t.lru[1..] && Erased(t, t.lru[0]).deleted == t.deleted + [t.lru[0]]
  {
    OldestIsCached(t, contents, nextId);
    hide Inv;
  }

  // The first n entries of the list were last used before all the others.
  ghost predicate Earlier(lru: seq<nat>, n: nat, lastUse: map<nat, nat>) {
    forall i, j :: 0 <= i < n <= j < |lru| ==> lru[i] in lastUse && lru[j] in lastUse && lastUse[lru[i]] < lastUse[lru[j]]
  }

  lemma EvictedEarlier(lru: seq<nat>, n: nat, lastUse: map<nat, nat>, clock: nat)
    requires ByLastUse(lru, lastUse, clock)
    ensures Earlier(lru, n, lastUse)
  {
    forall i, j | 0 <= i < n <= j < |lru|
      ensures lru[i] in lastUse && lru[j] in lastUse && lastUse[lru[i]] < lastUse[lru[j]]
    {
      assert i < j;
    }
  }

  lemma KeepsOrder(lru: seq<nat>, lru': seq<nat>, id: nat, lastUse: map<nat, nat>, clock: nat)
    requires ByLastUse(lru, lastUse, clock) && (lru' == lru || TakenOut(lru, id, lru'))
    ensures ByLastUse(lru', lastUse, clock)
  {
  }

  // The last entry evicted had to go.
  ghost predicate LastWasNeeded(s: CacheState, evicted: nat, usage: int, capacity: nat) {
    0 < evicted <= |s.lru| && s.lru[evicted - 1] in s.handles && usage + s.handles[s.lru[evicted - 1]].charge > capacity
  }

  // The two states have the same LRU list, of the same handles.
  ghost predicate SameRest(before: CacheState, s: CacheState) {
    s.lru == before.lru && forall k :: k in s.lru ==> k in s.handles && k in before.handles && s.handles[k] == before.handles[k]
  }

  lemma SameNeed(before: CacheState, s: CacheState, evicted: nat, usage: int, capacity: nat)
    requires SameRest(before, s)
    ensures LastWasNeeded(s, evicted, usage, capacity) ==> LastWasNeeded(before, evicted, usage, capacity)
  {
  }

  // What the cache holds besides the new entry.
  function Replaced(s: CacheState, contents: map<Key, nat>, key: Key): CacheState
    requires key in contents ==> contents[key] in s.handles && s.handles[contents[key]].refs > 0
  {
    if key in contents then Erased(s, contents[key]) else s
  }

  lemma OldestIsCached(s: CacheState, contents: map<Key, nat>, nextId: nat)
    requires Inv(s, contents, nextId) && s.lru != []
    ensures var id := s.lru[0];
            && id in s.handles && s.handles[id].inCache && s.handles[id].refs == 1
            && s.handles[id].key in contents && contents[s.handles[id].key] == id
            && Without(s.lru, id) == s.lru[1..] && Without(s.inUse, id) == s.inUse
  {
    hide Distinct;
    assert s.lru[0] in s.lru;
    WithoutAbsent(s.inUse, s.lru[0]);
  }

  lemma CachedHandle(s: CacheState, contents: map<Key, nat>, nextId: nat, key: Key)
    requires Inv(s, contents, nextId)
    ensures key in contents ==>
              var id := contents[key];
              id in s.handles && s.handles[id].inCache && s.handles[id].key == key && s.handles[id].refs > 0
    ensures nextId !in s.handles && nextId !in s.lru && nextId !in s.inUse
  {
    hide Distinct;
  }

  lemma AddedParts(s: CacheState, id: nat, key: Key, value: int, charge: nat)
    ensures Added(s, id, key, value, charge) ==
            CacheState(s.handles[id := Handle(key, value, charge, true, 2)], s.lru, s.inUse + [id], s.usage + charge, s.deleted)
  {
  }

  lemma InsertKeepsInv(s: CacheState, contents: map<Key, nat>, id: nat, key: Key, value: int, charge: nat)
    requires Inv(s, contents, id)
    requires key in contents ==>
               && contents[key] in s.handles
               && var h := s.handles[contents[key]]; h.inCache && h.key == key && h.refs > 0
    ensures var before, added := Replaced(s, contents, key), Added(s, id, key, value, charge);
            var t := if key in contents then Erased(added, contents[key]) else added;
            && Inv(t, contents[key := id], id + 1)
            && Kept(s, t)
            && SameRest(before, t) && id in t.handles && t.handles[id] == Handle(key, value, charge, true, 2) && id !in t.lru
            && t.deleted == before.deleted && (t.lru == s.lru || (key in contents && TakenOut(s.lru, contents[key], t.lru)))
  {
    var before := Replaced(s, contents, key);
    if key in contents {
      var e := contents[key];
      EraseKeepsInv(s, contents, id, e);
      EraseKeepsClients(s, e);
      EraseAfterAdd(s, e, id, key, value, charge);
      ErasedParts(s, contents, id, e);
      assert (contents - {key})[key := id] == contents[key := id];
      hide Inv, Erased, Kept, Added;
      AddKeepsInv(before, contents - {key}, id, key, value, charge);
      AddKeepsRest(s, before, contents - {key}, id, key, value, charge);
    } else {
      KeptSelf(s);
      hide Inv, Kept, Added;
      AddKeepsInv(before, contents, id, key, value, charge);
      AddKeepsRest(s, before, contents, id, key, value, charge);
    }
  }

  lemma AddKeepsRest(s: CacheState, before: CacheState, contents: map<Key, nat>, id: nat, key: Key, value: int, charge: nat)
    requires Inv(before, contents, id) && Kept(s, before)
    ensures var t := Added(before, id, key, value, charge);
            && Kept(s, t) && SameRest(before, t)
            && id in t.handles && t.handles[id] == Handle(key, value, charge, true, 2) && id !in t.lru
            && t.deleted == before.deleted && t.lru == before.lru
  {
    hide Distinct, Charge, TableInv;
  }

  lemma UncachedKeepsInv(s: CacheState, contents: map<Key, nat>, id: nat, h: Handle)
    requires Inv(s, contents, id) && !h.inCache && h.refs == 1
    ensures var t := s.(handles := s.handles[id := h]);
            && Inv(t, contents, id + 1) && Kept(s, t) && id !in t.lru && SameRest(s, t)
  {
    hide Distinct, Charge;
    var t := s.(handles := s.handles[id := h]);
    ChargeSame(s.handles, t.handles, s.lru);
    ChargeSame(s.handles, t.handles, s.inUse);
  }

  // Evicting the oldest entry changes nothing but that entry.
  lemma EvictedOne(s: CacheState, contents: map<Key, nat>, nextId: nat, id: nat)
    requires Inv(s, contents, nextId) && s.lru != [] && id in s.handles && id !in s.lru
    ensures var o := s.lru[0];
            && o != id && o in s.handles && s.handles[o].refs > 0 && Erased(s, o).handles == s.handles - {o}
            && Erased(s, o).usage == s.usage - s.handles[o].charge
            && o !in s.lru[1..]
            && (s.handles[id].inCache ==> s.handles[id].key != s.handles[o].key)
  {
    OldestIsCached(s, contents, nextId);
    assert s.lru[0] in s.lru;
  }

  lemma LruAllocated(s: CacheState, contents: map<Key, nat>, nextId: nat)
    requires Inv(s, contents, nextId)
    ensures forall k :: k in s.lru ==> k in s.handles
  {
  }

  lemma KeptSelf(s: CacheState)
    ensures Kept(s, s)
  {
  }

  lemma KeptTransitive(a: CacheState, b: CacheState, c: CacheState)
    requires Kept(a, b) && Kept(b, c)
    ensures Kept(a, c)
  {
  }
}
