/** The docker backend's cache of network ids, against the daemon's own networks. */
module Networks {
  import opened Wrappers
  import opened Sequences

  type Id = nat

  /** What a `GET /networks` with a name filter yields; the daemon matches any part of a name. */
  datatype Listing = Unreachable | NotListed | Entries(ids: seq<Id>)

  /** The cache, and the names of the daemon's networks by id. */
  datatype World = World(cache: map<string, Id>, nets: map<Id, string>)

  ghost predicate Lists(nets: map<Id, string>, name: string, listing: Listing) {
    listing.Entries? ==> forall id :: id in listing.ids <==> id in nets && Contains(nets[id], name)
  }

  /** The first listed network, whatever its full name. */
  function FirstListed(listing: Listing): Option<Id> {
    if listing.Entries? && listing.ids != [] then Some(listing.ids[0]) else None
  }

  /** `ensure_network_get_id`, given what the daemon answers. */
  function Ensured(w: World, name: string, listing: Listing, made: Option<Id>): (World, Option<Id>) {
    if name in w.cache then (w, Some(w.cache[name]))
    else if listing.Unreachable? then (w, None)
    else
      match FirstListed(listing)
      case Some(id) => (w.(cache := w.cache[name := id]), Some(id))
      case None =>
        if made.None? then (w, None)
        else (World(w.cache[name := made.value], w.nets[made.value := name]), made)
  }

  /** `remove_network`; `deleted` says whether the daemon obeys the best-effort delete. */
  function Removed(w: World, name: string, listing: Listing, deleted: bool): World {
    var id := if name in w.cache then Some(w.cache[name]) else FirstListed(listing);
    World(w.cache - {name}, if id.Some? && deleted then w.nets - {id.value} else w.nets)
  }

  // ---- the backend ---------------------------------------------------------------------

  class Daemon {
    var nets: map<Id, string>

    constructor (nets: map<Id, string>)
      ensures this.nets == nets
    {
      this.nets := nets;
    }

    method List(name: string) returns (listing: Listing)
      ensures Lists(nets, name, listing)
    {
      if * {
        return Unreachable;
      }
      if * {
        return NotListed;
      }
      var todo := set id | id in nets && Contains(nets[id], name);
      var ids := [];
      ghost var all := todo;
      while todo != {}
        invariant forall id :: id in all <==> id in ids || id in todo
        decreases |todo|
      {
        var id :| id in todo;
        ids, todo := ids + [id], todo - {id};
      }
      return Entries(ids);
    }

    method Create(name: string) returns (made: Option<Id>)
      modifies this
      ensures made.Some? ==> made.value !in old(nets) && nets == old(nets)[made.value := name]
      ensures made.None? ==> nets == old(nets)
    {
      if * {
        return None;
      }
      var id := 0;
      ghost var above := nets.Keys;
      while id in nets
        invariant above <= nets.Keys && forall k :: k in nets.Keys && k >= id ==> k in above
        decreases |above|
      {
        above := above - {id};
        id := id + 1;
      }
      nets := nets[id := name];
      return Some(id);
    }

    method Delete(id: Id) returns (deleted: bool)
      modifies this
      ensures nets == if deleted then old(nets) - {id} else old(nets)
    {
      if * {
        return false;
      }
      nets := nets - {id};
      return true;
    }
  }

  class DockerNetworks {
    var networkIds: map<string, Id>
    const daemon: Daemon

    constructor (daemon: Daemon)
      ensures this.daemon == daemon && networkIds == map[]
    {
      this.daemon := daemon;
      networkIds := map[];
    }

    ghost function View(): World
      reads this, daemon
    {
      World(networkIds, daemon.nets)
    }

    method EnsureNetworkGetId(name: string) returns (r: Option<Id>, ghost listing: Listing, ghost made: Option<Id>)
      modifies this, daemon
      ensures Lists(old(daemon.nets), name, listing) && (made.Some? ==> made.value !in old(daemon.nets))
      ensures (View(), r) == Ensured(old(View()), name, listing, made)
    {
      listing, made := Unreachable, None;
      if name in networkIds {
        return Some(networkIds[name]), listing, made;
      }
      var list := daemon.List(name);
      listing := list;
      if list.Unreachable? {
        return None, listing, made;
      }
      if list.Entries? && |list.ids| > 0 {
        networkIds := networkIds[name := list.ids[0]];
        return Some(list.ids[0]), listing, made;
      }
      var created := daemon.Create(name);
      made := created;
      if created.Some? {
        networkIds := networkIds[name := created.value];
      }
      return created, listing, made;
    }

    method RemoveNetwork(name: string) returns (ghost listing: Listing, ghost deleted: bool)
      modifies this, daemon
      ensures Lists(old(daemon.nets), name, listing)
      ensures View() == Removed(old(View()), name, listing, deleted)
    {
      listing, deleted := Unreachable, false;
      var id: Option<Id> := if name in networkIds then Some(networkIds[name]) else None;
      networkIds := networkIds - {name};
      if id == None {
        var list := daemon.List(name);
        listing := list;
        id := FirstListed(list);
      }
      if id.Some? {
        var done := daemon.Delete(id.value);
        deleted := done;
      }
    }
  }

  // ---- agreement -----------------------------------------------------------------------

  /** Each cached id is the daemon's network of that very name. */
  predicate Agree(w: World) {
    forall name :: name in w.cache ==> w.cache[name] in w.nets && w.nets[w.cache[name]] == name
  }

  /** No other network's name contains this one. */
  predicate Clear(nets: map<Id, string>, name: string) {
    forall id :: id in nets && Contains(nets[id], name) ==> nets[id] == name
  }

  predicate OneEach(nets: map<Id, string>) {
    forall i, j :: i in nets && j in nets && nets[i] == nets[j] ==> i == j
  }

  datatype Op =
    | Ensure(name: string, listing: Listing, made: Option<Id>)
    | Remove(name: string, listing: Listing, deleted: bool)
    | OthersCreate(id: Id, name: string)  // another process, which deletes nothing

  function Apply(w: World, op: Op): World {
    match op
    case Ensure(name, listing, made) => Ensured(w, name, listing, made).0
    case Remove(name, listing, deleted) => Removed(w, name, listing, deleted)
    case OthersCreate(id, name) => w.(nets := w.nets[id := name])
  }

  /** What the daemon can answer here. */
  ghost predicate Possible(w: World, op: Op) {
    match op
    case Ensure(name, listing, made) => Lists(w.nets, name, listing) && (made.Some? ==> made.value !in w.nets)
    case Remove(name, listing, _) => Lists(w.nets, name, listing)
    case OthersCreate(id, _) => id !in w.nets
  }

  ghost predicate Run(w: World, ops: seq<Op>)
    decreases |ops|
  {
    ops == [] || (Possible(w, ops[0]) && Run(Apply(w, ops[0]), ops[1..]))
  }

  /** Each name is clear when it is used. */
  ghost predicate ClearRun(w: World, ops: seq<Op>)
    decreases |ops|
  {
    ops == [] || ((!ops[0].OthersCreate? ==> Clear(w.nets, ops[0].name)) && ClearRun(Apply(w, ops[0]), ops[1..]))
  }

  function After(w: World, ops: seq<Op>): World
    decreases |ops|
  {
    if ops == [] then w else After(Apply(w, ops[0]), ops[1..])
  }

  lemma StepKeepsAgreement(w: World, op: Op)
    requires Agree(w) && Possible(w, op) && (!op.OthersCreate? ==> Clear(w.nets, op.name))
    ensures Agree(Apply(w, op))
  {
  }

  /** Over every sequential run in which no network's name contains a name used, the cache is right. */
  lemma {:induction false} RunKeepsAgreement(w: World, ops: seq<Op>)
    requires Agree(w) && Run(w, ops) && ClearRun(w, ops)
    ensures Agree(After(w, ops))
    decreases |ops|
  {
    hide Agree, Possible, Apply, Clear;
    if ops != [] {
      StepKeepsAgreement(w, ops[0]);
      RunKeepsAgreement(Apply(w, ops[0]), ops[1..]);
    }
  }

  lemma {:induction false} SomeOrder(ids: set<Id>, first: Id) returns (order: seq<Id>)
    requires first in ids
    ensures order != [] && order[0] == first && forall id :: id in order <==> id in ids
    decreases |ids|
  {
    if ids == {first} {
      order := [first];
    } else {
      var other :| other in ids && other != first;
      var most := SomeOrder(ids - {other}, first);
      order := most + [other];
    }
  }

  /**
   The condition is exact: whatever the daemon answers, an ensure keeps the cache right if and
   only if the name is cached already or no other network's name contains it.
  */
  lemma EnsureAgreesExactly(w: World, name: string)
    requires Agree(w)
    ensures (forall listing, made :: Possible(w, Ensure(name, listing, made)) ==>
               Agree(Apply(w, Ensure(name, listing, made))))
       <==> name in w.cache || Clear(w.nets, name)
  {
    if name in w.cache || Clear(w.nets, name) {
      forall listing, made | Possible(w, Ensure(name, listing, made))
        ensures Agree(Apply(w, Ensure(name, listing, made)))
      {
        if name !in w.cache {
          StepKeepsAgreement(w, Ensure(name, listing, made));
        }
      }
    } else {
      var id :| id in w.nets && Contains(w.nets[id], name) && w.nets[id] != name;
      var matching := set k | k in w.nets && Contains(w.nets[k], name);
      var order := SomeOrder(matching, id);
      var bad := Ensure(name, Entries(order), None);
      assert Possible(w, bad);
      assert Apply(w, bad).cache[name] == id;
      assert !Agree(Apply(w, bad));
    }
  }

  // ---- creating once, removing for good ------------------------------------------------

  /** Until it is removed, a name ensured once keeps its id, and further ensures create nothing. */
  lemma {:induction false} EnsuredOnce(w: World, ops: seq<Op>, name: string)
    requires name in w.cache
    requires forall i :: 0 <= i < |ops| ==> !(ops[i].Remove? && ops[i].name == name)
    ensures var end := After(w, ops);
            && name in end.cache && end.cache[name] == w.cache[name]
            && forall listing, made :: Ensured(end, name, listing, made) == (end, Some(w.cache[name]))
    decreases |ops|
  {
    if ops != [] {
      assert !(ops[0].Remove? && ops[0].name == name);
      EnsuredOnce(Apply(w, ops[0]), ops[1..], name);
    }
  }

  /**
   The id an ensure returns: the one it leaves in the cache. It finds one exactly when the name is
   cached, or the listing comes with a network, or the creation works after a listing without one.
   A listing that names networks makes no new one; only a creation adds to the daemon's.
  */
  lemma EnsureReturnsTheCached(w: World, name: string, listing: Listing, made: Option<Id>)
    ensures var (after, r) := Ensured(w, name, listing, made);
            && r == (if name in after.cache then Some(after.cache[name]) else None)
            && (r.Some? <==> name in w.cache || (listing.Entries? && |listing.ids| > 0)
                             || (!listing.Unreachable? && made.Some?))
            && (name !in w.cache && listing.Entries? && |listing.ids| > 0 ==> r == Some(listing.ids[0]))
            && (after.nets != w.nets ==>
                  name !in w.cache && made.Some? && r == made && after.nets == w.nets[made.value := name])
            && forall other :: other != name ==>
                 (other in after.cache <==> other in w.cache)
                 && (other in w.cache ==> after.cache[other] == w.cache[other])
  {
  }

  /** And every later ensure of the name returns that same id, until the name is removed. */
  lemma EnsuredIdStays(w: World, name: string, listing: Listing, made: Option<Id>, ops: seq<Op>)
    requires Ensured(w, name, listing, made).1.Some?
    requires forall i :: 0 <= i < |ops| ==> !(ops[i].Remove? && ops[i].name == name)
    ensures var first := Ensured(w, name, listing, made);
            var end := After(first.0, ops);
            forall l, m :: Ensured(end, name, l, m) == (end, first.1)
  {
    EnsureReturnsTheCached(w, name, listing, made);
    hide Ensured;
    EnsuredOnce(Ensured(w, name, listing, made).0, ops, name);
  }

  lemma ContainsItself(s: string)
    ensures Contains(s, s)
  {
    assert s <= s[0..];
  }

  /** An ensure creates a second network of a name only when the daemon fails to list the first. */
  lemma EnsureKeepsOneEach(w: World, op: Op)
    requires OneEach(w.nets) && op.Ensure? && Possible(w, op)
    ensures OneEach(Apply(w, op).nets)
       <==> op.name in w.cache || !op.listing.NotListed? || op.made.None? || op.name !in w.nets.Values
  {
    ContainsItself(op.name);
    hide Contains;
    var after := Apply(w, op);
    if op.name !in w.cache && op.listing.NotListed? && op.made.Some? && op.name in w.nets.Values {
      var k :| k in w.nets && w.nets[k] == op.name;
      assert after.nets[k] == after.nets[op.made.value] && k != op.made.value;
    }
  }

  /**
   Every ensure of a name not cached gets an answer to its listing, or none at all and gives up;
   other processes make only names that are missing.
  */
  ghost predicate AnsweredRun(w: World, ops: seq<Op>)
    decreases |ops|
  {
    ops == [] ||
    (&& (ops[0].Ensure? ==> ops[0].name in w.cache || !ops[0].listing.NotListed?)
     && (ops[0].OthersCreate? ==> ops[0].name !in w.nets.Values)
     && AnsweredRun(Apply(w, ops[0]), ops[1..]))
  }

  lemma OtherOpsKeepOneEach(w: World, op: Op)
    requires OneEach(w.nets) && !op.Ensure? && Possible(w, op)
    requires op.OthersCreate? ==> op.name !in w.nets.Values
    ensures OneEach(Apply(w, op).nets)
  {
    hide Contains;
    if op.OthersCreate? {
      assert forall id :: id in w.nets ==> w.nets[id] in w.nets.Values;
    }
  }

  /**
   Over any such run, failed ensures and removes included, there is at most one network of each
   name: however often a name is ensured, one network is made.
  */
  lemma {:induction false} RunKeepsOneEach(w: World, ops: seq<Op>)
    requires OneEach(w.nets) && Run(w, ops) && AnsweredRun(w, ops)
    ensures OneEach(After(w, ops).nets)
    decreases |ops|
  {
    hide OneEach, Possible, Apply;
    if ops != [] {
      if ops[0].Ensure? {
        EnsureKeepsOneEach(w, ops[0]);
      } else {
        OtherOpsKeepOneEach(w, ops[0]);
      }
      RunKeepsOneEach(Apply(w, ops[0]), ops[1..]);
    }
  }

  /** After a remove that the daemon could answer, neither the entry nor the network is left. */
  lemma RemoveIsComplete(w: World, op: Op)
    requires Agree(w) && OneEach(w.nets) && op.Remove? && Possible(w, op) && Clear(w.nets, op.name)
    ensures op.name !in Apply(w, op).cache
    ensures op.deleted && (op.name in w.cache || op.listing.Entries?) ==> op.name !in Apply(w, op).nets.Values
    ensures forall id :: id in w.nets && w.nets[id] != op.name ==>
              id in Apply(w, op).nets && Apply(w, op).nets[id] == w.nets[id]
  {
    ContainsItself(op.name);
    hide Contains;
    if FirstListed(op.listing).Some? {
      assert op.listing.ids[0] in op.listing.ids;
    }
  }
}
