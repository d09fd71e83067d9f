/** The bee store: buckets with a main layer and a memory layer over it, and chains of range nodes
    that lead to them. A database is a map here. */
module BeeStore {
  import opened Bytes

  type Key = seq<byte>
  type Db = map<Key, seq<byte>>

  /** Bytes of the time stamp in front of every value; a value that is no longer is a tombstone. */
  const STAMP := 16

  datatype Code = Ok | NotFound | LibCall

  class Bucket {
    var main: Option<Db>
    var mem: Option<Db>

    constructor ()
      ensures main == None && mem == None
    {
      main, mem := None, None;
    }

    /** What a lookup sees: the memory layer over the main layer, and nothing without a main layer. */
    function View(): Db
      reads this
    {
      match (main, mem)
      case (None, _) => map[]
      case (Some(m), None) => m
      case (Some(m), Some(t)) => m + t
    }

    /** `bee_bucket_get` */
    method Get(key: Key) returns (r: Code, value: seq<byte>)
      ensures if key in View() then r == Ok && value == View()[key] else r == NotFound && value == []
    {
      if main == None {
        return NotFound, [];
      }
      if mem != None {
        if key in mem.value {
          return Ok, mem.value[key];
        }
      }
      if key in main.value {
        return Ok, main.value[key];
      }
      return NotFound, [];
    }

    /** `bee_bucket_set` */
    method Set(key: Key, value: seq<byte>) returns (r: Code)
      modifies this
      ensures r == if old(main) == None && old(mem) == None then NotFound else Ok
      ensures main.Some? == old(main.Some?) && mem.Some? == old(mem.Some?)
      ensures View() == if r == Ok && main.Some? then old(View())[key := value] else old(View())
    {
      if mem != None {
        mem := Some(mem.value[key := value]);
      } else if main != None {
        main := Some(main.value[key := value]);
      } else {
        return NotFound;
      }
      return Ok;
    }

    /** `bee_bucket_del`: a tombstone in the memory layer, a removal from a bare main layer, which
        fails when there is nothing to remove. */
    method Del(key: Key, tombstone: seq<byte>) returns (r: Code)
      modifies this
      ensures main.Some? == old(main.Some?) && mem.Some? == old(mem.Some?)
      ensures r == if old(mem.Some?) then Ok else if old(main == None) then NotFound
                   else if key in old(View()) then Ok else LibCall
      ensures View() == if old(main == None) then old(View())
                        else if old(mem.Some?) then old(View())[key := tombstone] else old(View()) - {key}
    {
      if mem != None {
        mem := Some(mem.value[key := tombstone]);
      } else if main != None {
        if key !in main.value {
          return LibCall;
        }
        main := Some(main.value - {key});
      } else {
        return NotFound;
      }
      return Ok;
    }

    /** `bee_shift_mem_bucket`: a fresh memory layer comes on top; a third layer has no place, and the
        main layer goes. Then what is lost is what the memory layer had not. */
    method Shift()
      modifies this
      ensures main.Some? && (old(main.Some?) ==> mem == Some(map[]))
      ensures View() == match (old(main), old(mem)) {
        case (Some(m), None) => m
        case (_, Some(t)) => t
        case (None, None) => map[]
      }
      ensures old(main.Some? && mem.Some?) ==> (View() == old(View()) <==> old(main.value.Keys <= mem.value.Keys))
      ensures old(main.Some? && mem == None) ==> View() == old(View())
    {
      if main != None {
        if mem != None {
          ShiftKeeps(main.value, mem.value);
          main := mem;
          mem := Some(map[]);
        } else {
          mem := Some(map[]);
        }
      } else {
        main := Some(map[]);
      }
    }
  }

  /** A layer over another shows no more than itself exactly when it has every key. */
  lemma ShiftKeeps(m: Db, t: Db)
    ensures m + t == t <==> m.Keys <= t.Keys
  {
    if m + t == t { assert (m + t).Keys == m.Keys + t.Keys; }
  }

  /** A node of a range map: on this server or not, with a bucket or without. */
  datatype Node = Node(me: bool, bucket: Bucket?)

  /** Whether a lookup asks this node. */
  predicate Asked(n: Node) {
    n.me && n.bucket != null
  }

  /** The buckets of the first `n` nodes. */
  ghost function Buckets(chain: seq<Node>, n: nat): set<Bucket>
    requires n <= |chain|
  {
    set i | 0 <= i < n && chain[i].bucket != null :: chain[i].bucket
  }

  /** What a bucket says about a key: the data, or none, be it absent or a tombstone. */
  predicate Says(view: Db, key: Key, data: Option<seq<byte>>) {
    match data
    case None => key in view ==> |view[key]| <= STAMP
    case Some(d) => key in view && |view[key]| > STAMP && view[key][STAMP..] == d
  }

  function Lookup(m: Db, key: Key): Option<seq<byte>> {
    if key in m then Some(m[key]) else None
  }

  /** What a bucket shows, and which layers it has. */
  datatype State = State(view: Db, main: bool, mem: bool)

  /** The deletion of a key succeeds at a place of the chain: there is a layer for a tombstone, or
      something to remove that was not removed at an earlier place. */
  ghost predicate CanDelAt(chain: seq<Node>, i: nat, states: map<Bucket, State>, key: Key) {
    && i < |chain|
    && (chain[i].bucket != null ==>
         && chain[i].bucket in states
         && var b := states[chain[i].bucket];
           b.mem || (b.main && key in b.view && chain[i].bucket !in Buckets(chain, i)))
  }

  /** It fails there, with this answer: no layer at all, or nothing to remove. */
  ghost predicate CannotDelAt(chain: seq<Node>, i: nat, states: map<Bucket, State>, key: Key, r: Code) {
    && i < |chain| && !CanDelAt(chain, i, states, key)
    && chain[i].bucket != null && chain[i].bucket in states
    && r == if states[chain[i].bucket].main then LibCall else NotFound
  }

  class Store {
    /** The chain of range nodes the hash of a key leads to. */
    const chains: map<Key, seq<Node>>
    ghost const buckets: set<Bucket>
    /** The plain map the store stands for. */
    ghost var model: Db

    /** The buckets a lookup may ask answer for the key as the plain map does. */
    ghost predicate Agrees(key: Key)
      reads this, buckets
    {
      && key in chains
      && forall b {:trigger b in Buckets(chains[key], |chains[key]|)} ::
           b in Buckets(chains[key], |chains[key]|) && b in buckets && b.main.Some? ==>
             Says(b.View(), key, Lookup(model, key))
    }

    ghost predicate Topology() {
      forall k :: k in chains ==> Buckets(chains[k], |chains[k]|) <= buckets
    }

    ghost predicate HasMain(n: Node)
      reads buckets
    {
      Asked(n) && n.bucket in buckets && n.bucket.main.Some?
    }

    /** A lookup of the key has a bucket to ask. */
    ghost predicate Reachable(key: Key)
      reads this, buckets
    {
      key in chains && exists i :: 0 <= i < |chains[key]| && HasMain(chains[key][i])
    }

    /** The store refines the plain map. */
    ghost predicate Valid()
      reads this, buckets
    {
      Topology() && model.Keys <= chains.Keys && forall k {:trigger Agrees(k)} :: k in chains ==> Agrees(k)
    }

    constructor (chains: map<Key, seq<Node>>, ghost buckets: set<Bucket>)
      requires forall k :: k in chains ==> Buckets(chains[k], |chains[k]|) <= buckets
      requires forall b :: b in buckets ==> b.View() == map[]
      ensures Valid() && this.chains == chains && this.buckets == buckets && model == map[]
    {
      this.chains, this.buckets, model := chains, buckets, map[];
    }

    /** `bee_db_get_local`: the first local bucket that has the key. */
    method GetLocal(key: Key) returns (r: Code, value: seq<byte>, ghost k: nat)
      requires key in chains
      ensures k <= |chains[key]| && r == if k < |chains[key]| then Ok else NotFound
      ensures r == Ok ==> var n := chains[key][k];
        n.me && n.bucket != null && key in n.bucket.View() && n.bucket.View()[key] == value
      ensures forall j :: 0 <= j < k ==> var n := chains[key][j];
        n.me && n.bucket != null ==> key !in n.bucket.View()
    {
      var chain, i := chains[key], 0;
      while i < |chain|
        invariant 0 <= i <= |chain|
        invariant forall j :: 0 <= j < i && Asked(chain[j]) ==> key !in chain[j].bucket.View()
      {
        if Asked(chain[i]) {
          r, value := chain[i].bucket.Get(key);
          if r == Ok {
            k := i;
            return;
          }
        }
        i := i + 1;
      }
      return NotFound, [], |chain|;
    }

    /** `bee_db_get`: what it answers is what the plain map holds, whatever the buckets say of other keys. */
    method Get(key: Key) returns (r: Code, data: seq<byte>)
      requires Topology() && Reachable(key) && Agrees(key)
      ensures r == if key in model then Ok else NotFound
      ensures r == Ok ==> data == model[key]
    {
      var value;
      ghost var k;
      r, value, k := GetLocal(key);
      ghost var chain := chains[key];
      assert forall j :: 0 <= j < |chain| && chain[j].bucket != null ==> chain[j].bucket in Buckets(chain, |chain|);
      if r != Ok {
        ghost var i :| 0 <= i < |chain| && HasMain(chain[i]);
        assert chain[i].bucket in Buckets(chain, |chain|);
        return r, [];
      }
      assert chain[k].bucket in Buckets(chain, |chain|) && chain[k].bucket.main.Some?;
      if |value| <= STAMP {
        return NotFound, [];
      }
      return Ok, value[STAMP..];
    }

    /** A bucket has a layer that takes values. */
    ghost predicate HasLayer(b: Bucket)
      reads b
    {
      b.main.Some? || b.mem.Some?
    }

    /** A value can be set: there is a bucket on the chain, and each has a layer. */
    ghost predicate CanSet(key: Key)
      reads buckets
    {
      && key in chains && Buckets(chains[key], |chains[key]|) != {}
      && forall b :: b in Buckets(chains[key], |chains[key]|) && b in buckets ==> HasLayer(b)
    }

    /** `bee_db_set_local`: every bucket of the chain takes the value, up to one that cannot. */
    method SetLocal(key: Key, value: seq<byte>, ghost views: map<Bucket, Db>) returns (r: Code, ghost k: nat)
      requires Topology() && key in chains && forall b :: b in buckets ==> b in views && views[b] == b.View()
      modifies buckets
      ensures r == if old(CanSet(key)) then Ok else NotFound
      ensures k <= |chains[key]| && (r == Ok ==> k == |chains[key]|)
      ensures forall b :: b in buckets ==> b.main.Some? == old(b.main.Some?) && b.mem.Some? == old(b.mem.Some?)
      ensures forall b :: b in buckets ==> b.View() == After(b, views, Buckets(chains[key], k), key, value)
    {
      hide Bucket.View, Buckets;
      var chain, i := chains[key], 0;
      r, k := NotFound, 0;
      NoBuckets(chain);
      while i < |chain|
        invariant 0 <= i <= |chain| && k == i && r == (if Buckets(chain, i) == {} then NotFound else Ok)
        invariant forall b :: b in Buckets(chain, i) ==> b in buckets && old(HasLayer(b))
        invariant forall b :: b in buckets ==> b.main.Some? == old(b.main.Some?) && b.mem.Some? == old(b.mem.Some?)
        invariant forall b :: b in buckets ==> b.View() == After(b, views, Buckets(chain, i), key, value)
      {
        BucketsGrow(chain, i);
        if chain[i].bucket != null {
          BucketInside(chain, i);
          assert chain[i].bucket in buckets;
          r := chain[i].bucket.Set(key, value);
          if r != Ok {
            return;
          }
        }
        i := i + 1;
        k := i;
      }
    }

    /** What a bucket shows after the buckets in `done` took a value. */
    ghost function After(b: Bucket, views: map<Bucket, Db>, done: set<Bucket>, key: Key, value: seq<byte>): Db
      requires b in views
      reads b
    {
      if b in done && b.main.Some? then views[b][key := value] else views[b]
    }

    /** `bee_db_set`. When it succeeds the plain map has the new data, even if the buckets did not agree about
        the key before; empty data are as good as none. About other keys nothing changes. */
    method Set(key: Key, stamp: seq<byte>, data: seq<byte>) returns (r: Code)
      requires Topology() && |stamp| == STAMP
      modifies this`model, buckets
      ensures r == Ok ==> Agrees(key) && model == if data == [] then old(model) - {key} else old(model)[key := data]
      ensures r != Ok ==> model == old(model)
      ensures forall x :: x in chains && x != key && old(Agrees(x)) ==> Agrees(x)
      ensures r == Ok && old(Valid()) ==> Valid()
      ensures r == if old(CanSet(key)) then Ok else NotFound
    {
      if key !in chains {
        return NotFound;
      }
      ghost var views, was := map b | b in buckets :: b.View(), model;
      ghost var k;
      r, k := SetLocal(key, stamp + data, views);
      if r == Ok {
        model := if data == [] then model - {key} else model[key := data];
      }
      forall x | x in chains && (if x == key then r == Ok else old(Agrees(x))) ensures Agrees(x) {
        assert x != key ==> old(Agrees(x));
      }
    }

    /** What a bucket shows after the buckets in `done` deleted a key. */
    ghost function AfterDel(b: Bucket, states: map<Bucket, State>, done: set<Bucket>, key: Key,
        tombstone: seq<byte>): Db
      requires b in states
    {
      if b !in done || !states[b].main then states[b].view
      else if states[b].mem then states[b].view[key := tombstone]
      else states[b].view - {key}
    }

    ghost function States(): map<Bucket, State>
      reads buckets
    {
      map b | b in buckets :: State(b.View(), b.main.Some?, b.mem.Some?)
    }

    ghost predicate SameLayers(states: map<Bucket, State>)
      reads buckets
    {
      forall b :: b in buckets ==> b in states && b.main.Some? == states[b].main && b.mem.Some? == states[b].mem
    }

    /** `bee_db_del_local`: every bucket of the chain deletes the key, up to one that cannot. */
    method DelLocal(key: Key, tombstone: seq<byte>, ghost states: map<Bucket, State>) returns (r: Code, ghost k: nat)
      requires Topology() && key in chains && states == States()
      modifies buckets
      ensures k <= |chains[key]| && (r == Ok <==> k == |chains[key]|)
      ensures SameLayers(states)
      ensures forall b :: b in buckets ==> b.View() == AfterDel(b, states, Buckets(chains[key], k), key, tombstone)
      ensures forall i: nat {:trigger CanDelAt(chains[key], i, states, key)} :: i < k ==>
        CanDelAt(chains[key], i, states, key)
      ensures k < |chains[key]| ==> CannotDelAt(chains[key], k, states, key, r)
    {
      hide Bucket.View, Buckets;
      var chain, i := chains[key], 0;
      r, k := Ok, 0;
      NoBuckets(chain);
      while i < |chain|
        invariant 0 <= i <= |chain| && k == i && r == Ok
        invariant SameLayers(states)
        invariant forall b :: b in buckets ==> b.View() == AfterDel(b, states, Buckets(chain, i), key, tombstone)
        invariant forall j: nat {:trigger CanDelAt(chain, j, states, key)} :: j < i ==> CanDelAt(chain, j, states, key)
      {
        BucketsGrow(chain, i);
        if chain[i].bucket != null {
          BucketInside(chain, i);
          assert chain[i].bucket in buckets;
          r := chain[i].bucket.Del(key, tombstone);
          if r != Ok {
            return;
          }
        }
        i := i + 1;
        k := i;
      }
    }

    /** `bee_db_del`. When it succeeds the plain map has the key no more; it succeeds exactly if at every
        place of the chain the deletion can. */
    method Del(key: Key, tombstone: seq<byte>) returns (r: Code)
      requires Topology() && |tombstone| == STAMP
      modifies this`model, buckets
      ensures r == Ok ==> Agrees(key) && model == old(model) - {key}
      ensures r != Ok ==> model == old(model)
      ensures forall x :: x in chains && x != key && old(Agrees(x)) ==> Agrees(x)
      ensures r == Ok && old(Valid()) ==> Valid()
      ensures key in chains ==>
        (r == Ok <==> forall i: nat :: i < |chains[key]| ==> CanDelAt(chains[key], i, old(States()), key))
      ensures key in chains && r != Ok ==>
        exists k: nat {:trigger CannotDelAt(chains[key], k, old(States()), key, r)} ::
          CannotDelAt(chains[key], k, old(States()), key, r)
          && forall i: nat :: i < k ==> CanDelAt(chains[key], i, old(States()), key)
      ensures key !in chains ==> r == NotFound
    {
      if key !in chains {
        return NotFound;
      }
      ghost var states := States();
      ghost var k;
      r, k := DelLocal(key, tombstone, states);
      if r == Ok {
        model := model - {key};
      }
      forall x | x in chains && (if x == key then r == Ok else old(Agrees(x))) ensures Agrees(x) {
        assert x != key ==> old(Agrees(x));
      }
    }

    /** A shift of a bucket: onto a bare main layer it changes nothing; of two layers it leaves the store
        as it should be exactly if the memory layer has every key of the plain map the bucket is asked for. */
    method Shift(b: Bucket)
      requires Valid() && b in buckets && b.main.Some?
      modifies b
      ensures old(b.mem == None) ==> Valid()
      ensures old(b.mem.Some?) ==>
        (Valid() <==> forall k :: k in model && b in Buckets(chains[k], |chains[k]|) ==> k in old(b.mem.value))
    {
      ghost var two, t := b.mem.Some?, if b.mem.Some? then b.mem.value else map[];
      ghost var view := b.View();
      label L: b.Shift();
      if !two || forall k :: k in model && b in Buckets(chains[k], |chains[k]|) ==> k in t {
        forall k | k in chains ensures Agrees(k) {
          assert old@L(Agrees(k));
        }
      } else {
        ghost var k :| k in model && b in Buckets(chains[k], |chains[k]|) && k !in t;
        assert !Says(b.View(), k, Lookup(model, k));
        assert !Agrees(k);
      }
    }
  }

  /** Deleting a key a bare main layer does not hold fails, so a second deletion of it fails: the
      answer of a deletion says more than that the key is gone. */
  method DeleteTwice(b: Bucket, key: Key, tombstone: seq<byte>) returns (first: Code, second: Code)
    requires b.main.Some? && b.mem == None
    modifies b
    ensures second == LibCall && key !in b.View() && (first == Ok <==> key in old(b.View()))
  {
    first := b.Del(key, tombstone);
    second := b.Del(key, tombstone);
  }

  lemma NoBuckets(chain: seq<Node>)
    ensures Buckets(chain, 0) == {}
  {
  }

  lemma BucketInside(chain: seq<Node>, i: nat)
    requires i < |chain| && chain[i].bucket != null
    ensures chain[i].bucket in Buckets(chain, |chain|)
  {
  }

  lemma BucketsGrow(chain: seq<Node>, i: nat)
    requires i < |chain|
    ensures Buckets(chain, i + 1) == Buckets(chain, i) + (if chain[i].bucket != null then {chain[i].bucket} else {})
  {
  }
}
