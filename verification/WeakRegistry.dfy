/**
 * weak_custom_rr: the registry of weak slots, and the protocol by which this code and libobjc
 * share them. Objects and slots are addresses; libobjc is modelled by the slots it was given
 * and not yet returned, which it zeroes when their object dies.
 */
module WeakRegistry {

  const BUCKETS := 1024
  const NIL := 0

  datatype Owner = Ours | Objc

  datatype Node = Node(location: nat, target: nat, owner: Owner)

  datatype Entry = Unknown | Known(target: nat, owner: Owner)

  function Hash(p: nat): (h: nat)
    ensures h < BUCKETS
  {
    p / 16 % BUCKETS
  }

  // ---------------------------------------------------------- one chain

  function Index(chain: seq<Node>, l: nat): (i: nat)
    ensures i <= |chain|
    ensures i < |chain| ==> chain[i].location == l
    ensures forall j :: 0 <= j < i ==> chain[j].location != l
  {
    if |chain| == 0 || chain[0].location == l then 0 else 1 + Index(chain[1..], l)
  }

  function Lookup(chain: seq<Node>, l: nat): Entry {
    var i := Index(chain, l);
    if i < |chain| then Known(chain[i].target, chain[i].owner) else Unknown
  }

  ghost predicate ChainOk(chain: seq<Node>, b: nat) {
    && (forall i :: 0 <= i < |chain| ==> Hash(chain[i].location) == b)
    && forall i, j :: 0 <= i < j < |chain| ==> chain[i].location != chain[j].location
  }

  lemma IndexOf(chain: seq<Node>, b: nat, i: nat)
    requires ChainOk(chain, b) && i < |chain|
    ensures Index(chain, chain[i].location) == i
  {}

  function Without(chain: seq<Node>, i: nat): seq<Node>
    requires i < |chain|
  {
    chain[..i] + chain[i + 1..]
  }

  lemma WithoutOk(chain: seq<Node>, b: nat, i: nat)
    requires ChainOk(chain, b) && i < |chain|
    ensures ChainOk(Without(chain, i), b)
    ensures forall l :: Lookup(Without(chain, i), l) == if l == chain[i].location then Unknown else Lookup(chain, l)
  {
    hide Hash;
    forall l
      ensures Lookup(Without(chain, i), l) == if l == chain[i].location then Unknown else Lookup(chain, l)
    {
      var r := Without(chain, i);
      var a, k := Index(chain, l), Index(r, l);
      if k < |r| { assert r[k] == chain[if k < i then k else k + 1]; }
      if a < |chain| && a != i { assert r[if a < i then a else a - 1] == chain[a]; }
    }
  }

  lemma FrontOk(chain: seq<Node>, b: nat, n: Node)
    requires ChainOk(chain, b) && Hash(n.location) == b && Lookup(chain, n.location).Unknown?
    ensures ChainOk([n] + chain, b)
    ensures forall l :: Lookup([n] + chain, l) == if l == n.location then Known(n.target, n.owner) else Lookup(chain, l)
  {
    hide Hash;
    var r := [n] + chain;
    assert r[1..] == chain;
  }

  /** A node of the dying object in a slot that this code owns. */
  predicate Dying(n: Node, target: nat) { n.target == target && n.owner == Ours }

  // -------------------------------------------------------- the registry

  class Registry {
    const buckets: array<seq<Node>>
    /** The weak variables and what they read as. */
    var slots: map<nat, nat>
    var live: set<nat>
    /** Live objects of classes with custom retain or release. */
    var custom: set<nat>
    var sentinels: set<nat>
    /** Slots given to libobjc and not since returned. */
    var given: set<nat>

    constructor ()
      ensures Valid() && fresh(buckets) && slots == map[] && live == {} && given == {}
    {
      buckets := new seq<Node>[BUCKETS](_ => []);
      slots, live, custom, sentinels, given := map[], {}, {}, {}, {};
    }

    function Find(l: nat): Entry
      requires buckets.Length == BUCKETS
      reads buckets
    {
      Lookup(buckets[Hash(l)], l)
    }

    /** At most one node per location, in its own bucket. */
    ghost predicate Shape()
      reads buckets
    {
      buckets.Length == BUCKETS && forall b :: 0 <= b < BUCKETS ==> ChainOk(buckets[b], b)
    }

    /** What is true of one slot. */
    ghost predicate SlotOk(l: nat)
      requires buckets.Length == BUCKETS
      reads this, buckets
    {
      var e := Find(l);
      && (e.Known? ==> l in slots)
      && (e.Known? && e.owner == Ours ==>
            e.target in live && e.target in custom && e.target in sentinels
                && (slots[l] == NIL || slots[l] == e.target))
      && (l in given <==> e.Known? && e.owner == Objc)
      && (l in slots && l in given ==> slots[l] == NIL || slots[l] in live)
      && (l in slots && e.Unknown? ==> slots[l] == NIL)
    }

    ghost predicate Valid()
      reads this, buckets
    {
      && Shape() && NIL !in live && sentinels <= live && custom <= live
      && forall l :: SlotOk(l)
    }

    // -------------------------------------------- the registry's own steps

    /** mpls_weak_forget. */
    method ForgetSlot(l: nat)
      requires Shape()
      modifies buckets
      ensures Shape() && Find(l).Unknown? && forall m :: m != l ==> Find(m) == old(Find(m))
    {
      hide ChainOk, Lookup, Hash;
      var b := Hash(l);
      var chain := buckets[b];
      var i := 0;
      while i < |chain| && chain[i].location != l
        invariant 0 <= i <= |chain| && forall j :: 0 <= j < i ==> chain[j].location != l
      {
        i := i + 1;
      }
      if i < |chain| {
        WithoutOk(chain, b, i);
        buckets[b] := Without(chain, i);
      } else {
        NotThere(chain, l);
      }
    }

    /** mpls_weak_remember; allocation succeeds. */
    method RememberSlot(l: nat, target: nat, owner: Owner)
      requires Shape()
      modifies buckets
      ensures Shape() && Find(l) == Known(target, owner) && forall m :: m != l ==> Find(m) == old(Find(m))
    {
      hide ChainOk, Lookup, Hash;
      ForgetSlot(l);
      var b := Hash(l);
      FrontOk(buckets[b], b, Node(l, target, owner));
      buckets[b] := [Node(l, target, owner)] + buckets[b];
    }

    /** mpls_weak_lookup. */
    method LookupSlot(l: nat) returns (e: Entry)
      requires Shape()
      ensures e == Find(l)
    {
      var chain := buckets[Hash(l)];
      var i := 0;
      while i < |chain|
        invariant 0 <= i <= |chain| && forall j :: 0 <= j < i ==> chain[j].location != l
      {
        if chain[i].location == l {
          ThereAt(chain, l, i);
          return Known(chain[i].target, chain[i].owner);
        }
        i := i + 1;
      }
      NotThere(chain, l);
      e := Unknown;
    }

    /** The inner loop of mpls_weak_zero_for. */
    method ZeroChain(b: nat, target: nat)
      requires Shape() && b < BUCKETS && forall i :: 0 <= i < |buckets[b]| ==> buckets[b][i].location in slots
      modifies buckets, this`slots
      ensures Shape() && forall c :: 0 <= c < BUCKETS && c != b ==> buckets[c] == old(buckets[c])
      ensures forall l :: Lookup(buckets[b], l) == Survives(old(Lookup(buckets[b], l)), target)
      ensures slots.Keys == old(slots.Keys)
      ensures forall l :: l in slots ==>
        slots[l] == if old(Lookup(buckets[b], l)) == Known(target, Ours) then NIL else old(slots[l])
    {
      hide ChainOk, Lookup, Hash;
      ghost var was := buckets[b];
      var chain := buckets[b];
      var i := 0;
      while i < |chain|
        invariant 0 <= i <= |chain| && ChainOk(chain, b)
        invariant forall j :: 0 <= j < i ==> !Dying(chain[j], target)
        invariant forall j :: 0 <= j < |chain| ==> chain[j].location in slots
        invariant forall l :: Lookup(chain, l) == Lookup(was, l) || Removed(was, chain, l, target)
        invariant slots.Keys == old(slots.Keys)
        invariant forall l :: l in slots ==>
          slots[l] == if Removed(was, chain, l, target) then NIL else old(slots[l])
        decreases |chain| - i
        modifies this`slots
      {
        HeadNode(chain, b, i);
        if Dying(chain[i], target) {
          slots := slots[chain[i].location := NIL];
          WithoutOk(chain, b, i);
          chain := Without(chain, i);
        } else {
          i := i + 1;
        }
      }
      buckets[b] := chain;
      forall l
        ensures Lookup(chain, l) == Survives(Lookup(was, l), target)
        ensures Removed(was, chain, l, target) <==> Lookup(was, l) == Known(target, Ours)
      {
        NoneDying(chain, l, target);
      }
    }

    /** mpls_weak_zero_for: every slot this code owns that names the object reads as nil. */
    method ZeroFor(target: nat)
      requires Shape() && forall l :: Find(l).Known? ==> l in slots
      modifies buckets, this`slots
      ensures Shape() && forall l :: Find(l) == Survives(old(Find(l)), target)
      ensures slots.Keys == old(slots.Keys)
      ensures forall l :: l in slots ==> slots[l] == if old(Find(l)) == Known(target, Ours) then NIL else old(slots[l])
    {
      hide ChainOk, Lookup, Hash, Survives;
      ghost var was := buckets[..];
      var b := 0;
      while b < BUCKETS
        invariant 0 <= b <= BUCKETS && Shape() && slots.Keys == old(slots.Keys)
        invariant forall c :: b <= c < BUCKETS ==> buckets[c] == was[c]
        invariant forall c, l :: 0 <= c < b ==> Lookup(buckets[c], l) == Survives(Lookup(was[c], l), target)
        invariant forall l :: l in slots ==>
          slots[l] == if Hash(l) < b && Lookup(was[Hash(l)], l) == Known(target, Ours) then NIL else old(slots[l])
      {
        ChainLocations(buckets[b], b, was, slots.Keys);
        ForeignUnknown(was[b], b);
        ZeroChain(b, target);
        b := b + 1;
      }
    }

    // ------------------------------------------------------------- libobjc

    /** objc_storeWeak proper: aborts on a class it cannot handle. */
    method RealStore(l: nat, target: nat)
      requires target == NIL || (target in live && target !in custom)
      modifies this`slots, this`given
      ensures slots == old(slots)[l := target]
      ensures given == if target == NIL then old(given) - {l} else old(given) + {l}
    {
      slots := slots[l := target];
      given := if target == NIL then given - {l} else given + {l};
    }

    /** objc_initWeak proper: only for a slot it does not hold a registration for. */
    method RealInit(l: nat, target: nat)
      requires target in live && target !in custom && l !in given
      modifies this`slots, this`given
      ensures slots == old(slots)[l := target] && given == old(given) + {l}
    {
      slots, given := slots[l := target], given + {l};
    }

    /** objc_destroyWeak proper faults on a slot it was never given. */
    method RealDestroy(l: nat)
      requires l in given
      modifies this`given
      ensures given == old(given) - {l}
    {
      given := given - {l};
    }

    /** objc_loadWeakRetained proper; a value it holds no registration for would fault. */
    method RealLoad(l: nat) returns (r: nat)
      requires l in slots && (l in given || slots[l] == NIL)
      ensures r == slots[l]
    {
      r := slots[l];
    }

    // -------------------------------------------------------- the clients

    /** A zero-filled weak variable, such as a fresh instance variable. */
    method NewVariable(l: nat)
      requires Valid() && l !in slots
      modifies this`slots
      ensures Valid() && slots == old(slots)[l := NIL]
    {
      hide ChainOk, Lookup, Hash;
      slots := slots[l := NIL];
      forall m
        ensures SlotOk(m)
      {
        assert old(SlotOk(m));
      }
    }

    method Allocate(target: nat, isCustom: bool)
      requires Valid() && target != NIL && target !in live
      modifies this`live, this`custom
      ensures Valid() && live == old(live) + {target}
          && custom == if isCustom then old(custom) + {target} else old(custom)
    {
      hide ChainOk, Lookup, Hash;
      live := live + {target};
      custom := if isCustom then custom + {target} else custom;
      forall m
        ensures SlotOk(m)
      {
        assert old(SlotOk(m));
      }
    }

    /** Associating the sentinel succeeds. */
    method AttachSentinel(target: nat)
      requires target in live
      modifies this`sentinels
      ensures sentinels == old(sentinels) + {target}
    {
      if target !in sentinels { sentinels := sentinels + {target}; }
    }

    /** The sentinel's part of an object's death: with no sentinel there is nothing to zero. */
    method SentinelDies(target: nat)
      requires Valid()
      modifies buckets, this`slots
      ensures Shape() && slots.Keys == old(slots.Keys)
      ensures forall l :: Find(l) == Survives(old(Find(l)), target)
      ensures forall l :: l in slots ==> slots[l] == if old(Find(l)) == Known(target, Ours) then NIL else old(slots[l])
    {
      hide ChainOk, Lookup, Hash, Survives;
      assert forall l :: Find(l).Known? ==> SlotOk(l) && l in slots;
      if target in sentinels {
        ZeroFor(target);
      } else {
        forall l
          ensures Find(l) != Known(target, Ours) && Survives(Find(l), target) == Find(l)
        {
          assert SlotOk(l);
          SurvivesCases(Find(l), target);
        }
      }
    }

    /** The object dies: its sentinel zeroes our slots, libobjc zeroes its own. */
    method Deallocate(target: nat)
      requires Valid() && target in live
      modifies buckets, this`slots, this`live, this`custom, this`sentinels
      ensures Valid() && live == old(live) - {target} && slots.Keys == old(slots.Keys)
      ensures forall l :: l in slots ==> slots[l] == if old(slots[l]) == target then NIL else old(slots[l])
    {
      hide ChainOk, Lookup, Hash, Survives, Find;
      SentinelDies(target);
      ghost var mid := slots;
      ObjcZeroes(target);
      live, custom, sentinels := live - {target}, custom - {target}, sentinels - {target};
      assert buckets.Length == BUCKETS;
      forall l
        ensures l in slots ==> slots[l] == if old(slots[l]) == target then NIL else old(slots[l])
      {
        if l in slots {
          assert old(SlotOk(l));
          var e := old(Find(l));
          assert mid[l] == if e == Known(target, Ours) then NIL else old(slots[l]);
          assert slots[l] == if l in given && mid[l] == target then NIL else mid[l];
          if old(slots[l]) == target { assert e.Known? && (e.owner == Ours ==> e.target == target); }
        }
      }
      forall l
        ensures SlotOk(l)
      {
        assert old(SlotOk(l));
        SurvivesCases(old(Find(l)), target);
      }
    }

    /** libobjc's part: the slots it was given that name the object. */
    method ObjcZeroes(target: nat)
      modifies this`slots
      ensures slots.Keys == old(slots.Keys)
      ensures forall l :: l in slots ==>
        slots[l] == if l in given && old(slots[l]) == target then NIL else old(slots[l])
    {
      slots := map l | l in slots :: if l in given && slots[l] == target then NIL else slots[l];
    }

    // ---------------------------------------------------- the replacements

    /** objc_storeWeak. */
    method StoreWeak(l: nat, target: nat) returns (r: nat)
      requires Valid() && l in slots && (target == NIL || target in live)
      modifies buckets, this`slots, this`given, this`sentinels
      ensures Valid() && r == target && slots == old(slots)[l := target]
      ensures given - {l} == old(given) - {l}
    {
      hide ChainOk, Lookup, Hash, SlotOk;
      var existing := LookupSlot(l);
      if target != NIL && target in custom {
        StoreOurs(l, target, existing);
      } else {
        StoreTheirs(l, target, existing);
      }
      r := target;
    }

    method StoreOurs(l: nat, target: nat, existing: Entry)
      requires Valid() && l in slots && target in custom && existing == Find(l)
      modifies buckets, this`slots, this`given, this`sentinels
      ensures Valid() && slots == old(slots)[l := target] && given == old(given) - {l}
    {
      hide ChainOk, Lookup, Hash;
      assert SlotOk(l);
      if existing.Known? && existing.owner == Objc { RealDestroy(l); }
      AttachSentinel(target);
      RememberSlot(l, target, Ours);
      slots := slots[l := target];
      forall m
        ensures SlotOk(m)
      {
        assert old(SlotOk(m));
      }
    }

    method StoreTheirs(l: nat, target: nat, previous: Entry)
      requires Valid() && l in slots && previous == Find(l)
      requires target == NIL || (target in live && target !in custom)
      modifies buckets, this`slots, this`given
      ensures Valid() && slots == old(slots)[l := target]
      ensures given == if target == NIL then old(given) - {l} else old(given) + {l}
    {
      hide ChainOk, Lookup, Hash;
      if previous.Known? && previous.owner == Ours {
        ForgetSlot(l);
        slots := slots[l := NIL];
      }
      RealStore(l, target);
      if target != NIL { RememberSlot(l, target, Objc); } else { ForgetSlot(l); }
      forall m
        ensures SlotOk(m)
      {
        assert old(SlotOk(m));
      }
    }

    /** objc_initWeak, on a slot libobjc holds no registration for. */
    method InitWeak(l: nat, target: nat) returns (r: nat)
      requires Valid() && l !in given && (target == NIL || target in live)
      modifies buckets, this`slots, this`given, this`sentinels
      ensures Valid() && r == target && slots == old(slots)[l := target]
    {
      hide ChainOk, Lookup, Hash;
      slots := slots[l := NIL];
      ForgetSlot(l);
      forall m
        ensures SlotOk(m)
      {
        assert old(SlotOk(m));
      }
      assert Valid();
      if target == NIL { return NIL; }
      if target in custom {
        r := StoreWeak(l, target);
        return;
      }
      RealInit(l, target);
      RememberSlot(l, target, Objc);
      forall m
        ensures SlotOk(m)
      {
        assert old(SlotOk(m));
      }
      r := target;
    }

    /** objc_loadWeakRetained: nil or a live object, whoever owns the slot. */
    method LoadWeak(l: nat) returns (r: nat)
      requires Valid() && l in slots
      ensures r == slots[l] && (r == NIL || r in live)
    {
      hide ChainOk, Lookup, Hash;
      var e := LookupSlot(l);
      assert SlotOk(l);
      if e.Known? && e.owner == Ours {
        r := slots[l];
      } else {
        r := RealLoad(l);
      }
    }

    /** objc_destroyWeak: the variable ends, and nothing remembers it. */
    method DestroyWeak(l: nat)
      requires Valid() && l in slots
      modifies buckets, this`slots, this`given
      ensures Valid() && slots == old(slots) - {l} && Find(l).Unknown? && l !in given
    {
      hide ChainOk, Lookup, Hash;
      var e := LookupSlot(l);
      assert SlotOk(l);
      if e.Known? { ForgetSlot(l); }
      if e.Known? && e.owner == Objc { RealDestroy(l); }
      slots := slots - {l};
      forall m
        ensures SlotOk(m)
      {
        assert old(SlotOk(m));
      }
    }

    /** objc_copyWeak; as for initWeak, callers pass a destination libobjc holds no registration for. */
    method CopyWeak(to: nat, from: nat)
      requires Valid() && from in slots && to !in given && to != from
      modifies buckets, this`slots, this`given, this`sentinels
      ensures Valid() && slots == old(slots)[to := old(slots[from])]
    {
      hide ChainOk, Lookup, Hash;
      var target := LoadWeak(from);
      slots := slots[to := NIL];
      forall m
        ensures SlotOk(m)
      {
        assert old(SlotOk(m));
      }
      if target != NIL { var _ := StoreWeak(to, target); }
    }

    /** objc_moveWeak, with the same destination. */
    method MoveWeak(to: nat, from: nat)
      requires Valid() && from in slots && to !in given && to != from
      modifies buckets, this`slots, this`given, this`sentinels
      ensures Valid() && slots == old(slots)[to := old(slots[from])] - {from} && Find(from).Unknown?
    {
      hide ChainOk, Lookup, Hash;
      CopyWeak(to, from);
      DestroyWeak(from);
    }
  }

  lemma SurvivesCases(e: Entry, target: nat)
    ensures Survives(e, target) == e || (e == Known(target, Ours) && Survives(e, target).Unknown?)
    ensures Survives(e, target) != Known(target, Ours)
  {}

  /** What becomes of an entry when the object dies. */
  function Survives(e: Entry, target: nat): Entry { if e == Known(target, Ours) then Unknown else e }

  predicate Removed(was: seq<Node>, chain: seq<Node>, l: nat, target: nat) {
    Lookup(was, l) == Known(target, Ours) && Lookup(chain, l).Unknown?
  }

  lemma HeadNode(chain: seq<Node>, b: nat, i: nat)
    requires ChainOk(chain, b) && i < |chain|
    ensures Lookup(chain, chain[i].location) == Known(chain[i].target, chain[i].owner)
  {
    hide Hash;
    IndexOf(chain, b, i);
  }

  lemma NoneDying(chain: seq<Node>, l: nat, target: nat)
    requires forall j :: 0 <= j < |chain| ==> !Dying(chain[j], target)
    ensures Lookup(chain, l) != Known(target, Ours)
  {}

  lemma ChainLocations(chain: seq<Node>, b: nat, was: seq<seq<Node>>, vars: set<nat>)
    requires ChainOk(chain, b) && b < |was| == BUCKETS && chain == was[b]
    requires forall l :: Lookup(was[Hash(l)], l).Known? ==> l in vars
    ensures forall i :: 0 <= i < |chain| ==> chain[i].location in vars
  {
    forall i | 0 <= i < |chain|
      ensures chain[i].location in vars
    {
      HeadNode(chain, b, i);
      assert Hash(chain[i].location) == b;
    }
  }

  lemma ForeignUnknown(chain: seq<Node>, b: nat)
    requires ChainOk(chain, b)
    ensures forall l :: Hash(l) != b ==> Lookup(chain, l).Unknown?
  {
    hide Hash;
  }

  lemma NotThere(chain: seq<Node>, l: nat)
    requires forall j :: 0 <= j < |chain| ==> chain[j].location != l
    ensures Lookup(chain, l).Unknown?
  {}

  lemma {:induction false} ThereAt(chain: seq<Node>, l: nat, i: nat)
    requires i < |chain| && chain[i].location == l && forall j :: 0 <= j < i ==> chain[j].location != l
    ensures Lookup(chain, l) == Known(chain[i].target, chain[i].owner)
  {
    if i > 0 { ThereAt(chain[1..], l, i - 1); }
  }
}
