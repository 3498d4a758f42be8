/** Routing buckets: the slot discipline of one bucket, the per-interface tables, and the
    element that updates them in place. */
module RouteTable {
  import opened VidBits
  import opened InterfaceTable

  const MAX_GW_PER_BUCKET := 4

  datatype Slot = Slot(nexthop: Vid, gateway: Vid, isDefault: bool, isValid: bool)
  type Bucket = b: seq<Slot> | |b| == MAX_GW_PER_BUCKET
    witness seq(MAX_GW_PER_BUCKET, _ => Slot(Zeros(VID_BITS), Zeros(VID_BITS), false, false))

  /** The buckets of one interface, by level. */
  type Inner = map<nat, Bucket>

  /** NoRoute is a false return; Local leaves the caller's gateway untouched. */
  datatype RouteReply = NoRoute | Local(nexthop: Vid) | Via(nexthop: Vid, gateway: Vid)

  // ----- one bucket

  function EmptyBucket(): Bucket {
    seq(MAX_GW_PER_BUCKET, _ => Slot(Zeros(VID_BITS), Zeros(VID_BITS), false, false))
  }

  /** Valid slots form a prefix, and only slot 0 can hold a default entry. */
  predicate Disciplined(b: Bucket) {
    && (forall i :: 0 <= i < MAX_GW_PER_BUCKET - 1 && b[i + 1].isValid ==> b[i].isValid)
    && (forall i :: 0 < i < MAX_GW_PER_BUCKET ==> !b[i].isDefault)
  }

  /** A default entry takes slot 0 and purges the others. */
  function SetDefault(b: Bucket, nh: Vid, g: Vid): Bucket {
    [Slot(nh, g, true, true), b[1].(isValid := false), b[2].(isValid := false), b[3].(isValid := false)]
  }

  function FirstInvalid(b: Bucket, from: nat): (j: nat)
    requires from <= MAX_GW_PER_BUCKET
    ensures from <= j <= MAX_GW_PER_BUCKET
    ensures forall i :: from <= i < j ==> b[i].isValid
    ensures j < MAX_GW_PER_BUCKET ==> !b[j].isValid
    decreases MAX_GW_PER_BUCKET - from
  {
    if from == MAX_GW_PER_BUCKET || !b[from].isValid then from else FirstInvalid(b, from + 1)
  }

  /** Another entry takes the first free slot, if there is one. */
  function AddExtra(b: Bucket, nh: Vid, g: Vid): Bucket {
    var j := FirstInvalid(b, 0);
    if j < MAX_GW_PER_BUCKET then b[j := Slot(nh, g, false, true)] else b
  }

  function Expired(b: Bucket): Bucket {
    seq(MAX_GW_PER_BUCKET, i requires 0 <= i < MAX_GW_PER_BUCKET => b[i].(isValid := false, isDefault := false))
  }

  function ValidCount(b: Bucket, upto: nat): (n: nat)
    requires upto <= MAX_GW_PER_BUCKET
    ensures n <= upto
  {
    if upto == 0 then 0 else ValidCount(b, upto - 1) + if b[upto - 1].isValid then 1 else 0
  }

  /** The first valid default slot. */
  function DefaultRoute(b: Bucket, from: nat := 0): (r: RouteReply)
    requires from <= MAX_GW_PER_BUCKET
    ensures r.Via? ==>
              exists i ::
                from <= i < MAX_GW_PER_BUCKET && b[i].isValid && b[i].isDefault && r == Via(b[i].nexthop, b[i].gateway)
    ensures !r.Local?
    decreases MAX_GW_PER_BUCKET - from
  {
    if from == MAX_GW_PER_BUCKET then NoRoute
    else if b[from].isValid && b[from].isDefault then Via(b[from].nexthop, b[from].gateway)
    else DefaultRoute(b, from + 1)
  }

  lemma DisciplineKept(b: Bucket, nh: Vid, g: Vid)
    requires Disciplined(b)
    ensures Disciplined(SetDefault(b, nh, g)) && Disciplined(AddExtra(b, nh, g)) && Disciplined(Expired(b))
    ensures Disciplined(EmptyBucket())
  {
  }

  /** With the slots disciplined, the n-th valid slot is slot n: an index below the count
      of valid slots names a valid slot. */
  lemma {:induction false} CountedSlotsAreValid(b: Bucket, n: nat, j: nat)
    requires Disciplined(b) && n <= MAX_GW_PER_BUCKET && j < n
    ensures b[j].isValid <==> j < ValidCount(b, n)
  {
    if n > 1 {
      if j < n - 1 {
        CountedSlotsAreValid(b, n - 1, j);
      }
      CountedSlotsAreValid(b, n - 1, n - 2);
    }
  }

  /** What a default lookup sees after a default or an extra entry was written. */
  lemma DefaultAfterUpdate(b: Bucket, nh: Vid, g: Vid)
    requires Disciplined(b)
    ensures DefaultRoute(SetDefault(b, nh, g)) == Via(nh, g)
    ensures DefaultRoute(AddExtra(b, nh, g)) == DefaultRoute(b)
    ensures DefaultRoute(Expired(b)) == NoRoute
  {
    var f := AddExtra(b, nh, g);
    assert DefaultRoute(f, 1) == DefaultRoute(b, 1) == NoRoute by {
      assert DefaultRoute(f, 2) == DefaultRoute(b, 2) == NoRoute by {
        assert DefaultRoute(f, 3) == DefaultRoute(b, 3) == NoRoute;
      }
    }
    var e := Expired(b);
    assert DefaultRoute(e, 2) == NoRoute by {
      assert DefaultRoute(e, 3) == NoRoute;
    }
  }

  // ----- rotation among the valid slots

  /** The slot used by the i-th of a row of non-default lookups over m valid slots, when
      the last slot used before them was e. */
  function Pick(e: nat, m: nat, i: nat): (p: nat)
    requires m > 0
    ensures i > 0 ==> p < m
  {
    if i == 0 then e else (Pick(e, m, i - 1) + 1) % m
  }

  /** After the first, the lookups walk round the slots one by one. */
  lemma {:induction false} PickWalks(e: nat, m: nat, i: nat)
    requires 1 <= i <= m
    ensures var p := Pick(e, m, 1) + i - 1;
            Pick(e, m, i) == if p < m then p else p - m
  {
    if i > 1 {
      PickWalks(e, m, i - 1);
      ModStep(Pick(e, m, i - 1), m);
    }
  }

  lemma ModStep(p: nat, m: nat)
    requires p < m
    ensures (p + 1) % m == if p + 1 == m then 0 else p + 1
  {
  }

  lemma NextPick(e: nat, m: nat, i: nat)
    requires m > 0
    ensures Pick(Pick(e, m, i), m, 1) == Pick(e, m, i + 1)
  {
    assert Pick(Pick(e, m, i), m, 0) == Pick(e, m, i);
  }

  /** m lookups in a row use every one of the m valid slots exactly once. */
  lemma RotationIsFair(e: nat, m: nat, j: nat)
    requires j < m
    ensures exists i :: 1 <= i <= m && Pick(e, m, i) == j
    ensures forall i, i' :: 1 <= i < i' <= m ==> Pick(e, m, i) != Pick(e, m, i')
  {
    forall i, i' | 1 <= i < i' <= m
      ensures Pick(e, m, i) != Pick(e, m, i')
    {
      PickWalks(e, m, i);
      PickWalks(e, m, i');
    }
    var p := Pick(e, m, 0 + 1);
    PickWalks(e, m, if j >= p then j - p + 1 else j - p + 1 + m);
  }

  /** The routes of the valid slots. */
  function ValidRoutes(b: Bucket): (rs: seq<RouteReply>)
    ensures |rs| == ValidCount(b, MAX_GW_PER_BUCKET)
  {
    seq(ValidCount(b, MAX_GW_PER_BUCKET), j requires 0 <= j < MAX_GW_PER_BUCKET => Via(b[j].nexthop, b[j].gateway))
  }

  /** Entering a route that is not the default adds it behind the valid ones while there is
      room; a default entry stands alone; an expired or new bucket offers nothing. */
  lemma RoutesAfterEntry(b: Bucket, nh: Vid, g: Vid)
    requires Disciplined(b)
    ensures ValidRoutes(AddExtra(b, nh, g)) ==
            if |ValidRoutes(b)| < MAX_GW_PER_BUCKET then ValidRoutes(b) + [Via(nh, g)] else ValidRoutes(b)
    ensures ValidRoutes(SetDefault(b, nh, g)) == [Via(nh, g)]
    ensures ValidRoutes(Expired(b)) == [] && ValidRoutes(EmptyBucket()) == []
  {
    DisciplineKept(b, nh, g);
    FreeSlotFollows(b);
    var free := FirstInvalid(b, 0);
    CountIs(AddExtra(b, nh, g), if free < MAX_GW_PER_BUCKET then free + 1 else MAX_GW_PER_BUCKET);
    CountIs(SetDefault(b, nh, g), 1);
    CountIs(Expired(b), 0);
    CountIs(EmptyBucket(), 0);
  }

  /** The first free slot comes right after the valid ones. */
  lemma FreeSlotFollows(b: Bucket)
    requires Disciplined(b)
    ensures FirstInvalid(b, 0) == ValidCount(b, MAX_GW_PER_BUCKET)
  {
    CountIs(b, FirstInvalid(b, 0));
  }

  lemma CountIs(b: Bucket, n: nat)
    requires Disciplined(b) && n <= MAX_GW_PER_BUCKET
    requires (n > 0 ==> b[n - 1].isValid) && (n < MAX_GW_PER_BUCKET ==> !b[n].isValid)
    ensures ValidCount(b, MAX_GW_PER_BUCKET) == n
  {
    if n > 0 {
      CountedSlotsAreValid(b, MAX_GW_PER_BUCKET, n - 1);
    }
    if n < MAX_GW_PER_BUCKET {
      CountedSlotsAreValid(b, MAX_GW_PER_BUCKET, n);
    }
  }

  /** The routes that the first i lookups after a state return. */
  function Picked(rs: seq<RouteReply>, e: nat, i: nat): seq<RouteReply>
    requires rs != []
  {
    if i == 0 then [] else Picked(rs, e, i - 1) + [rs[Pick(e, |rs|, i)]]
  }

  /** i elements around the circle, from p on. */
  function Around<T>(rs: seq<T>, p: nat, i: nat): seq<T>
    requires p < |rs| && i <= |rs|
  {
    if p + i <= |rs| then rs[p..p + i] else rs[p..] + rs[..p + i - |rs|]
  }

  lemma AroundNext<T>(rs: seq<T>, p: nat, i: nat)
    requires p < |rs| && 1 <= i <= |rs|
    ensures Around(rs, p, i) == Around(rs, p, i - 1) + [rs[if p + i - 1 < |rs| then p + i - 1 else p + i - 1 - |rs|]]
  {
  }

  lemma {:induction false} PickedSlices(rs: seq<RouteReply>, e: nat, i: nat)
    requires 1 <= i <= |rs|
    ensures Picked(rs, e, i) == Around(rs, Pick(e, |rs|, 1), i)
  {
    AroundNext(rs, Pick(e, |rs|, 1), i);
    PickWalks(e, |rs|, i);
    if i > 1 {
      PickedSlices(rs, e, i - 1);
    } else {
      assert Picked(rs, e, 0) == Around(rs, Pick(e, |rs|, 1), 0);
    }
  }

  /** As many lookups as there are routes return each of them once. */
  lemma PickedAll(rs: seq<RouteReply>, e: nat)
    requires rs != []
    ensures multiset(Picked(rs, e, |rs|)) == multiset(rs)
  {
    PickedSlices(rs, e, |rs|);
    AroundAll(rs, Pick(e, |rs|, 1));
  }

  lemma AroundAll<T>(rs: seq<T>, p: nat)
    requires p < |rs|
    ensures multiset(Around(rs, p, |rs|)) == multiset(rs)
  {
    if p == 0 {
      assert Around(rs, p, |rs|) == rs;
    } else {
      assert rs == rs[..p] + rs[p..];
      assert Around(rs, p, |rs|) == rs[p..] + rs[..p];
    }
  }

  // ----- the buckets of one interface

  function Get(t: Inner, k: nat): Bucket {
    if k in t then t[k] else EmptyBucket()
  }

  function Update(t: Inner, k: nat, nh: Vid, g: Vid, isDefault: bool): Inner {
    t[k := if isDefault then SetDefault(Get(t, k), nh, g) else AddExtra(Get(t, k), nh, g)]
  }

  function Expire(t: Inner, k: nat): Inner {
    if k in t then t[k := Expired(t[k])] else t
  }

  ghost predicate DisciplinedAll(t: Inner) {
    forall k <- t.Keys :: Disciplined(t[k])
  }

  /** The default route of level k. */
  function Default(t: Inner, k: nat): (r: RouteReply)
    ensures !r.Local?
  {
    if k in t then DefaultRoute(t[k]) else NoRoute
  }

  lemma UpdateKeepsDiscipline(t: Inner, k: nat, nh: Vid, g: Vid, isDefault: bool)
    requires DisciplinedAll(t)
    ensures DisciplinedAll(Update(t, k, nh, g, isDefault)) && DisciplinedAll(Expire(t, k))
    ensures forall j ::
              Default(Update(t, k, nh, g, isDefault), j) == if j == k && isDefault then Via(nh, g) else Default(t, j)
    ensures forall j :: Default(Expire(t, k), j) == if j == k then NoRoute else Default(t, j)
  {
    assert Disciplined(Get(t, k));
    DisciplineKept(Get(t, k), nh, g);
    DefaultAfterUpdate(Get(t, k), nh, g);
    if k !in t {
      assert DefaultRoute(EmptyBucket()) == NoRoute by {
        assert DefaultRoute(EmptyBucket(), 2) == NoRoute by {
          assert DefaultRoute(EmptyBucket(), 3) == NoRoute;
        }
      }
    }
  }

  /** The routes of level k, in the order of their slots. */
  function RoutesOf(t: Inner, k: nat): seq<RouteReply> {
    ValidRoutes(Get(t, k))
  }

  /** An update changes the routes of its own level only. */
  lemma RoutesAfterUpdate(t: Inner, k: nat, nh: Vid, g: Vid, isDefault: bool)
    requires DisciplinedAll(t)
    ensures forall j :: RoutesOf(Update(t, k, nh, g, isDefault), j) ==
              if j != k then RoutesOf(t, j)
              else if isDefault then [Via(nh, g)]
              else if |RoutesOf(t, k)| < MAX_GW_PER_BUCKET then RoutesOf(t, k) + [Via(nh, g)]
              else RoutesOf(t, k)
    ensures forall j :: RoutesOf(Expire(t, k), j) == if j == k then [] else RoutesOf(t, j)
  {
    assert Disciplined(Get(t, k));
    RoutesAfterEntry(Get(t, k), nh, g);
    forall j
      ensures RoutesOf(Expire(t, k), j) == if j == k then [] else RoutesOf(t, j)
    {
    }
  }

  // ----- the element

  class RouteTable {
    var routes: map<nat, Inner>
    var entrytouse: map<nat, nat>
    const interfaces: InterfaceTable

    ghost predicate Valid()
      reads this
    {
      && (forall i <- routes.Keys :: DisciplinedAll(routes[i]))
      && (forall b <- entrytouse.Keys :: entrytouse[b] < 256)
    }

    function InnerOf(i: nat): Inner
      reads this
    {
      if i in routes then routes[i] else map[]
    }

    constructor (interfaces: InterfaceTable)
      ensures Valid() && this.interfaces == interfaces && routes == map[] && entrytouse == map[]
    {
      this.interfaces := interfaces;
      routes, entrytouse := map[], map[];
    }

    method UpdateEntry(i: Vid, b: nat, nh: Vid, g: Vid, isDefault: bool := true)
      requires Valid()
      modifies this`routes
      ensures Valid()
      ensures i !in interfaces.interfaces ==> routes == old(routes)
      ensures i in interfaces.interfaces ==>
                var id := interfaces.interfaces[i];
                routes == old(routes)[id := Update(old(InnerOf(id)), b, nh, g, isDefault)]
    {
      if i !in interfaces.interfaces {
        return;
      }
      var id := interfaces.interfaces[i];
      if id !in routes {
        routes := routes[id := map[]];
      }
      var rt: Inner := routes[id];
      var buck := if b in rt then rt[b] else EmptyBucket();
      UpdateKeepsDiscipline(rt, b, nh, g, isDefault);
      if isDefault {
        var slots := PurgeOthers(buck, nh, g);
        routes := routes[id := rt[b := slots]];
        return;
      }
      for j := 0 to MAX_GW_PER_BUCKET
        invariant forall l :: 0 <= l < j ==> buck[l].isValid
        invariant FirstInvalid(buck, 0) == FirstInvalid(buck, j)
        invariant routes == old(routes)[id := rt]
      {
        if !buck[j].isValid {
          routes := routes[id := rt[b := buck[j := Slot(nh, g, false, true)]]];
          return;
        }
      }
      routes := routes[id := rt[b := buck]];
    }

    static method PurgeOthers(buck: Bucket, nh: Vid, g: Vid) returns (slots: seq<Slot>)
      ensures slots == SetDefault(buck, nh, g)
    {
      slots := buck[0 := Slot(nh, g, true, true)];
      for j := 1 to MAX_GW_PER_BUCKET
        invariant |slots| == MAX_GW_PER_BUCKET && slots[0] == Slot(nh, g, true, true)
        invariant forall l :: 1 <= l < MAX_GW_PER_BUCKET ==>
                    slots[l] == if l < j then buck[l].(isValid := false) else buck[l]
      {
        slots := slots[j := slots[j].(isValid := false)];
      }
    }

    /** The default route for dst from one of this switch's interfaces. */
    method GetDefaultRoute(dst: Vid, myinterface: Vid) returns (r: RouteReply)
      requires Valid()
      ensures r ==
              if myinterface !in interfaces.interfaces || interfaces.interfaces[myinterface] !in routes then NoRoute
                   else if Delta(myinterface, dst) <= HOST_BITS then Local(myinterface)
                   else Default(InnerOf(interfaces.interfaces[myinterface]), Delta(myinterface, dst))
    {
      if myinterface !in interfaces.interfaces {
        return NoRoute;
      }
      var id := interfaces.interfaces[myinterface];
      var b := Delta(myinterface, dst);
      if id !in routes {
        return NoRoute;
      }
      var rt: Inner := routes[id];
      if b <= HOST_BITS {
        return Local(myinterface);
      }
      if b !in rt {
        return NoRoute;
      }
      var buck := rt[b];
      for j := 0 to MAX_GW_PER_BUCKET
        invariant DefaultRoute(buck) == DefaultRoute(buck, j)
      {
        if buck[j].isValid && buck[j].isDefault {
          return Via(buck[j].nexthop, buck[j].gateway);
        }
      }
      return NoRoute;
    }

    method GetRoute(dst: Vid, myinterface: Vid, isDefault: bool := true) returns (r: RouteReply)
      requires Valid()
      modifies this`entrytouse
      ensures Valid()
      ensures myinterface !in interfaces.interfaces || interfaces.interfaces[myinterface] !in routes ==> r == NoRoute
      ensures myinterface in interfaces.interfaces && interfaces.interfaces[myinterface] in routes ==>
                var t := InnerOf(interfaces.interfaces[myinterface]);
                var b := Delta(myinterface, dst);
                var m := ValidCount(Get(t, b), MAX_GW_PER_BUCKET);
                if b <= HOST_BITS then r == Local(myinterface)
                else if isDefault then r == Default(t, b)
                else if b !in t then r == NoRoute && entrytouse == old(entrytouse)
                else if m == 0 then
                  && r == NoRoute
                  && entrytouse == if b in old(entrytouse) then old(entrytouse) else old(entrytouse)[b := 0]
                else
                  var e := if b in old(entrytouse) then old(entrytouse)[b] else 0;
                  var p := Pick(e, m, 1);
                  && t[b][p].isValid && r == Via(t[b][p].nexthop, t[b][p].gateway)
                  && entrytouse == old(entrytouse)[b := p]
      ensures isDefault ==> entrytouse == old(entrytouse)
    {
      if isDefault {
        r := GetDefaultRoute(dst, myinterface);
        return;
      }
      if myinterface !in interfaces.interfaces {
        return NoRoute;
      }
      var id := interfaces.interfaces[myinterface];
      var b := Delta(myinterface, dst);
      if id !in routes {
        return NoRoute;
      }
      var rt: Inner := routes[id];
      if b <= HOST_BITS {
        return Local(myinterface);
      }
      if b !in rt {
        return NoRoute;
      }
      var buck := rt[b];
      if b !in entrytouse {
        entrytouse := entrytouse[b := 0];
      }
      var totalValidEntries := CountValid(buck);
      if totalValidEntries == 0 {
        return NoRoute;
      }
      var e := entrytouse[b];
      var pickj := (e + 1) % totalValidEntries;
      assert pickj == Pick(e, totalValidEntries, 0 + 1);
      entrytouse := entrytouse[b := pickj];
      CountedSlotsAreValid(buck, MAX_GW_PER_BUCKET, pickj);
      r := NthValid(buck, pickj);
    }

    function LastUsed(b: nat): nat
      reads this
    {
      if b in entrytouse then entrytouse[b] else 0
    }

    method RotateOnce(dst: Vid, myinterface: Vid, b: nat, ghost all: seq<RouteReply>) returns (r: RouteReply)
      requires Valid() && myinterface in interfaces.interfaces && b == Delta(myinterface, dst) > HOST_BITS
      requires b in InnerOf(interfaces.interfaces[myinterface]) && all != []
      requires all == ValidRoutes(InnerOf(interfaces.interfaces[myinterface])[b])
      modifies this`entrytouse
      ensures Valid() && LastUsed(b) == Pick(old(LastUsed(b)), |all|, 1) && r == all[LastUsed(b)]
    {
      r := GetRoute(dst, myinterface, false);
    }

    /** As many lookups in rotation as a bucket has routes return each route once. */
    method RotateAll(dst: Vid, myinterface: Vid) returns (rs: seq<RouteReply>)
      requires Valid() && myinterface in interfaces.interfaces && Delta(myinterface, dst) > HOST_BITS
      requires Delta(myinterface, dst) in InnerOf(interfaces.interfaces[myinterface])
      modifies this`entrytouse
      ensures Valid()
      ensures var buck := InnerOf(interfaces.interfaces[myinterface])[Delta(myinterface, dst)];
              multiset(rs) == multiset(ValidRoutes(buck))
    {
      var b := Delta(myinterface, dst);
      var buck := InnerOf(interfaces.interfaces[myinterface])[b];
      var total := CountValid(buck);
      ghost var all, e := ValidRoutes(buck), LastUsed(b);
      rs := [];
      if total > 0 {
        assert Picked(all, e, 0) == [];
        for i := 0 to total
          invariant Valid() && rs == Picked(all, e, i)
          invariant LastUsed(b) == Pick(e, total, i)
        {
          NextPick(e, total, i);
          var r := RotateOnce(dst, myinterface, b, all);
          rs := rs + [r];
        }
        PickedAll(all, e);
      }
    }

    static method CountValid(buck: Bucket) returns (total: nat)
      ensures total == ValidCount(buck, MAX_GW_PER_BUCKET)
    {
      total := 0;
      for k := 0 to MAX_GW_PER_BUCKET
        invariant total == ValidCount(buck, k)
      {
        if buck[k].isValid {
          total := total + 1;
        }
      }
    }

    /** At the n-th valid slot, slot n is returned, which need not be the same. */
    static method NthValid(buck: Bucket, pickj: nat) returns (r: RouteReply)
      requires pickj < ValidCount(buck, MAX_GW_PER_BUCKET)
      ensures pickj < MAX_GW_PER_BUCKET && r == Via(buck[pickj].nexthop, buck[pickj].gateway)
    {
      var n := 0;
      for k := 0 to MAX_GW_PER_BUCKET
        invariant n == ValidCount(buck, k) && n <= pickj
      {
        if buck[k].isValid {
          if n == pickj {
            return Via(buck[pickj].nexthop, buck[pickj].gateway);
          }
          n := n + 1;
        }
      }
      assert false;
    }

    /** The timer of one bucket fires. */
    method ExpireBucket(id: nat, b: nat)
      requires Valid()
      modifies this`routes
      ensures Valid()
      ensures routes == if id in old(routes) then old(routes)[id := Expire(old(routes)[id], b)] else old(routes)
    {
      if id !in routes || b !in routes[id] {
        return;
      }
      var rt: Inner := routes[id];
      UpdateKeepsDiscipline(rt, b, Zeros(VID_BITS), Zeros(VID_BITS), true);
      var slots: seq<Slot> := rt[b];
      for j := 0 to MAX_GW_PER_BUCKET
        invariant |slots| == MAX_GW_PER_BUCKET
        invariant forall l :: 0 <= l < MAX_GW_PER_BUCKET ==>
                    slots[l] == if l < j then rt[b][l].(isValid := false, isDefault := false) else rt[b][l]
      {
        slots := slots[j := slots[j].(isValid := false, isDefault := false)];
      }
      assert slots == Expired(rt[b]);
      routes := routes[id := rt[b := slots]];
    }
  }
}
