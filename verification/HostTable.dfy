/** Ids for the hosts behind one switch: a switch id and a 16-bit number found by linear
    probing, kept in four tables that are updated together. */
module HostTable {
  import opened Wrappers
  import opened VidBits
  import opened VidPacking

  type Mac = nat
  type Ip = nat

  const IDS := 65536

  /** timerVid is the id the entry's expiry timer was started for. */
  datatype HostEntry = HostEntry(interfaceid: nat, timerVid: Vid)

  /** The host id with number n at a switch; the number is stored low byte first. */
  function HostVid(sw: Vid, n: nat): Vid {
    sw[..32] + (NatBits(n % 256, 8) + NatBits(n / 256, 8))
  }

  /** The sixteen-bit counter, wrapping. */
  function Wrap(n: nat): nat {
    if n < IDS then n else n - IDS
  }

  /** How many steps of the counter lead from start to n. */
  function StepsTo(start: nat, n: nat): int {
    if n >= start then n - start else n + IDS - start
  }

  lemma {:induction false} ValueOfBits(v: nat, n: nat)
    requires v < Pow2(n)
    ensures ValueOf(NatBits(v, n)) == v
  {
    if n > 0 {
      var bits := NatBits(v, n);
      assert bits[..n - 1] == NatBits(v / 2, n - 1);
      ValueOfBits(v / 2, n - 1);
    }
  }

  lemma ByteInjective(a: nat, b: nat, n: nat)
    requires n == 8 && a < 256 && b < 256 && NatBits(a, n) == NatBits(b, n)
    ensures a == b
  {
    Pow2Byte(n - 8);
    ValueOfBits(a, n);
    ValueOfBits(b, n);
  }

  /** Different numbers make different ids. */
  lemma HostVidInjective(sw: Vid, m: nat, n: nat)
    requires m < IDS && n < IDS && HostVid(sw, m) == HostVid(sw, n)
    ensures m == n
  {
    assert HostVid(sw, m)[32..40] == NatBits(m % 256, 8) && HostVid(sw, m)[40..] == NatBits(m / 256, 8);
    assert HostVid(sw, n)[32..40] == NatBits(n % 256, 8) && HostVid(sw, n)[40..] == NatBits(n / 256, 8);
    ByteInjective(m % 256, n % 256, 8);
    ByteInjective(m / 256, n / 256, 8);
  }

  /** A host's id lies at the switch it was made for, and its last two bytes are the number,
      low byte first. */
  lemma HostVidAt(sw: Vid, n: nat)
    requires n < IDS
    ensures SwitchVid(HostVid(sw, n)) == SwitchVid(sw) && Delta(HostVid(sw, n), sw) <= HOST_BITS
    ensures ValueOf(HostVid(sw, n)[32..40]) + 256 * ValueOf(HostVid(sw, n)[40..]) == n
  {
    var v := HostVid(sw, n);
    assert v[..32] == sw[..32];
    SwitchDeltaZero(v, sw);
    assert v[32..40] == NatBits(n % 256, 8) && v[40..] == NatBits(n / 256, 8);
    Pow2Byte(0);
    ValueOfBits(n % 256, 8);
    ValueOfBits(n / 256, 8);
  }

  lemma SwitchOfSwitch(v: Vid)
    ensures SwitchVid(SwitchVid(v)) == SwitchVid(v)
  {
    assert SwitchVid(v)[..32] == v[..32];
  }

  lemma SameButOne<K, V>(m: map<K, V>, m': map<K, V>, k: K, v: V)
    requires m' - {k} == m - {k}
    ensures m'[k := v] == m[k := v]
  {
    assert m'[k := v] == (m' - {k})[k := v];
  }

  class HostTable {
    var hosts: map<Vid, Mac>
    var rhosts: map<Mac, Vid>
    var iphosts: map<Ip, Vid>
    var inthosts: map<Ip, HostEntry>
    /** The address each id was given to. */
    ghost var holder: map<Vid, Ip>

    /** Distinct IPs hold distinct ids; the two IP tables have one domain; the id table's
        domain is exactly the assigned ids; each timer was started for the id still held. */
    ghost predicate Valid()
      reads this
    {
      && iphosts.Keys == inthosts.Keys && holder.Keys == hosts.Keys
      && (forall i :: i in iphosts ==>
            iphosts[i] in holder && holder[iphosts[i]] == i && inthosts[i].timerVid == iphosts[i])
      && (forall v :: v in holder ==> holder[v] in iphosts && iphosts[holder[v]] == v)
    }

    /** What validity says without the ghost map. */
    lemma ValidMeans()
      requires Valid()
      ensures forall i, j :: i in iphosts && j in iphosts && iphosts[i] == iphosts[j] ==> i == j
      ensures iphosts.Keys == inthosts.Keys && iphosts.Values == hosts.Keys
    {
      forall v | v in hosts
        ensures v in iphosts.Values
      {
        assert holder[v] in iphosts;
      }
    }

    constructor ()
      ensures Valid() && iphosts == map[]
    {
      hosts, rhosts, iphosts, inthosts, holder := map[], map[], map[], map[], map[];
    }

    /** The address is known behind that interface, with an id of that switch. */
    predicate Knows(hip: Ip, myinterface: nat, switchvid: Vid)
      reads this
    {
      && hip in iphosts && hip in inthosts && inthosts[hip].interfaceid == myinterface
      && SwitchVid(iphosts[hip]) == switchvid
    }

    /** Enters a mapping, starting a timer only for an address that had none. */
    method UpdateEntry(vid: Vid, mac: Mac, ip: Ip, interfaceid: nat)
      modifies this
      ensures holder == old(holder)[vid := ip]
      ensures hosts == old(hosts)[vid := mac] && rhosts == old(rhosts)[mac := vid] && iphosts == old(iphosts)[ip := vid]
      ensures var timerVid := if ip in old(inthosts) then old(inthosts)[ip].timerVid else vid;
              inthosts == old(inthosts)[ip := HostEntry(interfaceid, timerVid)]
    {
      var timerVid := vid;
      if ip in inthosts {
        timerVid := inthosts[ip].timerVid;
      }
      inthosts := inthosts[ip := HostEntry(interfaceid, timerVid)];
      hosts := hosts[vid := mac];
      rhosts := rhosts[mac := vid];
      iphosts := iphosts[ip := vid];
      holder := holder[vid := ip];
    }

    /** The wrapping probe: the first free id of the switch, counting from the starting number,
        or none when all 65536 are taken. */
    method Probe(sw: Vid, startrand: nat) returns (v1: Option<Vid>)
      requires startrand < IDS
      ensures v1.Some? ==>
                exists n :: 0 <= n < IDS && v1.value == HostVid(sw, n) && HostVid(sw, n) !in hosts
                            && forall m :: 0 <= m < IDS && StepsTo(startrand, m) < StepsTo(startrand, n) ==>
                                 HostVid(sw, m) in hosts
      ensures v1.None? <==> forall n :: 0 <= n < IDS ==> HostVid(sw, n) in hosts
    {
      var currrand := startrand;
      ghost var d := 0;
      while HostVid(sw, currrand) in hosts
        invariant d < IDS && currrand == Wrap(startrand + d)
        invariant forall n :: 0 <= n < IDS && StepsTo(startrand, n) < d ==> HostVid(sw, n) in hosts
        decreases IDS - d
      {
        currrand := Wrap(currrand + 1);
        d := d + 1;
        if currrand == startrand {
          return None;
        }
      }
      return Some(HostVid(sw, currrand));
    }

    /** The old mapping of an address, if it has one, goes with the given hardware address's. */
    method RemoveMapping(hip: Ip, hmac: Mac)
      requires Valid()
      modifies this
      ensures Valid() && iphosts == old(iphosts) - {hip} && inthosts == old(inthosts) - {hip}
      ensures rhosts - {hmac} == old(rhosts) - {hmac}
      ensures forall v :: v in hosts ==> v in old(hosts) && hosts[v] == old(hosts)[v]
    {
      if hip in inthosts {
        holder := holder - {iphosts[hip]};
        hosts := hosts - {iphosts[hip]};
        rhosts := rhosts - {hmac};
        iphosts := iphosts - {hip};
        inthosts := inthosts - {hip};
      }
    }

    /** An id nobody holds, for an address that has none. */
    method AssignFree(hip: Ip, hmac: Mac, myinterface: nat, switchvid: Vid, startrand: nat) returns (hvid: Option<Vid>)
      requires Valid() && startrand < IDS && hip !in iphosts
      modifies this
      ensures Valid()
      ensures hvid.None? ==>
                && iphosts == old(iphosts) && hosts == old(hosts)
                && forall n :: 0 <= n < IDS ==> HostVid(switchvid, n) in hosts
      ensures hvid.Some? ==>
                && iphosts == old(iphosts)[hip := hvid.value] && hosts == old(hosts)[hvid.value := hmac]
                && rhosts == old(rhosts)[hmac := hvid.value]
                && inthosts == old(inthosts)[hip := HostEntry(myinterface, hvid.value)]
      ensures hvid.Some? ==>
                && (exists n :: 0 <= n < IDS && hvid.value == HostVid(switchvid, n))
                && SwitchVid(hvid.value) == SwitchVid(switchvid)
                && forall i :: i in old(iphosts) ==> old(iphosts)[i] != hvid.value
    {
      hvid := Probe(switchvid, startrand);
      if hvid.Some? {
        ghost var n :| 0 <= n < IDS && hvid.value == HostVid(switchvid, n);
        HostVidAt(switchvid, n);
        UpdateEntry(hvid.value, hmac, hip, myinterface);
      }
    }

    /** A known address keeps its id; its hardware address may be new. */
    method Refresh(hip: Ip, hmac: Mac) returns (vid1: Vid)
      requires Valid() && hip in iphosts
      modifies this
      ensures Valid() && vid1 == old(iphosts)[hip]
      ensures iphosts == old(iphosts) && inthosts == old(inthosts)
      ensures hosts == old(hosts)[vid1 := hmac] && rhosts == old(rhosts)[hmac := vid1]
    {
      vid1 := iphosts[hip];
      hosts := hosts[vid1 := hmac];
      rhosts := rhosts[hmac := vid1];
    }

    /** Whatever the address had before goes, and it gets a free id. */
    method Reassign(hip: Ip, hmac: Mac, myinterface: nat, switchvid: Vid, startrand: nat) returns (hvid: Option<Vid>)
      requires Valid() && startrand < IDS
      modifies this
      ensures Valid()
      ensures hvid.None? ==>
                && iphosts == old(iphosts) - {hip}
                && forall n :: 0 <= n < IDS ==> HostVid(switchvid, n) in hosts
      ensures hvid.Some? ==>
                && iphosts == old(iphosts)[hip := hvid.value] && hvid.value in hosts && hosts[hvid.value] == hmac
                && rhosts == old(rhosts)[hmac := hvid.value]
                && inthosts == old(inthosts)[hip := HostEntry(myinterface, hvid.value)]
      ensures hvid.Some? ==>
                && (exists n :: 0 <= n < IDS && hvid.value == HostVid(switchvid, n))
                && SwitchVid(hvid.value) == SwitchVid(switchvid)
                && forall i :: i in old(iphosts) && i != hip ==> old(iphosts)[i] != hvid.value
      ensures forall v :: v in hosts && (hvid.Some? ==> v != hvid.value) ==>
                v in old(hosts) && hosts[v] == old(hosts)[v]
    {
      RemoveMapping(hip, hmac);
      ghost var kept, keptEntries, keptIds := iphosts, inthosts, rhosts;
      hvid := AssignFree(hip, hmac, myinterface, switchvid, startrand);
      if hvid.Some? {
        SameButOne(old(iphosts), kept, hip, hvid.value);
        SameButOne(old(inthosts), keptEntries, hip, HostEntry(myinterface, hvid.value));
        SameButOne(old(rhosts), keptIds, hmac, hvid.value);
        forall i | i in old(iphosts) && i != hip
          ensures old(iphosts)[i] != hvid.value
        {
          assert i in kept;
        }
      }
    }

    /** Gives a host its id: the one it has, if interface and switch are still the same, else
        a free one; the search starts at an arbitrary number. Asked again for a switch id, it
        answers with the same id. */
    method GenerateHostVid(hip: Ip, hmac: Mac, myinterface: nat, switchvid: Vid, startrand: nat)
      returns (isNew: bool, hvid: Option<Vid>)
      requires Valid() && startrand < IDS
      modifies this
      ensures Valid()
      ensures !isNew && hvid.Some? <==> old(Knows(hip, myinterface, switchvid))
      ensures !isNew && hvid.Some? ==> hvid.value == old(iphosts)[hip]
      ensures hvid.Some? ==>
                && iphosts == old(iphosts)[hip := hvid.value] && hvid.value in hosts && hosts[hvid.value] == hmac
                && rhosts == old(rhosts)[hmac := hvid.value]
                && inthosts == old(inthosts)[hip := HostEntry(myinterface, hvid.value)]
      ensures hvid.Some? ==>
                SwitchVid(hvid.value) == SwitchVid(switchvid) && Delta(hvid.value, switchvid) <= HOST_BITS
      ensures hvid.Some? && IsSwitch(switchvid) ==> Knows(hip, myinterface, switchvid)
      ensures hvid.None? ==>
                !isNew && iphosts == old(iphosts) - {hip} && forall n :: 0 <= n < IDS ==> HostVid(switchvid, n) in hosts
      ensures isNew ==> hvid.Some? && exists n :: 0 <= n < IDS && hvid.value == HostVid(switchvid, n)
      ensures isNew ==> forall i :: i in old(iphosts) && i != hip ==> old(iphosts)[i] != hvid.value
      ensures forall v :: v in hosts && (hvid.Some? ==> v != hvid.value) ==>
                v in old(hosts) && hosts[v] == old(hosts)[v]
    {
      if hip in inthosts {
        var he := inthosts[hip];
        if he.interfaceid == myinterface {
          if hip in iphosts {
            if SwitchVid(iphosts[hip]) == switchvid {
              SwitchOfSwitch(iphosts[hip]);
              SwitchDeltaZero(iphosts[hip], switchvid);
              var vid1 := Refresh(hip, hmac);
              return false, Some(vid1);
            }
          }
        }
      }
      hvid := Reassign(hip, hmac, myinterface, switchvid, startrand);
      isNew := hvid.Some?;
      if isNew {
        SwitchDeltaZero(hvid.value, switchvid);
      }
    }

    /** The id goes, and its hardware address with it. */
    method DropId(vid: Vid)
      requires vid in hosts
      modifies this`hosts, this`rhosts, this`holder
      ensures hosts == old(hosts) - {vid} && holder == old(holder) - {vid}
      ensures rhosts == old(rhosts) - {old(hosts)[vid]}
    {
      var mac := hosts[vid];
      hosts, holder := hosts - {vid}, holder - {vid};
      if mac in rhosts {
        rhosts := rhosts - {mac};
      }
    }

    /** A timer started for hostvid fires: the mapping goes if the id is still that one. */
    method Expire(ip: Ip, hostvid: Vid)
      requires Valid()
      modifies this
      ensures Valid()
      ensures if ip in old(iphosts) && old(iphosts)[ip] == hostvid then
                && iphosts == old(iphosts) - {ip} && inthosts == old(inthosts) - {ip}
                && hosts == old(hosts) - {hostvid} && rhosts == old(rhosts) - {old(hosts)[hostvid]}
              else
                && iphosts == old(iphosts) && inthosts == old(inthosts)
                && hosts == old(hosts) && rhosts == old(rhosts)
    {
      if ip !in iphosts {
        return;
      }
      var vid := iphosts[ip];
      if vid != hostvid {
        return;
      }
      iphosts := iphosts - {ip};
      inthosts := inthosts - {ip};
      if vid !in hosts {
        return;
      }
      DropId(vid);
    }

    method DeleteIp(ip: Ip)
      requires Valid()
      modifies this
      ensures Valid()
      ensures iphosts == old(iphosts) - {ip} && inthosts == old(inthosts) - {ip}
      ensures ip in old(iphosts) ==>
                var vid := old(iphosts)[ip];
                hosts == old(hosts) - {vid} && rhosts == old(rhosts) - {old(hosts)[vid]}
      ensures ip !in old(iphosts) ==> hosts == old(hosts) && rhosts == old(rhosts)
    {
      if ip !in inthosts {
        assert ip !in iphosts;
        return;
      }
      inthosts := inthosts - {ip};
      if ip !in iphosts {
        return;
      }
      var vid := iphosts[ip];
      iphosts := iphosts - {ip};
      if vid !in hosts {
        return;
      }
      DropId(vid);
    }
  }
}
