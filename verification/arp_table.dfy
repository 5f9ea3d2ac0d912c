/** The ARP table: eight slots searched and changed in place, seen as a bounded map from IP to MAC. */
module ArpTable {
  import opened Bytes

  const ARP_TABLE_SIZE := 8

  datatype Entry = Entry(used: byte, ip: seq<byte>, mac: seq<byte>)

  /** The used slots hold exactly the pairs of m, no IP twice. */
  ghost predicate Represents(t: seq<Entry>, m: map<seq<byte>, seq<byte>>) {
    && (forall i :: 0 <= i < |t| && t[i].used == 1 ==> t[i].ip in m && m[t[i].ip] == t[i].mac)
    && (forall ip :: ip in m ==> Somewhere(t, ip))
    && Unique(t)
  }

  ghost predicate Somewhere(t: seq<Entry>, ip: seq<byte>) {
    exists i :: 0 <= i < |t| && t[i].used == 1 && t[i].ip == ip
  }

  ghost predicate Unique(t: seq<Entry>) {
    forall i, j :: 0 <= i < j < |t| && t[i].used == 1 && t[j].used == 1 ==> t[i].ip != t[j].ip
  }

  function UsedCount(t: seq<Entry>): (n: nat)
    ensures n <= |t|
    ensures n == |t| <==> forall i :: 0 <= i < |t| ==> t[i].used == 1
  {
    if t == [] then 0 else UsedCount(t[..|t| - 1]) + if t[|t| - 1].used == 1 then 1 else 0
  }

  /** The map is as large as the number of used slots, so the table is full exactly when the map has eight pairs. */
  lemma {:induction false} SizeIsUsedCount(t: seq<Entry>, m: map<seq<byte>, seq<byte>>)
    requires Represents(t, m)
    ensures |m| == UsedCount(t)
  {
    hide Represents;
    if t == [] {
      NoSlotsNoPairs(m);
    } else {
      var last := t[|t| - 1];
      var t' := t[..|t| - 1];
      if last.used == 1 {
        HeldIsMapped(t, m, |t| - 1);
        DropLast(t, m);
        SizeIsUsedCount(t', m - {last.ip});
        OneLess(m, last.ip);
      } else {
        DropUnused(t, m);
        SizeIsUsedCount(t', m);
      }
    }
  }

  lemma NoSlotsNoPairs(m: map<seq<byte>, seq<byte>>)
    requires Represents([], m)
    ensures |m| == 0
  {
    assert m == map[];
  }

  lemma OneLess(m: map<seq<byte>, seq<byte>>, ip: seq<byte>)
    requires ip in m
    ensures |m| == |m - {ip}| + 1
  {
    var m' := m - {ip};
    assert m.Keys == m'.Keys + {ip};
    assert |m.Keys| == |m'.Keys| + 1;
  }

  lemma DropUnused(t: seq<Entry>, m: map<seq<byte>, seq<byte>>)
    requires t != [] && t[|t| - 1].used != 1 && Represents(t, m)
    ensures Represents(t[..|t| - 1], m)
  {
    var t' := t[..|t| - 1];
    forall ip | ip in m ensures Somewhere(t', ip) {
      assert Somewhere(t, ip);
      var i :| 0 <= i < |t| && t[i].used == 1 && t[i].ip == ip;
      assert t'[i].ip == ip;
    }
  }

  lemma DropLast(t: seq<Entry>, m: map<seq<byte>, seq<byte>>)
    requires t != [] && t[|t| - 1].used == 1 && Represents(t, m)
    ensures Represents(t[..|t| - 1], m - {t[|t| - 1].ip})
  {
    var t', m' := t[..|t| - 1], m - {t[|t| - 1].ip};
    forall ip | ip in m' ensures Somewhere(t', ip) {
      assert Somewhere(t, ip);
      var i :| 0 <= i < |t| && t[i].used == 1 && t[i].ip == ip;
      assert t'[i].ip == ip;
    }
  }

  /** Freeing the one slot of an IP removes its pair. */
  lemma FreedRepresents(t: seq<Entry>, m: map<seq<byte>, seq<byte>>, i: nat, used: byte)
    requires Represents(t, m) && i < |t| && t[i].used == 1 && used != 1
    ensures Represents(t[i := t[i].(used := used)], m - {t[i].ip})
  {
    var t', m' := t[i := t[i].(used := used)], m - {t[i].ip};
    forall ip | ip in m' ensures Somewhere(t', ip) {
      assert Somewhere(t, ip);
      var j :| 0 <= j < |t| && t[j].used == 1 && t[j].ip == ip;
      assert t'[j].ip == ip;
    }
  }

  lemma FilledRepresents(t: seq<Entry>, m: map<seq<byte>, seq<byte>>, i: nat, ip: seq<byte>, mac: seq<byte>)
    requires Represents(t, m) && i < |t| && t[i].used != 1 && ip !in m
    ensures Represents(t[i := Entry(1, ip, mac)], m[ip := mac])
  {
    var t', m' := t[i := Entry(1, ip, mac)], m[ip := mac];
    assert t'[i].ip == ip;
    forall a | a in m' ensures Somewhere(t', a) {
      if a != ip {
        assert Somewhere(t, a);
        var j :| 0 <= j < |t| && t[j].used == 1 && t[j].ip == a;
        assert t'[j].ip == a;
      }
    }
  }

  class Table {
    const slots: array<Entry>
    ghost var pairs: map<seq<byte>, seq<byte>>

    ghost predicate Valid()
      reads this, slots
    {
      slots.Length == ARP_TABLE_SIZE && Represents(slots[..], pairs)
    }

    /** arp_table_init, over any earlier contents. */
    constructor (t: array<Entry>)
      requires t.Length == ARP_TABLE_SIZE
      modifies t
      ensures Valid() && pairs == map[] && slots == t
    {
      slots := t;
      pairs := map[];
      new;
      for i := 0 to ARP_TABLE_SIZE
        invariant slots.Length == ARP_TABLE_SIZE && pairs == map[] && forall j :: 0 <= j < i ==> slots[j].used == 0
      {
        slots[i] := slots[i].(used := 0);
      }
    }

    /** arp_table_search agrees with the map. */
    method Search(ip: seq<byte>) returns (found: bool, mac: seq<byte>)
      requires Valid()
      ensures found <==> ip in pairs
      ensures found ==> mac == pairs[ip]
    {
      found, mac := false, [];
      var i := 0;
      while i < ARP_TABLE_SIZE
        invariant 0 <= i <= ARP_TABLE_SIZE && forall j :: 0 <= j < i ==> !(slots[j].used == 1 && slots[j].ip == ip)
      {
        if slots[i].used == 1 && slots[i].ip == ip {
          assert slots[..][i].ip == ip;
          return true, slots[i].mac;
        }
        i := i + 1;
      }
      NotHeldNotMapped(slots[..], pairs, ip);
    }

    /** arp_table_delete_entry. */
    method Delete(ip: seq<byte>) returns (ans: bool)
      requires Valid()
      modifies this`pairs, slots
      ensures Valid() && ans == (ip in old(pairs)) && pairs == old(pairs) - {ip}
      ensures ans ==> exists i :: 0 <= i < ARP_TABLE_SIZE && slots[i].used == 0
    {
      hide Represents;
      ans := false;
      ghost var free := 0;
      ghost var before := pairs;
      for i := 0 to ARP_TABLE_SIZE
        invariant Valid() && 0 <= free < ARP_TABLE_SIZE && (ans ==> slots[free].used == 0 && ip in before && pairs == before - {ip})
        invariant !ans ==> pairs == before
        invariant forall j :: 0 <= j < i ==> !(slots[j].used == 1 && slots[j].ip == ip)
      {
        if slots[i].used == 1 && slots[i].ip == ip {
          ghost var t := slots[..];
          HeldIsMapped(t, pairs, i);
          FreedRepresents(t, pairs, i, 0);
          slots[i] := slots[i].(used := 0);
          assert slots[..] == t[i := t[i].(used := 0)];
          pairs := pairs - {ip};
          free := i;
          ans := true;
        }
      }
      NotHeldNotMapped(slots[..], pairs, ip);
    }

    /** The scan for a free slot; the index bound comes first. */
    method FindFree() returns (i: nat)
      requires slots.Length == ARP_TABLE_SIZE
      ensures i <= ARP_TABLE_SIZE && (i < ARP_TABLE_SIZE ==> slots[i].used != 1)
      ensures i == ARP_TABLE_SIZE <==> forall j :: 0 <= j < ARP_TABLE_SIZE ==> slots[j].used == 1
    {
      i := 0;
      while i < ARP_TABLE_SIZE && slots[i].used == 1
        invariant i <= ARP_TABLE_SIZE && forall j :: 0 <= j < i ==> slots[j].used == 1
      {
        i := i + 1;
      }
    }

    /** Writes the pair into a slot and drops the pair that slot held. */
    method Store(i: nat, ip: seq<byte>, mac: seq<byte>)
      requires Valid() && i < ARP_TABLE_SIZE && ip !in pairs
      modifies this`pairs, slots
      ensures Valid()
      ensures pairs == (if old(slots[i].used) == 1 then old(pairs) - {old(slots[i].ip)} else old(pairs))[ip := mac]
    {
      hide Represents;
      ghost var t := slots[..];
      if t[i].used == 1 {
        FreedRepresents(t, pairs, i, 0);
        pairs := pairs - {t[i].ip};
        t := t[i := t[i].(used := 0)];
      }
      FilledRepresents(t, pairs, i, ip, mac);
      slots[i] := Entry(1, ip, mac);
      assert slots[..] == t[i := Entry(1, ip, mac)];
      pairs := pairs[ip := mac];
    }

    /** arp_table_new_entry: the pair is found afterwards; only a full table loses another pair, slot 0's. */
    method Insert(ip: seq<byte>, mac: seq<byte>)
      requires Valid()
      modifies this`pairs, slots
      ensures Valid()
      ensures pairs == (if |old(pairs)| == 8 && ip !in old(pairs)
                        then old(pairs) - {old(slots[0].ip)} else old(pairs))[ip := mac]
    {
      hide Represents;
      ghost var before := pairs;
      FullIff(slots[..], pairs);
      var found, previous := Search(ip);
      if found {
        var gone := Delete(ip);
        assert (before - {ip})[ip := mac] == before[ip := mac];
      }
      var i := FindFree();
      if i == ARP_TABLE_SIZE {
        i := 0;
      }
      Store(i, ip, mac);
    }
  }

  lemma FullIff(t: seq<Entry>, m: map<seq<byte>, seq<byte>>)
    requires Represents(t, m)
    ensures |m| == |t| <==> forall i :: 0 <= i < |t| ==> t[i].used == 1
  {
    SizeIsUsedCount(t, m);
  }

  lemma HeldIsMapped(t: seq<Entry>, m: map<seq<byte>, seq<byte>>, i: nat)
    requires Represents(t, m) && i < |t| && t[i].used == 1
    ensures t[i].ip in m
  {
  }

  lemma NotHeldNotMapped(t: seq<Entry>, m: map<seq<byte>, seq<byte>>, ip: seq<byte>)
    requires Represents(t, m) && forall j :: 0 <= j < |t| ==> !(t[j].used == 1 && t[j].ip == ip)
    ensures ip !in m
  {
    assert ip in m ==> Somewhere(t, ip);
  }
}
