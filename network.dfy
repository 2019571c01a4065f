/**
 * cartography/intel/oci/network.py: the two module-level buffers
 * `SUBNET_VCN` and `SECURITY_GROUP_VCN`, filled while subnets and network
 * security groups are synced and drained into VCN membership links by the two
 * reference passes, and the order in which `sync` runs the passes.
 */
module Network {

  import opened Graph

  /** A listed resource: its `id` and the `vcn-id` it belongs to. */
  datatype Listed = Listed(id: string, vcnId: string)

  /** One buffered `(id, vcn-id)` tuple. */
  datatype Pair = Pair(member: string, vcn: string)

  /** What one `sync` is given by the SDK: the five listings, in listing order. */
  datatype Listings = Listings(
    subnets: seq<Listed>,
    vcns: seq<string>,
    internetGateways: seq<string>,
    securityLists: seq<string>,
    securityGroups: seq<Listed>)

  const SUBNET_TYPE: string := "OCISubnet"
  const VCN_TYPE: string := "OCIVCN"
  const INTERNET_GATEWAY_TYPE: string := "OCIInternetGateway"
  const SECURITY_LIST_TYPE: string := "OCISecurityList"
  const SECURITY_GROUP_TYPE: string := "OCINetworkSecurityGroup"

  function Ids(listed: seq<Listed>): seq<string> {
    seq(|listed|, i requires 0 <= i < |listed| => listed[i].id)
  }

  /** The tuples a listing contributes to a buffer. */
  function Pairs(listed: seq<Listed>): seq<Pair> {
    seq(|listed|, i requires 0 <= i < |listed| => Pair(listed[i].id, listed[i].vcnId))
  }

  /** The upserts of a `load_*` loop: one per listed resource. */
  function Upserts(nodeType: string, ids: seq<string>): seq<Event> {
    seq(|ids|, i requires 0 <= i < |ids| => Upsert(nodeType, ids[i]))
  }

  /** What `sync_network_references` emits for a buffer: subnet -> VCN. */
  function SubnetLinks(buf: seq<Pair>): seq<Event> {
    seq(|buf|, i requires 0 <= i < |buf| => Link(MemberOfVcn, buf[i].member, buf[i].vcn))
  }

  /** What `sync_network_security_group_references` emits for a buffer: VCN -> group. */
  function SecurityGroupLinks(buf: seq<Pair>): seq<Event> {
    seq(|buf|, i requires 0 <= i < |buf| => Link(MemberOfNetworkSecurityGroup, buf[i].vcn, buf[i].member))
  }

  /** The upserts of the five per-type syncs, in the order `sync` runs them. */
  function AllUpserts(l: Listings): seq<Event> {
    Upserts(SUBNET_TYPE, Ids(l.subnets)) + Upserts(VCN_TYPE, l.vcns)
    + Upserts(INTERNET_GATEWAY_TYPE, l.internetGateways) + Upserts(SECURITY_LIST_TYPE, l.securityLists)
    + Upserts(SECURITY_GROUP_TYPE, Ids(l.securityGroups))
  }

  /**
   * Everything one `sync` sends to the graph, given what the two buffers held
   * before it: the five per-type syncs, then both reference passes over the
   * whole buffers.
   */
  function SyncEvents(subnetBuf: seq<Pair>, groupBuf: seq<Pair>, l: Listings): seq<Event> {
    AllUpserts(l) + SubnetLinks(subnetBuf + Pairs(l.subnets)) + SecurityGroupLinks(groupBuf + Pairs(l.securityGroups))
  }

  // ---------------------------------------------------------------------------
  // Properties of the passes

  /** A subnet link is emitted exactly for each buffered tuple, directed subnet -> VCN. */
  lemma SubnetLinksMembers(buf: seq<Pair>, e: Event)
    ensures e in SubnetLinks(buf) <==> e.Link? && e.kind == MemberOfVcn && Pair(e.src, e.dst) in buf
  {
    if e in SubnetLinks(buf) {
      var i :| 0 <= i < |buf| && SubnetLinks(buf)[i] == e;
      assert buf[i] == Pair(e.src, e.dst);
    }
    if e.Link? && e.kind == MemberOfVcn && Pair(e.src, e.dst) in buf {
      var i :| 0 <= i < |buf| && buf[i] == Pair(e.src, e.dst);
      assert SubnetLinks(buf)[i] == e;
    }
  }

  /** A security-group link is emitted exactly for each buffered tuple, reversed: VCN -> group. */
  lemma SecurityGroupLinksMembers(buf: seq<Pair>, e: Event)
    ensures e in SecurityGroupLinks(buf) <==> e.Link? && e.kind == MemberOfNetworkSecurityGroup && Pair(e.dst, e.src) in buf
  {
    if e in SecurityGroupLinks(buf) {
      var i :| 0 <= i < |buf| && SecurityGroupLinks(buf)[i] == e;
      assert buf[i] == Pair(e.dst, e.src);
    }
    if e.Link? && e.kind == MemberOfNetworkSecurityGroup && Pair(e.dst, e.src) in buf {
      var i :| 0 <= i < |buf| && buf[i] == Pair(e.dst, e.src);
      assert SecurityGroupLinks(buf)[i] == e;
    }
  }

  /** Every listed subnet and group reaches its buffer: one tuple per listed resource. */
  lemma PairsMembers(listed: seq<Listed>, id: string, vcn: string)
    ensures Pair(id, vcn) in Pairs(listed) <==> Listed(id, vcn) in listed
  {
    if Pair(id, vcn) in Pairs(listed) {
      var i :| 0 <= i < |listed| && Pairs(listed)[i] == Pair(id, vcn);
      assert listed[i] == Listed(id, vcn);
    }
    if Listed(id, vcn) in listed {
      var i :| 0 <= i < |listed| && listed[i] == Listed(id, vcn);
      assert Pairs(listed)[i] == Pair(id, vcn);
    }
  }

  /** Draining a buffer that grew by appending emits the old links, then the new ones. */
  lemma LinksAppend(a: seq<Pair>, b: seq<Pair>)
    ensures SubnetLinks(a + b) == SubnetLinks(a) + SubnetLinks(b)
    ensures SecurityGroupLinks(a + b) == SecurityGroupLinks(a) + SecurityGroupLinks(b)
  {
    assert forall i :: 0 <= i < |a + b| ==> SubnetLinks(a + b)[i] == (SubnetLinks(a) + SubnetLinks(b))[i];
    assert forall i :: 0 <= i < |a + b| ==> SecurityGroupLinks(a + b)[i] == (SecurityGroupLinks(a) + SecurityGroupLinks(b))[i];
  }

  /**
   * Within one `sync`, every upsert of the five per-type syncs comes before
   * every link of the two reference passes.
   */
  lemma UpsertsPrecedeLinks(subnetBuf: seq<Pair>, groupBuf: seq<Pair>, l: Listings)
    ensures forall i :: 0 <= i < |SyncEvents(subnetBuf, groupBuf, l)| ==>
      (SyncEvents(subnetBuf, groupBuf, l)[i].Upsert? <==> i < |AllUpserts(l)|)
    ensures forall i :: 0 <= i < |SyncEvents(subnetBuf, groupBuf, l)| ==>
      (SyncEvents(subnetBuf, groupBuf, l)[i].Link? <==> |AllUpserts(l)| <= i)
  {
    var ev := SyncEvents(subnetBuf, groupBuf, l);
    var u := AllUpserts(l);
    var s := SubnetLinks(subnetBuf + Pairs(l.subnets));
    var g := SecurityGroupLinks(groupBuf + Pairs(l.securityGroups));
    assert ev == u + s + g;
    assert forall i :: 0 <= i < |u| ==> u[i].Upsert? by {
      var a := Upserts(SUBNET_TYPE, Ids(l.subnets)) + Upserts(VCN_TYPE, l.vcns);
      var b := a + Upserts(INTERNET_GATEWAY_TYPE, l.internetGateways);
      var c := b + Upserts(SECURITY_LIST_TYPE, l.securityLists);
      assert forall i :: 0 <= i < |a| ==> a[i].Upsert?;
      assert forall i :: 0 <= i < |b| ==> b[i].Upsert?;
      assert forall i :: 0 <= i < |c| ==> c[i].Upsert?;
    }
    forall i | 0 <= i < |ev|
      ensures ev[i].Upsert? <==> i < |u|
      ensures ev[i].Link? <==> |u| <= i
    {
      if i < |u| {
        assert ev[i] == u[i];
      } else if i < |u| + |s| {
        assert ev[i] == s[i - |u|];
      } else {
        assert ev[i] == g[i - |u| - |s|];
      }
    }
  }

  /**
   * The buffers are never cleared: a second `sync` with the same listings,
   * starting from empty buffers, upserts the same nodes and then emits every
   * link of the first `sync` twice.
   */
  lemma SecondSyncRepeatsLinks(l: Listings)
    ensures SyncEvents([], [], l)
         == AllUpserts(l) + SubnetLinks(Pairs(l.subnets)) + SecurityGroupLinks(Pairs(l.securityGroups))
    ensures SyncEvents(Pairs(l.subnets), Pairs(l.securityGroups), l)
         == AllUpserts(l) + SubnetLinks(Pairs(l.subnets)) + SubnetLinks(Pairs(l.subnets))
            + SecurityGroupLinks(Pairs(l.securityGroups)) + SecurityGroupLinks(Pairs(l.securityGroups))
  {
    var p, q := Pairs(l.subnets), Pairs(l.securityGroups);
    var u := AllUpserts(l);
    assert [] + p == p && [] + q == q;
    calc {
      SyncEvents(p, q, l);
    ==
      u + SubnetLinks(p + p) + SecurityGroupLinks(q + q);
    == { LinksAppend(p, p); LinksAppend(q, q); }
      u + (SubnetLinks(p) + SubnetLinks(p)) + (SecurityGroupLinks(q) + SecurityGroupLinks(q));
    ==
      u + SubnetLinks(p) + SubnetLinks(p) + SecurityGroupLinks(q) + SecurityGroupLinks(q);
    }
  }

  // ---------------------------------------------------------------------------
  // The module state and the passes over it

  /** One `load_*` loop: one upsert per listed resource, in listing order. */
  method LoadNodes(session: Session, nodeType: string, ids: seq<string>)
    modifies session
    ensures session.trace == old(session.trace) + Upserts(nodeType, ids)
  {
    var i := 0;
    while i < |ids|
      invariant 0 <= i <= |ids|
      invariant session.trace == old(session.trace) + Upserts(nodeType, ids[..i])
    {
      session.Run(Upsert(nodeType, ids[i]));
      assert Upserts(nodeType, ids[..i + 1]) == Upserts(nodeType, ids[..i]) + [Upsert(nodeType, ids[i])];
      i := i + 1;
    }
    assert ids[..i] == ids;
  }

  /** The module-level `SUBNET_VCN` and `SECURITY_GROUP_VCN` lists. */
  class NetworkState {
    var subnetVcn: seq<Pair>
    var securityGroupVcn: seq<Pair>

    /** Both start empty when the module is imported, and nothing ever empties them. */
    constructor ()
      ensures subnetVcn == [] && securityGroupVcn == []
    {
      subnetVcn := [];
      securityGroupVcn := [];
    }

    /** `sync_subnets`: one tuple appended per listed subnet, then the subnets upserted. */
    method SyncSubnets(session: Session, subnets: seq<Listed>)
      modifies this, session
      ensures subnetVcn == old(subnetVcn) + Pairs(subnets)
      ensures securityGroupVcn == old(securityGroupVcn)
      ensures session.trace == old(session.trace) + Upserts(SUBNET_TYPE, Ids(subnets))
    {
      var i := 0;
      while i < |subnets|
        invariant 0 <= i <= |subnets|
        invariant subnetVcn == old(subnetVcn) + Pairs(subnets[..i])
        invariant securityGroupVcn == old(securityGroupVcn)
        invariant session.trace == old(session.trace)
      {
        subnetVcn := subnetVcn + [Pair(subnets[i].id, subnets[i].vcnId)];
        assert Pairs(subnets[..i + 1]) == Pairs(subnets[..i]) + [Pair(subnets[i].id, subnets[i].vcnId)];
        i := i + 1;
      }
      assert subnets[..i] == subnets;
      LoadNodes(session, SUBNET_TYPE, Ids(subnets));
    }

    /** `sync_network_security_groups`: one tuple appended per listed group, then the groups upserted. */
    method SyncNetworkSecurityGroups(session: Session, groups: seq<Listed>)
      modifies this, session
      ensures securityGroupVcn == old(securityGroupVcn) + Pairs(groups)
      ensures subnetVcn == old(subnetVcn)
      ensures session.trace == old(session.trace) + Upserts(SECURITY_GROUP_TYPE, Ids(groups))
    {
      var i := 0;
      while i < |groups|
        invariant 0 <= i <= |groups|
        invariant securityGroupVcn == old(securityGroupVcn) + Pairs(groups[..i])
        invariant subnetVcn == old(subnetVcn)
        invariant session.trace == old(session.trace)
      {
        securityGroupVcn := securityGroupVcn + [Pair(groups[i].id, groups[i].vcnId)];
        assert Pairs(groups[..i + 1]) == Pairs(groups[..i]) + [Pair(groups[i].id, groups[i].vcnId)];
        i := i + 1;
      }
      assert groups[..i] == groups;
      LoadNodes(session, SECURITY_GROUP_TYPE, Ids(groups));
    }

    /** `sync_network_references`: one subnet -> VCN link per buffered tuple, in buffer order. */
    method SyncNetworkReferences(session: Session)
      modifies session
      ensures session.trace == old(session.trace) + SubnetLinks(subnetVcn)
    {
      var buf := subnetVcn;
      var i := 0;
      while i < |buf|
        invariant 0 <= i <= |buf|
        invariant session.trace == old(session.trace) + SubnetLinks(buf[..i])
      {
        session.Run(Link(MemberOfVcn, buf[i].member, buf[i].vcn));
        assert SubnetLinks(buf[..i + 1]) == SubnetLinks(buf[..i]) + [Link(MemberOfVcn, buf[i].member, buf[i].vcn)];
        i := i + 1;
      }
      assert buf[..i] == buf;
    }

    /** `sync_network_security_group_references`: one VCN -> group link per buffered tuple. */
    method SyncNetworkSecurityGroupReferences(session: Session)
      modifies session
      ensures session.trace == old(session.trace) + SecurityGroupLinks(securityGroupVcn)
    {
      var buf := securityGroupVcn;
      var i := 0;
      while i < |buf|
        invariant 0 <= i <= |buf|
        invariant session.trace == old(session.trace) + SecurityGroupLinks(buf[..i])
      {
        session.Run(Link(MemberOfNetworkSecurityGroup, buf[i].vcn, buf[i].member));
        assert SecurityGroupLinks(buf[..i + 1])
            == SecurityGroupLinks(buf[..i]) + [Link(MemberOfNetworkSecurityGroup, buf[i].vcn, buf[i].member)];
        i := i + 1;
      }
      assert buf[..i] == buf;
    }

    /** `sync`: the five per-type syncs, then the two reference passes. */
    method Sync(session: Session, l: Listings)
      modifies this, session
      ensures subnetVcn == old(subnetVcn) + Pairs(l.subnets)
      ensures securityGroupVcn == old(securityGroupVcn) + Pairs(l.securityGroups)
      ensures session.trace == old(session.trace) + SyncEvents(old(subnetVcn), old(securityGroupVcn), l)
    {
      SyncSubnets(session, l.subnets);
      LoadNodes(session, VCN_TYPE, l.vcns);
      LoadNodes(session, INTERNET_GATEWAY_TYPE, l.internetGateways);
      LoadNodes(session, SECURITY_LIST_TYPE, l.securityLists);
      SyncNetworkSecurityGroups(session, l.securityGroups);
      SyncNetworkReferences(session);
      SyncNetworkSecurityGroupReferences(session);
    }
  }
}
