/**
 * cartography/intel/oci/objectStorage.py: the module-level `buckets` buffer and
 * `REGIONS` table, the append loop of `sync_buckets`, the per-bucket tag loop
 * of `load_buckets`, and the two cross-reference passes of
 * `sync_oci_policy_bucket_references` (policy -> bucket by name, bucket ->
 * region by the code inside the bucket's id).
 */
module ObjectStorage {

  import opened Graph
  import opened Tags
  import opened Patterns

  /** The fields of a fetched bucket that the passes read. */
  datatype Bucket = Bucket(id: string, name: string, definedTags: seq<TagNamespace>)

  /** A policy as read back from the graph: its ocid and its statements. */
  datatype Policy = Policy(ocid: string, statements: seq<string>)

  /** How a call ended: normally, or with the Python exception that aborted it. */
  datatype Outcome = Completed | KeyError(key: string) | AttributeError(name: string)

  const BUCKET_TYPE: string := "OCIBucket"

  // ---------------------------------------------------------------------------
  // Tag attachments made by `load_buckets`

  /** The attachments for one namespace: none for Oracle-Tags, one per tag otherwise. */
  function NamespaceEvents(id: string, n: TagNamespace): seq<Event> {
    if n.name == ORACLE_TAGS then []
    else seq(|n.tags|, i requires 0 <= i < |n.tags| => AttachTag(id, BUCKET_TYPE, n.name, n.tags[i].key, n.tags[i].value))
  }

  /** The attachments for one bucket, namespace by namespace in dict order. */
  function TagEvents(id: string, d: seq<TagNamespace>): seq<Event> {
    if d == [] then [] else TagEvents(id, d[..|d| - 1]) + NamespaceEvents(id, d[|d| - 1])
  }

  /** The attachments for a list of buckets, bucket by bucket. */
  function BucketsTagEvents(bs: seq<Bucket>): seq<Event> {
    if bs == [] then []
    else BucketsTagEvents(bs[..|bs| - 1]) + TagEvents(bs[|bs| - 1].id, bs[|bs| - 1].definedTags)
  }

  /** The `namespace:key:value` string of a tag attachment. */
  function RenderEvent(e: Event): string {
    if e.AttachTag? then Render(e.namespace, Tag(e.key, e.value)) else ""
  }

  function RenderAll(es: seq<Event>): seq<string> {
    seq(|es|, i requires 0 <= i < |es| => RenderEvent(es[i]))
  }

  lemma TagEventsSnoc(id: string, d: seq<TagNamespace>, i: nat)
    requires i < |d|
    ensures TagEvents(id, d[..i + 1]) == TagEvents(id, d[..i]) + NamespaceEvents(id, d[i])
  {
    assert d[..i + 1][..i] == d[..i];
  }

  lemma BucketsTagEventsSnoc(bs: seq<Bucket>, i: nat)
    requires i < |bs|
    ensures BucketsTagEvents(bs[..i + 1]) == BucketsTagEvents(bs[..i]) + TagEvents(bs[i].id, bs[i].definedTags)
  {
    assert bs[..i + 1][..i] == bs[..i];
  }

  lemma RenderAllAppend(a: seq<Event>, b: seq<Event>)
    ensures RenderAll(a + b) == RenderAll(a) + RenderAll(b)
  {
    assert forall i :: 0 <= i < |a + b| ==> RenderAll(a + b)[i] == (RenderAll(a) + RenderAll(b))[i];
  }

  lemma NamespaceEventsRender(id: string, n: TagNamespace)
    ensures RenderAll(NamespaceEvents(id, n)) == NamespaceStrings(n)
  {
    if n.name != ORACLE_TAGS {
      assert forall i :: 0 <= i < |n.tags| ==> RenderAll(NamespaceEvents(id, n))[i] == NamespaceStrings(n)[i];
    }
  }

  /** Every event of the tag loop attaches a tag to the bucket itself, as an OCIBucket. */
  lemma {:induction false} TagEventsAttachToBucket(id: string, d: seq<TagNamespace>)
    ensures forall e :: e in TagEvents(id, d) ==> e.AttachTag? && e.resource == id && e.resourceType == BUCKET_TYPE
    decreases |d|
  {
    if d != [] {
      var n := |d| - 1;
      TagEventsAttachToBucket(id, d[..n]);
      assert TagEvents(id, d) == TagEvents(id, d[..n]) + NamespaceEvents(id, d[n]);
    }
  }

  /**
   * The tag loop makes exactly the attachments whose strings
   * `extract_namespace_tags2` lists, one per string and in the same order.
   */
  lemma {:induction false} TagEventsMatchFlatTags(id: string, d: seq<TagNamespace>)
    ensures RenderAll(TagEvents(id, d)) == FlatTags(d)
    decreases |d|
  {
    if d != [] {
      var n := |d| - 1;
      var prev, last := TagEvents(id, d[..n]), NamespaceEvents(id, d[n]);
      calc {
        RenderAll(TagEvents(id, d));
      ==
        RenderAll(prev + last);
      == { RenderAllAppend(prev, last); }
        RenderAll(prev) + RenderAll(last);
      == { TagEventsMatchFlatTags(id, d[..n]); NamespaceEventsRender(id, d[n]); }
        FlatTags(d[..n]) + NamespaceStrings(d[n]);
      }
    }
  }

  // ---------------------------------------------------------------------------
  // Policy -> bucket references

  /** The statement names a bucket (leftmost match of the pattern) equal to `name` up to case. */
  predicate Mentions(statement: string, name: string) {
    match Search(BUCKET_NAME, statement)
    case None => false
    case Some(g) => SameName(name, g)
  }

  /** Some statement of the policy mentions the bucket. */
  predicate References(p: Policy, b: Bucket) {
    exists j :: 0 <= j < |p.statements| && Mentions(p.statements[j], b.name)
  }

  /** The links for one captured name: one per buffered bucket whose name matches, in buffer order. */
  function NameLinks(pid: string, g: string, bs: seq<Bucket>): seq<Event> {
    if bs == [] then []
    else
      var b := bs[|bs| - 1];
      NameLinks(pid, g, bs[..|bs| - 1]) + (if SameName(b.name, g) then [Link(BucketPolicyReference, pid, b.id)] else [])
  }

  /** The links for one statement: none when the pattern does not match. */
  function StatementLinks(pid: string, st: string, bs: seq<Bucket>): seq<Event> {
    match Search(BUCKET_NAME, st)
    case None => []
    case Some(g) => NameLinks(pid, g, bs)
  }

  function StatementsLinks(pid: string, sts: seq<string>, bs: seq<Bucket>): seq<Event> {
    if sts == [] then []
    else StatementsLinks(pid, sts[..|sts| - 1], bs) + StatementLinks(pid, sts[|sts| - 1], bs)
  }

  /** The whole policy pass: policy by policy, statement by statement, bucket by bucket. */
  function PolicyLinks(ps: seq<Policy>, bs: seq<Bucket>): seq<Event> {
    if ps == [] then []
    else PolicyLinks(ps[..|ps| - 1], bs) + StatementsLinks(ps[|ps| - 1].ocid, ps[|ps| - 1].statements, bs)
  }

  lemma {:induction false} NameLinksMembers(pid: string, g: string, bs: seq<Bucket>, e: Event)
    ensures e in NameLinks(pid, g, bs) <==>
      exists k :: 0 <= k < |bs| && SameName(bs[k].name, g) && e == Link(BucketPolicyReference, pid, bs[k].id)
    decreases |bs|
  {
    if bs != [] {
      var n := |bs| - 1;
      NameLinksMembers(pid, g, bs[..n], e);
      if e in NameLinks(pid, g, bs) && e in NameLinks(pid, g, bs[..n]) {
        var k :| 0 <= k < n && SameName(bs[..n][k].name, g) && e == Link(BucketPolicyReference, pid, bs[..n][k].id);
        assert bs[k] == bs[..n][k];
      }
      if exists k :: 0 <= k < |bs| && SameName(bs[k].name, g) && e == Link(BucketPolicyReference, pid, bs[k].id) {
        var k :| 0 <= k < |bs| && SameName(bs[k].name, g) && e == Link(BucketPolicyReference, pid, bs[k].id);
        if k < n {
          assert bs[..n][k] == bs[k];
        }
      }
    }
  }

  /** The links of one statement: one per buffered bucket the statement mentions. */
  lemma StatementLinkMembers(pid: string, st: string, bs: seq<Bucket>, e: Event)
    ensures e in StatementLinks(pid, st, bs) <==>
      exists k :: 0 <= k < |bs| && Mentions(st, bs[k].name) && e == Link(BucketPolicyReference, pid, bs[k].id)
  {
    match Search(BUCKET_NAME, st)
    case None =>
    case Some(g) =>
      NameLinksMembers(pid, g, bs, e);
  }

  /** The links of each statement, one piece per statement. */
  function StatementPieces(pid: string, sts: seq<string>, bs: seq<Bucket>): seq<seq<Event>> {
    seq(|sts|, j requires 0 <= j < |sts| => StatementLinks(pid, sts[j], bs))
  }

  /** The statement loop lays the pieces of the statements end to end. */
  lemma {:induction false} StatementsLinksConcat(pid: string, sts: seq<string>, bs: seq<Bucket>)
    ensures StatementsLinks(pid, sts, bs) == Concat(StatementPieces(pid, sts, bs))
    decreases |sts|
  {
    if sts != [] {
      var n := |sts| - 1;
      StatementsLinksConcat(pid, sts[..n], bs);
      assert StatementPieces(pid, sts, bs)[..n] == StatementPieces(pid, sts[..n], bs);
    }
  }

  lemma StatementsLinksFlatten(pid: string, sts: seq<string>, bs: seq<Bucket>, e: Event)
    ensures e in StatementsLinks(pid, sts, bs) <==> exists j :: 0 <= j < |sts| && e in StatementLinks(pid, sts[j], bs)
  {
    var pieces := StatementPieces(pid, sts, bs);
    StatementsLinksConcat(pid, sts, bs);
    ConcatMembers(pieces, e);
    if exists j :: 0 <= j < |sts| && e in StatementLinks(pid, sts[j], bs) {
      var j :| 0 <= j < |sts| && e in StatementLinks(pid, sts[j], bs);
      assert e in pieces[j];
    }
  }

  lemma StatementsLinksSnoc(pid: string, sts: seq<string>, bs: seq<Bucket>, j: nat)
    requires j < |sts|
    ensures StatementsLinks(pid, sts[..j + 1], bs) == StatementsLinks(pid, sts[..j], bs) + StatementLinks(pid, sts[j], bs)
  {
    assert sts[..j + 1][..j] == sts[..j];
  }

  lemma PolicyLinksSnoc(ps: seq<Policy>, bs: seq<Bucket>, i: nat)
    requires i < |ps|
    ensures PolicyLinks(ps[..i + 1], bs) == PolicyLinks(ps[..i], bs) + StatementsLinks(ps[i].ocid, ps[i].statements, bs)
  {
    assert ps[..i + 1][..i] == ps[..i];
  }

  /** The links of each policy, one piece per policy. */
  function PolicyPieces(ps: seq<Policy>, bs: seq<Bucket>): seq<seq<Event>> {
    seq(|ps|, i requires 0 <= i < |ps| => StatementsLinks(ps[i].ocid, ps[i].statements, bs))
  }

  /** The policy loop lays the pieces of the policies end to end. */
  lemma {:induction false} PolicyLinksConcat(ps: seq<Policy>, bs: seq<Bucket>)
    ensures PolicyLinks(ps, bs) == Concat(PolicyPieces(ps, bs))
    decreases |ps|
  {
    if ps != [] {
      var n := |ps| - 1;
      PolicyLinksConcat(ps[..n], bs);
      assert PolicyPieces(ps, bs)[..n] == PolicyPieces(ps[..n], bs);
    }
  }

  lemma PolicyLinksFlatten(ps: seq<Policy>, bs: seq<Bucket>, e: Event)
    ensures e in PolicyLinks(ps, bs) <==>
      exists i :: 0 <= i < |ps| && e in StatementsLinks(ps[i].ocid, ps[i].statements, bs)
  {
    var pieces := PolicyPieces(ps, bs);
    PolicyLinksConcat(ps, bs);
    ConcatMembers(pieces, e);
    if exists i :: 0 <= i < |ps| && e in StatementsLinks(ps[i].ocid, ps[i].statements, bs) {
      var i :| 0 <= i < |ps| && e in StatementsLinks(ps[i].ocid, ps[i].statements, bs);
      assert e in pieces[i];
    }
  }

  /** The links of one policy: one per statement and buffered bucket the statement mentions. */
  lemma PolicyLinksOfOne(p: Policy, bs: seq<Bucket>, e: Event)
    ensures e in StatementsLinks(p.ocid, p.statements, bs) <==>
      exists k :: 0 <= k < |bs| && References(p, bs[k]) && e == Link(BucketPolicyReference, p.ocid, bs[k].id)
  {
    StatementsLinksFlatten(p.ocid, p.statements, bs, e);
    if e in StatementsLinks(p.ocid, p.statements, bs) {
      var j :| 0 <= j < |p.statements| && e in StatementLinks(p.ocid, p.statements[j], bs);
      StatementLinkMembers(p.ocid, p.statements[j], bs, e);
      var k :| 0 <= k < |bs| && Mentions(p.statements[j], bs[k].name) && e == Link(BucketPolicyReference, p.ocid, bs[k].id);
      assert References(p, bs[k]);
    }
    if exists k :: 0 <= k < |bs| && References(p, bs[k]) && e == Link(BucketPolicyReference, p.ocid, bs[k].id) {
      var k :| 0 <= k < |bs| && References(p, bs[k]) && e == Link(BucketPolicyReference, p.ocid, bs[k].id);
      var j :| 0 <= j < |p.statements| && Mentions(p.statements[j], bs[k].name);
      StatementLinkMembers(p.ocid, p.statements[j], bs, e);
    }
  }

  /**
   * A link from policy `p` to bucket `b` is emitted exactly when some statement
   * of `p` names `b` up to case; the pass emits nothing else.
   */
  lemma PolicyLinksMembers(ps: seq<Policy>, bs: seq<Bucket>, e: Event)
    ensures e in PolicyLinks(ps, bs) <==>
      exists i, k :: 0 <= i < |ps| && 0 <= k < |bs| && References(ps[i], bs[k]) && e == Link(BucketPolicyReference, ps[i].ocid, bs[k].id)
  {
    PolicyLinksFlatten(ps, bs, e);
    if e in PolicyLinks(ps, bs) {
      var i :| 0 <= i < |ps| && e in StatementsLinks(ps[i].ocid, ps[i].statements, bs);
      PolicyLinksOfOne(ps[i], bs, e);
    }
    if exists i, k :: 0 <= i < |ps| && 0 <= k < |bs| && References(ps[i], bs[k]) && e == Link(BucketPolicyReference, ps[i].ocid, bs[k].id) {
      var i, k :| 0 <= i < |ps| && 0 <= k < |bs| && References(ps[i], bs[k]) && e == Link(BucketPolicyReference, ps[i].ocid, bs[k].id);
      PolicyLinksOfOne(ps[i], bs, e);
    }
  }

  /** The pass handles policies independently and in order. */
  lemma {:induction false} PolicyLinksAppend(ps: seq<Policy>, qs: seq<Policy>, bs: seq<Bucket>)
    ensures PolicyLinks(ps + qs, bs) == PolicyLinks(ps, bs) + PolicyLinks(qs, bs)
    decreases |qs|
  {
    if qs == [] {
      assert ps + qs == ps;
    } else {
      var n := |qs| - 1;
      calc {
        PolicyLinks(ps + qs, bs);
      == { assert (ps + qs)[..|ps + qs| - 1] == ps + qs[..n];
           assert (ps + qs)[|ps + qs| - 1] == qs[n]; }
        PolicyLinks(ps + qs[..n], bs) + StatementsLinks(qs[n].ocid, qs[n].statements, bs);
      == { PolicyLinksAppend(ps, qs[..n], bs); }
        PolicyLinks(ps, bs) + PolicyLinks(qs[..n], bs) + StatementsLinks(qs[n].ocid, qs[n].statements, bs);
      }
    }
  }

  lemma {:induction false} NameLinksAppend(pid: string, g: string, a: seq<Bucket>, b: seq<Bucket>)
    ensures NameLinks(pid, g, a + b) == NameLinks(pid, g, a) + NameLinks(pid, g, b)
    decreases |b|
  {
    if b == [] {
      assert a + b == a;
    } else {
      var n := |b| - 1;
      assert (a + b)[..|a + b| - 1] == a + b[..n];
      assert (a + b)[|a + b| - 1] == b[n];
      NameLinksAppend(pid, g, a, b[..n]);
    }
  }

  lemma {:induction false} StatementsLinksDoubled(pid: string, sts: seq<string>, bs: seq<Bucket>)
    ensures multiset(StatementsLinks(pid, sts, bs + bs)) == multiset(StatementsLinks(pid, sts, bs)) + multiset(StatementsLinks(pid, sts, bs))
    decreases |sts|
  {
    if sts != [] {
      var n := |sts| - 1;
      StatementsLinksDoubled(pid, sts[..n], bs);
      match Search(BUCKET_NAME, sts[n])
      case None =>
      case Some(g) =>
        NameLinksAppend(pid, g, bs, bs);
    }
  }

  /**
   * The bucket buffer is never cleared: once it holds the same buckets twice,
   * the policy pass emits every link exactly twice as often.
   */
  lemma {:induction false} PolicyLinksDoubled(ps: seq<Policy>, bs: seq<Bucket>)
    ensures multiset(PolicyLinks(ps, bs + bs)) == multiset(PolicyLinks(ps, bs)) + multiset(PolicyLinks(ps, bs))
    decreases |ps|
  {
    if ps != [] {
      var n := |ps| - 1;
      PolicyLinksDoubled(ps[..n], bs);
      StatementsLinksDoubled(ps[n].ocid, ps[n].statements, bs);
    }
  }

  /** With an empty buffer the policy pass emits nothing, whatever the policies say. */
  lemma {:induction false} PolicyLinksNoBuckets(ps: seq<Policy>)
    ensures PolicyLinks(ps, []) == []
    decreases |ps|
  {
    if ps != [] {
      var n := |ps| - 1;
      PolicyLinksNoBuckets(ps[..n]);
      StatementsLinksNoBuckets(ps[n].ocid, ps[n].statements);
    }
  }

  lemma {:induction false} StatementsLinksNoBuckets(pid: string, sts: seq<string>)
    ensures StatementsLinks(pid, sts, []) == []
    decreases |sts|
  {
    if sts != [] {
      StatementsLinksNoBuckets(pid, sts[..|sts| - 1]);
    }
  }

  // ---------------------------------------------------------------------------
  // Bucket -> region references

  /** The links the region loop emitted, and the code whose lookup raised KeyError, if any. */
  datatype RegionPass = RegionPass(links: seq<Event>, missing: Option<string>)

  /**
   * The region loop over the buffer: ids without a region code are skipped;
   * a code absent from the table ends the loop.
   */
  function RegionLinks(bs: seq<Bucket>, regions: map<string, string>): RegionPass {
    if bs == [] then RegionPass([], None)
    else
      var prev := RegionLinks(bs[..|bs| - 1], regions);
      var b := bs[|bs| - 1];
      if prev.missing.Some? then prev
      else match Search(REGION_CODE, b.id)
        case None => prev
        case Some(code) =>
          if code in regions then RegionPass(prev.links + [Link(LocatedIn, b.id, regions[code])], None)
          else RegionPass(prev.links, Some(code))
  }

  /** The bucket's id has no region code, or its code is in the table. */
  predicate Resolvable(b: Bucket, regions: map<string, string>) {
    match Search(REGION_CODE, b.id)
    case None => true
    case Some(code) => code in regions
  }

  /** `e` is the region link of bucket `b`. */
  predicate RegionLinkOf(b: Bucket, regions: map<string, string>, e: Event) {
    match Search(REGION_CODE, b.id)
    case None => false
    case Some(code) => code in regions && e == Link(LocatedIn, b.id, regions[code])
  }

  /** Once a lookup has failed, later buckets change nothing. */
  lemma {:induction false} RegionLinksSticky(a: seq<Bucket>, b: seq<Bucket>, regions: map<string, string>)
    requires RegionLinks(a, regions).missing.Some?
    ensures RegionLinks(a + b, regions) == RegionLinks(a, regions)
    decreases |b|
  {
    if b == [] {
      assert a + b == a;
    } else {
      var n := |b| - 1;
      assert (a + b)[..|a + b| - 1] == a + b[..n];
      RegionLinksSticky(a, b[..n], regions);
    }
  }

  /** The loop raises iff some bucket's code is missing from the table. */
  lemma {:induction false} RegionLinksCompletes(bs: seq<Bucket>, regions: map<string, string>)
    ensures RegionLinks(bs, regions).missing.None? <==> forall k :: 0 <= k < |bs| ==> Resolvable(bs[k], regions)
    decreases |bs|
  {
    if bs != [] {
      var n := |bs| - 1;
      RegionLinksCompletes(bs[..n], regions);
      if RegionLinks(bs[..n], regions).missing.Some? {
        var k :| 0 <= k < n && !Resolvable(bs[..n][k], regions);
        assert bs[k] == bs[..n][k];
      } else {
        assert forall k :: 0 <= k < n ==> bs[k] == bs[..n][k];
      }
    }
  }

  /** The code reported is that of the first bucket whose code is missing. */
  lemma {:induction false} RegionLinksReportsFirst(bs: seq<Bucket>, regions: map<string, string>, code: string)
    requires RegionLinks(bs, regions).missing == Some(code)
    ensures exists k :: 0 <= k < |bs| && Search(REGION_CODE, bs[k].id) == Some(code) && code !in regions &&
              forall j :: 0 <= j < k ==> Resolvable(bs[j], regions)
    decreases |bs|
  {
    var n := |bs| - 1;
    if RegionLinks(bs[..n], regions).missing.Some? {
      RegionLinksReportsFirst(bs[..n], regions, code);
      var k :| 0 <= k < n && Search(REGION_CODE, bs[..n][k].id) == Some(code) && code !in regions &&
               forall j :: 0 <= j < k ==> Resolvable(bs[..n][j], regions);
      assert forall j :: 0 <= j <= k ==> bs[j] == bs[..n][j];
    } else {
      RegionLinksCompletes(bs[..n], regions);
      assert forall j :: 0 <= j < n ==> bs[j] == bs[..n][j];
      assert Search(REGION_CODE, bs[n].id) == Some(code) && code !in regions;
    }
  }

  /** When the loop completes, it links exactly the buckets whose id carries a region code. */
  lemma {:induction false} RegionLinksMembers(bs: seq<Bucket>, regions: map<string, string>, e: Event)
    requires RegionLinks(bs, regions).missing.None?
    ensures e in RegionLinks(bs, regions).links <==> exists k :: 0 <= k < |bs| && RegionLinkOf(bs[k], regions, e)
    decreases |bs|
  {
    if bs != [] {
      var n := |bs| - 1;
      assert RegionLinks(bs[..n], regions).missing.None?;
      RegionLinksMembers(bs[..n], regions, e);
      if e in RegionLinks(bs, regions).links && e in RegionLinks(bs[..n], regions).links {
        var k :| 0 <= k < n && RegionLinkOf(bs[..n][k], regions, e);
        assert bs[k] == bs[..n][k];
      }
      if exists k :: 0 <= k < |bs| && RegionLinkOf(bs[k], regions, e) {
        var k :| 0 <= k < |bs| && RegionLinkOf(bs[k], regions, e);
        if k < n {
          assert bs[..n][k] == bs[k];
        }
      }
    }
  }

  /**
   * Region links follow the buffer order: once the loop has passed `a`
   * without a failed lookup, the rest of the buffer adds its own links after
   * those of `a`, and its outcome decides the loop's.
   */
  lemma {:induction false} RegionLinksAppend(a: seq<Bucket>, b: seq<Bucket>, regions: map<string, string>)
    requires RegionLinks(a, regions).missing.None?
    ensures RegionLinks(a + b, regions).links == RegionLinks(a, regions).links + RegionLinks(b, regions).links
    ensures RegionLinks(a + b, regions).missing == RegionLinks(b, regions).missing
    decreases |b|
  {
    if b == [] {
      assert a + b == a;
    } else {
      var n := |b| - 1;
      assert (a + b)[..|a + b| - 1] == a + b[..n];
      assert (a + b)[|a + b| - 1] == b[n];
      RegionLinksAppend(a, b[..n], regions);
      match Search(REGION_CODE, b[n].id)
      case None =>
      case Some(code) =>
        if RegionLinks(b[..n], regions).missing.None? && code in regions {
          AppendAssoc(RegionLinks(a, regions).links, RegionLinks(b[..n], regions).links,
                      [Link(LocatedIn, b[n].id, regions[code])]);
        }
    }
  }

  /**
   * The buffer is never cleared: once it holds the same buckets twice, every
   * region link is emitted twice, the second copy after the first.
   */
  lemma RegionLinksDoubled(bs: seq<Bucket>, regions: map<string, string>)
    requires RegionLinks(bs, regions).missing.None?
    ensures RegionLinks(bs + bs, regions).links == RegionLinks(bs, regions).links + RegionLinks(bs, regions).links
    ensures RegionLinks(bs + bs, regions).missing.None?
  {
    RegionLinksAppend(bs, bs, regions);
  }

  /** Number of buffered buckets whose id carries a region code. */
  function CodedCount(bs: seq<Bucket>): nat {
    if bs == [] then 0
    else CodedCount(bs[..|bs| - 1]) + (if Search(REGION_CODE, bs[|bs| - 1].id).Some? then 1 else 0)
  }

  /** When the loop completes, it emits one link per bucket whose id carries a code, and no more. */
  lemma {:induction false} RegionLinksCount(bs: seq<Bucket>, regions: map<string, string>)
    requires RegionLinks(bs, regions).missing.None?
    ensures |RegionLinks(bs, regions).links| == CodedCount(bs)
    decreases |bs|
  {
    if bs != [] {
      RegionLinksCount(bs[..|bs| - 1], regions);
    }
  }

  // ---------------------------------------------------------------------------
  // The module state and the passes over it

  /** The module-level `buckets` list and `REGIONS` table. */
  class ObjectStorageState {
    var buckets: seq<Bucket>
    var regions: map<string, string>

    /** Both start empty when the module is imported. */
    constructor ()
      ensures buckets == [] && regions == map[]
    {
      buckets := [];
      regions := map[];
    }

    /** The loop of `sync_buckets`: one fetched bucket appended per listed bucket. */
    method SyncBuckets(fetched: seq<Bucket>)
      modifies this
      ensures buckets == old(buckets) + fetched
      ensures regions == old(regions)
    {
      var i := 0;
      while i < |fetched|
        invariant 0 <= i <= |fetched|
        invariant buckets == old(buckets) + fetched[..i]
        invariant regions == old(regions)
      {
        buckets := buckets + [fetched[i]];
        i := i + 1;
      }
      assert fetched[..i] == fetched;
    }

    /** The inner tag loop of `load_buckets`: one attachment per tag of a namespace. */
    static method AttachNamespaceTags(session: Session, id: string, ns: TagNamespace)
      requires ns.name != ORACLE_TAGS
      modifies session
      ensures session.trace == old(session.trace) + NamespaceEvents(id, ns)
    {
      var j := 0;
      while j < |ns.tags|
        invariant 0 <= j <= |ns.tags|
        invariant session.trace == old(session.trace) + NamespaceEvents(id, ns)[..j]
      {
        session.Run(AttachTag(id, BUCKET_TYPE, ns.name, ns.tags[j].key, ns.tags[j].value));
        j := j + 1;
      }
      assert NamespaceEvents(id, ns)[..j] == NamespaceEvents(id, ns);
    }

    /** The tag loop of `load_buckets` for one bucket, skipping Oracle-Tags. */
    static method AttachBucketTags(session: Session, b: Bucket)
      modifies session
      ensures session.trace == old(session.trace) + TagEvents(b.id, b.definedTags)
    {
      var d := b.definedTags;
      var i := 0;
      while i < |d|
        invariant 0 <= i <= |d|
        invariant session.trace == old(session.trace) + TagEvents(b.id, d[..i])
      {
        ghost var before := session.trace;
        if d[i].name != ORACLE_TAGS {
          AttachNamespaceTags(session, b.id, d[i]);
        }
        assert session.trace == before + NamespaceEvents(b.id, d[i]);
        AppendAssoc(old(session.trace), TagEvents(b.id, d[..i]), NamespaceEvents(b.id, d[i]));
        TagEventsSnoc(b.id, d, i);
        i := i + 1;
      }
      assert d[..|d|] == d;
    }

    /** The tag loops of `load_buckets`, bucket by bucket. */
    static method LoadBucketTags(session: Session, bs: seq<Bucket>)
      modifies session
      ensures session.trace == old(session.trace) + BucketsTagEvents(bs)
    {
      var i := 0;
      while i < |bs|
        invariant 0 <= i <= |bs|
        invariant session.trace == old(session.trace) + BucketsTagEvents(bs[..i])
      {
        AttachBucketTags(session, bs[i]);
        AppendAssoc(old(session.trace), BucketsTagEvents(bs[..i]), TagEvents(bs[i].id, bs[i].definedTags));
        BucketsTagEventsSnoc(bs, i);
        i := i + 1;
      }
      assert bs[..|bs|] == bs;
    }

    /** The links of one statement, bucket by bucket over the buffer. */
    method LinkStatement(session: Session, pid: string, st: string)
      modifies session
      ensures session.trace == old(session.trace) + StatementLinks(pid, st, buckets)
    {
      var bs := buckets;
      var m := Search(BUCKET_NAME, st);
      if m.Some? {
        var g := m.value;
        var k := 0;
        while k < |bs|
          invariant 0 <= k <= |bs|
          invariant session.trace == old(session.trace) + NameLinks(pid, g, bs[..k])
        {
          if SameName(bs[k].name, g) {
            session.Run(Link(BucketPolicyReference, pid, bs[k].id));
          }
          assert bs[..k + 1][..k] == bs[..k];
          k := k + 1;
        }
        assert bs[..k] == bs;
      }
    }

    /** The statement loop for one policy. */
    method LinkPolicy(session: Session, p: Policy)
      modifies session
      ensures session.trace == old(session.trace) + StatementsLinks(p.ocid, p.statements, buckets)
    {
      var bs, sts := buckets, p.statements;
      var j := 0;
      while j < |sts|
        invariant 0 <= j <= |sts|
        invariant session.trace == old(session.trace) + StatementsLinks(p.ocid, sts[..j], bs)
      {
        LinkStatement(session, p.ocid, sts[j]);
        AppendAssoc(old(session.trace), StatementsLinks(p.ocid, sts[..j], bs), StatementLinks(p.ocid, sts[j], bs));
        StatementsLinksSnoc(p.ocid, sts, bs, j);
        j := j + 1;
      }
      assert sts[..j] == sts;
    }

    /** The policy loop of `sync_oci_policy_bucket_references`. */
    method LinkPolicies(session: Session, policies: seq<Policy>)
      modifies session
      ensures session.trace == old(session.trace) + PolicyLinks(policies, buckets)
    {
      var bs := buckets;
      var i := 0;
      while i < |policies|
        invariant 0 <= i <= |policies|
        invariant session.trace == old(session.trace) + PolicyLinks(policies[..i], bs)
      {
        LinkPolicy(session, policies[i]);
        AppendAssoc(old(session.trace), PolicyLinks(policies[..i], bs), StatementsLinks(policies[i].ocid, policies[i].statements, bs));
        PolicyLinksSnoc(policies, bs, i);
        i := i + 1;
      }
      assert policies[..i] == policies;
    }

    /** The region loop of `sync_oci_policy_bucket_references`; a missing code raises KeyError. */
    method LinkRegions(session: Session) returns (outcome: Outcome)
      modifies session
      ensures session.trace == old(session.trace) + RegionLinks(buckets, regions).links
      ensures outcome == (match RegionLinks(buckets, regions).missing
                          case None => Completed
                          case Some(code) => KeyError(code))
    {
      var k := 0;
      while k < |buckets|
        invariant 0 <= k <= |buckets|
        invariant RegionLinks(buckets[..k], regions).missing.None?
        invariant session.trace == old(session.trace) + RegionLinks(buckets[..k], regions).links
      {
        var b := buckets[k];
        assert buckets[..k + 1][..k] == buckets[..k];
        var m := Search(REGION_CODE, b.id);
        if m.Some? {
          var code := m.value;
          if code !in regions {
            RegionLinksSticky(buckets[..k + 1], buckets[k + 1..], regions);
            assert buckets[..k + 1] + buckets[k + 1..] == buckets;
            return KeyError(code);
          }
          session.Run(Link(LocatedIn, b.id, regions[code]));
        }
        k := k + 1;
      }
      assert buckets[..k] == buckets;
      return Completed;
    }

    /** `sync_oci_policy_bucket_references`: the policy loop, then the region loop. */
    method SyncPolicyBucketReferences(session: Session, policies: seq<Policy>) returns (outcome: Outcome)
      modifies session
      ensures session.trace == old(session.trace) + PolicyLinks(policies, buckets) + RegionLinks(buckets, regions).links
      ensures outcome == (match RegionLinks(buckets, regions).missing
                          case None => Completed
                          case Some(code) => KeyError(code))
    {
      LinkPolicies(session, policies);
      outcome := LinkRegions(session);
    }

    /**
     * `sync` with `load_buckets` reduced to its tag loop: the table is
     * replaced, the fetched buckets are appended, every buffered bucket gets
     * its tags attached, then both reference passes run over the whole buffer.
     */
    method Sync(session: Session, regionsSubscribed: map<string, string>, fetched: seq<Bucket>, policies: seq<Policy>)
      returns (outcome: Outcome)
      modifies this, session
      ensures regions == regionsSubscribed
      ensures buckets == old(buckets) + fetched
      ensures session.trace == old(session.trace) + BucketsTagEvents(buckets)
                               + PolicyLinks(policies, buckets) + RegionLinks(buckets, regions).links
      ensures outcome == (match RegionLinks(buckets, regions).missing
                          case None => Completed
                          case Some(code) => KeyError(code))
    {
      regions := regionsSubscribed;
      SyncBuckets(fetched);
      LoadBucketTags(session, buckets);
      outcome := SyncPolicyBucketReferences(session, policies);
    }

    /**
     * `sync` as written: `load_buckets` calls `utils.extract_namespace_tags`,
     * which the utils module does not define, so it raises AttributeError on
     * the first bucket and the reference passes are reached only with an
     * empty buffer. Either way nothing reaches the graph.
     */
    method SyncAsWritten(session: Session, regionsSubscribed: map<string, string>, fetched: seq<Bucket>, policies: seq<Policy>)
      returns (outcome: Outcome)
      modifies this, session
      ensures regions == regionsSubscribed
      ensures buckets == old(buckets) + fetched
      ensures session.trace == old(session.trace)
      ensures outcome == if buckets == [] then Completed else AttributeError("extract_namespace_tags")
    {
      regions := regionsSubscribed;
      SyncBuckets(fetched);
      if buckets != [] {
        return AttributeError("extract_namespace_tags");
      }
      PolicyLinksNoBuckets(policies);
      outcome := SyncPolicyBucketReferences(session, policies);
    }
  }

  // ---------------------------------------------------------------------------
  // Worked case

  /** A statement naming `reports` links its policy to bucket `Reports` and not to `Logs`. */
  lemma PolicyExample()
    ensures PolicyLinks([Policy("p1", ["target.bucket.name='reports'"])],
                        [Bucket("b1", "Reports", []), Bucket("b2", "Logs", [])])
         == [Link(BucketPolicyReference, "p1", "b1")]
  {
    var st := "target.bucket.name='reports'";
    var bs := [Bucket("b1", "Reports", []), Bucket("b2", "Logs", [])];
    assert Search(BUCKET_NAME, st) == Some("reports") by {
      assert st[0..20] == BUCKET_NAME.lit;
      RunEndIs(st, 20, NonApostrophe, 27);
      assert st[20..27] == "reports";
    }
    assert SameName("Reports", "reports") by {
      assert Lower("Reports") == "reports";
    }
    assert !SameName("Logs", "reports") by {
      assert |Lower("Logs")| == 4;
    }
    assert bs[..1][..0] == [];
    assert NameLinks("p1", "reports", bs[..1]) == [Link(BucketPolicyReference, "p1", "b1")];
    assert StatementLinks("p1", st, bs) == [Link(BucketPolicyReference, "p1", "b1")];
    assert [st][..0] == [];
    assert [Policy("p1", [st])][..0] == [];
  }
}
