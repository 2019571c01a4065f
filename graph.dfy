/**
 * The graph side of the connector, kept abstract: every statement the
 * connector sends to the graph database becomes one `Event` appended to the
 * trace of a `Session`. Query text, MERGE semantics and timestamps are not
 * modelled; only which node or relationship a statement is about, and when.
 */
module Graph {

  datatype Option<+T> = None | Some(value: T)

  /** The relationship types merged by the cross-reference passes. */
  datatype LinkKind =
    | BucketPolicyReference          // policy -> bucket   (OCI_BUCKET_POLICY_REFERENCE)
    | LocatedIn                      // bucket -> region key (LOCATED_IN)
    | MemberOfVcn                    // subnet -> VCN      (MEMBER_OF_VCN)
    | MemberOfNetworkSecurityGroup   // VCN -> security group (MEMBER_OF_NETWORK_SECURITY_GROUP)

  datatype Event =
    /** a node upsert keyed by the resource's identifier */
    | Upsert(nodeType: string, id: string)
    /** a relationship between two nodes, directed from `src` to `dst` */
    | Link(kind: LinkKind, src: string, dst: string)
    /** attach_tag_to_resource: merge a tag node and a TAGGED edge from the resource */
    | AttachTag(resource: string, resourceType: string, namespace: string, key: string, value: string)

  /** Concatenation is associative: a trace that grew by `b` and then by `c` grew by `b + c`. */
  lemma AppendAssoc<T>(a: seq<T>, b: seq<T>, c: seq<T>)
    ensures a + b + c == a + (b + c)
  {
  }

  /** The pieces laid end to end, in order. */
  function Concat<T>(pieces: seq<seq<T>>): seq<T> {
    if pieces == [] then [] else Concat(pieces[..|pieces| - 1]) + pieces[|pieces| - 1]
  }

  lemma {:induction false} ConcatInclude<T>(pieces: seq<seq<T>>, j: nat, e: T)
    requires j < |pieces| && e in pieces[j]
    ensures e in Concat(pieces)
    decreases |pieces|
  {
    var n := |pieces| - 1;
    if j < n {
      assert pieces[..n][j] == pieces[j];
      ConcatInclude(pieces[..n], j, e);
    }
  }

  lemma {:induction false} ConcatSource<T>(pieces: seq<seq<T>>, e: T)
    requires e in Concat(pieces)
    ensures exists j :: 0 <= j < |pieces| && e in pieces[j]
    decreases |pieces|
  {
    var n := |pieces| - 1;
    var prefix := pieces[..n];
    if e in Concat(prefix) {
      ConcatSource(prefix, e);
      var j :| 0 <= j < n && e in prefix[j];
      assert pieces[j] == prefix[j];
    }
  }

  /** An element of the concatenation is an element of one of the pieces, and conversely. */
  lemma ConcatMembers<T>(pieces: seq<seq<T>>, e: T)
    ensures e in Concat(pieces) <==> exists j :: 0 <= j < |pieces| && e in pieces[j]
  {
    if e in Concat(pieces) {
      ConcatSource(pieces, e);
    }
    if exists j :: 0 <= j < |pieces| && e in pieces[j] {
      var j :| 0 <= j < |pieces| && e in pieces[j];
      ConcatInclude(pieces, j, e);
    }
  }

  /** A database session; `Run` stands for one `neo4j_session.run` call. */
  class Session {
    var trace: seq<Event>

    constructor ()
      ensures trace == []
    {
      trace := [];
    }

    method Run(e: Event)
      modifies this
      ensures trace == old(trace) + [e]
    {
      trace := trace + [e];
    }
  }
}
