/**
 * Defined tags in cartography/intel/oci/utils.py: flattening a resource's
 * `defined-tags` (namespace -> key -> value) into `namespace:key:value`
 * strings, and the identity of the tag node a tag is attached to.
 */
module Tags {

  import opened Graph

  datatype Tag = Tag(key: string, value: string)

  /** One namespace of a resource's defined tags, its tags in dict order. */
  datatype TagNamespace = TagNamespace(name: string, tags: seq<Tag>)

  /** Oracle's own namespace (CreatedBy, CreatedOn), which every tag pass skips. */
  const ORACLE_TAGS: string := "Oracle-Tags"

  /** `str(namespace) + ":" + str(key) + ":" + str(value)` */
  function Render(ns: string, t: Tag): string {
    ns + ":" + t.key + ":" + t.value
  }

  /** The strings one namespace contributes: none for Oracle-Tags, one per tag otherwise. */
  function NamespaceStrings(n: TagNamespace): seq<string> {
    if n.name == ORACLE_TAGS then []
    else seq(|n.tags|, i requires 0 <= i < |n.tags| => Render(n.name, n.tags[i]))
  }

  /** What `extract_namespace_tags2` returns, namespace by namespace in dict order. */
  function FlatTags(d: seq<TagNamespace>): seq<string> {
    if d == [] then [] else FlatTags(d[..|d| - 1]) + NamespaceStrings(d[|d| - 1])
  }

  /** Number of tags outside Oracle-Tags. */
  function TagCount(d: seq<TagNamespace>): nat {
    if d == [] then 0
    else TagCount(d[..|d| - 1]) + (if d[|d| - 1].name == ORACLE_TAGS then 0 else |d[|d| - 1].tags|)
  }

  /** `extract_namespace_tags2`: the nested loops that fill `results`. */
  method ExtractNamespaceTags(d: seq<TagNamespace>) returns (results: seq<string>)
    ensures results == FlatTags(d)
  {
    results := [];
    var i := 0;
    while i < |d|
      invariant 0 <= i <= |d|
      invariant results == FlatTags(d[..i])
    {
      var ns := d[i];
      if ns.name != ORACLE_TAGS {
        var j := 0;
        while j < |ns.tags|
          invariant 0 <= j <= |ns.tags|
          invariant results == FlatTags(d[..i]) + NamespaceStrings(ns)[..j]
        {
          results := results + [Render(ns.name, ns.tags[j])];
          j := j + 1;
        }
        assert NamespaceStrings(ns)[..j] == NamespaceStrings(ns);
      }
      assert d[..i + 1][..i] == d[..i];
      i := i + 1;
    }
    assert d[..|d|] == d;
  }

  // ---------------------------------------------------------------------------
  // Properties of the flattening

  lemma {:induction false} FlatTagsAppend(a: seq<TagNamespace>, b: seq<TagNamespace>)
    ensures FlatTags(a + b) == FlatTags(a) + FlatTags(b)
    decreases |b|
  {
    if b == [] {
      assert a + b == a;
    } else {
      var n := |b| - 1;
      calc {
        FlatTags(a + b);
      == { assert (a + b)[..|a + b| - 1] == a + b[..n];
           assert (a + b)[|a + b| - 1] == b[n]; }
        FlatTags(a + b[..n]) + NamespaceStrings(b[n]);
      == { FlatTagsAppend(a, b[..n]); }
        FlatTags(a) + FlatTags(b[..n]) + NamespaceStrings(b[n]);
      == { AppendAssoc(FlatTags(a), FlatTags(b[..n]), NamespaceStrings(b[n])); }
        FlatTags(a) + (FlatTags(b[..n]) + NamespaceStrings(b[n]));
      }
    }
  }

  /** A namespace called Oracle-Tags contributes nothing, wherever it stands. */
  lemma OracleTagsSkipped(a: seq<TagNamespace>, tags: seq<Tag>, b: seq<TagNamespace>)
    ensures FlatTags(a + [TagNamespace(ORACLE_TAGS, tags)] + b) == FlatTags(a + b)
  {
    var oracle := [TagNamespace(ORACLE_TAGS, tags)];
    assert oracle[..0] == [];
    assert FlatTags(oracle) == [];
    FlatTagsAppend(a + oracle, b);
    FlatTagsAppend(a, oracle);
    FlatTagsAppend(a, b);
  }

  /** Exactly one string per tag outside Oracle-Tags. */
  lemma {:induction false} FlatTagsCount(d: seq<TagNamespace>)
    ensures |FlatTags(d)| == TagCount(d)
    decreases |d|
  {
    if d != [] {
      FlatTagsCount(d[..|d| - 1]);
    }
  }

  /** `s` renders one of the tags of namespace `n`, and `n` is not Oracle-Tags. */
  predicate TagOf(n: TagNamespace, s: string) {
    n.name != ORACLE_TAGS && exists j :: 0 <= j < |n.tags| && s == Render(n.name, n.tags[j])
  }

  lemma NamespaceStringsMembers(n: TagNamespace, s: string)
    ensures s in NamespaceStrings(n) <==> TagOf(n, s)
  {
    if s in NamespaceStrings(n) {
      var j :| 0 <= j < |NamespaceStrings(n)| && NamespaceStrings(n)[j] == s;
      assert s == Render(n.name, n.tags[j]);
    }
    if TagOf(n, s) {
      var j :| 0 <= j < |n.tags| && s == Render(n.name, n.tags[j]);
      assert NamespaceStrings(n)[j] == s;
    }
  }

  /** A string is listed iff it renders a tag of a namespace other than Oracle-Tags. */
  lemma {:induction false} FlatTagsMembers(d: seq<TagNamespace>, s: string)
    ensures s in FlatTags(d) <==> exists i :: 0 <= i < |d| && TagOf(d[i], s)
    decreases |d|
  {
    if d != [] {
      var n := |d| - 1;
      var prefix := d[..n];
      FlatTagsMembers(prefix, s);
      NamespaceStringsMembers(d[n], s);
      assert FlatTags(d) == FlatTags(prefix) + NamespaceStrings(d[n]);
      if s in FlatTags(d) {
        if s in FlatTags(prefix) {
          var i :| 0 <= i < |prefix| && TagOf(prefix[i], s);
          assert d[i] == prefix[i];
          assert TagOf(d[i], s);
        } else {
          assert TagOf(d[n], s);
        }
      } else {
        forall i | 0 <= i < |d|
          ensures !TagOf(d[i], s)
        {
          if i < n {
            assert d[i] == prefix[i];
          }
        }
      }
    }
  }

  // ---------------------------------------------------------------------------
  // Tag identity

  /** The identity of a tag node: `tag_key + ":" + tag_value`, without the namespace. */
  function TagId(key: string, value: string): string {
    key + ":" + value
  }

  /** The tag node an attachment event merges. */
  function TagNode(e: Event): string
    requires e.AttachTag?
  {
    TagId(e.key, e.value)
  }

  lemma RenderDeterminesNamespace(ns1: string, ns2: string, t: Tag)
    ensures Render(ns1, t) == Render(ns2, t) ==> ns1 == ns2
  {
    var suffix := ":" + t.key + ":" + t.value;
    var r1, r2 := Render(ns1, t), Render(ns2, t);
    assert r1 == ns1 + suffix && r2 == ns2 + suffix;
    assert r1[..|ns1|] == ns1 && r2[..|ns2|] == ns2;
  }

  /**
   * The same key and value under two namespaces are two different tags (their
   * rendered strings differ) that share one tag node.
   */
  lemma NamespaceIgnoredByTagId(ns1: string, ns2: string, t: Tag, resource: string, resourceType: string)
    requires ns1 != ns2
    ensures Render(ns1, t) != Render(ns2, t)
    ensures TagNode(AttachTag(resource, resourceType, ns1, t.key, t.value))
         == TagNode(AttachTag(resource, resourceType, ns2, t.key, t.value))
  {
    RenderDeterminesNamespace(ns1, ns2, t);
  }

  /** The position of the first `:` in `s`, or `|s|` when there is none. */
  function FirstColon(s: string): (r: nat)
    ensures r <= |s|
  {
    if s == [] || s[0] == ':' then 0 else 1 + FirstColon(s[1..])
  }

  lemma {:induction false} FirstColonOfTagId(key: string, value: string)
    requires ':' !in key
    ensures FirstColon(TagId(key, value)) == |key|
    decreases |key|
  {
    if key != [] {
      assert TagId(key, value)[1..] == TagId(key[1..], value);
      FirstColonOfTagId(key[1..], value);
    }
  }

  /** For keys without `:`, the tag id determines the key and the value. */
  lemma TagIdInjective(k1: string, v1: string, k2: string, v2: string)
    requires ':' !in k1 && ':' !in k2
    requires TagId(k1, v1) == TagId(k2, v2)
    ensures k1 == k2 && v1 == v2
  {
    var s := TagId(k1, v1);
    FirstColonOfTagId(k1, v1);
    FirstColonOfTagId(k2, v2);
    assert |k1| == |k2|;
    assert k1 == s[..|k1|] && k2 == s[..|k2|];
    assert v1 == s[|k1| + 1..] && v2 == s[|k2| + 1..];
  }

  /** A key containing `:` can make two different tags share one id. */
  lemma TagIdAmbiguous()
    ensures TagId("a:b", "c") == TagId("a", "b:c")
  {
  }
}
