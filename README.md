# OCI connector core, modelled in Dafny

This project models the parts of cartography's Oracle Cloud connector that do
more than copy fields into Cypher parameters:

- **The key normaliser** (`replace_char_in_dict`, `oci_object_to_json`). The SDK
  names attributes with `_` where the REST API uses `-`, so every dictionary key
  is rewritten, recursively through dictionary values. Dictionaries are ordered
  association lists with Python's semantics: iteration follows insertion order,
  and assigning to a present key replaces its value in place.
- **Defined tags** (`extract_namespace_tags2`, the tag id built by
  `attach_tag_to_resource`, and the tag loop of `load_buckets`). `Oracle-Tags` is
  skipped, one `namespace:key:value` string or tag attachment is made per tag,
  and the tag node's id is `key:value`.
- **Object storage cross-references** (`sync_oci_policy_bucket_references`):
  - The two fixed regular expressions are written as scanners and proved equal to
    their declarative meaning, including the leftmost match.
  - Policy statements are matched to buffered buckets by case-insensitive name.
  - Bucket ids are resolved to region keys through the `REGIONS` table.
  - A missing region code raises `KeyError`.
- **The module-level buffers.**
  - `buckets` and `REGIONS` in objectStorage.py.
  - `SUBNET_VCN` and `SECURITY_GROUP_VCN` in network.py.
  - The loops that fill and drain them, and the order in which each `sync` runs
    its passes.

Every graph write the model covers becomes one `Event` appended to the trace of
a `Graph.Session`. Two `neo4j_session.run` calls have no event: the bucket upsert
of `load_buckets` (objectStorage.py:78-89) and the policy read of
`get_policies_in_tenancy` (utils.py:45-49, called at objectStorage.py:107), whose
result is a parameter instead. Each pass is a method over that session, proved to append
exactly the events of a specification function. The lemmas state what those
functions promise: membership in both directions, order, counts, and behaviour
when a buffer holds the same entries twice.

Files: `graph.dfy` (events, session, concatenation), `normalize.dfy`, `tags.dfy`,
`patterns.dfy`, `object_storage.dfy` and `network.dfy`, one module each.

As written, `load_buckets` raises `AttributeError` at objectStorage.py:73 before
the reference pass is reached (see Findings). `SyncAsWritten` follows the code.
`Sync` follows the evident intent, under which a statement naming `reports` links
its policy to bucket `Reports` (`PolicyExample`).

## Model

| member | source | states |
|---|---|---|
| Normalize.Hyphenate | cartography/intel/oci/utils.py:25 | `key.replace('_', '-')` keeps the key's length and leaves no `_`; a key without `_` is returned unchanged |
| Normalize.HyphenateAt | cartography/intel/oci/utils.py:25 | each `_` becomes `-` and every other character stays at its position |
| Normalize.Put | cartography/intel/oci/utils.py:25 | `out_dict[k] = v` keeps keys distinct: a present key gets the new value at its old position, a new key is appended last |
| Normalize.LookupPut | cartography/intel/oci/utils.py:25 | after `out_dict[k] = v`, looking up `k` gives `v` and every other key gives what it gave before |
| Normalize.PutKeys | cartography/intel/oci/utils.py:25 | after `out_dict[k] = v`, the keys are `k` plus the keys that were there |
| Normalize.NormValue | cartography/intel/oci/utils.py:23-24 | a value is a dictionary after normalising exactly when it was one before |
| Normalize.NormEntries | cartography/intel/oci/utils.py:20-26 | the normalised dictionary has distinct keys and never more entries than the input |
| Normalize.NormalizeDict | cartography/intel/oci/utils.py:20-26 | the loop, recursing into dictionary values, builds exactly the specified normalised dictionary |
| Normalize.ObjectToJson | cartography/intel/oci/utils.py:12-16 | the output list has the input's length, and element i is the normalisation of input element i |
| Normalize.NormKeys | cartography/intel/oci/utils.py:22-25 | an output key exists iff some input key turns into it once its `_` are replaced |
| Normalize.LastWriteWins | cartography/intel/oci/utils.py:22-25 | when input keys collide, the output key holds the (normalised) value of the last colliding input key |
| Normalize.NormPreservesOrder | cartography/intel/oci/utils.py:22-25 | without collisions the output has the input's length, and entry i is input entry i with its key hyphenated and its value normalised |
| Normalize.NormalizesFully | cartography/intel/oci/utils.py:23-25 | no key contains `_` after normalising, at any depth reached through dictionary values |
| Normalize.EntriesNormalizeFully | cartography/intel/oci/utils.py:20-26 | the same for a dictionary: distinct, `_`-free keys with fully normalised values |
| Normalize.NormalizedIsFixed | cartography/intel/oci/utils.py:20-26 | normalising an already normalised value returns it unchanged |
| Normalize.NormalizedEntriesAreFixed | cartography/intel/oci/utils.py:20-26 | normalising an already normalised dictionary returns it unchanged, entry for entry and in order |
| Normalize.Idempotent | cartography/intel/oci/utils.py:20-26 | normalising twice equals normalising once |
| Normalize.IdempotentDict | cartography/intel/oci/utils.py:12-16 | the same for each dictionary of the parsed list |
| Normalize.CollisionExamplePrefix | cartography/intel/oci/utils.py:22-25 | `{"_": 1, "x": 0}` becomes `{"-": 1, "x": 0}` |
| Normalize.CollisionExample | cartography/intel/oci/utils.py:22-25 | `{"_": 1, "x": 0, "-": 2}` becomes `{"-": 2, "x": 0}`: the later value, at the first key's position |
| Normalize.ListsAreOpaque | cartography/intel/oci/utils.py:23-25 | a list value is copied as it is, without normalising the dictionaries inside it |
| Tags.ExtractNamespaceTags | cartography/intel/oci/utils.py:95-102 | the nested loops return exactly the specified flattening of the defined tags |
| Tags.FlatTagsAppend | cartography/intel/oci/utils.py:97-101 | namespaces are flattened independently and in dict order |
| Tags.OracleTagsSkipped | cartography/intel/oci/utils.py:98-99 | an `Oracle-Tags` namespace contributes nothing, wherever it stands |
| Tags.FlatTagsCount | cartography/intel/oci/utils.py:95-102 | exactly one string per tag outside `Oracle-Tags` |
| Tags.NamespaceStringsMembers | cartography/intel/oci/utils.py:100-101 | a namespace yields exactly the `namespace:key:value` strings of its tags, and none for `Oracle-Tags` |
| Tags.FlatTagsMembers | cartography/intel/oci/utils.py:95-102 | a string is listed iff it renders a tag of some namespace other than `Oracle-Tags` |
| Tags.RenderDeterminesNamespace | cartography/intel/oci/utils.py:101 | the rendered string of a tag determines its namespace |
| Tags.NamespaceIgnoredByTagId | cartography/intel/oci/utils.py:60 | the same key and value under two namespaces render differently but share one tag id |
| Tags.TagIdInjective | cartography/intel/oci/utils.py:60 | for keys without `:`, the tag id `key:value` determines key and value |
| Tags.TagIdAmbiguous | cartography/intel/oci/utils.py:60 | a key containing `:` lets two different tags share one id |
| Patterns.BothPatternsWellFormed | cartography/intel/oci/objectStorage.py:110 | in both patterns the closing character is outside the captured class, so the capture is the maximal run |
| Patterns.RunEnd | cartography/intel/oci/objectStorage.py:110 | the run of class characters from a position is maximal: all characters in it are in the class, and the next one is not |
| Patterns.CaptureAtMatches | cartography/intel/oci/objectStorage.py:110 | at a start position the scanner captures `g` iff the regular expression matches there with group `g` |
| Patterns.NoCaptureMeansNoMatch | cartography/intel/oci/objectStorage.py:110 | the scanner finds nothing at a position iff the pattern matches there with no group |
| Patterns.SearchFromLeftmost | cartography/intel/oci/objectStorage.py:110 | scanning from a position returns the group of the first matching position at or after it |
| Patterns.SearchIsLeftmostMatch | cartography/intel/oci/objectStorage.py:110 | `re.search(...).group(1)` is `g` iff `g` is the group of the leftmost match |
| Patterns.SearchNone | cartography/intel/oci/objectStorage.py:111 | the search finds nothing iff no position matches |
| Patterns.SameNameCharwise | cartography/intel/oci/objectStorage.py:113 | two names are equal after lowercasing iff they have equal length and agree letter by letter up to case |
| Patterns.BucketNameExample | cartography/intel/oci/objectStorage.py:110 | `target.bucket.name='my-bucket'` yields `my-bucket` |
| Patterns.RegionCodeExample | cartography/intel/oci/objectStorage.py:117 | `.oc1.phx.aaaa` yields region code `phx` |
| Patterns.NoRegionCodeExample | cartography/intel/oci/objectStorage.py:117-118 | `.oc1..` has no region code (the run must be non-empty) |
| ObjectStorage.TagEventsAttachToBucket | cartography/intel/oci/objectStorage.py:94-99 | every attachment of a bucket's tag loop is a tag attached to that bucket as an `OCIBucket` |
| ObjectStorage.TagEventsMatchFlatTags | cartography/intel/oci/objectStorage.py:94-99 | the tag loop attaches exactly the tags `extract_namespace_tags2` lists, one per string and in the same order |
| ObjectStorage.NameLinksMembers | cartography/intel/oci/objectStorage.py:112-114 | a captured name links its policy to exactly the buffered buckets whose name equals it up to case |
| ObjectStorage.StatementLinkMembers | cartography/intel/oci/objectStorage.py:110-114 | a statement links to exactly the buffered buckets it names; a statement with no match links to nothing |
| ObjectStorage.StatementsLinksFlatten | cartography/intel/oci/objectStorage.py:109-114 | a policy's links are exactly the links of its statements |
| ObjectStorage.PolicyLinksFlatten | cartography/intel/oci/objectStorage.py:108-114 | the pass's links are exactly the links of its policies |
| ObjectStorage.PolicyLinksOfOne | cartography/intel/oci/objectStorage.py:109-114 | one policy links to exactly the buffered buckets some statement of it names |
| ObjectStorage.PolicyLinksMembers | cartography/intel/oci/objectStorage.py:108-114 | the pass emits a policy -> bucket link iff some statement of that policy names that bucket, and nothing else |
| ObjectStorage.PolicyLinksAppend | cartography/intel/oci/objectStorage.py:108-114 | policies are matched independently, their links emitted in policy order |
| ObjectStorage.NameLinksAppend | cartography/intel/oci/objectStorage.py:112-114 | links follow the buffer order: a buffer `a + b` gives the links of `a`, then those of `b` |
| ObjectStorage.StatementsLinksDoubled | cartography/intel/oci/objectStorage.py:112-114 | a buffer holding every bucket twice makes a policy emit each of its links twice |
| ObjectStorage.PolicyLinksDoubled | cartography/intel/oci/objectStorage.py:108-114 | the same for the whole pass |
| ObjectStorage.StatementsLinksNoBuckets | cartography/intel/oci/objectStorage.py:112 | with an empty buffer a policy emits no link |
| ObjectStorage.PolicyLinksNoBuckets | cartography/intel/oci/objectStorage.py:108-114 | with an empty buffer the pass emits no link, whatever the statements say |
| ObjectStorage.RegionLinksSticky | cartography/intel/oci/objectStorage.py:120 | after a failed lookup later buckets change nothing: the exception ends the loop |
| ObjectStorage.RegionLinksCompletes | cartography/intel/oci/objectStorage.py:116-121 | the region loop raises iff some buffered bucket's region code is missing from the table |
| ObjectStorage.RegionLinksReportsFirst | cartography/intel/oci/objectStorage.py:116-120 | the `KeyError` names the code of the first bucket whose code is missing |
| ObjectStorage.RegionLinksMembers | cartography/intel/oci/objectStorage.py:116-121 | when the loop completes, a region link is emitted iff some buffered bucket's id carries a code, and it links that bucket to its region; ids without a code are skipped |
| ObjectStorage.RegionLinksAppend | cartography/intel/oci/objectStorage.py:116-121 | region links follow the buffer order: after a prefix with no failed lookup, the rest adds its own links behind the prefix's and decides the outcome |
| ObjectStorage.RegionLinksDoubled | cartography/intel/oci/objectStorage.py:116-121 | a buffer holding the same buckets twice emits every region link twice, the second copy after the first |
| ObjectStorage.RegionLinksCount | cartography/intel/oci/objectStorage.py:116-121 | when the loop completes, it emits exactly one link per buffered bucket whose id carries a code |
| ObjectStorage.ObjectStorageState.constructor | cartography/intel/oci/objectStorage.py:13-19 | `buckets` and `REGIONS` start empty |
| ObjectStorage.ObjectStorageState.SyncBuckets | cartography/intel/oci/objectStorage.py:34-36 | the buffer grows by the fetched buckets in listing order, earlier entries untouched, and the table is unchanged |
| ObjectStorage.ObjectStorageState.AttachNamespaceTags | cartography/intel/oci/objectStorage.py:97-99 | one tag attachment per key/value pair of the namespace |
| ObjectStorage.ObjectStorageState.AttachBucketTags | cartography/intel/oci/objectStorage.py:94-99 | the loop appends exactly the attachments specified for the bucket's defined tags, `Oracle-Tags` skipped |
| ObjectStorage.ObjectStorageState.LoadBucketTags | cartography/intel/oci/objectStorage.py:72-99 | the per-bucket tag loops append the attachments bucket by bucket |
| ObjectStorage.ObjectStorageState.LinkStatement | cartography/intel/oci/objectStorage.py:110-114 | one statement appends exactly its specified links over the buffer |
| ObjectStorage.ObjectStorageState.LinkPolicy | cartography/intel/oci/objectStorage.py:109-114 | the statement loop appends the links of each statement in turn |
| ObjectStorage.ObjectStorageState.LinkPolicies | cartography/intel/oci/objectStorage.py:108-114 | the policy loop appends exactly the specified policy -> bucket links |
| ObjectStorage.ObjectStorageState.LinkRegions | cartography/intel/oci/objectStorage.py:116-121 | the region loop appends the specified region links and ends with `KeyError(code)` exactly when a code is missing |
| ObjectStorage.ObjectStorageState.SyncPolicyBucketReferences | cartography/intel/oci/objectStorage.py:101-121 | all policy links, then the region links; the outcome reports a missing region code |
| ObjectStorage.ObjectStorageState.Sync | cartography/intel/oci/objectStorage.py:170-183 | the table is replaced, the fetched buckets appended, every buffered bucket's tags attached, then both reference passes run over the whole buffer |
| ObjectStorage.ObjectStorageState.SyncAsWritten | cartography/intel/oci/objectStorage.py:72-73 | as written: a non-empty buffer raises `AttributeError` in `load_buckets`, and no sync sends anything to the graph |
| ObjectStorage.PolicyExample | cartography/intel/oci/objectStorage.py:108-114 | a statement naming `reports` links its policy to bucket `Reports` and not to `Logs` |
| Network.SubnetLinksMembers | cartography/intel/oci/network.py:327-328 | a `MEMBER_OF_VCN` link is emitted for exactly the buffered tuples, directed subnet -> VCN |
| Network.SecurityGroupLinksMembers | cartography/intel/oci/network.py:358-359 | a `MEMBER_OF_NETWORK_SECURITY_GROUP` link is emitted for exactly the buffered tuples, directed VCN -> group |
| Network.PairsMembers | cartography/intel/oci/network.py:30-31 | the buffer receives a tuple `(id, vcn-id)` iff a listed resource has that id and VCN |
| Network.LinksAppend | cartography/intel/oci/network.py:327-328 | draining a buffer that grew by appending emits the old links, then the new ones |
| Network.UpsertsPrecedeLinks | cartography/intel/oci/network.py:393-399 | within one `sync`, every upsert of the five per-type syncs comes before every reference link |
| Network.SecondSyncRepeatsLinks | cartography/intel/oci/network.py:16-17 | the buffers are never cleared: a second `sync` with the same listings emits every link of the first twice |
| Network.LoadNodes | cartography/intel/oci/network.py:78-79 | a `load_*` loop upserts one node per listed resource, in listing order (also lines 148-149, 205-206, 255-256, 308-309) |
| Network.NetworkState.constructor | cartography/intel/oci/network.py:16-17 | both buffers start empty |
| Network.NetworkState.SyncSubnets | cartography/intel/oci/network.py:30-33 | `SUBNET_VCN` grows by one tuple per listed subnet in listing order, earlier entries untouched; then the subnets are upserted |
| Network.NetworkState.SyncNetworkSecurityGroups | cartography/intel/oci/network.py:278-281 | `SECURITY_GROUP_VCN` grows by one tuple per listed group in listing order; then the groups are upserted |
| Network.NetworkState.SyncNetworkReferences | cartography/intel/oci/network.py:327-328 | one subnet -> VCN link per buffered tuple, in buffer order, buffer unchanged |
| Network.NetworkState.SyncNetworkSecurityGroupReferences | cartography/intel/oci/network.py:358-359 | one VCN -> group link per buffered tuple, in buffer order |
| Network.NetworkState.Sync | cartography/intel/oci/network.py:393-399 | the five syncs, then both reference passes over the whole buffers; the buffers keep their old tuples and gain the new ones |

## Left out

- Neo4j and Cypher. Each modelled graph write is an abstract event. Query text, `timestamp()`, update tags and MERGE semantics are not modelled. In particular, two equal link events stand for one edge merged twice.
- The OCI SDK. Pagination, `get_namespace`, `get_bucket` and the `get_*_list_data` functions are network calls. Their results are parameters: the fetched buckets and the `Listings` of network.py.
- `json.loads(str(in_obj))` (cartography/intel/oci/utils.py:14) depends on the SDK objects' string form. `ObjectToJson` starts from the parsed list.
- JSON floats. Parsed values are null, booleans, integers, strings, lists and dictionaries.
- The graph read helpers `get_*_in_tenancy` are database queries. The policies and the region table are parameters.
- compute.py, database.py, loadBalancer.py, gateway.py and block.py are not part of this model. They only copy fields into query parameters.
- The bucket upsert of `load_buckets` (objectStorage.py:78-89) is not modelled. Its `Oracle-Tags`/`CreatedBy` lookup at line 86 would raise `KeyError` for buckets without that tag; the model does not capture that either.
- ObjectStorage.ObjectStorageState.Sync: bucket records reach `load_buckets` through the normaliser (objectStorage.py:38), which also hyphenates namespace names and tag keys. The model takes the defined tags as already in that form.
- Tags.Render: `str()` of a tag value (utils.py:101) is not modelled. Tag keys and values are strings.
- Patterns.Lower: `str.lower()` is modelled on ASCII letters only, with no Unicode case mapping.
- Patterns.Search: Python's regular-expression engine is not modelled. Only the two fixed patterns are, as scanners.
- `REGIONS` is annotated `List` (objectStorage.py:177) but indexed by region name (line 120), so it is modelled as a map from region code to region key.
- Logging, the commented-out code in utils.py, `run_cleanup_job`, and the unused parameters of the reference passes.
- Concurrency. The module-level buffers are shared process-wide; interleaved syncs are not modelled.

## Findings

| source | as written | input that shows it | evidently intended | confidence | as-written member | corrected member |
|---|---|---|---|---|---|---|
| cartography/intel/oci/objectStorage.py:73 | `load_buckets` calls `utils.extract_namespace_tags`, which utils.py defines only inside comments (utils.py:87-93, 104-111) | any `sync` whose bucket buffer is non-empty, e.g. one fetched bucket `Reports` and a policy statement `target.bucket.name='reports'`: `AttributeError` is raised, no tag is attached and no policy or region link is emitted | the tags of every buffered bucket are attached, then both reference passes run (and the policy links to `Reports`, as in `ObjectStorage.PolicyExample`) | high; not executed | ObjectStorage.ObjectStorageState.SyncAsWritten | ObjectStorage.ObjectStorageState.Sync |
