/**
 * The key normaliser of cartography/intel/oci/utils.py: the SDK names
 * attributes with `_` where the REST API uses `-`, so every key of a parsed
 * object is rewritten, at every level reached through dictionary values.
 *
 * A dictionary is an ordered association list with Python's dict semantics:
 * iteration follows insertion order, and assigning to a key that is already
 * present replaces its value in place (the entry keeps its position).
 */
module Normalize {

  import opened Graph

  /** A parsed JSON value. */
  datatype Value =
    | Null
    | Bool(b: bool)
    | Int(i: int)
    | Str(s: string)
    | List(items: seq<Value>)
    | Dict(entries: seq<Entry>)

  datatype Entry = Entry(key: string, val: Value)

  /** A Python dict never holds a key twice. */
  predicate DistinctKeys(d: seq<Entry>) {
    forall i, j :: 0 <= i < j < |d| ==> d[i].key != d[j].key
  }

  predicate HasKey(d: seq<Entry>, k: string) {
    exists i :: 0 <= i < |d| && d[i].key == k
  }

  /** The position of key `k` in `d`, if any. */
  function IndexOf(d: seq<Entry>, k: string): (r: Option<nat>)
    ensures r.Some? ==> r.value < |d| && d[r.value].key == k
    ensures r.None? <==> !HasKey(d, k)
  {
    if d == [] then None
    else if d[0].key == k then Some(0)
    else match IndexOf(d[1..], k)
      case Some(i) => Some(i + 1)
      case None => None
  }

  /** `d.get(k)` */
  function Lookup(d: seq<Entry>, k: string): Option<Value> {
    match IndexOf(d, k)
    case Some(i) => Some(d[i].val)
    case None => None
  }

  /** `key.replace('_', '-')` */
  function Hyphenate(k: string): (r: string)
    ensures |r| == |k|
    ensures '_' !in r
    ensures '_' !in k ==> r == k
  {
    if k == [] then []
    else [if k[0] == '_' then '-' else k[0]] + Hyphenate(k[1..])
  }

  /** Each `_` becomes `-`; every other character is kept in place. */
  lemma {:induction false} HyphenateAt(k: string, i: nat)
    requires i < |k|
    ensures Hyphenate(k)[i] == if k[i] == '_' then '-' else k[i]
  {
    if i > 0 {
      HyphenateAt(k[1..], i - 1);
    }
  }

  /** `d[k] = v`: replace in place when `k` is present, append otherwise. */
  function Put(d: seq<Entry>, k: string, v: Value): (r: seq<Entry>)
    requires DistinctKeys(d)
    ensures DistinctKeys(r)
    ensures HasKey(d, k) ==>
      |r| == |d| && forall i :: 0 <= i < |d| ==> r[i] == (if d[i].key == k then Entry(k, v) else d[i])
    ensures !HasKey(d, k) ==> r == d + [Entry(k, v)]
  {
    match IndexOf(d, k)
    case Some(i) => d[i := Entry(k, v)]
    case None => d + [Entry(k, v)]
  }

  /**
   * The shape `replace_char_in_dict` produces: dictionary keys free of `_`,
   * at every level reached through dictionary values. Lists are opaque.
   */
  predicate Normalized(v: Value) {
    match v
    case Dict(es) =>
      && DistinctKeys(es)
      && forall i :: 0 <= i < |es| ==> '_' !in es[i].key && Normalized(es[i].val)
    case _ => true
  }

  /** The value stored for a dictionary key: dictionaries are normalised recursively, everything else is kept. */
  function NormValue(v: Value): (r: Value)
    ensures r.Dict? <==> v.Dict?
    decreases v
  {
    match v
    case Dict(es) => Dict(NormEntries(es))
    case _ => v
  }

  /** `replace_char_in_dict(in_dict)` as a left fold of `Put` over the items in order. */
  function NormEntries(es: seq<Entry>): (r: seq<Entry>)
    ensures DistinctKeys(r)
    ensures |r| <= |es|
    decreases es
  {
    if es == [] then []
    else
      var last := es[|es| - 1];
      Put(NormEntries(es[..|es| - 1]), Hyphenate(last.key), NormValue(last.val))
  }

  /** `replace_char_in_dict`: the loop that fills `out_dict`, recursing into dictionary values. */
  method NormalizeDict(d: seq<Entry>) returns (out: seq<Entry>)
    ensures out == NormEntries(d)
    decreases d
  {
    out := [];
    var i := 0;
    while i < |d|
      invariant 0 <= i <= |d|
      invariant out == NormEntries(d[..i])
    {
      var val := d[i].val;
      if val.Dict? {
        var inner := NormalizeDict(val.entries);
        val := Dict(inner);
      }
      NormStep(d, i, out, val);
      out := Put(out, Hyphenate(d[i].key), val);
      i := i + 1;
    }
    assert d[..|d|] == d;
  }

  lemma NormStep(d: seq<Entry>, i: nat, out: seq<Entry>, val: Value)
    requires i < |d| && out == NormEntries(d[..i])
    requires d[i].val.Dict? ==> val == Dict(NormEntries(d[i].val.entries))
    requires !d[i].val.Dict? ==> val == d[i].val
    ensures DistinctKeys(out)
    ensures Put(out, Hyphenate(d[i].key), val) == NormEntries(d[..i + 1])
  {
    NormEntriesSnoc(d, i);
  }

  lemma NormEntriesSnoc(d: seq<Entry>, i: nat)
    requires i < |d|
    ensures NormEntries(d[..i + 1]) == Put(NormEntries(d[..i]), Hyphenate(d[i].key), NormValue(d[i].val))
  {
    assert d[..i + 1][..i] == d[..i];
  }

  /** `oci_object_to_json`, starting from the already-parsed list of dictionaries. */
  method ObjectToJson(parsed: seq<seq<Entry>>) returns (out: seq<seq<Entry>>)
    ensures |out| == |parsed|
    ensures forall i :: 0 <= i < |parsed| ==> out[i] == NormEntries(parsed[i])
  {
    out := [];
    var i := 0;
    while i < |parsed|
      invariant 0 <= i <= |parsed|
      invariant |out| == i
      invariant forall j :: 0 <= j < i ==> out[j] == NormEntries(parsed[j])
    {
      var d := NormalizeDict(parsed[i]);
      out := out + [d];
      i := i + 1;
    }
  }

  // ---------------------------------------------------------------------------
  // Properties of the specification

  /** In a dict, a key present at position `i` is found there. */
  lemma IndexOfUnique(d: seq<Entry>, k: string, i: nat)
    requires DistinctKeys(d) && i < |d| && d[i].key == k
    ensures IndexOf(d, k) == Some(i)
  {
  }

  lemma LookupPut(d: seq<Entry>, k: string, v: Value, k': string)
    requires DistinctKeys(d)
    ensures Lookup(Put(d, k, v), k') == if k' == k then Some(v) else Lookup(d, k')
  {
    var r := Put(d, k, v);
    if k' == k {
      var i := if HasKey(d, k) then IndexOf(d, k).value else |d|;
      assert r[i] == Entry(k, v);
      IndexOfUnique(r, k, i);
    } else {
      match IndexOf(d, k')
      case Some(i) =>
        assert r[i] == d[i];
        IndexOfUnique(r, k', i);
      case None =>
    }
  }

  /** Some input key turns into `k` once its `_` are replaced. */
  predicate Produces(es: seq<Entry>, k: string) {
    exists i :: 0 <= i < |es| && Hyphenate(es[i].key) == k
  }

  lemma ProducesSnoc(es: seq<Entry>, k: string)
    requires es != []
    ensures Produces(es, k) <==> Produces(es[..|es| - 1], k) || Hyphenate(es[|es| - 1].key) == k
  {
    var n := |es| - 1;
    if Produces(es, k) && Hyphenate(es[n].key) != k {
      var i :| 0 <= i < |es| && Hyphenate(es[i].key) == k;
      assert es[..n][i] == es[i];
    }
    if Produces(es[..n], k) {
      var i :| 0 <= i < n && Hyphenate(es[..n][i].key) == k;
      assert es[i] == es[..n][i];
    }
  }

  lemma PutKeys(d: seq<Entry>, k: string, v: Value, k': string)
    requires DistinctKeys(d)
    ensures HasKey(Put(d, k, v), k') <==> k' == k || HasKey(d, k')
  {
    var r := Put(d, k, v);
    if HasKey(d, k) {
      var p :| 0 <= p < |d| && d[p].key == k;
      assert r[p].key == k;
      if HasKey(d, k') {
        var q :| 0 <= q < |d| && d[q].key == k';
        assert r[q].key == k';
      }
      if HasKey(r, k') && k' != k {
        var q :| 0 <= q < |r| && r[q].key == k';
        assert d[q].key == k';
      }
    } else {
      assert r[|d|].key == k;
      if HasKey(d, k') {
        var q :| 0 <= q < |d| && d[q].key == k';
        assert r[q].key == k';
      }
      if HasKey(r, k') && k' != k {
        var q :| 0 <= q < |r| && r[q].key == k';
        assert d[q].key == k';
      }
    }
  }

  /** Every output key is some input key with its `_` replaced by `-`, and every input key shows up that way. */
  lemma {:induction false} NormKeys(es: seq<Entry>, k: string)
    ensures HasKey(NormEntries(es), k) <==> Produces(es, k)
    decreases es
  {
    if es != [] {
      var n := |es| - 1;
      NormKeys(es[..n], k);
      ProducesSnoc(es, k);
      PutKeys(NormEntries(es[..n]), Hyphenate(es[n].key), NormValue(es[n].val), k);
    }
  }

  /**
   * Colliding keys: the value kept for an output key is that of the LAST
   * input key that maps to it in iteration order.
   */
  lemma {:induction false} LastWriteWins(es: seq<Entry>, j: nat)
    requires j < |es|
    requires forall l :: j < l < |es| ==> Hyphenate(es[l].key) != Hyphenate(es[j].key)
    ensures Lookup(NormEntries(es), Hyphenate(es[j].key)) == Some(NormValue(es[j].val))
    decreases es
  {
    var n := |es| - 1;
    var prefix := es[..n];
    var kj, kn := Hyphenate(es[j].key), Hyphenate(es[n].key);
    assert Lookup(NormEntries(es), kj) == if kj == kn then Some(NormValue(es[n].val)) else Lookup(NormEntries(prefix), kj) by {
      assert NormEntries(es) == Put(NormEntries(prefix), kn, NormValue(es[n].val));
      LookupPut(NormEntries(prefix), kn, NormValue(es[n].val), kj);
    }
    if j < n {
      assert prefix[j] == es[j];
      assert forall l :: j < l < |prefix| ==> Hyphenate(prefix[l].key) != Hyphenate(prefix[j].key) by {
        forall l | j < l < |prefix|
          ensures Hyphenate(prefix[l].key) != Hyphenate(prefix[j].key)
        {
          assert prefix[l] == es[l];
        }
      }
      LastWriteWins(prefix, j);
    }
  }

  /** No two input keys turn into the same output key. */
  predicate NoCollisions(es: seq<Entry>) {
    forall i, j :: 0 <= i < j < |es| ==> Hyphenate(es[i].key) != Hyphenate(es[j].key)
  }

  lemma NoCollisionsPrefix(es: seq<Entry>, n: nat)
    requires NoCollisions(es) && n <= |es|
    ensures NoCollisions(es[..n])
  {
    forall i, j | 0 <= i < j < n
      ensures Hyphenate(es[..n][i].key) != Hyphenate(es[..n][j].key)
    {
      assert es[..n][i] == es[i] && es[..n][j] == es[j];
    }
  }

  /** When no two input keys collide, the output keeps the length and the order of the input. */
  lemma {:induction false} NormPreservesOrder(es: seq<Entry>)
    requires NoCollisions(es)
    ensures |NormEntries(es)| == |es|
    ensures forall i :: 0 <= i < |es| ==> NormEntries(es)[i] == Entry(Hyphenate(es[i].key), NormValue(es[i].val))
    decreases es
  {
    if es != [] {
      var n := |es| - 1;
      var prefix := es[..n];
      NoCollisionsPrefix(es, n);
      NormPreservesOrder(prefix);
      var prev := NormEntries(prefix);
      var kn := Hyphenate(es[n].key);
      assert !HasKey(prev, kn) by {
        forall p | 0 <= p < |prev|
          ensures prev[p].key != kn
        {
          assert prev[p].key == Hyphenate(es[p].key) by { assert prefix[p] == es[p]; }
        }
      }
      var r := NormEntries(es);
      assert r == prev + [Entry(kn, NormValue(es[n].val))];
      forall i | 0 <= i < n
        ensures r[i] == Entry(Hyphenate(es[i].key), NormValue(es[i].val))
      {
        assert r[i] == prev[i];
        assert prefix[i] == es[i];
      }
    }
  }

  /** No key of the result contains `_`, at any level reached through dictionary values. */
  lemma {:induction false} NormalizesFully(v: Value)
    ensures Normalized(NormValue(v))
    decreases v
  {
    match v
    case Dict(es) => EntriesNormalizeFully(es);
    case _ =>
  }

  lemma {:induction false} EntriesNormalizeFully(es: seq<Entry>)
    ensures Normalized(Dict(NormEntries(es)))
    decreases es
  {
    if es != [] {
      var n := |es| - 1;
      var prev := NormEntries(es[..n]);
      EntriesNormalizeFully(es[..n]);
      NormalizesFully(es[n].val);
      var r := Put(prev, Hyphenate(es[n].key), NormValue(es[n].val));
      assert NormEntries(es) == r;
      forall i | 0 <= i < |r|
        ensures '_' !in r[i].key && Normalized(r[i].val)
      {
        if i < |prev| && r[i] == prev[i] {
          assert '_' !in prev[i].key && Normalized(prev[i].val);
        }
      }
    }
  }

  /** Normalising leaves an already normalised value as it is. */
  lemma {:induction false} NormalizedIsFixed(v: Value)
    requires Normalized(v)
    ensures NormValue(v) == v
    decreases v
  {
    match v
    case Dict(es) => NormalizedEntriesAreFixed(es);
    case _ =>
  }

  lemma {:induction false} NormalizedEntriesAreFixed(es: seq<Entry>)
    requires Normalized(Dict(es))
    ensures NormEntries(es) == es
    decreases es
  {
    if es != [] {
      var n := |es| - 1;
      var prefix := es[..n];
      assert Normalized(Dict(prefix)) by {
        assert forall i :: 0 <= i < |prefix| ==> prefix[i] == es[i];
      }
      NormalizedEntriesAreFixed(prefix);
      assert NormValue(es[n].val) == es[n].val by {
        assert Normalized(es[n].val);
        NormalizedIsFixed(es[n].val);
      }
      assert !HasKey(prefix, es[n].key) by {
        assert forall i :: 0 <= i < |prefix| ==> prefix[i] == es[i];
      }
      assert Hyphenate(es[n].key) == es[n].key;
      assert NormEntries(es) == prefix + [Entry(es[n].key, es[n].val)];
      assert es == prefix + [es[n]];
    }
  }

  /** The normaliser is idempotent. */
  lemma Idempotent(v: Value)
    ensures NormValue(NormValue(v)) == NormValue(v)
  {
    NormalizesFully(v);
    NormalizedIsFixed(NormValue(v));
  }

  /** The same law for the list form of `oci_object_to_json`: normalising each element twice equals once. */
  lemma IdempotentDict(d: seq<Entry>)
    ensures NormEntries(NormEntries(d)) == NormEntries(d)
  {
    EntriesNormalizeFully(d);
    NormalizedEntriesAreFixed(NormEntries(d));
  }

  /** `{"_": 1, "x": 0}` becomes `{"-": 1, "x": 0}`. */
  lemma CollisionExamplePrefix()
    ensures NormEntries([Entry("_", Int(1)), Entry("x", Int(0))]) == [Entry("-", Int(1)), Entry("x", Int(0))]
  {
    var es := [Entry("_", Int(1)), Entry("x", Int(0))];
    var r1 := [Entry("-", Int(1))];
    assert NormEntries(es[..1]) == r1 by {
      NormEntriesSnoc(es, 0);
      assert es[..0] == [];
      assert Hyphenate("_") == "-";
    }
    NormEntriesSnoc(es, 1);
    assert es[..2] == es;
    assert Hyphenate("x") == "x";
    assert IndexOf(r1, "x") == None;
  }

  /** `{"_": 1, "x": 0, "-": 2}` becomes `{"-": 2, "x": 0}`: the later value, at the first key's position. */
  lemma CollisionExample()
    ensures NormEntries([Entry("_", Int(1)), Entry("x", Int(0)), Entry("-", Int(2))])
         == [Entry("-", Int(2)), Entry("x", Int(0))]
  {
    var es := [Entry("_", Int(1)), Entry("x", Int(0)), Entry("-", Int(2))];
    var r2 := [Entry("-", Int(1)), Entry("x", Int(0))];
    assert NormEntries(es[..2]) == r2 by {
      CollisionExamplePrefix();
      assert es[..2] == [Entry("_", Int(1)), Entry("x", Int(0))];
    }
    assert NormEntries(es) == Put(r2, "-", Int(2)) by {
      NormEntriesSnoc(es, 2);
      assert es[..3] == es;
      assert Hyphenate("-") == "-";
    }
    assert IndexOf(r2, "-") == Some(0);
  }

  /** A list value, even a list of dictionaries, is copied without normalising what it holds. */
  lemma ListsAreOpaque(k: string, items: seq<Value>)
    ensures NormEntries([Entry(k, List(items))]) == [Entry(Hyphenate(k), List(items))]
  {
    var es := [Entry(k, List(items))];
    assert es[..0] == [];
  }
}
