/** The table under node attributes: an outer table keyed by node over inner vectors
    sorted by attribute id. It stands for one flat map from (node, id) to value. */
module AttributeTable {
  import opened Formulas

  datatype Slot<V> = Slot(id: nat, value: V)

  datatype Bucket<V> = Bucket(node: nat, slots: seq<Slot<V>>)

  datatype Entry<V> = Entry(node: nat, id: nat, value: V)

  type Flat<V> = map<(nat, nat), V>

  ghost predicate Ascending<V>(slots: seq<Slot<V>>) {
    forall i, j :: 0 <= i < j < |slots| ==> slots[i].id < slots[j].id
  }

  /** One bucket for a node, each sorted by id without duplicates. */
  ghost predicate BucketsOk<V>(t: seq<Bucket<V>>) {
    && (forall i, j :: 0 <= i < j < |t| ==> t[i].node != t[j].node)
    && (forall i :: 0 <= i < |t| ==> Ascending(t[i].slots))
  }

  ghost predicate NoEmptyBucket<V>(t: seq<Bucket<V>>) {
    forall i :: 0 <= i < |t| ==> t[i].slots != []
  }

  // ---- the flat map ------------------------------------------------------

  ghost predicate InTable<V>(t: seq<Bucket<V>>, e: Entry<V>) {
    exists i :: 0 <= i < |t| && t[i].node == e.node && Slot(e.id, e.value) in t[i].slots
  }

  ghost predicate InFlat<V>(flat: Flat<V>, e: Entry<V>) {
    (e.node, e.id) in flat && flat[(e.node, e.id)] == e.value
  }

  ghost predicate Agrees<V(!new)>(t: seq<Bucket<V>>, flat: Flat<V>) {
    forall e: Entry<V> {:trigger InTable(t, e)} :: InTable(t, e) <==> InFlat(flat, e)
  }

  /** A key is in the flat map exactly when its bucket has a slot for it. */
  lemma KeyInBucket<V(!new)>(t: seq<Bucket<V>>, flat: Flat<V>, b: nat, id: nat)
    requires BucketsOk(t) && Agrees(t, flat) && b < |t|
    ensures (t[b].node, id) in flat <==> exists s :: 0 <= s < |t[b].slots| && t[b].slots[s].id == id
    ensures forall s :: 0 <= s < |t[b].slots| && t[b].slots[s].id == id ==>
      (t[b].node, id) in flat && flat[(t[b].node, id)] == t[b].slots[s].value
  {
    if (t[b].node, id) in flat {
      var e := Entry(t[b].node, id, flat[(t[b].node, id)]);
      assert InTable(t, e);
      var i :| 0 <= i < |t| && t[i].node == e.node && Slot(e.id, e.value) in t[i].slots;
      assert i == b;
      var s :| 0 <= s < |t[b].slots| && t[b].slots[s] == Slot(e.id, e.value);
    }
    forall s | 0 <= s < |t[b].slots| && t[b].slots[s].id == id
      ensures (t[b].node, id) in flat && flat[(t[b].node, id)] == t[b].slots[s].value
    {
      var e := Entry(t[b].node, id, t[b].slots[s].value);
      assert Slot(e.id, e.value) == t[b].slots[s];
      assert InTable(t, e);
    }
  }

  lemma NoBucketNoKey<V(!new)>(t: seq<Bucket<V>>, flat: Flat<V>, node: nat, id: nat)
    requires Agrees(t, flat) && forall i :: 0 <= i < |t| ==> t[i].node != node
    ensures (node, id) !in flat
  {
    forall v: V
      ensures !InFlat(flat, Entry(node, id, v))
    {
      assert !InTable(t, Entry(node, id, v));
    }
    assert (node, id) in flat ==> InFlat(flat, Entry(node, id, flat[(node, id)]));
  }

  // ---- the entries in iteration order ------------------------------------

  function BucketEntries<V>(b: Bucket<V>): seq<Entry<V>> {
    seq(|b.slots|, i requires 0 <= i < |b.slots| => Entry(b.node, b.slots[i].id, b.slots[i].value))
  }

  function Entries<V>(t: seq<Bucket<V>>): seq<Entry<V>> {
    if t == [] then [] else BucketEntries(t[0]) + Entries(t[1..])
  }

  lemma Associative<V>(x: seq<Entry<V>>, y: seq<Entry<V>>, z: seq<Entry<V>>)
    ensures x + (y + z) == (x + y) + z
  {
  }

  lemma {:induction false} EntriesConcat<V>(a: seq<Bucket<V>>, b: seq<Bucket<V>>)
    ensures Entries(a + b) == Entries(a) + Entries(b)
  {
    if a == [] {
      assert a + b == b;
    } else {
      EntriesConcat(a[1..], b);
      assert (a + b)[0] == a[0] && (a + b)[1..] == a[1..] + b;
      Associative(BucketEntries(a[0]), Entries(a[1..]), Entries(b));
    }
  }

  lemma {:induction false} EntriesAreInTable<V>(t: seq<Bucket<V>>, e: Entry<V>)
    ensures e in Entries(t) <==> InTable(t, e)
  {
    if t == [] {
    } else {
      EntriesAreInTable(t[1..], e);
      assert e in BucketEntries(t[0]) <==> t[0].node == e.node && Slot(e.id, e.value) in t[0].slots by {
        if t[0].node == e.node && Slot(e.id, e.value) in t[0].slots {
          var s :| 0 <= s < |t[0].slots| && t[0].slots[s] == Slot(e.id, e.value);
          assert BucketEntries(t[0])[s] == e;
        }
      }
      if InTable(t, e) {
        var i :| 0 <= i < |t| && t[i].node == e.node && Slot(e.id, e.value) in t[i].slots;
        if i > 0 { assert t[1..][i - 1] == t[i]; }
      }
      if InTable(t[1..], e) {
        var i :| 0 <= i < |t[1..]| && t[1..][i].node == e.node && Slot(e.id, e.value) in t[1..][i].slots;
        assert t[i + 1] == t[1..][i];
      }
    }
  }

  // ---- iterators ---------------------------------------------------------

  /** A position in both levels, or past everything. */
  datatype Iterator = End | At(bucket: nat, slot: nat)

  ghost predicate Points<V>(t: seq<Bucket<V>>, it: Iterator) {
    it.At? ==> it.bucket < |t| && it.slot < |t[it.bucket].slots|
  }

  function PassedAt<V>(t: seq<Bucket<V>>, b: nat, s: nat): seq<Entry<V>>
    requires b < |t| && s <= |t[b].slots|
  {
    Entries(t[..b]) + BucketEntries(t[b])[..s]
  }

  function LeftAt<V>(t: seq<Bucket<V>>, b: nat, s: nat): seq<Entry<V>>
    requires b < |t| && s <= |t[b].slots|
  {
    BucketEntries(t[b])[s..] + Entries(t[b + 1..])
  }

  /** The entries before an iterator, and those from it on. */
  ghost function Passed<V>(t: seq<Bucket<V>>, it: Iterator): seq<Entry<V>>
    requires Points(t, it)
  {
    if it.End? then Entries(t) else PassedAt(t, it.bucket, it.slot)
  }

  ghost function Left<V>(t: seq<Bucket<V>>, it: Iterator): seq<Entry<V>>
    requires Points(t, it)
  {
    if it.End? then [] else LeftAt(t, it.bucket, it.slot)
  }

  lemma {:induction false} FirstBuckets<V>(t: seq<Bucket<V>>, b: nat)
    requires b < |t|
    ensures Entries(t[..b + 1]) == Entries(t[..b]) + BucketEntries(t[b])
    ensures Entries(t[b..]) == BucketEntries(t[b]) + Entries(t[b + 1..])
  {
    EntriesConcat(t[..b], [t[b]]);
    assert t[..b + 1] == t[..b] + [t[b]];
    assert [t[b]][1..] == [];
    assert Entries([t[b]]) == BucketEntries(t[b]) + Entries([t[b]][1..]);
    assert t[b..][1..] == t[b + 1..];
  }

  /** The end of one bucket is the beginning of the next. */
  lemma {:induction false} NextBucket<V>(t: seq<Bucket<V>>, b: nat)
    requires b < |t|
    ensures b + 1 < |t| ==>
      && PassedAt(t, b + 1, 0) == PassedAt(t, b, |t[b].slots|)
      && LeftAt(t, b + 1, 0) == LeftAt(t, b, |t[b].slots|)
    ensures b + 1 == |t| ==> PassedAt(t, b, |t[b].slots|) == Entries(t) && LeftAt(t, b, |t[b].slots|) == []
  {
    FirstBuckets(t, b);
    if b + 1 < |t| {
      FirstBuckets(t, b + 1);
    } else {
      assert t[..b + 1] == t;
    }
  }

  lemma {:induction false} NextSlot<V>(t: seq<Bucket<V>>, b: nat, s: nat)
    requires b < |t| && s < |t[b].slots|
    ensures
      var e := BucketEntries(t[b])[s];
      PassedAt(t, b, s + 1) == PassedAt(t, b, s) + [e] && LeftAt(t, b, s) == [e] + LeftAt(t, b, s + 1)
  {
    var es := BucketEntries(t[b]);
    assert es[..s + 1] == es[..s] + [es[s]];
    assert es[s..] == [es[s]] + es[s + 1..];
  }

  function RemoveSlot<V>(t: seq<Bucket<V>>, b: nat, s: nat): seq<Bucket<V>>
    requires b < |t| && s < |t[b].slots|
  {
    t[b := t[b].(slots := t[b].slots[..s] + t[b].slots[s + 1..])]
  }

  /** Erasing a slot takes one entry out and leaves the iterator at the next. */
  lemma {:induction false} RemoveSlotAt<V>(t: seq<Bucket<V>>, b: nat, s: nat)
    requires BucketsOk(t) && b < |t| && s < |t[b].slots|
    ensures BucketsOk(RemoveSlot(t, b, s))
    ensures PassedAt(RemoveSlot(t, b, s), b, s) == PassedAt(t, b, s)
    ensures LeftAt(t, b, s) == [BucketEntries(t[b])[s]] + LeftAt(RemoveSlot(t, b, s), b, s)
  {
    var t' := RemoveSlot(t, b, s);
    assert t'[..b] == t[..b] && t'[b + 1..] == t[b + 1..];
    assert BucketEntries(t'[b])[..s] == BucketEntries(t[b])[..s];
    assert BucketEntries(t[b])[s..] == [BucketEntries(t[b])[s]] + BucketEntries(t'[b])[s..];
  }

  function RemoveBucket<V>(t: seq<Bucket<V>>, b: nat): seq<Bucket<V>>
    requires b < |t|
  {
    t[..b] + t[b + 1..]
  }

  lemma RemoveBucketKeeps<V>(t: seq<Bucket<V>>, b: nat)
    requires BucketsOk(t) && b < |t| && forall i :: 0 <= i < |t| && i != b ==> t[i].slots != []
    ensures BucketsOk(RemoveBucket(t, b)) && NoEmptyBucket(RemoveBucket(t, b))
  {
  }

  /** The position of the same entry once bucket b is gone. */
  function Shifted(it: Iterator, b: nat): Iterator {
    if it.At? && it.bucket > b then At(it.bucket - 1, it.slot) else it
  }

  lemma {:induction false} RemoveEmpty<V>(t: seq<Bucket<V>>, b: nat)
    requires b < |t| && t[b].slots == []
    ensures Entries(RemoveBucket(t, b)) == Entries(t)
  {
    EntriesConcat(t[..b], t[b + 1..]);
    EntriesConcat(t[..b], t[b..]);
    FirstBuckets(t, b);
    assert t == t[..b] + t[b..];
  }

  lemma RemoveBucketParts<V>(t: seq<Bucket<V>>, b: nat, c: nat)
    requires b < c < |t|
    ensures RemoveBucket(t, b)[..c - 1] == RemoveBucket(t[..c], b)
    ensures RemoveBucket(t, b)[c - 1] == t[c] && RemoveBucket(t, b)[c..] == t[c + 1..]
  {
  }

  lemma {:induction false} RemoveEmptyBucket<V>(t: seq<Bucket<V>>, b: nat, it: Iterator)
    requires b < |t| && t[b].slots == [] && Points(t, it) && (it.At? ==> it.bucket > b)
    ensures Points(RemoveBucket(t, b), Shifted(it, b))
    ensures Passed(RemoveBucket(t, b), Shifted(it, b)) == Passed(t, it)
    ensures Left(RemoveBucket(t, b), Shifted(it, b)) == Left(t, it)
  {
    if it.End? {
      RemoveEmpty(t, b);
    } else {
      RemoveEmptyBefore(t, b, it.bucket, it.slot);
    }
  }

  lemma {:induction false} RemoveEmptyBefore<V>(t: seq<Bucket<V>>, b: nat, c: nat, s: nat)
    requires b < c < |t| && t[b].slots == [] && s <= |t[c].slots|
    ensures
      var t' := RemoveBucket(t, b);
      && t'[c - 1] == t[c]
      && PassedAt(t', c - 1, s) == PassedAt(t, c, s) && LeftAt(t', c - 1, s) == LeftAt(t, c, s)
  {
    RemoveBucketParts(t, b, c);
    RemoveEmpty(t[..c], b);
  }

  lemma OneMore<V>(visited: seq<Entry<V>>, left: seq<Entry<V>>)
    requires left != []
    ensures visited + left == visited + [left[0]] + left[1..]
  {
  }

  // ---- deleting ids ------------------------------------------------------

  /** The entries whose id is not listed, in their order. */
  ghost function Kept<V>(es: seq<Entry<V>>, ids: seq<nat>): seq<Entry<V>> {
    if es == [] then []
    else
      var n := |es| - 1;
      Kept(es[..n], ids) + if es[n].id in ids then [] else [es[n]]
  }

  lemma {:induction false} KeptHas<V>(es: seq<Entry<V>>, ids: seq<nat>, e: Entry<V>)
    ensures e in Kept(es, ids) <==> e in es && e.id !in ids
  {
    if es == [] {
    } else {
      var n := |es| - 1;
      KeptHas(es[..n], ids, e);
      assert es == es[..n] + [es[n]];
    }
  }

  lemma KeptNext<V>(es: seq<Entry<V>>, ids: seq<nat>, e: Entry<V>)
    ensures Kept(es + [e], ids) == Kept(es, ids) + if e.id in ids then [] else [e]
  {
    assert (es + [e])[..|es|] == es;
  }

  ghost function Without<V>(flat: Flat<V>, ids: seq<nat>): Flat<V> {
    map k | k in flat && k.1 !in ids :: flat[k]
  }

  lemma KeptAgrees<V(!new)>(t: seq<Bucket<V>>, flat: Flat<V>, ids: seq<nat>, t': seq<Bucket<V>>)
    requires Agrees(t, flat) && Entries(t') == Kept(Entries(t), ids)
    ensures Agrees(t', Without(flat, ids))
  {
    forall e: Entry<V>
      ensures InTable(t', e) <==> InFlat(Without(flat, ids), e)
    {
      EntriesAreInTable(t, e);
      EntriesAreInTable(t', e);
      KeptHas(Entries(t), ids, e);
    }
  }

  // ---- inserting entries -------------------------------------------------

  ghost function Emplaced<V>(flat: Flat<V>, e: Entry<V>): Flat<V> {
    if (e.node, e.id) in flat then flat else flat[(e.node, e.id) := e.value]
  }

  /** The first entry of a key wins, and an old one before it. */
  ghost function AllEmplaced<V>(flat: Flat<V>, es: seq<Entry<V>>): Flat<V> {
    if es == [] then flat else Emplaced(AllEmplaced(flat, es[..|es| - 1]), es[|es| - 1])
  }

  lemma {:induction false} AllEmplacedHas<V>(flat: Flat<V>, es: seq<Entry<V>>, k: (nat, nat))
    ensures k in AllEmplaced(flat, es) <==> k in flat || exists e :: e in es && (e.node, e.id) == k
    ensures k in flat ==> k in AllEmplaced(flat, es) && AllEmplaced(flat, es)[k] == flat[k]
    ensures k in AllEmplaced(flat, es) && k !in flat ==> Entry(k.0, k.1, AllEmplaced(flat, es)[k]) in es
  {
    if es == [] {
    } else {
      var n := |es| - 1;
      AllEmplacedHas(flat, es[..n], k);
      assert es == es[..n] + [es[n]];
    }
  }

  /** Entering all entries of a table into an empty one gives the same flat map. */
  lemma RebuildAgrees<V(!new)>(t: seq<Bucket<V>>, flat: Flat<V>, es: seq<Entry<V>>)
    requires Agrees(t, flat) && multiset(es) == multiset(Entries(t))
    ensures AllEmplaced(map[], es) == flat
  {
    forall e: Entry<V>
      ensures e in es <==> InFlat(flat, e)
    {
      assert e in es <==> e in multiset(es);
      assert e in Entries(t) <==> e in multiset(Entries(t));
      EntriesAreInTable(t, e);
    }
    var flat' := AllEmplaced(map[], es);
    forall k: (nat, nat)
      ensures k in flat' <==> k in flat
      ensures k in flat ==> flat'[k] == flat[k]
    {
      AllEmplacedHas(map[], es, k);
      if k in flat { assert Entry(k.0, k.1, flat[k]) in es; }
      if k in flat' { assert InFlat(flat, Entry(k.0, k.1, flat'[k])); }
    }
  }

  /** Entries by node, then by id. */
  predicate Before<V>(a: Entry<V>, b: Entry<V>) {
    a.node < b.node || (a.node == b.node && a.id < b.id)
  }

  ghost predicate NotAfter<V>(a: Entry<V>, b: Entry<V>) {
    a.node < b.node || (a.node == b.node && a.id <= b.id)
  }

  ghost predicate InOrder<V>(es: seq<Entry<V>>) {
    forall i, j :: 0 <= i < j < |es| ==> NotAfter(es[i], es[j])
  }

  function Insort<V>(es: seq<Entry<V>>, e: Entry<V>): (r: seq<Entry<V>>)
    ensures multiset(r) == multiset(es) + multiset{e}
  {
    if es == [] || !Before(e, es[|es| - 1]) then es + [e]
    else
      var front, last := es[..|es| - 1], es[|es| - 1];
      assert es == front + [last];
      Insort(front, e) + [last]
  }

  function Sorted<V>(es: seq<Entry<V>>): (r: seq<Entry<V>>)
    ensures multiset(r) == multiset(es)
  {
    if es == [] then []
    else
      assert es == es[..|es| - 1] + [es[|es| - 1]];
      Insort(Sorted(es[..|es| - 1]), es[|es| - 1])
  }

  lemma InOrderAppend<V>(es: seq<Entry<V>>, e: Entry<V>)
    requires InOrder(es) && forall x :: x in es ==> NotAfter(x, e)
    ensures InOrder(es + [e])
  {
  }

  lemma {:induction false} InsortInOrder<V>(es: seq<Entry<V>>, e: Entry<V>)
    requires InOrder(es)
    ensures InOrder(Insort(es, e))
  {
    if es == [] {
    } else {
      var front, last := es[..|es| - 1], es[|es| - 1];
      if !Before(e, last) {
        forall x | x in es
          ensures NotAfter(x, e)
        {
          assert x == last || NotAfter(x, last);
        }
        InOrderAppend(es, e);
      } else {
        InsortInOrder(front, e);
        forall x | x in Insort(front, e)
          ensures NotAfter(x, last)
        {
          assert x in multiset(Insort(front, e));
          assert x == e || x in front;
        }
        InOrderAppend(Insort(front, e), last);
      }
    }
  }

  lemma {:induction false} SortedInOrder<V>(es: seq<Entry<V>>)
    ensures InOrder(Sorted(es))
  {
    if es == [] {
    } else {
      SortedInOrder(es[..|es| - 1]);
      InsortInOrder(Sorted(es[..|es| - 1]), es[|es| - 1]);
    }
  }

  // ---- one vector --------------------------------------------------------

  method LowerBound<V>(slots: seq<Slot<V>>, id: nat) returns (p: nat)
    requires Ascending(slots)
    ensures BelongsAt(slots, p, id)
  {
    p := 0;
    var hi := |slots|;
    while p < hi
      invariant p <= hi <= |slots|
      invariant forall i :: 0 <= i < p ==> slots[i].id < id
      invariant forall i :: hi <= i < |slots| ==> slots[i].id >= id
    {
      var mid := (p + hi) / 2;
      if slots[mid].id < id { p := mid + 1; } else { hi := mid; }
    }
  }

  method BinarySearch(ids: seq<nat>, id: nat) returns (found: bool)
    requires forall i, j :: 0 <= i < j < |ids| ==> ids[i] <= ids[j]
    ensures found <==> id in ids
  {
    var lo, hi := 0, |ids|;
    while lo < hi
      invariant 0 <= lo <= hi <= |ids|
      invariant forall i :: 0 <= i < lo ==> ids[i] < id
      invariant forall i :: hi <= i < |ids| ==> ids[i] >= id
    {
      var mid := (lo + hi) / 2;
      if ids[mid] < id { lo := mid + 1; } else { hi := mid; }
    }
    found := lo < |ids| && ids[lo] == id;
  }

  /** A vector with a slot put in, or replaced. */
  function WithSlot<V>(slots: seq<Slot<V>>, p: nat, slot: Slot<V>): seq<Slot<V>>
    requires p <= |slots|
  {
    if p < |slots| && slots[p].id == slot.id then slots[p := slot] else slots[..p] + [slot] + slots[p..]
  }

  /** Where a slot of this id belongs. */
  ghost predicate BelongsAt<V>(slots: seq<Slot<V>>, p: nat, id: nat) {
    && p <= |slots|
    && (forall i :: 0 <= i < p ==> slots[i].id < id)
    && (forall i :: p <= i < |slots| ==> slots[i].id >= id)
  }

  lemma WithSlotAscending<V>(slots: seq<Slot<V>>, p: nat, slot: Slot<V>)
    requires Ascending(slots) && BelongsAt(slots, p, slot.id)
    ensures Ascending(WithSlot(slots, p, slot)) && WithSlot(slots, p, slot) != []
  {
    var r := WithSlot(slots, p, slot);
    if |r| > |slots| {
      assert forall i :: 0 <= i < |r| ==> r[i] == if i < p then slots[i] else if i == p then slot else slots[i - 1];
    }
  }

  lemma WithSlotHas<V>(slots: seq<Slot<V>>, p: nat, slot: Slot<V>, x: Slot<V>)
    requires Ascending(slots) && BelongsAt(slots, p, slot.id)
    ensures x in WithSlot(slots, p, slot) <==> x == slot || (x in slots && x.id != slot.id)
  {
    var r := WithSlot(slots, p, slot);
    if |r| > |slots| {
      assert x in r <==> x in slots[..p] || x == slot || x in slots[p..];
      assert slots == slots[..p] + slots[p..];
    } else {
      assert r[p] == slot;
      if x in slots && x.id != slot.id {
        var i :| 0 <= i < |slots| && slots[i] == x;
        assert r[i] == x;
      }
    }
  }

  lemma WithSlotAgrees<V(!new)>(t: seq<Bucket<V>>, flat: Flat<V>, b: nat, p: nat, slot: Slot<V>)
    requires BucketsOk(t) && Agrees(t, flat) && b < |t| && BelongsAt(t[b].slots, p, slot.id)
    ensures
      var t' := t[b := t[b].(slots := WithSlot(t[b].slots, p, slot))];
      BucketsOk(t') && Agrees(t', flat[(t[b].node, slot.id) := slot.value])
  {
    WithSlotAscending(t[b].slots, p, slot);
    var t' := t[b := t[b].(slots := WithSlot(t[b].slots, p, slot))];
    forall e: Entry<V>
      ensures InTable(t', e) <==> InFlat(flat[(t[b].node, slot.id) := slot.value], e)
    {
      WithSlotHas(t[b].slots, p, slot, Slot(e.id, e.value));
      BucketReplaced(t, b, t'[b].slots, e);
      BucketReplaced(t, b, t[b].slots, e);
      assert t[b := t[b].(slots := t[b].slots)] == t;
      assert InTable(t, e) <==> InFlat(flat, e);
    }
  }

  /** Whether an entry is in the table is decided by its node's bucket. */
  lemma BucketReplaced<V>(t: seq<Bucket<V>>, b: nat, slots: seq<Slot<V>>, e: Entry<V>)
    requires BucketsOk(t) && b < |t|
    ensures
      InTable(t[b := t[b].(slots := slots)], e) <==>
      if e.node == t[b].node then Slot(e.id, e.value) in slots else InTable(t, e)
  {
    var t' := t[b := t[b].(slots := slots)];
    if e.node == t[b].node {
      assert t'[b].slots == slots;
    } else {
      if InTable(t, e) {
        var i :| 0 <= i < |t| && t[i].node == e.node && Slot(e.id, e.value) in t[i].slots;
        assert t'[i] == t[i];
      }
      if InTable(t', e) {
        var i :| 0 <= i < |t'| && t'[i].node == e.node && Slot(e.id, e.value) in t'[i].slots;
        assert t'[i] == t[i];
      }
    }
  }

  function NewBucket<V>(t: seq<Bucket<V>>, p: nat, node: nat): seq<Bucket<V>>
    requires p <= |t|
  {
    t[..p] + [Bucket(node, [])] + t[p..]
  }

  lemma NewBucketHas<V>(t: seq<Bucket<V>>, p: nat, node: nat, e: Entry<V>)
    requires p <= |t|
    ensures InTable(NewBucket(t, p, node), e) <==> InTable(t, e)
  {
    var t' := NewBucket(t, p, node);
    if InTable(t, e) {
      var i :| 0 <= i < |t| && t[i].node == e.node && Slot(e.id, e.value) in t[i].slots;
      assert t'[if i < p then i else i + 1] == t[i];
    }
    if InTable(t', e) {
      var i :| 0 <= i < |t'| && t'[i].node == e.node && Slot(e.id, e.value) in t'[i].slots;
      assert t[if i < p then i else i - 1] == t'[i];
    }
  }

  lemma NewBucketOk<V>(t: seq<Bucket<V>>, p: nat, node: nat)
    requires BucketsOk(t) && p <= |t| && forall i :: 0 <= i < |t| ==> t[i].node != node
    ensures BucketsOk(NewBucket(t, p, node)) && NewBucket(t, p, node)[p] == Bucket(node, [])
    ensures NoEmptyBucket(t) ==> forall i :: 0 <= i <= |t| && i != p ==> NewBucket(t, p, node)[i].slots != []
  {
    var t' := NewBucket(t, p, node);
    assert forall i :: 0 <= i < |t'| ==> t'[i] == if i < p then t[i] else if i == p then Bucket(node, []) else t[i - 1];
  }

  lemma RemovedBucketHas<V>(t: seq<Bucket<V>>, b: nat, e: Entry<V>)
    requires BucketsOk(t) && b < |t|
    ensures InTable(RemoveBucket(t, b), e) <==> InTable(t, e) && e.node != t[b].node
  {
    var t' := RemoveBucket(t, b);
    if InTable(t, e) && e.node != t[b].node {
      var i :| 0 <= i < |t| && t[i].node == e.node && Slot(e.id, e.value) in t[i].slots;
      assert t'[if i < b then i else i - 1] == t[i];
    }
    if InTable(t', e) {
      var i :| 0 <= i < |t'| && t'[i].node == e.node && Slot(e.id, e.value) in t'[i].slots;
      assert t[if i < b then i else i + 1] == t'[i];
    }
  }

  lemma RemovedBucketAgrees<V(!new)>(t: seq<Bucket<V>>, flat: Flat<V>, b: nat)
    requires BucketsOk(t) && Agrees(t, flat) && b < |t|
    ensures BucketsOk(RemoveBucket(t, b))
    ensures Agrees(RemoveBucket(t, b), map k | k in flat && k.0 != t[b].node :: flat[k])
  {
    forall e: Entry<V>
      ensures InTable(RemoveBucket(t, b), e) <==> InFlat(map k | k in flat && k.0 != t[b].node :: flat[k], e)
    {
      RemovedBucketHas(t, b, e);
    }
  }

  // ---- the table ---------------------------------------------------------

  class AttrHash<V(!new)> {
    /** The outer table in iteration order. */
    var storage: seq<Bucket<V>>
    ghost var flat: Flat<V>

    ghost predicate Valid()
      reads this
    {
      BucketsOk(storage) && NoEmptyBucket(storage) && Agrees(storage, flat)
    }

    constructor ()
      ensures Valid() && flat == map[]
    {
      storage, flat := [], map[];
    }

    /** The outer lookup. */
    method FindBucket(node: nat) returns (b: Option<nat>)
      ensures b.Some? ==> b.value < |storage| && storage[b.value].node == node
      ensures b.None? ==> forall i :: 0 <= i < |storage| ==> storage[i].node != node
    {
      for i := 0 to |storage|
        invariant forall j :: 0 <= j < i ==> storage[j].node != node
      {
        if storage[i].node == node { return Some(i); }
      }
      return None;
    }

    method Find(id: nat, node: nat) returns (v: Option<V>)
      requires Valid()
      ensures v == if (node, id) in flat then Some(flat[(node, id)]) else None
    {
      var found := FindBucket(node);
      if found.None? {
        NoBucketNoKey(storage, flat, node, id);
        return None;
      }
      var slots := storage[found.value].slots;
      KeyInBucket(storage, flat, found.value, id);
      var p := LowerBound(slots, id);
      return if p < |slots| && slots[p].id == id then Some(slots[p].value) else None;
    }

    /** The bucket of a node, made at some place of the iteration order when missing. */
    method BucketFor(node: nat) returns (b: nat)
      requires BucketsOk(storage) && NoEmptyBucket(storage) && Agrees(storage, flat)
      modifies this`storage
      ensures BucketsOk(storage) && Agrees(storage, flat)
      ensures b < |storage| && storage[b].node == node
      ensures forall i :: 0 <= i < |storage| && i != b ==> storage[i].slots != []
    {
      var found := FindBucket(node);
      if found.Some? { return found.value; }
      b :| 0 <= b <= |storage|;
      NewBucketOk(storage, b, node);
      forall e: Entry<V>
        ensures InTable(NewBucket(storage, b, node), e) <==> InFlat(flat, e)
      {
        NewBucketHas(storage, b, node, e);
      }
      storage := NewBucket(storage, b, node);
    }

    /** operator[] and an assignment, as setAttribute does. */
    method Set(id: nat, node: nat, v: V)
      requires Valid()
      modifies this
      ensures Valid() && flat == old(flat)[(node, id) := v]
    {
      var b := BucketFor(node);
      var slots := storage[b].slots;
      var p := LowerBound(slots, id);
      WithSlotAgrees(storage, flat, b, p, Slot(id, v));
      WithSlotAscending(slots, p, Slot(id, v));
      storage := storage[b := storage[b].(slots := WithSlot(slots, p, Slot(id, v)))];
      flat := flat[(node, id) := v];
    }

    method EraseBy(node: nat)
      requires Valid()
      modifies this
      ensures Valid() && flat == map k | k in old(flat) && k.0 != node :: old(flat)[k]
    {
      var found := FindBucket(node);
      if found.Some? {
        RemovedBucketAgrees(storage, flat, found.value);
        storage := RemoveBucket(storage, found.value);
        flat := map k | k in flat && k.0 != node :: flat[k];
      } else {
        forall k | k in flat
          ensures k.0 != node
        {
          if k.0 == node { NoBucketNoKey(storage, flat, node, k.1); }
        }
      }
    }

    method Size() returns (n: nat)
      ensures n == |Entries(storage)|
    {
      n := 0;
      assert storage[..0] == [];
      for i := 0 to |storage|
        invariant n == |Entries(storage[..i])|
      {
        FirstBuckets(storage, i);
        n := n + |storage[i].slots|;
      }
      assert storage[..|storage|] == storage;
    }

    /** Moves on to the next real entry when a bucket has run out. */
    method Legalize(bucket: nat, slot: nat) returns (it: Iterator)
      requires bucket < |storage| && slot <= |storage[bucket].slots|
      ensures Points(storage, it)
      ensures Passed(storage, it) == PassedAt(storage, bucket, slot)
      ensures Left(storage, it) == LeftAt(storage, bucket, slot)
      ensures it.At? ==> it.bucket >= bucket
    {
      var b: nat, s: nat := bucket, slot;
      while s == |storage[b].slots|
        invariant bucket <= b < |storage| && s <= |storage[b].slots|
        invariant PassedAt(storage, b, s) == PassedAt(storage, bucket, slot)
        invariant LeftAt(storage, b, s) == LeftAt(storage, bucket, slot)
        decreases |storage| - b
      {
        NextBucket(storage, b);
        b := b + 1;
        if b == |storage| { return End; }
        s := 0;
      }
      return At(b, s);
    }

    method Begin() returns (it: Iterator)
      ensures Points(storage, it) && Passed(storage, it) == [] && Left(storage, it) == Entries(storage)
    {
      if storage == [] { return End; }
      FirstBuckets(storage, 0);
      assert storage[0..] == storage;
      it := Legalize(0, 0);
    }

    method Current(it: Iterator) returns (e: Entry<V>)
      requires Points(storage, it) && it.At?
      ensures Left(storage, it) != [] && e == Left(storage, it)[0]
    {
      var slot := storage[it.bucket].slots[it.slot];
      return Entry(storage[it.bucket].node, slot.id, slot.value);
    }

    method Next(it: Iterator) returns (next: Iterator)
      requires Points(storage, it) && it.At?
      ensures Points(storage, next) && Left(storage, it) != []
      ensures Passed(storage, next) == Passed(storage, it) + [Left(storage, it)[0]]
      ensures Left(storage, next) == Left(storage, it)[1..]
    {
      NextSlot(storage, it.bucket, it.slot);
      next := Legalize(it.bucket, it.slot + 1);
    }

    /** Takes the entry out, and its bucket when that was the last one in it. */
    method Erase(it: Iterator) returns (next: Iterator)
      requires BucketsOk(storage) && NoEmptyBucket(storage) && Points(storage, it) && it.At?
      modifies this`storage
      ensures BucketsOk(storage) && NoEmptyBucket(storage) && Points(storage, next)
      ensures Passed(storage, next) == old(Passed(storage, it))
      ensures old(Left(storage, it)) != [] && Left(storage, next) == old(Left(storage, it))[1..]
    {
      var b, s := it.bucket, it.slot;
      RemoveSlotAt(storage, b, s);
      storage := RemoveSlot(storage, b, s);
      next := Legalize(b, s);
      next := DropIfEmpty(b, next);
    }

    /** Deletes bucket b if the erase has made it empty. */
    method DropIfEmpty(b: nat, it: Iterator) returns (next: Iterator)
      requires BucketsOk(storage) && b < |storage| && Points(storage, it) && (it.At? ==> it.bucket >= b)
      requires forall i :: 0 <= i < |storage| && i != b ==> storage[i].slots != []
      modifies this`storage
      ensures BucketsOk(storage) && NoEmptyBucket(storage) && Points(storage, next)
      ensures Passed(storage, next) == old(Passed(storage, it)) && Left(storage, next) == old(Left(storage, it))
    {
      next := it;
      if storage[b].slots == [] {
        RemoveEmptyBucket(storage, b, it);
        RemoveBucketKeeps(storage, b);
        storage := RemoveBucket(storage, b);
        next := Shifted(it, b);
      }
    }

    /** Goes over the table once and erases the entries whose id is listed. */
    method EraseIds(ids: seq<nat>) returns (ghost visited: seq<Entry<V>>)
      requires Valid() && forall i, j :: 0 <= i < j < |ids| ==> ids[i] <= ids[j]
      modifies this`storage
      ensures BucketsOk(storage) && NoEmptyBucket(storage)
      ensures visited == Entries(old(storage))
      ensures Entries(storage) == Kept(Entries(old(storage)), ids)
    {
      visited := [];
      var it := Begin();
      while it.At?
        invariant BucketsOk(storage) && NoEmptyBucket(storage) && Points(storage, it)
        invariant visited + Left(storage, it) == Entries(old(storage))
        invariant Passed(storage, it) == Kept(visited, ids)
        decreases |Left(storage, it)|
      {
        var e := Current(it);
        KeptNext(visited, ids, e);
        OneMore(visited, Left(storage, it));
        var found := BinarySearch(ids, e.id);
        visited := visited + [e];
        if found {
          it := Erase(it);
        } else {
          it := Next(it);
        }
      }
    }

    /** Deletes exactly the entries of the listed ids; a table that shrank a lot is rebuilt. */
    method DeleteAttributes(ids: seq<nat>)
      requires Valid() && forall i, j :: 0 <= i < j < |ids| ==> ids[i] <= ids[j]
      modifies this
      ensures Valid() && flat == Without(old(flat), ids)
    {
      var initialSize := Size();
      ghost var _ := EraseIds(ids);
      KeptAgrees(old(storage), flat, ids, storage);
      flat := Without(flat, ids);
      var size := Size();
      if initialSize / 8 > size {
        Reconstruct();
      }
    }

    /** All entries from begin() to end(). */
    method AllEntries() returns (es: seq<Entry<V>>)
      ensures es == Entries(storage)
    {
      es := [];
      var it := Begin();
      while it.At?
        invariant Points(storage, it)
        invariant es + Left(storage, it) == Entries(storage)
        decreases |Left(storage, it)|
      {
        var e := Current(it);
        OneMore(es, Left(storage, it));
        es := es + [e];
        it := Next(it);
      }
    }

    /** Enters one slot into bucket b, unless its id is there. */
    method Emplace(b: nat, e: Entry<V>)
      requires BucketsOk(storage) && Agrees(storage, flat) && b < |storage| && storage[b].node == e.node
      modifies this
      ensures BucketsOk(storage) && Agrees(storage, flat) && flat == Emplaced(old(flat), e)
      ensures |storage| == |old(storage)| && storage[b].node == e.node && storage[b].slots != []
      ensures forall i :: 0 <= i < |storage| && i != b ==> storage[i] == old(storage)[i]
    {
      var slots := storage[b].slots;
      var p := LowerBound(slots, e.id);
      KeyInBucket(storage, flat, b, e.id);
      if p < |slots| && slots[p].id == e.id { return; }
      WithSlotAgrees(storage, flat, b, p, Slot(e.id, e.value));
      WithSlotAscending(slots, p, Slot(e.id, e.value));
      storage := storage[b := storage[b].(slots := WithSlot(slots, p, Slot(e.id, e.value)))];
      flat := flat[(e.node, e.id) := e.value];
    }

    /** Enters the run of entries of one node that starts at k. */
    method InsertChunk(es: seq<Entry<V>>, k: nat, ghost base: Flat<V>) returns (end: nat)
      requires Valid() && k < |es| && flat == AllEmplaced(base, es[..k])
      modifies this
      ensures Valid() && k < end <= |es| && flat == AllEmplaced(base, es[..end])
    {
      var node := es[k].node;
      var b := BucketFor(node);
      end := k;
      while end < |es| && es[end].node == node
        invariant k <= end <= |es| && flat == AllEmplaced(base, es[..end])
        invariant BucketsOk(storage) && Agrees(storage, flat) && b < |storage| && storage[b].node == node
        invariant forall i :: 0 <= i < |storage| && i != b ==> storage[i].slots != []
        invariant end > k ==> storage[b].slots != []
      {
        assert es[..end + 1][..end] == es[..end];
        Emplace(b, es[end]);
        end := end + 1;
      }
    }

    /** Range insertion: sorts by node and id, then enters one node's run after another. */
    method InsertAll(entries: seq<Entry<V>>)
      requires Valid()
      modifies this
      ensures Valid() && flat == AllEmplaced(old(flat), Sorted(entries))
    {
      var es := Sorted(entries);
      var k := 0;
      while k < |es|
        invariant k <= |es| && Valid() && flat == AllEmplaced(old(flat), es[..k])
      {
        k := InsertChunk(es, k, old(flat));
      }
      assert es[..|es|] == es;
    }

    /** Rebuilds the table in a fresh one and swaps; no lookup changes. */
    method Reconstruct()
      requires Valid()
      modifies this
      ensures Valid() && flat == old(flat)
    {
      var entries := AllEntries();
      var copy := new AttrHash<V>();
      copy.InsertAll(entries);
      RebuildAgrees(storage, flat, Sorted(entries));
      storage := copy.storage;
    }
  }
}
