/** The embedded key-value store (bbolt) as a value: a database is a map from
    bucket name to bucket, and a bucket is its key/value pairs in key order
    together with its sequence counter. */
module Bolt {

  /** bytes.Compare(a, b) < 0. On UTF-8 text, byte order is the lexicographic
      order of code points, which is what this compares. */
  predicate Less(a: string, b: string) {
    if a == [] then b != []
    else b != [] && (a[0] < b[0] || (a[0] == b[0] && Less(a[1..], b[1..])))
  }

  lemma LessIrreflexive(a: string)
    ensures !Less(a, a)
  {
    if a != [] {
      LessIrreflexive(a[1..]);
    }
  }

  lemma LessTransitive(a: string, b: string, c: string)
    requires Less(a, b) && Less(b, c)
    ensures Less(a, c)
  {
    if a != [] && b != [] && c != [] && a[0] == b[0] == c[0] {
      LessTransitive(a[1..], b[1..], c[1..]);
    }
  }

  lemma LessTotal(a: string, b: string)
    ensures a == b || Less(a, b) || Less(b, a)
  {
    if a != [] && b != [] && a[0] == b[0] {
      LessTotal(a[1..], b[1..]);
      assert a == [a[0]] + a[1..] && b == [b[0]] + b[1..];
    }
  }

  datatype Entry = Entry(key: string, value: string)

  /** The keys of a sequence of pairs, as a set. */
  function KeySet(es: seq<Entry>): set<string> {
    if es == [] then {} else {es[0].key} + KeySet(es[1..])
  }

  /** Every key in ks comes after lo. */
  predicate Above(lo: string, ks: set<string>) {
    forall k | k in ks :: Less(lo, k)
  }

  /** Keys strictly increase: the order in which Bucket.ForEach visits them. */
  predicate Ordered(es: seq<Entry>) {
    es == [] || (Above(es[0].key, KeySet(es[1..])) && Ordered(es[1..]))
  }

  datatype BucketValue = BucketValue(entries: seq<Entry>, sequence: nat)

  /** A bucket: its pairs in key order, and the counter NextSequence draws from. */
  type Bucket = b: BucketValue | Ordered(b.entries) witness BucketValue([], 0)

  /** A database: its buckets by name. */
  type Store = map<string, Bucket>

  const EmptyBucket: Bucket := BucketValue([], 0)

  /** The keys of es in order: the snapshot a loop over the bucket walks. */
  function Snapshot(es: seq<Entry>): (ks: seq<string>)
    ensures |ks| == |es| && forall i | 0 <= i < |es| :: ks[i] == es[i].key
  {
    seq(|es|, i requires 0 <= i < |es| => es[i].key)
  }

  lemma {:induction false} KeySetHasIndex(es: seq<Entry>, i: nat)
    requires i < |es|
    ensures es[i].key in KeySet(es)
  {
    if i > 0 {
      KeySetHasIndex(es[1..], i - 1);
    }
  }

  lemma {:induction false} KeySetOfSnapshot(es: seq<Entry>)
    ensures KeySet(es) == set k | k in Snapshot(es)
  {
    if es != [] {
      KeySetOfSnapshot(es[1..]);
      assert Snapshot(es) == [es[0].key] + Snapshot(es[1..]);
    }
  }

  /** Every key in KeySet(es) sits at some position of es. */
  lemma {:induction false} KeySetIndex(es: seq<Entry>, k: string) returns (i: nat)
    requires k in KeySet(es)
    ensures i < |es| && es[i].key == k
  {
    if es[0].key == k {
      i := 0;
    } else {
      var j := KeySetIndex(es[1..], k);
      i := j + 1;
    }
  }

  /** In ordered pairs every key comes before every later key. */
  lemma {:induction false} OrderedPairwise(es: seq<Entry>)
    requires Ordered(es)
    ensures forall i, j | 0 <= i < j < |es| :: Less(es[i].key, es[j].key)
  {
    if es != [] {
      OrderedPairwise(es[1..]);
      forall j | 0 < j < |es| ensures Less(es[0].key, es[j].key) {
        KeySetHasIndex(es[1..], j - 1);
      }
    }
  }

  lemma AboveSubset(lo: string, small: set<string>, big: set<string>)
    requires Above(lo, big) && small <= big
    ensures Above(lo, small)
  {
  }

  lemma AboveTransitive(lo: string, mid: string, ks: set<string>)
    requires Less(lo, mid) && Above(mid, ks)
    ensures Above(lo, ks)
  {
    forall k | k in ks ensures Less(lo, k) {
      LessTransitive(lo, mid, k);
    }
  }

  /** The key/value map the pairs stand for. */
  function AsMap(es: seq<Entry>): (m: map<string, string>)
    ensures m.Keys == KeySet(es)
  {
    if es == [] then map[] else AsMap(es[1..])[es[0].key := es[0].value]
  }

  /** The contents of a bucket as a map. */
  function Contents(b: Bucket): map<string, string> {
    AsMap(b.entries)
  }

  /** In ordered pairs each key has the value stored beside it. */
  lemma {:induction false} AsMapAt(es: seq<Entry>, i: nat)
    requires Ordered(es) && i < |es|
    ensures es[i].key in AsMap(es) && AsMap(es)[es[i].key] == es[i].value
  {
    KeySetHasIndex(es, i);
    if i > 0 {
      AsMapAt(es[1..], i - 1);
      KeySetHasIndex(es[1..], i - 1);
      LessIrreflexive(es[0].key);
    }
  }

  /** Writing k := v into ordered pairs (Bucket.Put). */
  function PutEntry(es: seq<Entry>, k: string, v: string): (r: seq<Entry>)
    requires Ordered(es)
    ensures Ordered(r)
    ensures AsMap(r) == AsMap(es)[k := v]
  {
    if es == [] then [Entry(k, v)]
    else if es[0].key == k then
      assert ([Entry(k, v)] + es[1..])[1..] == es[1..];
      [Entry(k, v)] + es[1..]
    else if Less(k, es[0].key) then
      assert ([Entry(k, v)] + es)[1..] == es;
      AboveTransitive(k, es[0].key, KeySet(es[1..]));
      [Entry(k, v)] + es
    else
      LessTotal(k, es[0].key);
      var tail := PutEntry(es[1..], k, v);
      LessIrreflexive(k);
      PutEntryBeyond(es[0], es[1..], k, tail);
      PutEntryBeyondMap(es[0], AsMap(es[1..]), k, v, tail);
      [es[0]] + tail
  }

  /** A key after the first one goes into the tail: the pairs stay ordered. */
  lemma PutEntryBeyond(e: Entry, rest: seq<Entry>, k: string, tail: seq<Entry>)
    requires Above(e.key, KeySet(rest)) && Less(e.key, k)
    requires Ordered(tail) && KeySet(tail) == KeySet(rest) + {k}
    ensures Ordered([e] + tail)
  {
    assert ([e] + tail)[1..] == tail;
  }

  /** ... and the map gains k := v past the first pair. */
  lemma PutEntryBeyondMap(e: Entry, m: map<string, string>, k: string, v: string, tail: seq<Entry>)
    requires e.key != k && AsMap(tail) == m[k := v]
    ensures AsMap([e] + tail) == m[e.key := e.value][k := v]
  {
    assert ([e] + tail)[1..] == tail;
  }

  lemma RemoveUpdate(m: map<string, string>, k: string, k': string, v: string)
    requires k != k'
    ensures (m - {k})[k' := v] == m[k' := v] - {k}
  {
  }

  lemma RemoveFresh(m: map<string, string>, k: string, v: string)
    requires k !in m
    ensures m[k := v] - {k} == m
  {
  }

  /** Removing key k from ordered pairs (Bucket.Delete); a missing key is no error. */
  function DeleteEntry(es: seq<Entry>, k: string): (r: seq<Entry>)
    requires Ordered(es)
    ensures Ordered(r)
    ensures AsMap(r) == AsMap(es) - {k}
  {
    if es == [] then []
    else if es[0].key == k then
      LessIrreflexive(k);
      assert k !in KeySet(es[1..]);
      RemoveFresh(AsMap(es[1..]), k, es[0].value);
      es[1..]
    else
      var tail := DeleteEntry(es[1..], k);
      assert ([es[0]] + tail)[1..] == tail;
      AboveSubset(es[0].key, KeySet(tail), KeySet(es[1..]));
      assert AsMap([es[0]] + tail) == AsMap(es) - {k} by {
        RemoveUpdate(AsMap(es[1..]), k, es[0].key, es[0].value);
      }
      [es[0]] + tail
  }

  /** Bucket.Put: the bucket afterwards maps k to v and is otherwise unchanged. */
  function Put(b: Bucket, k: string, v: string): (r: Bucket)
    ensures Contents(r) == Contents(b)[k := v]
    ensures r.sequence == b.sequence
  {
    BucketValue(PutEntry(b.entries, k, v), b.sequence)
  }

  /** Bucket.Delete: the bucket afterwards lacks k and is otherwise unchanged. */
  function Delete(b: Bucket, k: string): (r: Bucket)
    ensures Contents(r) == Contents(b) - {k}
    ensures r.sequence == b.sequence
  {
    BucketValue(DeleteEntry(b.entries, k), b.sequence)
  }

  /** The map a sequence of writes leaves behind: of two writes to one key, the later wins. */
  function Overlay(ws: seq<Entry>): map<string, string> {
    if ws == [] then map[]
    else Overlay(ws[..|ws| - 1])[ws[|ws| - 1].key := ws[|ws| - 1].value]
  }

  lemma {:induction false} KeySetAppend(es: seq<Entry>, e: Entry)
    ensures KeySet(es + [e]) == KeySet(es) + {e.key}
  {
    if es != [] {
      assert (es + [e])[1..] == es[1..] + [e];
      KeySetAppend(es[1..], e);
    }
  }

  /** The keys a sequence of writes touches. */
  lemma {:induction false} OverlayKeys(ws: seq<Entry>)
    ensures Overlay(ws).Keys == KeySet(ws)
    decreases |ws|
  {
    if ws != [] {
      var init := ws[..|ws| - 1];
      OverlayKeys(init);
      assert ws == init + [ws[|ws| - 1]];
      KeySetAppend(init, ws[|ws| - 1]);
    }
  }

  /** A write that no later write to the same key overrides is the one that stays. */
  lemma {:induction false} OverlayLast(ws: seq<Entry>, i: nat)
    requires i < |ws|
    requires forall j | i < j < |ws| :: ws[j].key != ws[i].key
    ensures ws[i].key in Overlay(ws) && Overlay(ws)[ws[i].key] == ws[i].value
    decreases |ws|
  {
    if i < |ws| - 1 {
      var init := ws[..|ws| - 1];
      OverlayLast(init, i);
    }
  }

  lemma UnionUpdate(a: map<string, string>, b: map<string, string>, k: string, v: string)
    ensures (a + b)[k := v] == a + b[k := v]
  {
  }

  /** A run of Puts, in order. */
  function PutAll(b: Bucket, ws: seq<Entry>): (r: Bucket)
    ensures Contents(r) == Contents(b) + Overlay(ws)
    ensures r.sequence == b.sequence
    decreases |ws|
  {
    if ws == [] then b
    else
      var last := ws[|ws| - 1];
      UnionUpdate(Contents(b), Overlay(ws[..|ws| - 1]), last.key, last.value);
      Put(PutAll(b, ws[..|ws| - 1]), last.key, last.value)
  }

  /** One more write after a run of writes. */
  lemma PutAllSnoc(b: Bucket, ws: seq<Entry>, e: Entry)
    ensures PutAll(b, ws + [e]) == Put(PutAll(b, ws), e.key, e.value)
  {
    assert (ws + [e])[..|ws|] == ws;
  }

  /** One more delete after a run of deletes. */
  lemma DeleteAllSnoc(b: Bucket, ks: seq<string>, k: string)
    ensures DeleteAll(b, ks + [k]) == Delete(DeleteAll(b, ks), k)
  {
    assert (ks + [k])[..|ks|] == ks;
  }

  /** The elements of a sequence of keys, as a set. */
  function Members(ks: seq<string>): set<string> {
    set k | k in ks
  }

  /** A run of Deletes, in order. */
  function DeleteAll(b: Bucket, ks: seq<string>): (r: Bucket)
    ensures Contents(r) == Contents(b) - Members(ks)
    ensures r.sequence == b.sequence
    decreases |ks|
  {
    if ks == [] then b
    else
      var r := Delete(DeleteAll(b, ks[..|ks| - 1]), ks[|ks| - 1]);
      assert ks == ks[..|ks| - 1] + [ks[|ks| - 1]];
      assert Members(ks) == Members(ks[..|ks| - 1]) + {ks[|ks| - 1]};
      r
  }

  /** Bucket.NextSequence: the counter goes up by one and its new value is returned. */
  function NextSequence(b: Bucket): (r: (Bucket, nat))
    ensures r.1 == b.sequence + 1 && r.0.sequence == r.1
    ensures r.0.entries == b.entries
  {
    var id := b.sequence + 1;
    (BucketValue(b.entries, id), id)
  }

  /** Tx.CreateBucketIfNotExists: an existing bucket is kept as it is. */
  function CreateBucketIfNotExists(s: Store, name: string): (r: Store)
    ensures name in r && r.Keys == s.Keys + {name}
    ensures r == s[name := r[name]]
    ensures name in s ==> r == s
    ensures name !in s ==> r[name] == EmptyBucket
    ensures forall n | n in s :: r[n] == s[n]
  {
    if name in s then s else s[name := EmptyBucket]
  }
}
