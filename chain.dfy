/** One bucket's chain of entries (struct Entry in hash.c), modelled as the
    sequence of its (key, value) pairs from the head along the next links. */
module Chain {
  import opened Wrappers
  import opened Normalize
  import opened BucketIndex

  /** Sizes of the key and value buffers of an entry, NUL included (hash.c:13-14). */
  const MAX_VALUE_LEN: nat := 800
  const MAX_KEY_LEN: nat := 20

  datatype Entry = Entry(key: string, value: string)

  /** What generateEntry and set store: a trimmed key and value, each short
      enough for its buffer together with the terminating NUL. */
  predicate EntryFits(e: Entry)
  {
    Trimmed(e.key) && Trimmed(e.value) && |e.key| < MAX_KEY_LEN && |e.value| < MAX_VALUE_LEN
  }

  predicate DistinctKeys(chain: seq<Entry>)
  {
    forall p, q :: 0 <= p < q < |chain| ==> chain[p].key != chain[q].key
  }

  /** The invariant of bucket `index`: keys pairwise distinct, every entry
      stored in trimmed form with a first character that selects this
      bucket (so getIndex maps it here, see ValidChainIndex). */
  predicate ValidChain(chain: seq<Entry>, index: int)
  {
    DistinctKeys(chain) &&
    forall p :: 0 <= p < |chain| ==>
      EntryFits(chain[p]) && chain[p].key != [] && CharIndex(chain[p].key[0]) == index
  }

  /** Every entry of a valid chain of bucket `index` has getIndex(key) == index. */
  lemma ValidChainIndex(chain: seq<Entry>, index: int, p: nat)
    requires ValidChain(chain, index) && p < |chain|
    ensures GetIndex(chain[p].key) == index
  {
    TrimmedKeyIndex(chain[p].key);
  }

  /** Position of the first entry with key `k` walking from the head, or -1. */
  function IndexOfKey(chain: seq<Entry>, k: string): (pos: int)
    ensures -1 <= pos < |chain|
    ensures pos >= 0 ==> chain[pos].key == k
    ensures forall p :: 0 <= p < |chain| && (pos == -1 || p < pos) ==> chain[p].key != k
  {
    if chain == [] then -1
    else if chain[0].key == k then 0
    else
      var pos := IndexOfKey(chain[1..], k);
      if pos == -1 then -1 else pos + 1
  }

  /** The contract of IndexOfKey determines it: any position that holds `k`
      with no earlier `k` is the one it returns. */
  lemma IndexOfKeyAt(chain: seq<Entry>, k: string, pos: int)
    requires -1 <= pos < |chain|
    requires pos >= 0 ==> chain[pos].key == k
    requires forall p :: 0 <= p < |chain| && (pos == -1 || p < pos) ==> chain[p].key != k
    ensures IndexOfKey(chain, k) == pos
  {
  }

  /** The value a scan of the chain finds for `k`, None for "notfound". */
  function Find(chain: seq<Entry>, k: string): Option<string>
  {
    var pos := IndexOfKey(chain, k);
    if pos == -1 then None else Some(chain[pos].value)
  }

  /** With distinct keys, the lookup finds v exactly when (k, v) is stored. */
  lemma FindIff(chain: seq<Entry>, k: string, v: string)
    requires DistinctKeys(chain)
    ensures Find(chain, k) == Some(v) <==> Entry(k, v) in chain
  {
    if Entry(k, v) in chain {
      var p :| 0 <= p < |chain| && chain[p] == Entry(k, v);
      IndexOfKeyAt(chain, k, p);
    }
  }

  /** The effect of set with a value on the target chain (hash.c:157-183):
      the value of the entry holding k is replaced in place, or a new entry
      goes in front of the old head. */
  function Upsert(chain: seq<Entry>, k: string, v: string): seq<Entry>
  {
    var pos := IndexOfKey(chain, k);
    if pos == -1 then [Entry(k, v)] + chain
    else chain[pos := Entry(chain[pos].key, v)]
  }

  /** The effect of deleteEntry on the target chain (hash.c:226-251): the
      entry holding k is unlinked; without one the chain is unchanged. */
  function Remove(chain: seq<Entry>, k: string): seq<Entry>
  {
    var pos := IndexOfKey(chain, k);
    if pos == -1 then chain else chain[..pos] + chain[pos + 1..]
  }

  /** After an upsert, k finds the new value and every other key finds what
      it found before. */
  lemma FindUpsert(chain: seq<Entry>, k: string, v: string, k2: string)
    ensures Find(Upsert(chain, k, v), k2) == if k2 == k then Some(v) else Find(chain, k2)
  {
    var pos := IndexOfKey(chain, k);
    var r := Upsert(chain, k, v);
    var pos2 := IndexOfKey(chain, k2);
    if pos == -1 {
      if k2 == k {
        IndexOfKeyAt(r, k2, 0);
      } else {
        IndexOfKeyAt(r, k2, if pos2 == -1 then -1 else pos2 + 1);
      }
    } else {
      if k2 == k {
        IndexOfKeyAt(r, k2, pos);
      } else {
        IndexOfKeyAt(r, k2, pos2);
      }
    }
  }

  /** Replacing a value keeps the chain's length, order and keys; inserting
      puts one new entry at the head followed by the old chain. */
  lemma UpsertShape(chain: seq<Entry>, k: string, v: string)
    ensures Find(chain, k).Some? ==>
              var r := Upsert(chain, k, v);
              |r| == |chain| &&
              (forall p :: 0 <= p < |chain| ==> r[p].key == chain[p].key) &&
              (forall p :: 0 <= p < |chain| && chain[p].key != k ==> r[p] == chain[p])
    ensures Find(chain, k).None? ==> Upsert(chain, k, v) == [Entry(k, v)] + chain
  {
  }

  /** Setting the same value twice is setting it once: the second upsert
      finds the entry the first one left and rewrites it unchanged. */
  lemma UpsertIdempotent(chain: seq<Entry>, k: string, v: string)
    ensures Upsert(Upsert(chain, k, v), k, v) == Upsert(chain, k, v)
  {
    var r := Upsert(chain, k, v);
    var pos := IndexOfKey(chain, k);
    if pos == -1 {
      IndexOfKeyAt(r, k, 0);
    } else {
      IndexOfKeyAt(r, k, pos);
    }
  }

  /** An upsert of a fitting entry for this bucket keeps the bucket invariant. */
  lemma UpsertValid(chain: seq<Entry>, index: int, k: string, v: string)
    requires ValidChain(chain, index)
    requires EntryFits(Entry(k, v)) && GetIndex(k) == index != -1
    ensures ValidChain(Upsert(chain, k, v), index)
  {
    var r := Upsert(chain, k, v);
    TrimmedKeyIndex(k);
    if IndexOfKey(chain, k) == -1 {
      assert forall p :: 1 <= p < |r| ==> r[p] == chain[p - 1];
    }
  }

  /** After a removal k is gone and every other key finds what it found before. */
  lemma FindRemove(chain: seq<Entry>, k: string, k2: string)
    requires DistinctKeys(chain)
    ensures Find(Remove(chain, k), k2) == if k2 == k then None else Find(chain, k2)
  {
    var pos := IndexOfKey(chain, k);
    var r := Remove(chain, k);
    if pos != -1 {
      assert forall p :: 0 <= p < pos ==> r[p] == chain[p];
      assert forall p :: pos <= p < |r| ==> r[p] == chain[p + 1];
      var pos2 := IndexOfKey(chain, k2);
      if k2 == k {
        IndexOfKeyAt(r, k2, -1);
      } else if pos2 == -1 {
        IndexOfKeyAt(r, k2, -1);
      } else if pos2 < pos {
        IndexOfKeyAt(r, k2, pos2);
      } else {
        IndexOfKeyAt(r, k2, pos2 - 1);
      }
    }
  }

  /** A removal deletes exactly one entry, the one holding k, when there is
      one, and otherwise changes nothing. */
  lemma RemoveExactlyOne(chain: seq<Entry>, k: string)
    ensures var pos := IndexOfKey(chain, k);
            pos != -1 ==>
              |Remove(chain, k)| == |chain| - 1 &&
              multiset(Remove(chain, k)) + multiset{chain[pos]} == multiset(chain)
    ensures IndexOfKey(chain, k) == -1 ==> Remove(chain, k) == chain
  {
    var pos := IndexOfKey(chain, k);
    if pos != -1 {
      assert chain == chain[..pos] + [chain[pos]] + chain[pos + 1..];
    }
  }

  /** A removal keeps the bucket invariant. */
  lemma RemoveValid(chain: seq<Entry>, index: int, k: string)
    requires ValidChain(chain, index)
    ensures ValidChain(Remove(chain, k), index)
  {
    var pos := IndexOfKey(chain, k);
    var r := Remove(chain, k);
    if pos != -1 {
      assert forall p :: 0 <= p < pos ==> r[p] == chain[p];
      assert forall p :: pos <= p < |r| ==> r[p] == chain[p + 1];
    }
  }
}
