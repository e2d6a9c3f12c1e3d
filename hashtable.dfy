/** The table of hash.c: 62 chain heads, one per alphanumeric first
    character, and an entry counter. */
module Hash {
  import opened Wrappers
  import opened Normalize
  import opened BucketIndex
  import opened Chain

  /** The bucket invariant for all 62 chains of a table's contents. */
  predicate ValidBuckets(buckets: seq<seq<Entry>>)
  {
    |buckets| == BUCKETS && forall i :: 0 <= i < BUCKETS ==> ValidChain(buckets[i], i)
  }

  /** A table's contents as a map from keys to values: what getValue finds
      for `key`, None standing for "notfound". */
  function TableLookup(buckets: seq<seq<Entry>>, key: string): Option<string>
    requires |buckets| == BUCKETS
  {
    var index := GetIndex(key);
    if index == -1 then None else Find(buckets[index], Trim(key))
  }

  /** A table whose every chain is empty maps every key to None. */
  lemma EmptyTableLookup(buckets: seq<seq<Entry>>, key: string)
    requires |buckets| == BUCKETS
    requires forall i :: 0 <= i < BUCKETS ==> buckets[i] == []
    ensures ValidBuckets(buckets)
    ensures TableLookup(buckets, key) == None
  {
  }

  /** The contents after set(key, value) with a non-NULL value: the trimmed
      value upserted under the trimmed key in the key's bucket; unchanged
      for a bad key. */
  function TableSet(buckets: seq<seq<Entry>>, key: string, value: string): seq<seq<Entry>>
    requires |buckets| == BUCKETS
  {
    var index := GetIndex(key);
    if index == -1 then buckets else buckets[index := Upsert(buckets[index], Trim(key), Trim(value))]
  }

  /** The contents after deleteEntry(key): the entry holding the trimmed key
      unlinked from the key's bucket; unchanged for a bad key. */
  function TableDelete(buckets: seq<seq<Entry>>, key: string): seq<seq<Entry>>
    requires |buckets| == BUCKETS
  {
    var index := GetIndex(key);
    if index == -1 then buckets else buckets[index := Remove(buckets[index], Trim(key))]
  }

  /** A set with a valid key keeps the invariant; a set with a bad key
      changes nothing. */
  lemma TableSetValid(buckets: seq<seq<Entry>>, key: string, value: string)
    requires ValidBuckets(buckets)
    requires GetIndex(key) != -1 ==> EntryFits(Entry(Trim(key), Trim(value)))
    ensures ValidBuckets(TableSet(buckets, key, value))
    ensures GetIndex(key) == -1 ==> TableSet(buckets, key, value) == buckets
  {
    var index := GetIndex(key);
    if index != -1 {
      TrimIdempotent(key);
      UpsertValid(buckets[index], index, Trim(key), Trim(value));
    }
  }

  /** After a set with a valid key, the key finds the trimmed value and
      every key with another trimmed form finds what it found before. */
  lemma TableSetLookup(buckets: seq<seq<Entry>>, key: string, value: string, k2: string)
    requires |buckets| == BUCKETS && GetIndex(key) != -1
    ensures TableLookup(TableSet(buckets, key, value), k2) ==
              if Trim(k2) == Trim(key) then Some(Trim(value)) else TableLookup(buckets, k2)
  {
    var index := GetIndex(key);
    if GetIndex(k2) == index {
      FindUpsert(buckets[index], Trim(key), Trim(value), Trim(k2));
    }
  }

  /** A delete keeps the invariant; with a bad key it changes nothing. */
  lemma TableDeleteValid(buckets: seq<seq<Entry>>, key: string)
    requires ValidBuckets(buckets)
    ensures ValidBuckets(TableDelete(buckets, key))
    ensures GetIndex(key) == -1 ==> TableDelete(buckets, key) == buckets
  {
    var index := GetIndex(key);
    if index != -1 {
      RemoveValid(buckets[index], index, Trim(key));
    }
  }

  /** After a delete the key finds nothing and every key with another
      trimmed form finds what it found before. */
  lemma TableDeleteLookup(buckets: seq<seq<Entry>>, key: string, k2: string)
    requires ValidBuckets(buckets)
    ensures TableLookup(TableDelete(buckets, key), k2) ==
              if Trim(k2) == Trim(key) then None else TableLookup(buckets, k2)
  {
    var index := GetIndex(key);
    if index != -1 && GetIndex(k2) == index {
      FindRemove(buckets[index], Trim(key), Trim(k2));
    }
  }

  /** What deleteEntry's walk needs: once the scan of the key's chain
      stops at `pos` (the first entry holding the trimmed key, or the end),
      the delete unlinks exactly that entry, and the key was present exactly
      when the scan stopped before the end. */
  lemma TableDeleteAt(buckets: seq<seq<Entry>>, key: string, pos: nat)
    requires |buckets| == BUCKETS && GetIndex(key) != -1
    requires pos <= |buckets[GetIndex(key)]|
    requires pos < |buckets[GetIndex(key)]| ==> buckets[GetIndex(key)][pos].key == Trim(key)
    requires forall p :: 0 <= p < pos ==> buckets[GetIndex(key)][p].key != Trim(key)
    ensures TableLookup(buckets, key).Some? <==> pos < |buckets[GetIndex(key)]|
    ensures TableDelete(buckets, key) ==
              if pos == |buckets[GetIndex(key)]| then buckets
              else buckets[GetIndex(key) := buckets[GetIndex(key)][..pos] + buckets[GetIndex(key)][pos + 1..]]
  {
    var chain := buckets[GetIndex(key)];
    if pos == |chain| {
      IndexOfKeyAt(chain, Trim(key), -1);
      assert buckets == buckets[GetIndex(key) := chain];
    } else {
      IndexOfKeyAt(chain, Trim(key), pos);
    }
  }

  /** generateEntry (hash.c:83-100): an entry holding the trimmed key and
      value; the two copies need the trimmed texts to fit their buffers. */
  method GenerateEntry(key: string, value: string) returns (newEntry: Entry)
    requires |Trim(key)| < MAX_KEY_LEN && |Trim(value)| < MAX_VALUE_LEN
    ensures newEntry == Entry(Trim(key), Trim(value))
    ensures EntryFits(newEntry)
  {
    var k := TrimSpaces(Some(key));
    var v := TrimSpaces(Some(value));
    newEntry := Entry(k.value, v.value);
  }

  class Hashtable {
    /** Set to 0 on creation and never changed by set or deleteEntry. */
    var numberOfEntries: int
    /** table[i] is the chain hanging from head i, head first. */
    const table: array<seq<Entry>>

    ghost predicate Valid()
      reads this, table
    {
      table.Length == BUCKETS && ValidBuckets(table[..])
    }

    /** What getValue finds for `key` in the current table. */
    ghost function Lookup(key: string): Option<string>
      reads this, table
      requires Valid()
    {
      TableLookup(table[..], key)
    }

    /** generateHashtable (hash.c:62-76): all 62 heads empty, count 0. */
    constructor GenerateHashtable()
      ensures Valid() && fresh(table)
      ensures forall i :: 0 <= i < BUCKETS ==> table[i] == []
      ensures numberOfEntries == 0
      ensures forall key :: Lookup(key) == None
    {
      var heads := new seq<Entry>[BUCKETS];
      for i := 0 to BUCKETS
        invariant forall j :: 0 <= j < i ==> heads[j] == []
      {
        heads[i] := [];
      }
      table := heads;
      numberOfEntries := 0;
      forall key ensures TableLookup(heads[..], key) == None {
        EmptyTableLookup(heads[..], key);
      }
    }

    /** set (hash.c:131-186): with a bad key returns -1 and changes nothing;
        with a NULL value deletes through deleteEntry and returns -1 when the
        key was absent; otherwise walks the chain and replaces the value of
        the entry holding the trimmed key in place, or puts a new entry in
        front of the head. The C code returns no value on its success paths;
        this model returns 1 there, as its header comment promises. */
    method Set(key: string, value: Option<string>) returns (status: int)
      requires Valid()
      requires value.Some? && GetIndex(key) != -1 ==>
                 |Trim(key)| < MAX_KEY_LEN && |Trim(value.value)| < MAX_VALUE_LEN
      modifies table
      ensures Valid()
      ensures GetIndex(key) == -1 ==> status == -1 && table[..] == old(table[..])
      ensures GetIndex(key) != -1 && value.Some? ==>
                status == 1 && table[..] == TableSet(old(table[..]), key, value.value)
      ensures GetIndex(key) != -1 && value.None? ==>
                && table[..] == TableDelete(old(table[..]), key)
                && status == if old(Lookup(key)).Some? then 1 else -1
    {
      var trimmedKey := TrimSpaces(Some(key));
      var k := trimmedKey.value;
      var v := TrimSpaces(value);
      TrimIdempotent(key);
      var index := GetIndex(k);
      assert index == GetIndex(key) && k == Trim(key);
      if index == -1 {
        return -1;
      }
      if v.None? {
        var deleted := DeleteEntry(k);
        if deleted == 0 {
          return -1;
        }
        return 1;
      }
      TrimIdempotent(value.value);
      TrimIsTrimmed(key);
      TrimIsTrimmed(value.value);
      ghost var before := table[..];
      TableSetValid(before, key, value.value);
      var chain := table[index];
      if chain == [] {
        var newEntry := GenerateEntry(k, v.value);
        assert Upsert(chain, k, v.value) == [newEntry];
        table[index] := [newEntry];
        assert table[..] == TableSet(before, key, value.value);
        return 1;
      }
      var n := 0;
      while n < |chain|
        invariant 0 <= n <= |chain|
        invariant table[..] == before
        invariant forall p :: 0 <= p < n ==> chain[p].key != k
      {
        if k == chain[n].key {
          IndexOfKeyAt(chain, k, n);
          table[index] := chain[n := Entry(chain[n].key, v.value)];
          assert table[..] == TableSet(before, key, value.value);
          return 1;
        }
        n := n + 1;
      }
      IndexOfKeyAt(chain, k, -1);
      var newEntry := GenerateEntry(k, v.value);
      table[index] := [newEntry] + chain;
      assert table[..] == TableSet(before, key, value.value);
      return 1;
    }

    /** getValue (hash.c:193-213): walks the chain of the key's bucket and
        returns the value stored under the trimmed key; None where the C code
        returns "notfound" (bad key, or no entry with that key). */
    method GetValue(key: string) returns (value: Option<string>)
      requires Valid()
      ensures value == Lookup(key)
      ensures value.Some? ==>
                GetIndex(key) != -1 && Entry(Trim(key), value.value) in table[GetIndex(key)]
      ensures value.None? ==>
                GetIndex(key) == -1 ||
                forall e :: e in table[GetIndex(key)] ==> e.key != Trim(key)
    {
      var trimmed := TrimSpaces(Some(key));
      var k := trimmed.value;
      TrimIdempotent(key);
      var index := GetIndex(k);
      if index == -1 {
        return None;
      }
      var chain := table[index];
      var n := 0;
      while n < |chain|
        invariant 0 <= n <= |chain|
        invariant forall p :: 0 <= p < n ==> chain[p].key != k
      {
        if k == chain[n].key {
          IndexOfKeyAt(chain, k, n);
          return Some(chain[n].value);
        }
        n := n + 1;
      }
      IndexOfKeyAt(chain, k, -1);
      return None;
    }

    /** deleteEntry (hash.c:220-252): walks temp and prev along the chain to
        the entry holding the trimmed key, unlinks it through the head pointer
        when it is the head and through its predecessor otherwise, and
        returns 1; returns 0 and changes nothing when no entry holds the key.
        A bad key also returns 0 here, where the C code indexes table[-1]. */
    method DeleteEntry(key: string) returns (deleted: int)
      requires Valid()
      modifies table
      ensures Valid()
      ensures table[..] == TableDelete(old(table[..]), key)
      ensures deleted == if old(Lookup(key)).Some? then 1 else 0
    {
      var trimmed := TrimSpaces(Some(key));
      var k := trimmed.value;
      TrimIdempotent(key);
      var index := GetIndex(k);
      assert index == GetIndex(key) && k == Trim(key);
      if index == -1 {
        return 0;
      }
      ghost var before := table[..];
      TableDeleteValid(before, key);
      var chain := table[index];
      var temp := 0;
      var prev := 0;
      while temp < |chain| && k != chain[temp].key
        invariant 0 <= temp <= |chain|
        invariant temp > 0 ==> prev == temp - 1
        invariant forall p :: 0 <= p < temp ==> chain[p].key != k
      {
        prev := temp;
        temp := temp + 1;
      }
      TableDeleteAt(before, key, temp);
      if temp == |chain| {
        return 0;
      }
      if temp == 0 {
        assert chain[..temp] + chain[temp + 1..] == chain[1..];
        table[index] := chain[1..];
      } else {
        table[index] := chain[..prev + 1] + chain[temp + 1..];
      }
      return 1;
    }
  }
}
