/** Facts from the demonstration sequence of hash.c:257-275, stated on the
    table functions that the methods of Hashtable are proved against. */
module Example {
  import opened Wrappers
  import opened Normalize
  import opened BucketIndex
  import opened Chain
  import opened Hash

  /** "Toronto" and "The Land" share bucket 'T' and stay separately
      retrievable whichever table they are set into. */
  lemma CollisionExample(buckets: seq<seq<Entry>>)
    requires |buckets| == BUCKETS
    ensures var b1 := TableSet(buckets, "Toronto", "10000");
            var b2 := TableSet(b1, "The Land", "123231");
            && TableLookup(b2, "Toronto") == Some("10000")
            && TableLookup(b2, "The Land") == Some("123231")
  {
    GetIndexCollision();
    TrimOfTrimmed("Toronto");
    TrimOfTrimmed("The Land");
    TrimOfTrimmed("10000");
    TrimOfTrimmed("123231");
    var b1 := TableSet(buckets, "Toronto", "10000");
    TableSetLookup(buckets, "Toronto", "10000", "Toronto");
    TableSetLookup(b1, "The Land", "123231", "Toronto");
    TableSetLookup(b1, "The Land", "123231", "The Land");
  }

  /** The spelling of hash.c:260 trims to "Quebec City". */
  lemma QuebecCitySetTrim()
    ensures Trim(" Quebec City") == "Quebec City"
  {
    TrimUnique(" Quebec City", 1, 12);
  }

  /** The spelling of hash.c:271 trims to "Quebec City" as well. */
  lemma QuebecCityGetTrim()
    ensures Trim("  Quebec City    ") == "Quebec City"
  {
    TrimUnique("  Quebec City    ", 2, 13);
  }

  /** A key set as " Quebec City" is found under "  Quebec City    ". */
  lemma TrimmedLookupExample(buckets: seq<seq<Entry>>)
    requires |buckets| == BUCKETS
    ensures TableLookup(TableSet(buckets, " Quebec City", "3414213"), "  Quebec City    ") == Some("3414213")
  {
    TrimOfTrimmed("3414213");
    QuebecCitySetTrim();
    QuebecCityGetTrim();
    TrimmedKeyIndex("Quebec City");
    TableSetLookup(buckets, " Quebec City", "3414213", "  Quebec City    ");
  }

  /** "$test" (hash.c:261) has a bad first character: set stores nothing. */
  lemma BadKeyExample(buckets: seq<seq<Entry>>)
    requires |buckets| == BUCKETS
    ensures TableSet(buckets, "$test", "floyd") == buckets
    ensures TableLookup(buckets, "$test") == None
  {
    GetIndexBadKeys();
  }

  /** set("T Land", NULL) after set("T Land", ...) leaves "T Land" not found
      (hash.c:262, hash.c:274-275). */
  lemma DeleteExample(buckets: seq<seq<Entry>>)
    requires ValidBuckets(buckets)
    ensures var b1 := TableSet(buckets, "T Land", "32312312");
            ValidBuckets(b1) && TableLookup(b1, "T Land") == Some("32312312") &&
            TableLookup(TableDelete(b1, "T Land"), "T Land") == None
  {
    GetIndexCollision();
    TrimOfTrimmed("32312312");
    TrimOfTrimmed("T Land");
    var b1 := TableSet(buckets, "T Land", "32312312");
    TableSetValid(buckets, "T Land", "32312312");
    TableSetLookup(buckets, "T Land", "32312312", "T Land");
    TableDeleteLookup(b1, "T Land", "T Land");
  }
}
