/** Bucket-index derivation (getIndex in hash.c): the bucket of a key is fixed
    by the first character of the trimmed key. */
module BucketIndex {
  import opened Normalize

  /** Number of chain heads in a table (hash.c:56). */
  const BUCKETS: nat := 62


  predicate IsAlnum(c: char)
  {
    ('0' <= c <= '9') || ('A' <= c <= 'Z') || ('a' <= c <= 'z')
  }

  /** The character whose keys live in bucket i: the digits, then the
      upper-case letters, then the lower-case letters, each in order. */
  function BucketChar(i: nat): (c: char)
    requires i < BUCKETS
    ensures IsAlnum(c)
  {
    if i < 10 then ('0' as int + i) as char
    else if i < 36 then ('A' as int + i - 10) as char
    else ('a' as int + i - 36) as char
  }

  /** The range tests of hash.c:110-119 on the character code; -1 marks a bad key. */
  function CharIndex(c: char): int
  {
    var keyInInt := c as int;
    if 47 < keyInInt < 58 then keyInInt - 48
    else if 64 < keyInInt < 91 then keyInInt - 65 + 10
    else if 96 < keyInInt < 123 then keyInInt - 97 + 36
    else -1
  }

  /** getIndex (hash.c:106-122): the index of the first character of the
      trimmed key; an empty trimmed key reads the terminating NUL, which is
      not alphanumeric, and so is a bad key as well. */
  function GetIndex(key: string): (index: int)
    ensures -1 <= index < BUCKETS
    ensures index == -1 <==> Trim(key) == [] || !IsAlnum(Trim(key)[0])
    ensures index != -1 ==> BucketChar(index) == Trim(key)[0]
  {
    var k := Trim(key);
    if k == [] then -1 else CharIndex(k[0])
  }

  /** Bucket i holds exactly the keys whose trimmed form starts with
      BucketChar(i): the two are inverse on the 62 buckets and the 62
      alphanumeric characters. */
  lemma BucketCharRoundTrip(i: nat, c: char)
    requires i < BUCKETS
    ensures CharIndex(BucketChar(i)) == i
    ensures IsAlnum(c) ==> 0 <= CharIndex(c) < BUCKETS && BucketChar(CharIndex(c)) == c
  {
  }

  /** The three character classes land in consecutive, disjoint index ranges. */
  lemma CharIndexClasses(c: char)
    ensures '0' <= c <= '9' ==> CharIndex(c) == (c as int) - ('0' as int) && 0 <= CharIndex(c) < 10
    ensures 'A' <= c <= 'Z' ==> CharIndex(c) == (c as int) - ('A' as int) + 10 && 10 <= CharIndex(c) < 36
    ensures 'a' <= c <= 'z' ==> CharIndex(c) == (c as int) - ('a' as int) + 36 && 36 <= CharIndex(c) < 62
    ensures !IsAlnum(c) ==> CharIndex(c) == -1
  {
  }

  /** Two keys share a bucket exactly when their trimmed forms start with the
      same alphanumeric character (so "Toronto" and "The Land" collide). */
  lemma SameBucketIff(k1: string, k2: string)
    requires GetIndex(k1) != -1 && GetIndex(k2) != -1
    ensures GetIndex(k1) == GetIndex(k2) <==> Trim(k1)[0] == Trim(k2)[0]
  {
  }

  /** A key with no whitespace at its ends is its own trimmed form. */
  lemma TrimmedKeyIndex(key: string)
    requires Trimmed(key)
    ensures Trim(key) == key
    ensures GetIndex(key) == if key == [] then -1 else CharIndex(key[0])
  {
    TrimOfTrimmed(key);
  }

  /** The cases the demonstration driver prints (hash.c:264-266), plus the
      empty key and a punctuation key from hash.c:261. */
  lemma GetIndexBadKeys()
    ensures GetIndex("#") == -1 && GetIndex("") == -1 && GetIndex("$test") == -1
  {
    TrimmedKeyIndex("#");
    TrimmedKeyIndex("$test");
  }

  lemma GetIndexDigits()
    ensures GetIndex("0") == 0 && GetIndex("9") == 9
  {
    TrimmedKeyIndex("0");
    TrimmedKeyIndex("9");
  }

  lemma GetIndexLetters()
    ensures GetIndex("A") == 10 && GetIndex("Z") == 35
    ensures GetIndex("a") == 36 && GetIndex("z") == 61
  {
    TrimmedKeyIndex("A");
    TrimmedKeyIndex("Z");
    TrimmedKeyIndex("a");
    TrimmedKeyIndex("z");
  }

  /** "Toronto", "T Land" and "The Land" (hash.c:258-263) share bucket 29. */
  lemma GetIndexCollision()
    ensures GetIndex("Toronto") == GetIndex("The Land") == GetIndex("T Land") == 29
  {
    TrimmedKeyIndex("Toronto");
    TrimmedKeyIndex("The Land");
    TrimmedKeyIndex("T Land");
  }
}
