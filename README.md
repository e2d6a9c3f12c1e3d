# An alphanumeric hashtable, modelled and verified in Dafny

This project models `hash.c`, a small string-to-string hashtable. The table
has 62 chain heads, one for each of `0`-`9`, `A`-`Z` and `a`-`z`. A key goes
into the bucket of its first character once its leading and trailing
whitespace has been trimmed. Each bucket is a singly linked chain of entries.
The model covers every function of the file except the `main` driver.

- `trimSpaces` becomes `Normalize.TrimSpaces`. It keeps the source's two
  scanning loops and is proved against the pure `Normalize.Trim`.
- `getIndex` becomes the pure function `BucketIndex.GetIndex`. It uses the
  source's range tests on the character code.
- `struct Entry` becomes `Chain.Entry`. A chain is the sequence of its
  entries, head first, following the `next` links.
- `struct Hashtable` becomes `Hash.Hashtable`. Its `table` field is an array
  of 62 chains. `numberOfEntries` is a field that is set to 0.
- `generateHashtable`, `generateEntry`, `set`, `getValue` and `deleteEntry`
  are the constructor and methods of `Hash.Hashtable`, plus
  `Hash.GenerateEntry`. `set`, `getValue` and `deleteEntry` walk the chain
  of the key's bucket with a loop, as the C code does; `generateHashtable`
  loops over the 62 heads, and `generateEntry` has no loop.
- Each method is proved against a pure function of the old contents:
  `Hash.TableSet`, `Hash.TableDelete` and `Hash.TableLookup`. The lemmas in
  `Chain` and `Hash` prove the map behaviour of those functions: lookup after
  set, lookup after delete, the bucket invariant, idempotence, and
  exactly-one removal.
- The invariant `Hashtable.Valid` holds throughout and says:
  - every chain holds distinct keys;
  - every entry is stored trimmed and fits its buffers;
  - every entry lives in the bucket `getIndex` gives for its key.
- The "notfound" result of `getValue` is `None`. A NULL value (the argument
  of `set`, and the argument and result of `trimSpaces`) is `None` of an
  `Option<string>`. Keys are plain strings and are never NULL.

Where the code and its header comment disagree:

- `set` is documented (hash.c:129) to return 1 on success, but its success
  paths end without a return value: the bare `return;` at hash.c:164 and
  hash.c:174, and falling off the end at hash.c:186 after a head insert or a
  successful delete. The model returns 1 there, as the comment promises.

Other choices, where the code leaves a case undefined or unstated:

- `numberOfEntries` is set to 0 and never updated. The model does the same
  and states no count property.
- The buffer sizes `MAX_KEY_LEN` and `MAX_VALUE_LEN` are never checked by the
  code; `strcpy` would overflow them. The model makes "the trimmed key and
  value fit" a precondition of `set` with a value, and of `generateEntry`.
- `deleteEntry`'s `prev` is uninitialised, but it is read only after at
  least one step of the walk. The model proves that `prev` is then the
  position just before `temp`.

## Model

| member | source | states |
|---|---|---|
| Normalize.LeadingSpaces | hash.c:30-34 | the count of skipped characters is the maximal whitespace run at the front: all of it is whitespace and the next character is not |
| Normalize.TrailingSpaces | hash.c:36-39 | the maximal whitespace run at the back: all of it is whitespace and the character before it is not |
| Normalize.TrimIsTrimmed | hash.c:23-44 | the trimmed string neither starts nor ends with whitespace |
| Normalize.TrimUnique | hash.c:23-44 | reference characterisation: any cut of the string into whitespace run, middle with non-whitespace ends, whitespace run gives exactly the trimmed string |
| Normalize.TrimOfTrimmed | hash.c:23-44 | a string without whitespace at its ends is unchanged by trimming |
| Normalize.TrimIdempotent | hash.c:85-86 | trimming twice equals trimming once, so the repeated trimSpaces calls of set, getIndex and generateEntry agree |
| Normalize.TrimEmptyIff | hash.c:23-44 | the trimmed string is empty exactly when the input is empty or all whitespace |
| Normalize.TrimSpaces | hash.c:23-44 | NULL in exactly when NULL out; otherwise the two loops return the reference trimmed string, which has no whitespace at either end |
| Normalize.TrailingScanAsWritten | hash.c:36-39 | the unguarded trailing loop either stops after a non-whitespace character with only whitespace behind it, or runs off the front exactly when everything before the start point is whitespace |
| Normalize.TrailingScanAsWrittenAgrees | hash.c:36-39 | the unguarded loop stays in the string exactly when the string has a non-whitespace character, and there it stops where the trimmed string ends |
| Normalize.TrimAsWrittenReadsBeforeString | hash.c:36 | on "" and on "  " the unguarded loop reads before the first character |
| BucketIndex.BucketChar | hash.c:112-117 | each of the 62 buckets is named by an alphanumeric character |
| BucketIndex.GetIndex | hash.c:106-122 | the index is -1 or a bucket; it is -1 exactly when the trimmed key is empty or starts with a non-alphanumeric character; otherwise it is the bucket of that first character |
| BucketIndex.BucketCharRoundTrip | hash.c:110-119 | the character-to-index map and the bucket-to-character map are inverse on the 62 buckets and the 62 alphanumerics |
| BucketIndex.CharIndexClasses | hash.c:112-119 | digits map to 0-9, upper-case letters to 10-35, lower-case letters to 36-61, everything else to -1 |
| BucketIndex.SameBucketIff | hash.c:106-122 | two valid keys share a bucket exactly when their trimmed forms start with the same character |
| BucketIndex.TrimmedKeyIndex | hash.c:108-110 | a key without surrounding whitespace is indexed by its own first character |
| BucketIndex.GetIndexBadKeys | hash.c:261-264 | "#", "" and "$test" are bad keys |
| BucketIndex.GetIndexDigits | hash.c:264 | "0" and "9" go to buckets 0 and 9 |
| BucketIndex.GetIndexLetters | hash.c:265-266 | "A", "Z", "a", "z" go to buckets 10, 35, 36, 61 |
| BucketIndex.GetIndexCollision | hash.c:258-263 | "Toronto", "The Land" and "T Land" all go to bucket 29 |
| Chain.ValidChainIndex | hash.c:157-183 | every entry of a valid chain of bucket i has getIndex(key) == i |
| Chain.IndexOfKey | hash.c:168-178 | the first position holding the key walking from the head, with no earlier match; -1 when none holds it |
| Chain.IndexOfKeyAt | hash.c:205-210 | any position holding the key with no earlier match is the one the walk stops at |
| Chain.FindIff | hash.c:205-212 | with distinct keys, the lookup finds v exactly when (k, v) is in the chain |
| Chain.FindUpsert | hash.c:157-184 | after set, the key finds the new value and every other key finds what it found before |
| Chain.UpsertShape | hash.c:168-184 | a replace keeps the length, order and keys and changes only the matching entry; an insert puts one new entry before the old head |
| Chain.UpsertIdempotent | hash.c:168-178 | setting the same key and value twice equals setting it once |
| Chain.UpsertValid | hash.c:157-184 | set keeps the bucket invariant (distinct keys, trimmed fitting entries in their own bucket) |
| Chain.FindRemove | hash.c:228-251 | after delete the key is not found and every other key finds what it found before |
| Chain.RemoveExactlyOne | hash.c:228-251 | delete removes exactly the one entry holding the key: length one less and the same multiset minus that entry; without a match the chain is unchanged |
| Chain.RemoveValid | hash.c:228-251 | delete keeps the bucket invariant |
| Hash.EmptyTableLookup | hash.c:71-72 | a table of empty heads is valid and finds nothing |
| Hash.TableSetValid | hash.c:131-186 | set keeps the table invariant, and changes nothing for a bad key |
| Hash.TableSetLookup | hash.c:131-186 | after set(key, value) with a valid key, any key with key's trimmed form finds the trimmed value and every other key finds what it found before |
| Hash.TableDeleteValid | hash.c:220-252 | delete keeps the table invariant, and changes nothing for a bad key |
| Hash.TableDeleteLookup | hash.c:220-252 | after delete, any key with key's trimmed form finds nothing and every other key finds what it found before |
| Hash.TableDeleteAt | hash.c:228-251 | when the walk stops at pos, delete unlinks exactly chain[pos] (or nothing at the end), and the key was present exactly when pos is before the end |
| Hash.GenerateEntry | hash.c:83-100 | the new entry holds the trimmed key and value and fits its buffers |
| Hash.Hashtable.GenerateHashtable | hash.c:62-76 | a fresh table with all 62 heads empty, count 0, valid, and finding nothing for any key |
| Hash.Hashtable.Set | hash.c:131-186 | keeps the invariant; with a bad key returns -1 and changes nothing; with a value returns 1 and the contents become TableSet of the old contents; with NULL the contents become TableDelete of the old ones and the result is 1 when the key was present, otherwise -1 |
| Hash.Hashtable.GetValue | hash.c:193-213 | returns the table's lookup of the key; a found value is stored under the trimmed key in the key's bucket; "notfound" means a bad key or a bucket with no entry for the trimmed key |
| Hash.Hashtable.DeleteEntry | hash.c:220-252 | keeps the invariant; the contents become TableDelete of the old ones (through the head for the first entry, through prev otherwise); returns 1 exactly when the key was present, otherwise 0 |
| Example.CollisionExample | hash.c:258-270 | after setting "Toronto" and then "The Land" in the same bucket, both are found with their own values |
| Example.QuebecCitySetTrim | hash.c:260 | " Quebec City" trims to "Quebec City" |
| Example.QuebecCityGetTrim | hash.c:271 | "  Quebec City    " trims to "Quebec City" |
| Example.TrimmedLookupExample | hash.c:260-271 | a value set under " Quebec City" is found under "  Quebec City    " |
| Example.BadKeyExample | hash.c:261-272 | set("$test", ...) leaves the table unchanged, and "$test" is not found |
| Example.DeleteExample | hash.c:262-275 | after set("T Land", v), "T Land" finds v; after set("T Land", NULL) it is not found |

## Left out

- `main` (hash.c:254-279) and the `printf` diagnostics of `set`: output is not modelled. The facts the driver prints are stated as the `Example` and `GetIndex*` lemmas instead.
- Memory management: `malloc` failure in `generateHashtable` and `generateEntry`, `strndup`, the `free` of unlinked entries, and the trimmed copies that are never freed.
- `isspace` is the "C" locale's: space, tab, newline, vertical tab, form feed and carriage return. Other locales are not modelled.
- Strings are their characters up to the terminating NUL. Embedded NULs and byte encodings are not modelled.
- `numberOfEntries`: the code never updates it, so the model proves no count property.
- Hash.Hashtable.GetValue: the C code returns a pointer into the entry, which aliases the stored buffer; the model returns the value itself. A stored value that is literally "notfound" cannot be told apart from a miss in the C code; the model's `None` can.
- Hash.Hashtable.Set: requires the trimmed key to be shorter than 20 characters and the trimmed value shorter than 800, because the C code's `strcpy` into the entry buffers overflows otherwise (undefined behaviour, not a modelled error). The bound counts characters, while `strcpy` counts bytes, so it guarantees a fit only when every character takes one byte.
- Hash.GenerateEntry: requires the same buffer bounds as `Set`, for the same reason and with the same one-byte-per-character proviso.
- Keys are never NULL: in the C code a NULL key passes through `trimSpaces` as NULL (hash.c:25-26) and `getIndex` then dereferences it (hash.c:110), so `set`, `getValue` and `deleteEntry` crash on it. `BucketIndex.GetIndex`, `Hash.GenerateEntry` and the methods of `Hash.Hashtable` take keys as plain strings; only values and the argument of `trimSpaces` are `Option`.
- Hash.Hashtable.DeleteEntry: on a bad key it returns 0 and changes nothing, where the C code indexes `table[-1]`. Its only caller, `set`, rejects bad keys first.
- Hash.Hashtable.Set: the C code's unused `last` pointer (hash.c:155, hash.c:176) is not modelled.

## Findings

| source | as written | input that shows it | evidently intended | confidence | as-written member | corrected member |
|---|---|---|---|---|---|---|
| hash.c:36 | `while(isspace(toTrim[length - 1])) length--;` has no lower bound on `length` | a key or value that is "" or all whitespace, such as "  ": length reaches 0 and the loop goes on reading before the first character of the original string | stop at length 0, so the trimmed result is the empty string | not executed | Normalize.TrimAsWrittenReadsBeforeString | Normalize.TrimSpaces |
