/** Data_Structures/Assignment3/nm4358/hashtable.cpp: a word counter built
    from a separately chained hash table and a max-heap of its buckets.

    A bucket is the `LinkedList` of its words, written here as the value
    `Bucket(entries, size)`; the heap holds bucket numbers (see `MaxHeap`).
    `unsigned long` is 64 bits wide, so hash arithmetic is taken modulo
    `WORD`; a key's `char`s are signed, so bytes 128 to 255 count as
    -128 to -1 before they are converted. */
module HashTables {
  import opened Outcomes
  import opened Text
  import opened LinkedLists
  import opened MaxHeap

  /** 2^64: one more than the largest `unsigned long`. */
  const WORD: int := 0x1_0000_0000_0000_0000

  /** Conversion of an integer to `unsigned long`. */
  function Wrap(x: int): (r: nat)
    ensures r < WORD
  {
    x % WORD
  }

  /** The value of a byte read as a signed `char`. */
  function Signed(c: Byte): (r: int)
    ensures -128 <= r < 128 && (r < 0 <==> c >= 128)
  {
    if c < 128 then c else c - 256
  }

  /** `key[i]` converted to `unsigned long`. */
  function CharBits(c: Byte): (r: nat)
    ensures r < WORD
  {
    Wrap(Signed(c))
  }

  /** Functions 1 and 3, `hash = hash * base + key[i]` from 0, and the same
      fold from any seed. */
  function Rolling(key: Bytes, seed: nat, base: nat): (h: nat)
    decreases |key|
  {
    if key == [] then seed else Wrap(Rolling(key[..|key| - 1], seed, base) * base + CharBits(key[|key| - 1]))
  }

  /** Function 4, djb2: `hash = ((hash << 5) + hash) + key[i]` from 5381. */
  function Djb2(key: Bytes): (h: nat)
    decreases |key|
  {
    if key == [] then 5381
    else
      var h := Djb2(key[..|key| - 1]);
      Wrap(Wrap(Wrap(h * 32) + h) + CharBits(key[|key| - 1]))
  }

  /** Function 5, sdbm: `hash = key[i] + (hash << 6) + (hash << 16) - hash`. */
  function Sdbm(key: Bytes): (h: nat)
    decreases |key|
  {
    if key == [] then 0
    else
      var h := Sdbm(key[..|key| - 1]);
      Wrap(Wrap(Wrap(CharBits(key[|key| - 1]) + Wrap(h * 64)) + Wrap(h * 65536)) - h)
  }

  /** Function 2: `hash ^= (hash << 5) + (hash >> 2) + key[i]`. */
  function XorShift(key: Bytes): (h: bv64)
    decreases |key|
  {
    if key == [] then 0
    else
      var h := XorShift(key[..|key| - 1]);
      h ^ ((h << 5) + (h >> 2) + CharBits(key[|key| - 1]) as bv64)
  }

  /** Function 6: `hash = (hash << 4) ^ (hash >> 28) ^ key[i]`. */
  function CrcLike(key: Bytes): (h: bv64)
    decreases |key|
  {
    if key == [] then 0
    else
      var h := CrcLike(key[..|key| - 1]);
      (h << 4) ^ (h >> 28) ^ CharBits(key[|key| - 1]) as bv64
  }

  /** The 64-bit hash of `key` under function `f` (1 to 6): an `unsigned
      long`, which for the empty key is the starting value, 5381 for djb2 and
      0 for the others. */
  function Hash(key: Bytes, f: int): (h: nat)
    requires 1 <= f <= 6
    ensures h < WORD
    ensures key == [] ==> h == if f == 4 then 5381 else 0
  {
    match f
    case 1 => Rolling(key, 0, 31)
    case 2 => XorShift(key) as nat
    case 3 => Rolling(key, 0, 37)
    case 4 => Djb2(key)
    case 5 => Sdbm(key)
    case _ => CrcLike(key) as nat
  }

  /** `hashCode(key)`: `invalid_argument` unless the selected function is one
      of 1 to 6; otherwise a bucket number below `capacity`. */
  function HashCode(key: Bytes, f: int, capacity: nat): (r: Result<nat>)
    requires capacity > 0
    ensures r.Err? <==> !(1 <= f <= 6)
    ensures r.Err? ==> r.error == InvalidArgument
    ensures r.Ok? ==> r.value < capacity
  {
    if 1 <= f <= 6 then Ok(Hash(key, f) % capacity) else Err(InvalidArgument)
  }

  /** The polynomial `seed * base^n + key[0] * base^(n-1) + ... + key[n-1]`
      over the signed `char` values, in unbounded integers. */
  function Polynomial(key: Bytes, seed: int, base: int): int
    decreases |key|
  {
    if key == [] then seed else Polynomial(key[..|key| - 1], seed, base) * base + Signed(key[|key| - 1])
  }

  /** Reducing before multiplying and adding does not change the result
      modulo `WORD`. */
  lemma ModMulAdd(x: int, b: int, y: int)
    ensures Wrap(Wrap(x) * b + Wrap(y)) == Wrap(x * b + y)
  {
    var q, r := x / WORD, x % WORD;
    var s, t := y / WORD, y % WORD;
    assert x * b == q * b * WORD + r * b by {
      assert x == q * WORD + r;
    }
    assert x * b + y == (r * b + t) + (q * b + s) * WORD;
    AddMultiple(r * b + t, q * b + s);
  }

  lemma AddMultiple(z: int, k: int)
    ensures (z + k * WORD) % WORD == z % WORD
  {
  }

  /** Functions 1 and 3 are the polynomial of the key in base 31 and 37
      with 64-bit wrap-around. */
  lemma {:induction false} RollingIsPolynomial(key: Bytes, seed: nat, base: nat)
    requires seed < WORD
    ensures Rolling(key, seed, base) == Polynomial(key, seed, base) % WORD
    decreases |key|
  {
    if key != [] {
      var p := key[..|key| - 1];
      RollingIsPolynomial(p, seed, base);
      ModMulAdd(Polynomial(p, seed, base), base, Signed(key[|key| - 1]));
    }
  }

  /** Reducing one summand first does not change a sum modulo `WORD`. */
  lemma WrapAdd(x: int, y: int)
    ensures Wrap(Wrap(x) + y) == Wrap(x + y)
  {
    AddMultiple(Wrap(x) + y, x / WORD);
  }

  /** One round of djb2 multiplies by 33 and adds the character. */
  lemma Djb2Step(h: int, c: int)
    ensures Wrap(Wrap(Wrap(h * 32) + h) + c) == Wrap(h * 33 + c)
  {
    WrapAdd(h * 32, h);
    WrapAdd(h * 32 + h, c);
  }

  /** Function 4 is djb2: `h * 33 + c` from 5381, so the base-33
      polynomial with seed 5381, with 64-bit wrap-around. */
  lemma {:induction false} Djb2IsPolynomial(key: Bytes)
    ensures Djb2(key) == Rolling(key, 5381, 33)
    ensures Djb2(key) == Polynomial(key, 5381, 33) % WORD
    decreases |key|
  {
    if key != [] {
      Djb2IsPolynomial(key[..|key| - 1]);
      Djb2Step(Djb2(key[..|key| - 1]), CharBits(key[|key| - 1]));
    }
    RollingIsPolynomial(key, 5381, 33);
  }

  /** One round of sdbm multiplies by 65599 = 2^6 + 2^16 - 1 and adds the
      character. */
  lemma SdbmStep(h: int, c: int)
    ensures Wrap(Wrap(Wrap(c + Wrap(h * 64)) + Wrap(h * 65536)) - h) == Wrap(h * 65599 + c)
  {
    var s, m := c + h * 64, h * 65536;
    assert Wrap(c + Wrap(h * 64)) == Wrap(s) by {
      WrapAdd(h * 64, c);
    }
    assert Wrap(Wrap(s) + Wrap(m)) == Wrap(s + m) by {
      WrapAdd(s, Wrap(m));
      WrapAdd(m, s);
    }
    WrapAdd(s + m, -h);
  }

  /** Function 5 is sdbm: `h * 65599 + c` from 0, with 64-bit
      wrap-around. */
  lemma SdbmIsPolynomial(key: Bytes)
    ensures Sdbm(key) == Rolling(key, 0, 65599)
    ensures Sdbm(key) == Polynomial(key, 0, 65599) % WORD
  {
    SdbmIsRolling(key);
    RollingIsPolynomial(key, 0, 65599);
  }

  lemma {:induction false} SdbmIsRolling(key: Bytes)
    ensures Sdbm(key) == Rolling(key, 0, 65599)
    decreases |key|
  {
    if key != [] {
      var init := key[..|key| - 1];
      SdbmIsRolling(init);
      SdbmStep(Sdbm(init), CharBits(key[|key| - 1]));
    }
  }

  /** The bytes of the `punctuation` string of `import`: `.,!?;"'` and the
      UTF-8 encodings of the curly quotes, E2 80 9C, E2 80 9D, E2 80 98 and
      E2 80 99. */
  const PUNCTUATION: set<Byte> := {0x2E, 0x2C, 0x21, 0x3F, 0x3B, 0x22, 0x27, 0xE2, 0x80, 0x9C, 0x9D, 0x98, 0x99}

  /** `tolower` of one byte: only `A` to `Z` change. */
  function Lower(c: Byte): (r: Byte)
    ensures !(65 <= r <= 90)
    ensures c in PUNCTUATION <==> r in PUNCTUATION
  {
    if 65 <= c <= 90 then c + 32 else c
  }

  /** The word without its leading punctuation. */
  function DropLeading(w: Bytes): (r: Bytes)
    ensures r == [] || r[0] !in PUNCTUATION
  {
    if w != [] && w[0] in PUNCTUATION then DropLeading(w[1..]) else w
  }

  /** The word without its trailing punctuation. */
  function DropTrailing(w: Bytes): (r: Bytes)
    ensures r == [] || r[|r| - 1] !in PUNCTUATION
  {
    if w != [] && w[|w| - 1] in PUNCTUATION then DropTrailing(w[..|w| - 1]) else w
  }

  /** Every byte lower-cased. */
  function LowerAll(w: Bytes): (r: Bytes)
    ensures |r| == |w|
  {
    seq(|w|, i requires 0 <= i < |w| => Lower(w[i]))
  }

  /** What `import` makes of one word before inserting it. */
  function Cleaned(w: Bytes): Bytes
  {
    LowerAll(DropTrailing(DropLeading(w)))
  }

  /** Skipping a prefix of punctuation does not change what stripping the
      leading punctuation gives. */
  lemma {:induction false} DropLeadingPrefix(w: Bytes, n: nat)
    requires n <= |w| && forall j :: 0 <= j < n ==> w[j] in PUNCTUATION
    ensures DropLeading(w) == DropLeading(w[n..])
    decreases n
  {
    if n > 0 {
      DropLeadingPrefix(w[1..], n - 1);
      assert w[1..][n - 1..] == w[n..];
    }
  }

  /** Cutting a suffix of punctuation does not change what stripping the
      trailing punctuation gives. */
  lemma {:induction false} DropTrailingSuffix(w: Bytes, n: nat)
    requires n <= |w| && forall j :: n <= j < |w| ==> w[j] in PUNCTUATION
    ensures DropTrailing(w) == DropTrailing(w[..n])
    decreases |w| - n
  {
    if n < |w| {
      DropTrailingSuffix(w[..|w| - 1], n);
      assert w[..|w| - 1][..n] == w[..n];
    } else {
      assert w[..n] == w;
    }
  }

  /** Lines 151-164 of `import`: strip punctuation from the start, then from
      the end (never past the start), and take what is left. `ss >> word`
      never yields an empty word. */
  method TrimWord(word: Bytes) returns (cleanedWord: Bytes)
    requires |word| > 0
    ensures cleanedWord == DropTrailing(DropLeading(word))
  {
    var start, end := 0, |word| - 1;
    while start < |word| && word[start] in PUNCTUATION
      invariant 0 <= start <= |word|
      invariant forall j :: 0 <= j < start ==> word[j] in PUNCTUATION
    {
      start := start + 1;
    }
    while end > start && word[end] in PUNCTUATION
      invariant start - 1 <= end < |word|
      invariant forall j :: end < j < |word| ==> word[j] in PUNCTUATION
    {
      end := end - 1;
    }
    cleanedWord := word[start..end + 1];
    TrimmedSlice(word, start, end);
  }

  /** Where the two loops of `TrimWord` stop, the bytes between are the word
      without its leading and trailing punctuation. */
  lemma TrimmedSlice(word: Bytes, start: nat, end: int)
    requires start <= |word| && forall j :: 0 <= j < start ==> word[j] in PUNCTUATION
    requires start < |word| ==> word[start] !in PUNCTUATION
    requires start - 1 <= end < |word| && forall j :: end < j < |word| ==> word[j] in PUNCTUATION
    requires end > start ==> word[end] !in PUNCTUATION
    ensures word[start..end + 1] == DropTrailing(DropLeading(word))
  {
    DropLeadingPrefix(word, start);
    var kept := word[start..];
    assert DropLeading(word) == kept;
    DropTrailingSuffix(kept, end + 1 - start);
    assert kept[..end + 1 - start] == word[start..end + 1];
  }

  /** Lines 166-169 of `import`: `c = tolower(c)` for every byte, in place. */
  method LowerInPlace(word: Bytes) returns (cleanedWord: Bytes)
    ensures cleanedWord == LowerAll(word)
  {
    cleanedWord := word;
    for i := 0 to |cleanedWord|
      invariant |cleanedWord| == |word|
      invariant forall j :: 0 <= j < i ==> cleanedWord[j] == Lower(word[j])
      invariant forall j :: i <= j < |cleanedWord| ==> cleanedWord[j] == word[j]
    {
      cleanedWord := cleanedWord[i := Lower(cleanedWord[i])];
    }
  }

  /** Lines 151-169 of `import`: one word as it is inserted. */
  method CleanWord(word: Bytes) returns (cleanedWord: Bytes)
    requires |word| > 0
    ensures cleanedWord == Cleaned(word)
  {
    cleanedWord := TrimWord(word);
    cleanedWord := LowerInPlace(cleanedWord);
  }

  /** A cleaned word has no capital letters, and when it is not empty it
      neither starts nor ends with punctuation. */
  lemma CleanedEnds(w: Bytes)
    ensures forall i :: 0 <= i < |Cleaned(w)| ==> !(65 <= Cleaned(w)[i] <= 90)
    ensures Cleaned(w) != [] ==> Cleaned(w)[0] !in PUNCTUATION && Cleaned(w)[|Cleaned(w)| - 1] !in PUNCTUATION
  {
    var t := DropTrailing(DropLeading(w));
    if t != [] {
      DropTrailingKeepsFirst(DropLeading(w));
    }
  }

  /** Stripping trailing punctuation keeps the first byte when something is
      left. */
  lemma {:induction false} DropTrailingKeepsFirst(w: Bytes)
    requires DropTrailing(w) != []
    ensures DropTrailing(w)[0] == w[0]
    decreases |w|
  {
    if w != [] && w[|w| - 1] in PUNCTUATION {
      DropTrailingKeepsFirst(w[..|w| - 1]);
    }
  }

  /** Cleaning a cleaned word changes nothing. */
  lemma CleanedIdempotent(w: Bytes)
    ensures Cleaned(Cleaned(w)) == Cleaned(w)
  {
    var c := Cleaned(w);
    CleanedEnds(w);
    assert DropLeading(c) == c;
    assert DropTrailing(c) == c;
    assert LowerAll(c) == c;
  }

  /** One bucket: the entries of its `LinkedList` and that list's `size`
      field, which the table also bumps for repeated words. */
  datatype Bucket = Bucket(entries: seq<Entry>, size: nat)

  /** The `getSize()` of every bucket, which orders the heap. */
  function Sizes(bs: seq<Bucket>): (s: seq<nat>)
    ensures |s| == |bs| && forall i :: 0 <= i < |bs| ==> s[i] == bs[i].size
  {
    seq(|bs|, i requires 0 <= i < |bs| => bs[i].size)
  }

  /** The `freq` stored for `word` among `es`, 0 when it is absent. */
  function FreqOf(es: seq<Entry>, word: Bytes): int
  {
    match IndexOf(es, word)
    case None => 0
    case Some(i) => es[i].freq
  }

  /** The entries of bucket `index` after `insert(word)`: a new word is
      appended with value `index`; a known one gets its old `freq` as value
      (`setValue(freq++)`) and one more `freq`. */
  function Counted(es: seq<Entry>, word: Bytes, index: nat): (r: seq<Entry>)
  {
    match IndexOf(es, word)
    case None => Upsert(es, word, index)
    case Some(i) => es[i := CountOnce(es[i])]
  }

  /** `node->setValue(node->freq++)`: the value becomes the old count and
      the count grows by one. */
  function CountOnce(e: Entry): (r: Entry)
    ensures r.key == e.key && r.value == e.freq && r.freq == e.freq + 1
  {
    e.(value := e.freq, freq := e.freq + 1)
  }

  /** The sum of the `freq`s of `es`. */
  function FreqSum(es: seq<Entry>): int
  {
    if es == [] then 0 else FreqSum(es[..|es| - 1]) + es[|es| - 1].freq
  }

  /** The sum of the bucket sizes. */
  function SumSizes(bs: seq<Bucket>): nat
  {
    if bs == [] then 0 else SumSizes(bs[..|bs| - 1]) + bs[|bs| - 1].size
  }

  lemma {:induction false} FreqSumUpdate(es: seq<Entry>, i: nat, e: Entry)
    requires i < |es|
    ensures FreqSum(es[i := e]) == FreqSum(es) - es[i].freq + e.freq
    decreases |es|
  {
    var n := |es| - 1;
    assert es[i := e][..n] == if i < n then es[..n][i := e] else es[..n];
    if i < n {
      FreqSumUpdate(es[..n], i, e);
    }
  }

  lemma {:induction false} SumSizesUpdate(bs: seq<Bucket>, i: nat, b: Bucket)
    requires i < |bs|
    ensures SumSizes(bs[i := b]) == SumSizes(bs) - bs[i].size + b.size
    decreases |bs|
  {
    var n := |bs| - 1;
    assert bs[i := b][..n] == if i < n then bs[..n][i := b] else bs[..n];
    if i < n {
      SumSizesUpdate(bs[..n], i, b);
    }
  }

  lemma {:induction false} SumSizesEmpty(bs: seq<Bucket>)
    requires forall i :: 0 <= i < |bs| ==> bs[i].size == 0
    ensures SumSizes(bs) == 0
    decreases |bs|
  {
    if bs != [] {
      SumSizesEmpty(bs[..|bs| - 1]);
    }
  }

  /** The number of buckets holding at least one occurrence. */
  function Occupied(bs: seq<Bucket>): (n: nat)
    ensures n <= |bs|
  {
    if bs == [] then 0 else Occupied(bs[..|bs| - 1]) + (if bs[|bs| - 1].size > 0 then 1 else 0)
  }

  lemma {:induction false} OccupiedUpdate(bs: seq<Bucket>, i: nat, b: Bucket)
    requires i < |bs|
    ensures Occupied(bs[i := b]) == Occupied(bs) - (if bs[i].size > 0 then 1 else 0) + (if b.size > 0 then 1 else 0)
    decreases |bs|
  {
    var n := |bs| - 1;
    assert bs[i := b][..n] == if i < n then bs[..n][i := b] else bs[..n];
    if i < n {
      OccupiedUpdate(bs[..n], i, b);
    }
  }

  lemma {:induction false} OccupiedNone(bs: seq<Bucket>)
    requires forall i :: 0 <= i < |bs| ==> bs[i].size == 0
    ensures Occupied(bs) == 0
    decreases |bs|
  {
    if bs != [] {
      OccupiedNone(bs[..|bs| - 1]);
    }
  }

  /** Every entry counted at least once: there are at least as many
      occurrences as entries. */
  lemma {:induction false} FreqSumAtLeast(es: seq<Entry>)
    requires forall i :: 0 <= i < |es| ==> es[i].freq >= 1
    ensures FreqSum(es) >= |es|
    decreases |es|
  {
    if es != [] {
      FreqSumAtLeast(es[..|es| - 1]);
    }
  }

  /** A bucket the table can hold: distinct words, each counted at least
      once and hashed to this bucket; `size` is the number of occurrences;
      the heap holds the bucket once per word. */
  ghost predicate BucketOk(bucket: Bucket, b: nat, f: int, capacity: nat, copies: nat)
    requires capacity > 0
  {
    DistinctKeys(bucket.entries) && bucket.size == FreqSum(bucket.entries) && |bucket.entries| == copies &&
    forall i :: 0 <= i < |bucket.entries| ==> bucket.entries[i].freq >= 1 && HashCode(bucket.entries[i].key, f, capacity) == Ok(b)
  }

  /** Entries with the same keys in the same order find every key at the
      same position. */
  lemma SameKeysSameIndex(es: seq<Entry>, rs: seq<Entry>, w: Bytes)
    requires |es| == |rs| && forall j :: 0 <= j < |es| ==> es[j].key == rs[j].key
    ensures IndexOf(rs, w) == IndexOf(es, w)
  {
    if IndexOf(es, w).Some? {
      var i := IndexOf(es, w).value;
      assert rs[i].key == w;
    }
  }

  /** `insert(word)` counts `word` once more and leaves every other word's
      count as it was. */
  lemma CountedFreq(es: seq<Entry>, word: Bytes, b: nat)
    requires DistinctKeys(es)
    ensures FreqOf(Counted(es, word, b), word) == FreqOf(es, word) + 1
    ensures forall w :: w != word ==> FreqOf(Counted(es, word, b), w) == FreqOf(es, w)
  {
    var rs := Counted(es, word, b);
    if IndexOf(es, word).None? {
      UpsertFinds(es, word, b);
      forall w | w != word
        ensures FreqOf(rs, w) == FreqOf(es, w)
      {
        UpsertKeepsOthers(es, word, b, w);
      }
    } else {
      var i := IndexOf(es, word).value;
      forall w
        ensures IndexOf(rs, w) == IndexOf(es, w)
      {
        SameKeysSameIndex(es, rs, w);
      }
    }
  }

  /** Counting a new word appends it to its bucket with `freq` 1: the bucket
      stays well formed with one more entry and one more occurrence. */
  lemma CountedNewOk(bucket: Bucket, b: nat, f: int, capacity: nat, copies: nat, word: Bytes)
    requires capacity > 0 && BucketOk(bucket, b, f, capacity, copies) && HashCode(word, f, capacity) == Ok(b)
    requires IndexOf(bucket.entries, word).None?
    ensures BucketOk(Bucket(Counted(bucket.entries, word, b), bucket.size + 1), b, f, capacity, copies + 1)
  {
    var es := bucket.entries;
    UpsertFinds(es, word, b);
    assert Counted(es, word, b)[..|es|] == es;
  }

  /** Counting a known word keeps the bucket well formed, with the same
      entries and one more occurrence. */
  lemma CountedAgainOk(bucket: Bucket, b: nat, f: int, capacity: nat, copies: nat, word: Bytes)
    requires capacity > 0 && BucketOk(bucket, b, f, capacity, copies)
    requires IndexOf(bucket.entries, word).Some?
    ensures BucketOk(Bucket(Counted(bucket.entries, word, b), bucket.size + 1), b, f, capacity, copies)
  {
    var es := bucket.entries;
    var i := IndexOf(es, word).value;
    FreqSumUpdate(es, i, CountOnce(es[i]));
    SameKeysDistinct(es, es[i := CountOnce(es[i])]);
  }

  /** The number of words `import` inserts: those that clean to something. */
  function KeptWords(words: seq<Bytes>): nat
  {
    if words == [] then 0 else KeptWords(words[..|words| - 1]) + (if Cleaned(words[|words| - 1]) != [] then 1 else 0)
  }

  /** How many of `words` clean to the non-empty word `w`: what `import`
      adds to the count of `w`. */
  function Occurrences(words: seq<Bytes>, w: Bytes): nat
  {
    if words == [] then 0
    else Occurrences(words[..|words| - 1], w) + (if w != [] && Cleaned(words[|words| - 1]) == w then 1 else 0)
  }

  /** Every counted word is one of the kept words. */
  lemma {:induction false} OccurrencesBounded(words: seq<Bytes>, w: Bytes)
    ensures Occurrences(words, w) <= KeptWords(words)
    ensures w == [] ==> Occurrences(words, w) == 0
  {
    if words != [] {
      OccurrencesBounded(words[..|words| - 1], w);
    }
  }

  /** The state of a table on values: buckets `bs` of a table with
      `capacity` buckets and hash function `f`, all well formed, and a heap
      whose `slots` hold each bucket once per word in it, `uniqueWords` in
      all. */
  ghost predicate TableOk(bs: seq<Bucket>, slots: seq<nat>, f: int, capacity: nat, uniqueWords: nat)
  {
    capacity > 0 && |bs| == capacity && |slots| == uniqueWords + 1 && Within(slots, Sizes(bs)) &&
    forall b | 0 <= b < |bs| :: BucketAt(bs, slots, b, f, capacity)
  }

  /** Bucket `b` of `bs` is well formed and holds one entry per copy of `b`
      in the heap `slots`. */
  ghost predicate BucketAt(bs: seq<Bucket>, slots: seq<nat>, b: nat, f: int, capacity: nat)
    requires capacity > 0 && b < |bs| && |slots| >= 1
  {
    BucketOk(bs[b], b, f, capacity, multiset(slots[1..])[b])
  }

  /** The `freq` `find_freq(word)` reports from buckets `bs`. */
  ghost function FreqIn(bs: seq<Bucket>, f: int, capacity: nat, word: Bytes): int
    requires capacity > 0 && |bs| == capacity
  {
    match HashCode(word, f, capacity)
    case Err(_) => 0
    case Ok(b) => FreqOf(bs[b].entries, word)
  }

  /** The buckets after `insert(word)` hashed to bucket `index`. */
  function CountedIn(bs: seq<Bucket>, index: nat, word: Bytes): (r: seq<Bucket>)
    requires index < |bs|
    ensures |r| == |bs|
  {
    bs[index := Bucket(Counted(bs[index].entries, word, index), bs[index].size + 1)]
  }

  /** After `insert(word)` the table reports one more for `word`, the same
      for every other word, and one more occurrence in all; `word` was new
      exactly when it was reported 0 times. */
  lemma InsertCounts(bs: seq<Bucket>, slots: seq<nat>, f: int, capacity: nat, u: nat, index: nat, word: Bytes)
    requires TableOk(bs, slots, f, capacity, u) && HashCode(word, f, capacity) == Ok(index)
    ensures FreqIn(CountedIn(bs, index, word), f, capacity, word) == FreqIn(bs, f, capacity, word) + 1
    ensures forall w :: w != word ==> FreqIn(CountedIn(bs, index, word), f, capacity, w) == FreqIn(bs, f, capacity, w)
    ensures FreqIn(bs, f, capacity, word) == 0 <==> IndexOf(bs[index].entries, word).None?
    ensures SumSizes(CountedIn(bs, index, word)) == SumSizes(bs) + 1
  {
    var es := bs[index].entries;
    var rs := CountedIn(bs, index, word);
    assert BucketAt(bs, slots, index, f, capacity);
    CountedFreq(es, word, index);
    SumSizesUpdate(bs, index, rs[index]);
    forall w | w != word
      ensures FreqIn(rs, f, capacity, w) == FreqIn(bs, f, capacity, w)
    {
      if HashCode(w, f, capacity) == Ok(index) {
        assert FreqOf(rs[index].entries, w) == FreqOf(es, w);
      }
    }
  }

  /** Lines 97-103 keep the table well formed, with one more word. */
  lemma AddWordKeepsTable(bs: seq<Bucket>, slots: seq<nat>, after: seq<nat>, f: int, capacity: nat, u: nat, index: nat, word: Bytes)
    requires TableOk(bs, slots, f, capacity, u) && HashCode(word, f, capacity) == Ok(index)
    requires IndexOf(bs[index].entries, word).None?
    requires |after| == u + 2 && Within(after, Sizes(CountedIn(bs, index, word)))
    requires multiset(after[1..]) == multiset(slots[1..]) + multiset{index}
    ensures TableOk(CountedIn(bs, index, word), after, f, capacity, u + 1)
  {
    AddedBucketOk(bs, slots, after, f, capacity, u, index, word);
    UpdateKeepsTable(bs, slots, CountedIn(bs, index, word), after, index, true, f, capacity, u + 1);
  }

  /** The bucket a new word joins stays well formed, with one more heap slot. */
  lemma AddedBucketOk(bs: seq<Bucket>, slots: seq<nat>, after: seq<nat>, f: int, capacity: nat, u: nat, index: nat, word: Bytes)
    requires TableOk(bs, slots, f, capacity, u) && HashCode(word, f, capacity) == Ok(index)
    requires IndexOf(bs[index].entries, word).None?
    requires |after| >= 1 && multiset(after[1..])[index] == multiset(slots[1..])[index] + 1
    ensures BucketAt(CountedIn(bs, index, word), after, index, f, capacity)
  {
    assert BucketAt(bs, slots, index, f, capacity);
    CountedNewOk(bs[index], index, f, capacity, multiset(slots[1..])[index], word);
  }

  /** Changing one bucket, and the number of heap slots of that bucket
      only, keeps the table well formed if the changed bucket is. */
  lemma UpdateKeepsTable(bs: seq<Bucket>, slots: seq<nat>, rs: seq<Bucket>, after: seq<nat>, index: nat, grew: bool, f: int, capacity: nat, u: nat)
    requires |slots| >= 1 && TableOk(bs, slots, f, capacity, |slots| - 1) && index < |bs|
    requires |rs| == |bs| && rs == bs[index := rs[index]]
    requires |after| == u + 1 && Within(after, Sizes(rs))
    requires multiset(after[1..]) == multiset(slots[1..]) + (if grew then multiset{index} else multiset{})
    requires BucketAt(rs, after, index, f, capacity)
    ensures TableOk(rs, after, f, capacity, u)
  {
    forall b | 0 <= b < |rs|
      ensures BucketAt(rs, after, b, f, capacity)
    {
      if b != index {
        OtherBucketKept(bs, slots, rs, after, b, f, capacity);
      }
    }
  }

  /** A bucket that neither changes nor changes its number of heap slots
      stays well formed. */
  lemma OtherBucketKept(bs: seq<Bucket>, slots: seq<nat>, rs: seq<Bucket>, after: seq<nat>, b: nat, f: int, capacity: nat)
    requires |slots| >= 1 && TableOk(bs, slots, f, capacity, |slots| - 1) && |after| >= 1 && |rs| == |bs| && b < |bs|
    requires rs[b] == bs[b] && multiset(after[1..])[b] == multiset(slots[1..])[b]
    ensures BucketAt(rs, after, b, f, capacity)
  {
    assert BucketAt(bs, slots, b, f, capacity);
  }

  /** Lines 107-111 keep the table well formed; the word is in the heap, so
      `unique_words - 1` is a slot of it. */
  lemma CountAgainKeepsTable(bs: seq<Bucket>, slots: seq<nat>, f: int, capacity: nat, u: nat, index: nat, word: Bytes)
    requires TableOk(bs, slots, f, capacity, u) && HashCode(word, f, capacity) == Ok(index)
    requires IndexOf(bs[index].entries, word).Some?
    ensures u >= 1
    ensures TableOk(CountedIn(bs, index, word), BubbleUpResult(slots, Sizes(bs), u - 1), f, capacity, u)
  {
    var rs := CountedIn(bs, index, word);
    var m := multiset(slots[1..]);
    assert BucketAt(bs, slots, index, f, capacity);
    assert m[index] >= 1;
    var after := BubbleUpResult(slots, Sizes(bs), u - 1);
    BubbleUpPermutes(slots, Sizes(bs), u - 1);
    assert multiset(after[1..]) == m;
    CountedAgainOk(bs[index], index, f, capacity, m[index], word);
    assert Within(after, Sizes(rs));
    assert BucketAt(rs, after, index, f, capacity);
    UpdateKeepsTable(bs, slots, rs, after, index, false, f, capacity, u);
  }

  /** Reordering the heap keeps the table well formed. */
  lemma ReorderKeepsTable(bs: seq<Bucket>, slots: seq<nat>, after: seq<nat>, f: int, capacity: nat, u: nat)
    requires TableOk(bs, slots, f, capacity, u)
    requires |after| == |slots| && Within(after, Sizes(bs)) && multiset(after[1..]) == multiset(slots[1..])
    ensures TableOk(bs, after, f, capacity, u)
  {
    forall b | 0 <= b < |bs|
      ensures BucketAt(bs, after, b, f, capacity)
    {
      OtherBucketKept(bs, slots, bs, after, b, f, capacity);
    }
  }

  /** The heap slots after the final loop of `import` as written: for `i`
      from `k` while `i < n`, `bubbledown(i)` then `bubbleup(i)`, where `n`
      is `unique_words / 2`. */
  function RepairAsWritten(a: seq<nat>, sizes: seq<nat>, k: nat, n: int): (r: seq<nat>)
    requires Within(a, sizes) && 1 <= k && n < |a|
    ensures |r| == |a| && Within(r, sizes)
    decreases n - k
  {
    if k < n then RepairAsWritten(BubbleUpResult(BubbleDownAsWritten(a, sizes, k), sizes, k), sizes, k + 1, n) else a
  }

  /** The final loop of `import` only reorders the heap's buckets. */
  lemma {:induction false} RepairAsWrittenPermutes(a: seq<nat>, sizes: seq<nat>, k: nat, n: int)
    requires Within(a, sizes) && 1 <= k && n < |a| && 0 < |a|
    ensures multiset(RepairAsWritten(a, sizes, k, n)[1..]) == multiset(a[1..])
    decreases n - k
  {
    if k < n {
      var down := BubbleDownAsWritten(a, sizes, k);
      BubbleDownAsWrittenPermutes(a, sizes, k);
      BubbleUpPermutes(down, sizes, k);
      RepairAsWrittenPermutes(BubbleUpResult(down, sizes, k), sizes, k + 1, n);
    }
  }

  /** Reading the words "b", "a", "a" into a table of two buckets with hash
      function 1: "b" goes to bucket 0 and "a" to bucket 1. The second "a"
      bubbles up slot `unique_words - 1` = 1, the root, so bucket 1 stays
      below bucket 0 although it is now bigger; the final loop of `import`
      runs for `i < 2 / 2` and so not at all. The root then names bucket 0,
      whose only word "b" was read once, while "a" was read twice. */
  lemma ImportAsWrittenMissesMax()
    ensures HashCode(B, 1, 2) == Ok(0) && HashCode(A, 1, 2) == Ok(1)
    ensures var r := ReadBAA(); var bs, slots := r.0, r.1;
      RepairAsWritten(slots, Sizes(bs), 1, 2 / 2) == [0, 0, 1] &&
      bs[0].entries[0].key == B && FreqIn(bs, 1, 2, B) == 1 && FreqIn(bs, 1, 2, A) == 2 &&
      !IsHeap([0, 0, 1], Sizes(bs))
  {
    HashCodesBA();
    ReadBAAValues();
    var bs := ReadBAA().0;
    assert IndexOf(bs[0].entries, B) == Some(0) && IndexOf(bs[1].entries, A) == Some(0);
  }

  /** The words "b" and "a". */
  const B: Bytes := [98]
  const A: Bytes := [97]

  lemma HashCodesBA()
    ensures HashCode(B, 1, 2) == Ok(0) && HashCode(A, 1, 2) == Ok(1)
  {
    assert Rolling(B, 0, 31) == 98 && Rolling(A, 0, 31) == 97;
  }

  /** The buckets and heap slots after `insert("b")` into bucket 0, then
      `insert("a")` twice into bucket 1, on a table of two buckets. */
  function ReadBAA(): (r: (seq<Bucket>, seq<nat>))
    ensures |r.0| == 2 && |r.1| == 3
  {
    var bs1 := CountedIn([Bucket([], 0), Bucket([], 0)], 0, B);
    var slots1 := InsertResult([0], Sizes(bs1), 0);
    var bs2 := CountedIn(bs1, 1, A);
    var slots2 := InsertResult(slots1, Sizes(bs2), 1);
    (CountedIn(bs2, 1, A), BubbleUpResult(slots2, Sizes(bs2), 1))
  }

  lemma ReadBAAValues()
    ensures ReadBAA().0 == [Bucket([Entry(B, 0, 1)], 1), Bucket([Entry(A, 1, 2)], 2)]
    ensures ReadBAA().1 == [0, 0, 1]
  {
    var eb, ea := Entry(B, 0, 1), Entry(A, 1, 1);
    var bs1, bs2 := [Bucket([eb], 1), Bucket([], 0)], [Bucket([eb], 1), Bucket([ea], 1)];
    ReadBStep();
    ReadAStep();
    ReadAAgainStep();
    HeapSteps(bs1, bs2);
  }

  lemma ReadBStep()
    ensures CountedIn([Bucket([], 0), Bucket([], 0)], 0, B) == [Bucket([Entry(B, 0, 1)], 1), Bucket([], 0)]
  {
    assert Counted([], B, 0) == [Entry(B, 0, 1)];
  }

  lemma ReadAStep()
    ensures CountedIn([Bucket([Entry(B, 0, 1)], 1), Bucket([], 0)], 1, A) ==
            [Bucket([Entry(B, 0, 1)], 1), Bucket([Entry(A, 1, 1)], 1)]
  {
    assert Counted([], A, 1) == [Entry(A, 1, 1)];
  }

  lemma ReadAAgainStep()
    ensures CountedIn([Bucket([Entry(B, 0, 1)], 1), Bucket([Entry(A, 1, 1)], 1)], 1, A) ==
            [Bucket([Entry(B, 0, 1)], 1), Bucket([Entry(A, 1, 2)], 2)]
  {
    assert IndexOf([Entry(A, 1, 1)], A) == Some(0);
    assert Counted([Entry(A, 1, 1)], A, 1) == [Entry(A, 1, 2)];
  }

  lemma HeapSteps(bs1: seq<Bucket>, bs2: seq<Bucket>)
    requires |bs1| == 2 && bs1[0].size == 1 && bs1[1].size == 0
    requires |bs2| == 2 && bs2[0].size == 1 && bs2[1].size == 1
    ensures InsertResult([0], Sizes(bs1), 0) == [0, 0]
    ensures InsertResult([0, 0], Sizes(bs2), 1) == [0, 0, 1]
    ensures BubbleUpResult([0, 0, 1], Sizes(bs2), 1) == [0, 0, 1]
  {
    assert Sizes(bs1) == [1, 0] && Sizes(bs2) == [1, 1];
  }

  class HashTable {
    var capacity: nat
    var buckets: array<Bucket>
    var myHeap: Heap
    var collisions: nat
    var uniqueWords: nat
    var totalWords: nat
    var hashCodeFunction: int

    /** Everything but the total: every bucket is well formed, the heap
        holds one slot per distinct word, and every distinct word but the
        first of its bucket was counted as a collision. */
    ghost predicate Consistent()
      reads this, buckets, myHeap
    {
      buckets.Length == capacity && myHeap.Valid() &&
      TableOk(buckets[..], myHeap.slots, hashCodeFunction, capacity, uniqueWords) &&
      collisions + Occupied(buckets[..]) == uniqueWords
    }

    /** ... and `total_words` is the number of occurrences in all buckets. */
    ghost predicate Valid()
      reads this, buckets, myHeap
    {
      Consistent() && totalWords == SumSizes(buckets[..])
    }

    /** What `find_freq(word)` reports for a non-empty word. */
    ghost function Freq(word: Bytes): int
      reads this, buckets
      requires capacity > 0 && buckets.Length == capacity
    {
      FreqIn(buckets[..], hashCodeFunction, capacity, word)
    }

    /** `HashTable(capacity)`: empty buckets, an empty heap, zero counters
        and hash function 1. */
    constructor (cap: int)
      requires cap > 0
      ensures Valid() && fresh(buckets) && fresh(myHeap)
      ensures capacity == cap && forall b :: 0 <= b < capacity ==> buckets[b] == Bucket([], 0)
      ensures myHeap.slots == [0]
      ensures collisions == 0 && uniqueWords == 0 && totalWords == 0 && hashCodeFunction == 1
    {
      capacity := cap;
      buckets := new Bucket[cap](_ => Bucket([], 0));
      myHeap := new Heap();
      collisions := 0;
      uniqueWords := 0;
      totalWords := 0;
      hashCodeFunction := 1;
      new;
      SumSizesEmpty(buckets[..]);
      OccupiedNone(buckets[..]);
    }

    /** `getCollisions()`: the number of distinct words that went into a
        bucket already holding a word. */
    function GetCollisions(): (r: nat)
      reads this, buckets, myHeap
      requires Valid()
      ensures r == GetUniqueWords() - Occupied(buckets[..])
    {
      collisions
    }

    /** `getUniqueWords()`: the number of words in the heap. */
    function GetUniqueWords(): (r: nat)
      reads this, buckets, myHeap
      requires Valid()
      ensures r == |myHeap.slots| - 1
    {
      uniqueWords
    }

    /** `getTotalWords()`: the number of occurrences in all buckets. */
    function GetTotalWords(): (r: nat)
      reads this, buckets, myHeap
      requires Valid()
      ensures r == SumSizes(buckets[..])
    {
      totalWords
    }

    /** Lines 97-103 of `insert`: a new word goes at the end of its bucket,
        which goes into the heap; a collision is counted when the bucket
        then holds more than one occurrence. */
    method AddWord(word: Bytes, index: nat)
      requires Consistent() && index < capacity && HashCode(word, hashCodeFunction, capacity) == Ok(index)
      requires IndexOf(buckets[index].entries, word).None?
      modifies this, buckets, myHeap
      ensures Consistent()
      ensures buckets == old(buckets) && myHeap == old(myHeap) && capacity == old(capacity)
      ensures hashCodeFunction == old(hashCodeFunction) && totalWords == old(totalWords)
      ensures buckets[..] == CountedIn(old(buckets[..]), index, word)
      ensures uniqueWords == old(uniqueWords) + 1
      ensures collisions == old(collisions) + if buckets[index].size > 1 then 1 else 0
      ensures myHeap.slots == InsertResult(old(myHeap.slots), Sizes(buckets[..]), index)
    {
      ghost var bs, slots := buckets[..], myHeap.slots;
      ghost var target := CountedIn(bs, index, word);
      var bucket := buckets[index];
      var added := Bucket(Upsert(bucket.entries, word, index), bucket.size + 1);
      assert added == target[index];
      buckets[index] := added;
      assert buckets[..] == target;
      uniqueWords := uniqueWords + 1;
      assert Within(slots, Sizes(target));
      InsertKeepsHeap(slots, Sizes(target), index);
      myHeap.Insert(index, Sizes(buckets[..]));
      AddWordKeepsTable(bs, slots, myHeap.slots, hashCodeFunction, capacity, uniqueWords - 1, index, word);
      OccupiedUpdate(bs, index, added);
      if buckets[index].size > 1 {
        collisions := collisions + 1;
      }
    }

    /** Lines 107-111 of `insert`: the word's node gets value `freq` and one
        more `freq`, slot `unique_words - 1` of the heap is bubbled up (with
        the bucket sizes before the change), and the bucket's `size` grows.
        Nothing reads the bucket between its two changes, so they are stored
        together. */
    method CountAgain(word: Bytes, index: nat, i: nat)
      requires Consistent() && index < capacity && HashCode(word, hashCodeFunction, capacity) == Ok(index)
      requires IndexOf(buckets[index].entries, word) == Some(i)
      modifies this, buckets, myHeap
      ensures Consistent()
      ensures buckets == old(buckets) && myHeap == old(myHeap) && capacity == old(capacity)
      ensures hashCodeFunction == old(hashCodeFunction) && totalWords == old(totalWords)
      ensures buckets[..] == CountedIn(old(buckets[..]), index, word)
      ensures uniqueWords == old(uniqueWords) && collisions == old(collisions)
      ensures myHeap.slots == BubbleUpResult(old(myHeap.slots), old(Sizes(buckets[..])), old(uniqueWords) - 1)
    {
      ghost var target := CountedIn(buckets[..], index, word);
      CountAgainKeepsTable(buckets[..], myHeap.slots, hashCodeFunction, capacity, uniqueWords, index, word);
      var sizes := Sizes(buckets[..]);
      var bucket := buckets[index];
      var counted := Bucket(bucket.entries[i := CountOnce(bucket.entries[i])], bucket.size + 1);
      assert counted == target[index];
      assert BucketAt(buckets[..], myHeap.slots, index, hashCodeFunction, capacity);
      FreqSumAtLeast(bucket.entries);
      OccupiedUpdate(buckets[..], index, counted);
      myHeap.BubbleUp(uniqueWords - 1, sizes);
      buckets[index] := counted;
      assert buckets[..] == target;
    }

    /** `insert(word)`. The branch of the source for a node found with a
        different key cannot be taken: `find` only returns a node with the
        key asked for. */
    method Insert(word: Bytes) returns (r: Outcome)
      requires Valid()
      modifies this, buckets, myHeap
      ensures Valid()
      ensures buckets == old(buckets) && myHeap == old(myHeap) && capacity == old(capacity)
      ensures hashCodeFunction == old(hashCodeFunction)
      ensures !(1 <= hashCodeFunction <= 6) ==> r == Failed(InvalidArgument) && unchanged(this, buckets, myHeap)
      ensures 1 <= hashCodeFunction <= 6 ==> r == Done && totalWords == old(totalWords) + 1
      ensures r.Done? ==> Freq(word) == old(Freq(word)) + 1
      ensures r.Done? ==> forall w :: w != word ==> Freq(w) == old(Freq(w))
      ensures r.Done? ==> HashCode(word, hashCodeFunction, capacity).Ok?
      ensures r.Done? ==> buckets[..] == CountedIn(old(buckets[..]), HashCode(word, hashCodeFunction, capacity).value, word)
      ensures r.Done? && old(Freq(word)) == 0 ==> uniqueWords == old(uniqueWords) + 1
      ensures r.Done? && old(Freq(word)) == 0 ==> (
        var h := HashCode(word, hashCodeFunction, capacity).value;
        collisions == old(collisions) + (if buckets[h].size > 1 then 1 else 0) &&
        myHeap.slots == InsertResult(old(myHeap.slots), Sizes(buckets[..]), h))
      ensures r.Done? && old(Freq(word)) != 0 ==> uniqueWords == old(uniqueWords) && collisions == old(collisions)
      ensures r.Done? && old(Freq(word)) != 0 ==>
        myHeap.slots == BubbleUpResult(old(myHeap.slots), old(Sizes(buckets[..])), old(uniqueWords) - 1)
    {
      var h := HashCode(word, hashCodeFunction, capacity);
      if h.Err? {
        return Failed(h.error);
      }
      var index := h.value;
      ghost var bs, slots, u := buckets[..], myHeap.slots, uniqueWords;
      InsertCounts(bs, slots, hashCodeFunction, capacity, u, index, word);
      var foundNode := IndexOf(buckets[index].entries, word);
      if foundNode.None? {
        AddWord(word, index);
      } else if buckets[index].entries[foundNode.value].key == word {
        CountAgain(word, index, foundNode.value);
      } else {
        assert false;
      }
      totalWords := totalWords + 1;
      r := Done;
    }

    /** `import(path)`, over the whitespace-separated words of the file, or
        `None` when the file cannot be opened (nothing happens then). Each
        word is cleaned and, unless nothing is left of it, inserted; then
        the heap is restored. */
    method Import(file: Option<seq<Bytes>>) returns (r: Outcome)
      requires Valid()
      requires file.Some? ==> forall k :: 0 <= k < |file.value| ==> file.value[k] != []
      modifies this, buckets, myHeap
      ensures Valid()
      ensures buckets == old(buckets) && myHeap == old(myHeap) && capacity == old(capacity)
      ensures hashCodeFunction == old(hashCodeFunction)
      ensures file.None? ==> r == Done && unchanged(this, buckets, myHeap)
      ensures r.Failed? ==> r == Failed(InvalidArgument) && !(1 <= hashCodeFunction <= 6)
      ensures file.Some? && 1 <= hashCodeFunction <= 6 ==> r == Done
      ensures file.Some? && r.Done? ==> totalWords == old(totalWords) + KeptWords(file.value)
      ensures file.Some? && r.Done? ==> forall w :: Freq(w) == old(Freq(w)) + Occurrences(file.value, w)
    {
      if file.None? {
        return Done;
      }
      var words := file.value;
      var i := 0;
      while i < |words|
        invariant 0 <= i <= |words|
        invariant Valid()
        invariant buckets == old(buckets) && myHeap == old(myHeap) && capacity == old(capacity)
        invariant hashCodeFunction == old(hashCodeFunction)
        invariant totalWords == old(totalWords) + KeptWords(words[..i])
        invariant forall w :: Freq(w) == old(Freq(w)) + Occurrences(words[..i], w)
      {
        assert words[..i + 1][..i] == words[..i];
        var result := ImportWord(words[i]);
        if result.Failed? {
          return result;
        }
        i := i + 1;
      }
      assert words[..i] == words;
      RepairHeap();
      return Done;
    }

    /** One word read by `import`: cleaned, and inserted unless nothing is
        left of it. */
    method ImportWord(word: Bytes) returns (r: Outcome)
      requires Valid() && word != []
      modifies this, buckets, myHeap
      ensures Valid()
      ensures buckets == old(buckets) && myHeap == old(myHeap) && capacity == old(capacity)
      ensures hashCodeFunction == old(hashCodeFunction)
      ensures r.Failed? ==> r == Failed(InvalidArgument) && !(1 <= hashCodeFunction <= 6)
      ensures 1 <= hashCodeFunction <= 6 ==> r == Done
      ensures r.Done? ==> totalWords == old(totalWords) + (if Cleaned(word) != [] then 1 else 0)
      ensures r.Done? ==> forall w :: Freq(w) == old(Freq(w)) + (if w != [] && Cleaned(word) == w then 1 else 0)
    {
      var cleanedWord := CleanWord(word);
      if cleanedWord != [] {
        r := Insert(cleanedWord);
      } else {
        r := Done;
      }
    }

    /** The final loop of `import` as written: for `i` from 1 while
        `i < unique_words / 2`, `bubbledown(i)` then `bubbleup(i)`. It keeps
        the buckets but need not leave a heap (`ImportAsWrittenMissesMax`). */
    method RepairHeap()
      requires Valid()
      modifies myHeap
      ensures Valid()
      ensures myHeap.slots == RepairAsWritten(old(myHeap.slots), Sizes(buckets[..]), 1, uniqueWords / 2)
      ensures multiset(myHeap.slots[1..]) == multiset(old(myHeap.slots[1..]))
    {
      var sizes := Sizes(buckets[..]);
      ghost var slots := myHeap.slots;
      var i := 1;
      while i < uniqueWords / 2
        invariant 1 <= i && myHeap.Valid() && |myHeap.slots| == uniqueWords + 1 && Within(myHeap.slots, sizes)
        invariant RepairAsWritten(myHeap.slots, sizes, i, uniqueWords / 2) == RepairAsWritten(slots, sizes, 1, uniqueWords / 2)
        decreases uniqueWords / 2 - i
      {
        myHeap.BubbleDown(i, sizes);
        myHeap.BubbleUp(i, sizes);
        i := i + 1;
      }
      RepairAsWrittenPermutes(slots, sizes, 1, uniqueWords / 2);
      ReorderKeepsTable(buckets[..], slots, myHeap.slots, hashCodeFunction, capacity, uniqueWords);
    }

    /** The final loop of `import`, corrected: bubbling up every slot from
        the top down makes the heap a heap again, whatever inserts left it
        in, with the same buckets. */
    method RestoreHeap()
      requires Valid()
      modifies myHeap
      ensures Valid()
      ensures multiset(myHeap.slots[1..]) == multiset(old(myHeap.slots[1..]))
      ensures IsHeap(myHeap.slots, Sizes(buckets[..]))
    {
      var sizes := Sizes(buckets[..]);
      ghost var slots := myHeap.slots;
      for i := 1 to uniqueWords + 1
        invariant myHeap.Valid() && |myHeap.slots| == uniqueWords + 1 && Within(myHeap.slots, sizes)
        invariant multiset(myHeap.slots[1..]) == multiset(slots[1..])
        invariant IsHeap(myHeap.slots[..i], sizes)
      {
        ghost var before := myHeap.slots;
        SiftUpStep(before, sizes, i);
        BubbleUpPermutes(before, sizes, i);
        myHeap.BubbleUp(i, sizes);
      }
      assert myHeap.slots[..uniqueWords + 1] == myHeap.slots;
      ReorderKeepsTable(buckets[..], slots, myHeap.slots, hashCodeFunction, capacity, uniqueWords);
    }

    /** `find_freq(word)`: 0 for the empty word or an absent one, the stored
        `freq` otherwise. */
    method FindFreq(word: Bytes) returns (r: Result<int>)
      requires Valid()
      ensures word == [] ==> r == Ok(0)
      ensures word != [] && !(1 <= hashCodeFunction <= 6) ==> r == Err(InvalidArgument)
      ensures word != [] && 1 <= hashCodeFunction <= 6 ==> r == Ok(Freq(word))
    {
      if word == [] {
        return Ok(0);
      }
      var h := HashCode(word, hashCodeFunction, capacity);
      if h.Err? {
        return Err(h.error);
      }
      var entries := buckets[h.value].entries;
      var wordNode := IndexOf(entries, word);
      if wordNode.None? {
        return Ok(0);
      }
      return Ok(entries[wordNode.value].freq);
    }

    /** `findMax()`: `out_of_range` when no word has been inserted, else the
        head word of the bucket at the root of the heap, which is a word the
        table counts. */
    method FindMax() returns (r: Result<Bytes>)
      requires Valid()
      ensures r.Err? <==> uniqueWords == 0
      ensures r.Err? ==> r.error == OutOfRange
      ensures r.Ok? ==> buckets[myHeap.slots[1]].entries != [] && r.value == buckets[myHeap.slots[1]].entries[0].key
      ensures r.Ok? ==> Freq(r.value) >= 1
      ensures r.Ok? && IsHeap(myHeap.slots, Sizes(buckets[..])) ==>
        forall b :: b in multiset(myHeap.slots[1..]) ==> buckets[b].size <= buckets[myHeap.slots[1]].size
    {
      var m := myHeap.GetMax();
      if m.Err? {
        return Err(OutOfRange);
      }
      var b := m.value;
      assert multiset(myHeap.slots[1..])[b] >= 1 by {
        assert myHeap.slots[1..][0] == b;
      }
      var entries := buckets[b].entries;
      assert BucketAt(buckets[..], myHeap.slots, b, hashCodeFunction, capacity);
      assert HashCode(entries[0].key, hashCodeFunction, capacity) == Ok(b);
      if IsHeap(myHeap.slots, Sizes(buckets[..])) {
        RootIsMaxOfAll(myHeap.slots, Sizes(buckets[..]));
      }
      return Ok(entries[0].key);
    }
  }
}
