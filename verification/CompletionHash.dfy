/**
 The completion index of client/completion_hash.cc: a chained hash table that holds a bucket for every
 prefix of every word added. The specification is the plain list of added words, filtered by prefix.
 */
module CompletionHash {
  import opened Common

  // ----- the words with a prefix -----

  /** The added words that start with `key`, newest first. */
  function Matches(words: seq<string>, key: string): (r: seq<string>)
    ensures forall w :: w in r <==> w in words && key <= w
  {
    if words == [] then [] else
      var n := |words| - 1;
      assert words == words[..n] + [words[n]];
      (if key <= words[n] then [words[n]] else []) + Matches(words[..n], key)
  }

  lemma {:induction false} MatchesSnoc(words: seq<string>, w: string, key: string)
    ensures Matches(words + [w], key) == (if key <= w then [w] else []) + Matches(words, key)
  {
    assert (words + [w])[..|words|] == words;
  }

  /** A longer prefix matches fewer words, and as many only when it matches the same ones. */
  lemma {:induction false} LongerPrefixMatchesLess(words: seq<string>, k: string, k': string)
    requires k <= k'
    ensures |Matches(words, k')| <= |Matches(words, k)|
    ensures |Matches(words, k')| == |Matches(words, k)| ==> Matches(words, k') == Matches(words, k)
  {
    if words != [] {
      var n := |words| - 1;
      LongerPrefixMatchesLess(words[..n], k, k');
      PrefixTransitive(k, k', words[n]);
    }
  }

  lemma PrefixTransitive(a: string, b: string, c: string)
    requires a <= b
    ensures b <= c ==> a <= c
  {
  }

  // ----- the hash function -----

  /** A `char` of the source as it is added to an unsigned integer: signed, modulo 2 to the 32. */
  function SignedChar(c: char): bv32 {
    var b := (c as int) % 256;
    if b < 128 then b as bv32 else (b + 0xFFFFFF00) as bv32
  }

  /** One round of `hashpjw`; the top four bits are folded back and cleared. */
  function Mix(h: bv32, c: char): (r: bv32)
    ensures r & 0xF0000000 == 0
  {
    var h' := (h << 4) + SignedChar(c);
    var g := h' & 0xF0000000;
    if g != 0 then (h' ^ (g >> 24)) ^ g else h'
  }

  function HashOf(key: string): bv32 {
    if key == "" then 0 else Mix(HashOf(key[..|key| - 1]), key[|key| - 1])
  }

  /** `hashpjw` */
  method Hashpjw(key: string, length: nat) returns (h: bv32)
    requires length <= |key|
    ensures h == HashOf(key[..length])
  {
    h := 0;
    for i := 0 to length
      invariant h == HashOf(key[..i])
    {
      assert key[..i + 1][..i] == key[..i];
      h := Mix(h, key[i]);
    }
  }

  // ----- the table -----

  /** `arKey` is the word whose addition created the bucket; the key is its first `keyLength` characters. */
  datatype Bucket = Bucket(h: bv32, arKey: string, keyLength: nat, entries: seq<string>, count: nat)
  {
    predicate Formed() {
      && 0 < keyLength <= |arKey| && h == HashOf(arKey[..keyLength])
      && entries != [] && count == |entries| && arKey == entries[|entries| - 1]
    }

    function Key(): string {
      if keyLength <= |arKey| then arKey[..keyLength] else arKey
    }
  }

  function IndexOf(key: string, size: nat): (i: nat)
    requires size > 0
    ensures i < size
  {
    (HashOf(key) as int) % size
  }

  ghost predicate ChainFormed(chain: seq<Bucket>, i: nat, size: nat)
    requires size > 0
  {
    && (forall j | 0 <= j < |chain| :: chain[j].Formed() && IndexOf(chain[j].Key(), size) == i)
    && (forall j, k | 0 <= j < k < |chain| :: chain[j].Key() != chain[k].Key())
  }

  ghost predicate TableFormed(table: seq<seq<Bucket>>) {
    |table| > 0 && forall i | 0 <= i < |table| :: ChainFormed(table[i], i, |table|)
  }

  /** The position of the bucket for `key` in a chain, or the length of the chain. */
  function Position(chain: seq<Bucket>, key: string): (p: nat)
    ensures p <= |chain|
  {
    if chain == [] then 0
    else if chain[0].Key() == key then 0
    else 1 + Position(chain[1..], key)
  }

  /** The entries stored for a key. */
  function EntriesIn(chain: seq<Bucket>, key: string): seq<string> {
    var p := Position(chain, key);
    if p < |chain| then chain[p].entries else []
  }

  function Stored(table: seq<seq<Bucket>>, key: string): seq<string>
    requires |table| > 0
  {
    EntriesIn(table[IndexOf(key, |table|)], key)
  }

  lemma {:induction false} PositionIs(chain: seq<Bucket>, key: string, p: nat)
    requires p <= |chain|
    requires forall j | 0 <= j < p :: chain[j].Key() != key
    requires p < |chain| ==> chain[p].Key() == key
    ensures Position(chain, key) == p
  {
    if p > 0 {
      assert chain[0].Key() != key;
      PositionIs(chain[1..], key, p - 1);
    }
  }

  lemma {:induction false} PositionFinds(chain: seq<Bucket>, key: string)
    ensures var p := Position(chain, key);
            && (p < |chain| ==> chain[p].Key() == key)
            && forall j | 0 <= j < p :: chain[j].Key() != key
  {
    if chain != [] && chain[0].Key() != key {
      PositionFinds(chain[1..], key);
      var p := Position(chain, key);
      forall j | 0 <= j < p ensures chain[j].Key() != key {
        if j > 0 {
          assert chain[j] == chain[1..][j - 1];
        }
      }
    }
  }

  // ----- adding a word -----

  /** What is stored for `key` while `w` is being added to `words` and its prefixes shorter than `i` are done. */
  function Expected(words: seq<string>, w: string, i: nat, key: string): seq<string> {
    (if 0 < |key| < i && key <= w then [w] else []) + Matches(words, key)
  }

  ghost predicate Holds(table: seq<seq<Bucket>>, words: seq<string>, w: string, i: nat) {
    TableFormed(table) && forall key: string | key != "" :: Stored(table, key) == Expected(words, w, i, key)
  }

  /** The table is the index of `words`: for every non-empty key, exactly the words with that prefix. */
  ghost predicate Indexes(table: seq<seq<Bucket>>, words: seq<string>) {
    TableFormed(table) && forall key: string | key != "" :: Stored(table, key) == Matches(words, key)
  }

  lemma WordStarts(table: seq<seq<Bucket>>, words: seq<string>, w: string)
    requires Indexes(table, words)
    ensures Holds(table, words, w, 1)
  {
    hide Stored, Matches;
    forall key: string | key != "" ensures Stored(table, key) == Expected(words, w, 1, key) {
      assert [] + Matches(words, key) == Matches(words, key);
    }
  }

  lemma WordEnds(table: seq<seq<Bucket>>, words: seq<string>, w: string)
    requires Holds(table, words, w, |w| + 1)
    ensures Indexes(table, words + [w])
  {
    forall key: string | key != "" ensures Stored(table, key) == Matches(words + [w], key) {
      MatchesSnoc(words, w, key);
    }
  }

  /** The chain after `str` has been added under `key`. */
  function Updated(chain: seq<Bucket>, str: string, n: nat): seq<Bucket>
    requires 0 < n <= |str|
  {
    var p := Position(chain, str[..n]);
    if p < |chain| then
      chain[p := WithEntry(chain[p], str)]
    else [Bucket(HashOf(str[..n]), str, n, [str], 1)] + chain
  }

  lemma EntriesCons(chain: seq<Bucket>, key: string)
    requires chain != []
    ensures EntriesIn(chain, key) == if chain[0].Key() == key then chain[0].entries else EntriesIn(chain[1..], key)
  {
  }

  /** A bucket with one more entry in front. */
  function WithEntry(b: Bucket, str: string): Bucket {
    b.(entries := [str] + b.entries, count := b.count + 1)
  }

  lemma {:induction false} UpdatedInPlace(chain: seq<Bucket>, str: string, k: string, key: string)
    requires Position(chain, k) < |chain|
    ensures var p := Position(chain, k);
            EntriesIn(chain[p := WithEntry(chain[p], str)], key)
            == (if key == k then [str] else []) + EntriesIn(chain, key)
  {
    hide EntriesIn;
    var p := Position(chain, k);
    var chain' := chain[p := WithEntry(chain[p], str)];
    EntriesCons(chain, key);
    EntriesCons(chain', key);
    if p == 0 {
      assert chain'[1..] == chain[1..];
    } else {
      assert chain'[1..] == chain[1..][p - 1 := WithEntry(chain[p], str)];
      UpdatedInPlace(chain[1..], str, k, key);
    }
  }

  lemma UpdatedEntries(chain: seq<Bucket>, str: string, n: nat, key: string)
    requires 0 < n <= |str|
    ensures EntriesIn(Updated(chain, str, n), key)
         == (if key == str[..n] then [str] else []) + EntriesIn(chain, key)
  {
    hide Position, HashOf;
    var k := str[..n];
    if Position(chain, k) < |chain| {
      UpdatedInPlace(chain, str, k, key);
    } else {
      EntriesCons(Updated(chain, str, n), key);
      assert Updated(chain, str, n)[1..] == chain;
    }
  }

  lemma WithEntryFormed(b: Bucket, str: string)
    requires b.Formed()
    ensures WithEntry(b, str).Formed() && WithEntry(b, str).Key() == b.Key()
  {
    hide HashOf;
  }

  lemma UpdatedFormed(chain: seq<Bucket>, str: string, n: nat, size: nat)
    requires 0 < n <= |str| && size > 0 && ChainFormed(chain, IndexOf(str[..n], size), size)
    ensures ChainFormed(Updated(chain, str, n), IndexOf(str[..n], size), size)
  {
    hide Position, HashOf, IndexOf, WithEntry;
    var k := str[..n];
    var p, chain' := Position(chain, k), Updated(chain, str, n);
    PositionFinds(chain, k);
    if p < |chain| {
      WithEntryFormed(chain[p], str);
    } else {
      var b := Bucket(HashOf(k), str, n, [str], 1);
      assert b.Key() == k && b.Formed();
      ConsFormed(chain, b, IndexOf(k, size), size);
    }
  }

  lemma ConsFormed(chain: seq<Bucket>, b: Bucket, i: nat, size: nat)
    requires size > 0 && ChainFormed(chain, i, size) && b.Formed() && IndexOf(b.Key(), size) == i
    requires forall j | 0 <= j < |chain| :: chain[j].Key() != b.Key()
    ensures ChainFormed([b] + chain, i, size)
  {
    hide HashOf, IndexOf;
  }

  lemma UpdatedStored(table: seq<seq<Bucket>>, str: string, n: nat, key: string)
    requires |table| > 0 && 0 < n <= |str|
    ensures var x := IndexOf(str[..n], |table|);
            Stored(table[x := Updated(table[x], str, n)], key)
            == (if key == str[..n] then [str] else []) + Stored(table, key)
  {
    hide Updated, EntriesIn, HashOf;
    UpdatedEntries(table[IndexOf(str[..n], |table|)], str, n, key);
    assert [] + Stored(table, key) == Stored(table, key);
  }

  lemma ExpectedNext(words: seq<string>, w: string, i: nat, key: string)
    requires key != "" && 0 < i <= |w|
    ensures Expected(words, w, i + 1, key) == (if key == w[..i] then [w] else []) + Expected(words, w, i, key)
  {
    hide Matches;
    if key <= w && |key| == i {
      assert key == w[..i];
      assert [w] + ([] + Matches(words, key)) == [w] + Matches(words, key);
    } else {
      assert key != w[..i];
      assert [] + Expected(words, w, i, key) == Expected(words, w, i, key);
    }
  }

  /** One `completion_hash_update` carries the index one prefix further. */
  lemma UpdateHolds(table: seq<seq<Bucket>>, words: seq<string>, w: string, i: nat)
    requires Holds(table, words, w, i) && 0 < i <= |w|
    ensures var x := IndexOf(w[..i], |table|);
            Holds(table[x := Updated(table[x], w, i)], words, w, i + 1)
  {
    hide Updated, Stored, Expected, HashOf;
    var x := IndexOf(w[..i], |table|);
    var table' := table[x := Updated(table[x], w, i)];
    UpdatedFormed(table[x], w, i, |table|);
    forall key: string | key != "" ensures Stored(table', key) == Expected(words, w, i + 1, key) {
      UpdatedStored(table, w, i, key);
      ExpectedNext(words, w, i, key);
    }
  }

  // ----- the operations -----

  class HashTable {
    const arBuckets: array<seq<Bucket>>

    ghost predicate Valid(words: seq<string>)
      reads this, arBuckets
    {
      Indexes(arBuckets[..], words)
    }

    /** `completion_hash_init` */
    constructor (nSize: nat)
      requires nSize > 0
      ensures Valid([]) && fresh(arBuckets) && arBuckets.Length == nSize
    {
      arBuckets := new seq<Bucket>[nSize](_ => []);
    }

    /** `completion_hash_update` of a prefix of `str`; it refuses the empty key. */
    method Update(str: string, nKeyLength: nat) returns (ok: bool)
      requires nKeyLength <= |str| && TableFormed(arBuckets[..])
      modifies arBuckets
      ensures ok == (nKeyLength > 0)
      ensures var t := old(arBuckets[..]);
              arBuckets[..] == if !ok then t else
                                 var x := IndexOf(str[..nKeyLength], |t|);
                                 t[x := Updated(t[x], str, nKeyLength)]
    {
      hide HashOf;
      var h := Hashpjw(str, nKeyLength);
      var nIndex := (h as int) % arBuckets.Length;
      ok := nKeyLength > 0;
      if !ok {
        return;
      }
      var chain := arBuckets[nIndex];
      assert chain == arBuckets[..][nIndex];
      var p := 0;
      while p < |chain|
        invariant p <= |chain| && arBuckets[..] == old(arBuckets[..])
        invariant forall j | 0 <= j < p :: chain[j].Key() != str[..nKeyLength]
      {
        var b := chain[p];
        if b.h == h && b.keyLength == nKeyLength {
          if b.arKey[..nKeyLength] == str[..nKeyLength] {
            PositionIs(chain, str[..nKeyLength], p);
            arBuckets[nIndex] := chain[p := b.(entries := [str] + b.entries, count := b.count + 1)];
            return;
          }
        }
        p := p + 1;
      }
      PositionIs(chain, str[..nKeyLength], p);
      arBuckets[nIndex] := [Bucket(h, str, nKeyLength, [str], 1)] + chain;
    }

    /** `add_word`: every prefix of the word is indexed. */
    method AddWord(str: string, ghost words: seq<string>)
      requires Valid(words)
      modifies arBuckets
      ensures Valid(words + [str])
    {
      hide Holds, Indexes;
      WordStarts(arBuckets[..], words, str);
      for i := 1 to |str| + 1
        invariant Holds(arBuckets[..], words, str, i)
      {
        UpdateHolds(arBuckets[..], words, str, i);
        HoldsFormed(arBuckets[..], words, str, i);
        var _ := Update(str, i);
      }
      WordEnds(arBuckets[..], words, str);
    }

    /** `completion_hash_find` */
    method Find(arKey: string, nKeyLength: nat, ghost words: seq<string>) returns (r: Option<Bucket>)
      requires Valid(words) && nKeyLength <= |arKey|
      ensures nKeyLength == 0 ==> r.None?
      ensures nKeyLength > 0 ==> (r.None? <==> Matches(words, arKey[..nKeyLength]) == [])
      ensures r.Some? ==> && r.value.Key() == arKey[..nKeyLength] && r.value.count == |r.value.entries|
                          && r.value.entries == Matches(words, arKey[..nKeyLength]) != []
    {
      hide HashOf, Matches;
      ghost var key := arKey[..nKeyLength];
      var h := Hashpjw(arKey, nKeyLength);
      var nIndex := (h as int) % arBuckets.Length;
      var chain := arBuckets[nIndex];
      assert chain == arBuckets[..][nIndex] && ChainFormed(chain, nIndex, arBuckets.Length);
      var p := 0;
      while p < |chain|
        invariant p <= |chain|
        invariant forall j | 0 <= j < p :: chain[j].Key() != key
      {
        var b := chain[p];
        if b.h == h && b.keyLength == nKeyLength {
          if b.arKey[..nKeyLength] == arKey[..nKeyLength] {
            PositionIs(chain, key, p);
            assert key != "" ==> Stored(arBuckets[..], key) == b.entries;
            return Some(b);
          }
        }
        p := p + 1;
      }
      PositionIs(chain, key, p);
      assert key != "" ==> Stored(arBuckets[..], key) == [];
      return None;
    }
  
    /** `find_all_matches` */
    method FindAllMatches(str: string, ghost words: seq<string>) returns (r: Option<Bucket>, resLength: nat)
      requires Valid(words)
      ensures str == "" ==> r.None?
      ensures str != "" ==> (r.None? <==> Matches(words, str) == [])
      ensures r.Some? ==> resLength == |str| && r.value.Key() == str && r.value.entries == Matches(words, str)
      ensures r.None? ==> resLength == 0
    {
      r := Find(str, |str|, words);
      assert str[..|str|] == str;
      resLength := if r.None? then 0 else |str|;
    }

    /** `find_longest_match`: it only compares bucket counts, yet what it returns is the longest common
        prefix of all added words that start with `str`, and the bucket of that prefix. */
    method FindLongestMatch(str: string, ghost words: seq<string>) returns (r: Option<Bucket>, resLength: nat)
      requires Valid(words)
      ensures str == "" || Matches(words, str) == [] ==> r.None? && resLength == 0
      ensures str != "" && Matches(words, str) != [] ==>
                && r.Some? && resLength == |r.value.Key()|
                && LongestCommonPrefix(Matches(words, str), r.value.Key())
                && r.value.entries == Matches(words, r.value.Key()) == Matches(words, str)
    {
      hide Indexes, Matches, LongestCommonPrefix, Bucket.Key;
      assert str[..|str|] == str;
      var found := Find(str, |str|, words);
      if found.None? {
        return None, 0;
      }
      var b := found.value;
      var count := b.count;
      var lm := |str|;
      var s := b.entries[0];
      var returnB := b;
      ghost var ws := Matches(words, str);
      NewestMatch(words, str);
      while lm < |s|
        invariant |str| <= lm <= |s| && s[..lm] == returnB.Key()
        invariant returnB.entries == Matches(words, s[..lm]) == ws
      {
        LongerPrefixMatchesLess(words, s[..lm], s[..lm + 1]);
        found := Find(s, lm + 1, words);
        StillMatches(words, s, lm + 1);
        if found.value.count < count {
          SomeLacks(words, s, lm, ws);
          AllHave(words, s[..lm], ws);
          CommonPrefixOfAll(ws, s, lm);
          return Some(returnB), lm;
        }
        returnB := found.value;
        lm := lm + 1;
      }
      AllHave(words, s[..lm], ws);
      CommonPrefixOfAll(ws, s, lm);
      return Some(returnB), lm;
    }

    /** `completion_hash_exists`: it compares whole words, so it finds a key only when the word that first
        brought the key into the table is the key itself. */
    method Exists(key: string, ghost words: seq<string>) returns (b: bool)
      requires Valid(words)
      ensures b <==> FirstIsItself(words, key)
    {
      hide HashOf, Matches;
      assert key[..|key|] == key;
      var h := Hashpjw(key, |key|);
      var nIndex := (h as int) % arBuckets.Length;
      var chain := arBuckets[nIndex];
      assert chain == arBuckets[..][nIndex] && ChainFormed(chain, nIndex, arBuckets.Length);
      var p := 0;
      while p < |chain|
        invariant p <= |chain|
        invariant forall j | 0 <= j < p :: chain[j].arKey != key || chain[j].keyLength != |key|
      {
        var bucket := chain[p];
        if bucket.h == h && bucket.keyLength == |key| {
          if bucket.arKey == key {
            assert bucket.Key() == key;
            PositionFinds(chain, key);
            assert Stored(arBuckets[..], key) == bucket.entries;
            return true;
          }
        }
        p := p + 1;
      }
      PositionFinds(chain, key);
      if key != "" {
        assert Stored(arBuckets[..], key) == Matches(words, key);
      }
      return false;
    }
  }

  /** The earliest added word that starts with a non-empty `key` is `key`. */
  predicate FirstIsItself(words: seq<string>, key: string) {
    var ms := Matches(words, key);
    key != "" && ms != [] && ms[|ms| - 1] == key
  }

  lemma NewestMatch(words: seq<string>, key: string)
    requires Matches(words, key) != []
    ensures key <= Matches(words, key)[0] && Matches(words, key)[0] in words
  {
    assert Matches(words, key)[0] in Matches(words, key);
  }

  lemma StillMatches(words: seq<string>, s: string, n: nat)
    requires n <= |s|
    ensures s in words ==> Matches(words, s[..n]) != []
  {
    assert s in words ==> s in Matches(words, s[..n]);
  }

  lemma AllHave(words: seq<string>, key: string, ws: seq<string>)
    requires ws == Matches(words, key)
    ensures forall w | w in ws :: key <= w
  {
  }

  lemma SomeLacks(words: seq<string>, s: string, n: nat, ws: seq<string>)
    requires n < |s| && ws == Matches(words, s[..n]) && |Matches(words, s[..n + 1])| < |ws|
    ensures exists w | w in ws :: !(s[..n + 1] <= w)
  {
    if forall w | w in ws :: s[..n + 1] <= w {
      forall i | 0 <= i < |words| && s[..n] <= words[i] ensures s[..n + 1] <= words[i] {
        assert words[i] in ws;
      }
      AllLonger(words, s[..n], s[..n + 1]);
    }
  }

  lemma {:induction false} AllLonger(words: seq<string>, k: string, k': string)
    requires k <= k' && forall i | 0 <= i < |words| && k <= words[i] :: k' <= words[i]
    ensures Matches(words, k) == Matches(words, k')
  {
    if words != [] {
      var n := |words| - 1;
      PrefixTransitive(k, k', words[n]);
      AllLonger(words[..n], k, k');
    }
  }

  /** `p` is the longest common prefix of `ws`. */
  ghost predicate LongestCommonPrefix(ws: seq<string>, p: string) {
    && (forall w | w in ws :: p <= w)
    && (forall q: string | (forall w | w in ws :: q <= w) :: |q| <= |p|)
  }

  lemma CommonPrefixOfAll(ws: seq<string>, s: string, n: nat)
    requires s in ws && n <= |s| && (forall w | w in ws :: s[..n] <= w)
    requires n < |s| ==> exists w | w in ws :: !(s[..n + 1] <= w)
    ensures LongestCommonPrefix(ws, s[..n])
  {
    forall q: string | forall w | w in ws :: q <= w ensures |q| <= n {
      assert q <= s;
      if n < |s| {
        var w :| w in ws && !(s[..n + 1] <= w);
        SharedPrefix(q, s, w, n + 1);
      }
    }
  }

  lemma SharedPrefix(q: string, s: string, w: string, n: nat)
    requires q <= s && q <= w && n <= |s|
    ensures n <= |q| ==> s[..n] <= w
  {
    if n <= |q| {
      assert s[..n] == q[..n] == w[..n];
    }
  }

  lemma HoldsFormed(table: seq<seq<Bucket>>, words: seq<string>, w: string, i: nat)
    requires Holds(table, words, w, i)
    ensures TableFormed(table)
  {
  }

  // ----- what `completion_hash_exists` answers -----

  lemma {:induction false} EarliestMatch(words: seq<string>, key: string)
    ensures var ms := Matches(words, key);
            ms != [] ==> exists i | 0 <= i < |words| ::
              words[i] == ms[|ms| - 1] && key <= words[i] && forall j | 0 <= j < i :: !(key <= words[j])
  {
    if words != [] {
      var n := |words| - 1;
      EarliestMatch(words[..n], key);
      var ms, ms' := Matches(words, key), Matches(words[..n], key);
      if ms' != [] {
        var i :| 0 <= i < n && words[..n][i] == ms'[|ms'| - 1] && key <= words[i]
            && forall j | 0 <= j < i :: !(key <= words[..n][j]);
        assert words[i] == ms[|ms| - 1];
        forall j | 0 <= j < i ensures !(key <= words[j]) {
          assert words[j] == words[..n][j];
        }
      } else if ms != [] {
        forall j | 0 <= j < n ensures !(key <= words[j]) {
          assert words[..n][j] in words[..n];
        }
        assert words[n] == ms[|ms| - 1];
      }
    }
  }

  /** A word is reported as existing exactly when no word that extends it was added before it. */
  lemma ExistsCondition(words: seq<string>, w: string)
    requires w != ""
    ensures FirstIsItself(words, w) <==>
              exists i | 0 <= i < |words| :: words[i] == w && forall j | 0 <= j < i :: !(w <= words[j])
  {
    var ms := Matches(words, w);
    EarliestMatch(words, w);
    if i :| 0 <= i < |words| && words[i] == w && forall j | 0 <= j < i :: !(w <= words[j]) {
      assert w in words && w in ms;
      var k :| 0 <= k < |words| && words[k] == ms[|ms| - 1] && w <= words[k]
          && forall j | 0 <= j < k :: !(w <= words[j]);
      assert k == i;
    }
  }

  /** An added word that is not reported as existing. */
  lemma ExistsMissesAWord()
    ensures var words := ["abc", "ab"];
            "ab" in words && !FirstIsItself(words, "ab")
  {
    var words := ["abc", "ab"];
    ExistsCondition(words, "ab");
    assert "ab" <= words[0];
  }
}
