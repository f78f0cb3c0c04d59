/**
 The word generator of the completion interface, `new_command_generator` of client/mysql.cc: it hands out
 the matches of a text one call at a time, keeping its place in the completion index in static cursors.
 */
module CompletionGenerator {
  import opened Common
  import opened CompletionHash

  /** The entries of a bucket that are as long as its key. */
  function Whole(entries: seq<string>, n: nat): seq<string> {
    if entries == [] then [] else (if |entries[0]| == n then [entries[0]] else []) + Whole(entries[1..], n)
  }

  function WholeInChain(chain: seq<Bucket>): seq<string> {
    if chain == [] then [] else Whole(chain[0].entries, chain[0].keyLength) + WholeInChain(chain[1..])
  }

  /** The words met by a walk over all chains from `i` on. */
  function WholeFrom(table: seq<seq<Bucket>>, i: nat): seq<string>
    requires i <= |table|
    decreases |table| - i
  {
    if i == |table| then [] else WholeInChain(table[i]) + WholeFrom(table, i + 1)
  }

  // ----- the walk meets every word as often as it was added -----

  lemma {:induction false} WholeCount(entries: seq<string>, k: string, w: string)
    requires forall j | 0 <= j < |entries| :: k <= entries[j]
    ensures multiset(Whole(entries, |k|))[w] == if w == k then multiset(entries)[w] else 0
  {
    if entries != [] {
      var x := entries[0];
      assert entries == [x] + entries[1..];
      WholeCount(entries[1..], k, w);
      assert |x| == |k| <==> x == k;
    }
  }

  /** Every bucket holds only words that start with its key. */
  predicate Extends(chain: seq<Bucket>) {
    forall j | 0 <= j < |chain| :: Extending(chain[j])
  }

  predicate Extending(b: Bucket) {
    |b.Key()| == b.keyLength && forall j | 0 <= j < |b.entries| :: b.Key() <= b.entries[j]
  }

  predicate Distinct(chain: seq<Bucket>) {
    forall j, k | 0 <= j < k < |chain| :: chain[j].Key() != chain[k].Key()
  }

  lemma {:induction false} ChainCount(chain: seq<Bucket>, w: string)
    requires Extends(chain) && Distinct(chain)
    ensures multiset(WholeInChain(chain))[w] == multiset(EntriesIn(chain, w))[w]
  {
    if chain != [] {
      ChainCount(chain[1..], w);
      WholeCount(chain[0].entries, chain[0].Key(), w);
      PositionFinds(chain[1..], w);
      if chain[0].Key() == w {
        assert Position(chain[1..], w) == |chain| - 1;
      }
    }
  }

  lemma {:induction false} WalkCount(table: seq<seq<Bucket>>, i: nat, w: string)
    requires TableFormed(table) && i <= |table| && forall j | 0 <= j < |table| :: Extends(table[j])
    ensures multiset(WholeFrom(table, i))[w] == if i <= IndexOf(w, |table|) then multiset(Stored(table, w))[w] else 0
    decreases |table| - i
  {
    hide IndexOf, EntriesIn, TableFormed, ChainFormed, Extends, WholeInChain;
    if i < |table| {
      WalkCount(table, i + 1, w);
      OneChain(table, i, w);
    }
  }

  lemma OneChain(table: seq<seq<Bucket>>, i: nat, w: string)
    requires TableFormed(table) && i < |table| && Extends(table[i])
    ensures multiset(WholeInChain(table[i]))[w] == if i == IndexOf(w, |table|) then multiset(Stored(table, w))[w] else 0
  {
    hide HashOf, IndexOf;
    assert ChainFormed(table[i], i, |table|);
    ChainCount(table[i], w);
    PositionFinds(table[i], w);
  }

  lemma {:induction false} MatchesCount(words: seq<string>, w: string)
    ensures multiset(Matches(words, w))[w] == multiset(words)[w]
  {
    if words != [] {
      var n := |words| - 1;
      assert words == words[..n] + [words[n]];
      MatchesCount(words[..n], w);
    }
  }

  lemma IndexExtends(table: seq<seq<Bucket>>, words: seq<string>, i: nat)
    requires Indexes(table, words) && i < |table|
    ensures Extends(table[i])
  {
    hide HashOf, Matches;
    forall j | 0 <= j < |table[i]| ensures Extending(table[i][j]) {
      var b := table[i][j];
      assert ChainFormed(table[i], i, |table|) && b.Formed();
      PositionIs(table[i], b.Key(), j);
      assert Stored(table, b.Key()) == b.entries;
      assert forall k | 0 <= k < |b.entries| :: b.entries[k] in Matches(words, b.Key());
    }
  }

  /** The walk over the whole index yields each added word, other than the empty one, as often as it was added. */
  lemma WalkYieldsTheWords(table: seq<seq<Bucket>>, words: seq<string>, w: string)
    requires Indexes(table, words)
    ensures multiset(WholeFrom(table, 0))[w] == if w == "" then 0 else multiset(words)[w]
  {
    forall j | 0 <= j < |table| ensures Extends(table[j]) {
      IndexExtends(table, words, j);
    }
    WalkCount(table, 0, w);
    MatchesCount(words, w);
    if w == "" {
      var x := IndexOf(w, |table|);
      assert ChainFormed(table[x], x, |table|);
      PositionFinds(table[x], w);
    }
  }

  lemma WalkYieldsAllWords(table: seq<seq<Bucket>>, words: seq<string>)
    requires Indexes(table, words)
    ensures forall w :: multiset(WholeFrom(table, 0))[w] == if w == "" then 0 else multiset(words)[w]
  {
    hide WholeFrom, Indexes;
    forall w ensures multiset(WholeFrom(table, 0))[w] == if w == "" then 0 else multiset(words)[w] {
      WalkYieldsTheWords(table, words, w);
    }
  }

  // ----- the generator -----

  /** What the walk hands out from the cursors `i`, `b` and `e` on. */
  ghost function Rest(table: seq<seq<Bucket>>, i: nat, b: seq<Bucket>, e: seq<string>): seq<string>
    requires i < |table|
  {
    if b == [] then e else Whole(e, b[0].keyLength) + WholeInChain(b[1..]) + WholeFrom(table, i + 1)
  }

  ghost function Taken(x: string, k: nat): seq<string> {
    if |x| == k then [x] else []
  }

  lemma RestStep(table: seq<seq<Bucket>>, i: nat, b: seq<Bucket>, e: seq<string>)
    requires i < |table| && b != [] && e != []
    ensures var x := Taken(e[0], b[0].keyLength);
            Rest(table, i, b, e) ==
            if |e| > 1 then x + Rest(table, i, b, e[1..])
            else if |b| > 1 then x + Rest(table, i, b[1..], b[1].entries)
            else x + WholeFrom(table, i + 1)
  {
    var x, k, later := Taken(e[0], b[0].keyLength), b[0].keyLength, WholeFrom(table, i + 1);
    assert Whole(e, k) == x + Whole(e[1..], k);
    if |e| > 1 {
      assert x + Whole(e[1..], k) + WholeInChain(b[1..]) + later
             == x + (Whole(e[1..], k) + WholeInChain(b[1..]) + later);
    } else if |b| > 1 {
      assert x + [] + WholeInChain(b[1..]) + later == x + (WholeInChain(b[1..]) + later);
    } else {
      assert x + [] + [] + later == x + later;
    }
  }

  class Generator {
    const ht: HashTable
    var textlen: nat
    /** The rest of the chain from the current bucket on. */
    var b: seq<Bucket>
    /** The rest of the entries of the current bucket. */
    var e: seq<string>
    var i: nat

    constructor (ht: HashTable)
      ensures this.ht == ht && e == []
    {
      this.ht := ht;
      textlen, b, e, i := 0, [], [], 0;
    }

    ghost predicate Sound()
      reads ht, ht.arBuckets
    {
      TableFormed(ht.arBuckets[..])
    }

    /** The cursors stand on an entry, or past the last one. */
    ghost predicate Placed()
      reads this, ht, ht.arBuckets
    {
      textlen == 0 ==>
        i <= ht.arBuckets.Length
        && (e != [] ==> b != [] && i < ht.arBuckets.Length && forall j | 0 <= j < |b| :: b[j].entries != [])
    }

    /** The words still to come. */
    ghost function Remaining(): seq<string>
      reads this, ht, ht.arBuckets
      requires Placed()
    {
      if textlen > 0 || e == [] then e else Rest(ht.arBuckets[..], i, b, e)
    }

    /** The cursors go to the first chain in use from `first` on; without one the other cursors stay as they are. */
    method SeekChain(first: nat) returns (found: bool)
      requires Sound() && first <= ht.arBuckets.Length && textlen == 0
      modifies this`i, this`b, this`e
      ensures first <= i <= ht.arBuckets.Length && found == (i < ht.arBuckets.Length)
      ensures !found ==> b == old(b) && e == old(e) && WholeFrom(ht.arBuckets[..], first) == []
      ensures !found ==> forall j | first <= j < ht.arBuckets.Length :: ht.arBuckets[j] == []
      ensures found ==> Placed() && e != [] && Remaining() == WholeFrom(ht.arBuckets[..], first)
    {
      hide HashOf, Whole, IndexOf;
      ghost var table := ht.arBuckets[..];
      i := first;
      while i < ht.arBuckets.Length
        invariant first <= i <= ht.arBuckets.Length && b == old(b) && e == old(e)
        invariant WholeFrom(table, first) == WholeFrom(table, i)
        invariant forall j | first <= j < i :: ht.arBuckets[j] == []
      {
        if ht.arBuckets[i] != [] {
          b := ht.arBuckets[i];
          e := b[0].entries;
          assert ChainFormed(table[i], i, |table|);
          assert b[0].Formed();
          assert Whole(e, b[0].keyLength) + WholeInChain(b[1..]) == WholeInChain(table[i]);
          return true;
        }
        i := i + 1;
      }
      return false;
    }

    /** One entry further: in the bucket, then in its chain, then in the chains behind it. */
    method Advance()
      requires Sound() && Placed() && textlen == 0 && e != []
      modifies this`i, this`b, this`e
      ensures Placed()
      ensures old(Remaining()) == Taken(old(e[0]), old(b[0].keyLength)) + Remaining()
      ensures i > old(i) || (i == old(i) && |b| < |old(b)|) || (i == old(i) && b == old(b) && |e| < |old(e)|)
      ensures i <= ht.arBuckets.Length
    {
      hide TableFormed, Whole, WholeInChain, WholeFrom, Rest, Taken;
      RestStep(ht.arBuckets[..], i, b, e);
      e := e[1..];
      if e == [] {
        b := b[1..];
        if b == [] {
          var found := SeekChain(i + 1);
        } else {
          e := b[0].entries;
        }
      }
    }

    /** The walk on to the next entry that is as long as its key. */
    method Walk() returns (ptr: Option<string>)
      requires Sound() && Placed() && textlen == 0
      modifies this`i, this`b, this`e
      ensures Placed()
      ensures old(Remaining()) == (if ptr.None? then [] else [ptr.value]) + Remaining()
      ensures ptr.None? ==> Remaining() == [] && e == []
    {
      hide Rest, TableFormed;
      ptr := None;
      assert Remaining() == [] + Remaining();
      while e != [] && ptr.None?
        invariant Placed()
        invariant old(Remaining()) == (if ptr.None? then [] else [ptr.value]) + Remaining()
        decreases ht.arBuckets.Length - i, |b|, |e|
      {
        if |e[0]| == b[0].keyLength {
          ptr := Some(e[0]);
        }
        Advance();
        assert [] + ([] + Remaining()) == [] + Remaining();
        assert ptr.Some? ==> [] + ([ptr.value] + Remaining()) == [ptr.value] + Remaining();
      }
    }

    /** `new_command_generator`: the first call of a round hands out the first match of `text`, newest first,
        or the first word of the walk over the index when `text` is empty, and each later call the next one;
        nothing is handed out exactly when none is left. On an index without words the walk starts from where
        the round before ended. */
    method Next(text: string, first: bool, ghost words: seq<string>) returns (r: Option<string>)
      requires ht.Valid(words) && (!first ==> Placed())
      requires first && text == "" ==> e == [] || exists j | 0 <= j < ht.arBuckets.Length :: ht.arBuckets[j] != []
      modifies this
      ensures r.None? ==> e == [] || (first && e == old(e))
      ensures var left := if !first then old(Remaining())
                          else if text == "" then WholeFrom(ht.arBuckets[..], 0) else Matches(words, text);
              if left == [] then r.None?
              else r == Some(left[0]) && Placed() && Remaining() == left[1..]
    {
      hide Matches, Rest, WholeFrom, TableFormed;
      if first {
        textlen := |text|;
      }
      if textlen > 0 {
        if first {
          var found, len := ht.FindAllMatches(text, words);
          if found.None? {
            b := [];
            return None;
          }
          b, e := [found.value], found.value.entries;
        }
        if e != [] {
          r := Some(e[0]);
          e := e[1..];
          return;
        }
        return None;
      } else {
        if first {
          var found := SeekChain(0);
        }
        ghost var left := Remaining();
        r := Walk();
        assert left == (if r.None? then [] else [r.value]) + Remaining();
      }
    }

    /** The later calls of a round hand out everything that is left. */
    method LaterCalls(text: string, ghost words: seq<string>) returns (all: seq<string>)
      requires ht.Valid(words) && Placed()
      modifies this
      ensures all == old(Remaining()) && e == []
    {
      hide Matches, Rest, WholeFrom, Indexes, Placed;
      ghost var left := Remaining();
      all := [];
      assert all + left == left;
      var r := Next(text, false, words);
      while r.Some?
        invariant r.None? <==> left == []
        invariant r.Some? ==> Placed() && r.value == left[0] && Remaining() == left[1..]
        invariant all + left == old(Remaining()) && (r.None? ==> e == [])
        decreases |left|
      {
        assert all + [r.value] + left[1..] == all + left;
        all := all + [r.value];
        left := left[1..];
        r := Next(text, false, words);
      }
    }

    /** One round of calls, as the line editor makes them: `text` is completed to exactly the added words
        that start with it, newest first; an empty `text` to every added word but the empty one, each as
        often as it was added. A round starts where a first one or a finished one leaves the cursors. */
    method Round(text: string, ghost words: seq<string>) returns (all: seq<string>)
      requires ht.Valid(words) && e == []
      modifies this
      ensures e == []
      ensures text != "" ==> all == Matches(words, text)
      ensures text == "" ==> forall w :: multiset(all)[w] == if w == "" then 0 else multiset(words)[w]
    {
      hide Matches, Rest, WholeFrom, Indexes;
      var r := Next(text, true, words);
      all := [];
      if r.Some? {
        var later := LaterCalls(text, words);
        all := [r.value] + later;
      }
      if text == "" {
        assert all == WholeFrom(ht.arBuckets[..], 0);
        WalkYieldsAllWords(ht.arBuckets[..], words);
      }
    }
  }
}
