/**
 The map backend: one dictionary from word to frequency, absent until the
 first build.
 */
module ArrayDict {
  import opened WordFrequencies

  /** `q` occurs in `s` as a contiguous substring (the `q in s` test on strings). */
  predicate ContainsSubstring(s: string, q: string)
  {
    exists i | 0 <= i <= |s| :: q <= s[i..]
  }

  /** The stored words that contain `q`. */
  ghost function Containing(m: map<string, int>, q: string): set<string>
  {
    set k | k in m && ContainsSubstring(k, q)
  }

  /** The number of stored words that contain `q`, which is what `search` answers. */
  ghost function CountContaining(m: map<string, int>, q: string): nat
  {
    |Containing(m, q)|
  }

  /** The count never exceeds the number of stored words. */
  lemma CountBounds(m: map<string, int>, q: string)
    ensures 0 <= CountContaining(m, q) <= |m|
  {
    SubsetCardinality(Containing(m, q), m.Keys);
  }

  lemma {:induction false} SubsetCardinality(a: set<string>, b: set<string>)
    requires a <= b
    ensures |a| <= |b|
  {
    if a != {} {
      var x :| x in a;
      SubsetCardinality(a - {x}, b - {x});
    }
  }

  /** A stored word contains itself, so searching for it counts at least one word. */
  lemma CountStoredWord(m: map<string, int>, q: string)
    requires q in m
    ensures 1 <= CountContaining(m, q)
  {
    assert q <= q[0..];
    assert q in Containing(m, q);
  }

  /** Every word contains the empty string, so the empty query counts every stored word. */
  lemma CountEmptyQuery(m: map<string, int>)
    ensures CountContaining(m, "") == |m|
  {
    forall k | k in m ensures ContainsSubstring(k, "") {
      assert "" <= k[0..];
    }
    assert Containing(m, "") == m.Keys;
  }

  class ArrayDictionary {
    /** `None` until `BuildDictionary` has run. */
    var table: Option<map<string, int>>

    constructor ()
      ensures table == None
    {
      table := None;
    }

    /**
     Replaces the contents with the input entries; for a word that occurs
     more than once the last entry wins.
     */
    method BuildDictionary(wfs: seq<WordFrequency>)
      modifies this
      ensures table.Some?
      ensures table.value.Keys == WordsOf(wfs)
      ensures forall w, i :: IsLastOccurrence(wfs, w, i) ==> table.value[w] == wfs[i].frequency
    {
      var m := map[];
      var i := 0;
      while i < |wfs|
        invariant 0 <= i <= |wfs|
        invariant m == Store(map[], wfs[..i])
      {
        assert wfs[..i + 1][..i] == wfs[..i];
        m := m[wfs[i].word := wfs[i].frequency];
        i := i + 1;
      }
      assert wfs[..i] == wfs;
      StoreKeys(map[], wfs);
      forall w, j | IsLastOccurrence(wfs, w, j) ensures m[w] == wfs[j].frequency {
        StoreLastWins(map[], wfs, w, j);
      }
      table := Some(m);
    }

    /** Counts the stored words that contain `word` as a substring; it returns no frequency. */
    method Search(word: string) returns (count: nat)
      requires table.Some?
      ensures count == CountContaining(table.value, word)
    {
      var m := table.value;
      var remaining := m.Keys;
      count := 0;
      while remaining != {}
        invariant remaining <= m.Keys
        invariant count == |Containing(m, word) - remaining|
        decreases remaining
      {
        var key :| key in remaining;
        ghost var before := Containing(m, word) - remaining;
        if ContainsSubstring(key, word) {
          assert Containing(m, word) - (remaining - {key}) == before + {key};
          count := count + 1;
        } else {
          assert Containing(m, word) - (remaining - {key}) == before;
        }
        remaining := remaining - {key};
      }
    }

    /** Inserts the entry only when its word is not stored yet, and reports whether it did. */
    method AddWordFrequency(wf: WordFrequency) returns (added: bool)
      requires table.Some?
      modifies this
      ensures added <==> wf.word !in old(table.value)
      ensures table == Some(if added then old(table.value)[wf.word := wf.frequency] else old(table.value))
    {
      var m := table.value;
      added := true;
      var remaining := m.Keys;
      while remaining != {}
        invariant remaining <= m.Keys
        invariant added <==> wf.word !in m.Keys - remaining
        decreases remaining
      {
        var key :| key in remaining;
        if wf.word == key {
          added := false;
        }
        remaining := remaining - {key};
      }
      if added {
        table := Some(m[wf.word := wf.frequency]);
      }
    }

    /** Not implemented in the source: always fails and changes nothing. */
    method DeleteWord(word: string) returns (deleted: bool)
      ensures !deleted
    {
      deleted := false;
    }

    /** Not implemented in the source: always the empty list. */
    method Autocomplete(prefix: string) returns (completions: seq<WordFrequency>)
      ensures completions == []
    {
      completions := [];
    }
  }
}
