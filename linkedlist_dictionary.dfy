/**
 The linked-list backend: a singly linked list of nodes that always ends in a
 sentinel node carrying no entry. New entries are prepended at `head`.
 */
module LinkedListDict {
  import opened WordFrequencies

  /** `s` in reverse order, built the way prepending one entry at a time builds it. */
  function Reversed(s: seq<WordFrequency>): seq<WordFrequency>
  {
    if s == [] then [] else [s[|s| - 1]] + Reversed(s[..|s| - 1])
  }

  lemma {:induction false} ReversedAt(s: seq<WordFrequency>, k: int)
    requires 0 <= k < |s|
    ensures |Reversed(s)| == |s| && Reversed(s)[k] == s[|s| - 1 - k]
  {
    var n := |s| - 1;
    if n > 0 {
      ReversedAt(s[..n], if k == 0 then 0 else k - 1);
    }
  }

  /** Reversing one entry more puts that entry in front. */
  lemma ReversedStep(s: seq<WordFrequency>, k: int)
    requires 0 <= k < |s|
    ensures Reversed(s[..k + 1]) == [s[k]] + Reversed(s[..k])
  {
    assert s[..k + 1][..k] == s[..k];
  }

  /**
   The value the search loop leaves in its accumulator after visiting the
   entries `s` in order: every entry carrying `w` overwrites it, so the last
   one visited is the one returned, and 0 when there is none.
   */
  function ScanFrequency(s: seq<WordFrequency>, w: string): int
  {
    if s == [] then 0
    else if s[|s| - 1].word == w then s[|s| - 1].frequency
    else ScanFrequency(s[..|s| - 1], w)
  }

  /** Searching for a word that no entry carries gives 0. */
  lemma {:induction false} ScanAbsent(s: seq<WordFrequency>, w: string)
    requires w !in WordsOf(s)
    ensures ScanFrequency(s, w) == 0
  {
    if s != [] {
      var n := |s| - 1;
      assert s[n].word != w;
      assert w !in WordsOf(s[..n]) by {
        forall k | 0 <= k < n ensures s[..n][k].word != w {
          assert s[k].word != w;
        }
      }
      ScanAbsent(s[..n], w);
    }
  }

  /** Searching for a stored word gives the frequency of its last entry in list order. */
  lemma {:induction false} ScanFindsLast(s: seq<WordFrequency>, w: string, i: int)
    requires IsLastOccurrence(s, w, i)
    ensures ScanFrequency(s, w) == s[i].frequency
  {
    var n := |s| - 1;
    if i < n {
      assert s[n].word != w;
      ScanFindsLast(s[..n], w, i);
    }
  }

  /**
   After a successful add, the search for the added word finds the added
   frequency: the new entry is the only one carrying that word.
   */
  lemma AddThenSearch(wf: WordFrequency, s: seq<WordFrequency>)
    requires wf.word !in WordsOf(s)
    ensures ScanFrequency([wf] + s, wf.word) == wf.frequency
  {
    var t := [wf] + s;
    forall j | 0 < j < |t| ensures t[j].word != wf.word {
      assert t[j] == s[j - 1];
    }
    ScanFindsLast(t, wf.word, 0);
  }

  /**
   Building prepends the input one entry at a time, so when the list held no
   entry for `w` before, the search afterwards finds the frequency of the
   FIRST input entry for `w`, not the last.
   */
  lemma BuildThenSearch(wfs: seq<WordFrequency>, old_: seq<WordFrequency>, w: string, i: int)
    requires w !in WordsOf(old_)
    requires IsFirstOccurrence(wfs, w, i)
    ensures ScanFrequency(Reversed(wfs) + old_, w) == wfs[i].frequency
  {
    var n := |wfs|;
    var t := Reversed(wfs) + old_;
    var k := n - 1 - i;
    ReversedAt(wfs, k);
    assert t[k] == wfs[i];
    forall j | k < j < |t| ensures t[j].word != w {
      if j < n {
        ReversedAt(wfs, j);
        assert t[j] == wfs[n - 1 - j];
      } else {
        assert t[j] == old_[j - n];
      }
    }
    ScanFindsLast(t, w, k);
  }

  /**
   How the deletion routine ends: reading the word of the sentinel's missing
   entry raises an attribute error, otherwise it returns its flag.
   */
  datatype DeleteOutcome = RaisesAttributeError | Returns(found: bool)

  /** Some entry at an even position (0, 2, 4, ...) of `s` carries `w`. */
  ghost predicate CarriedAtEvenPosition(s: seq<WordFrequency>, w: string)
  {
    exists i :: 0 <= i < |s| && i % 2 == 0 && s[i].word == w
  }

  /**
   The outcome of the deletion routine on a list holding the entries `s`:
   it steps two nodes at a time and reads the entry of every node it stops
   at, so it stops at the sentinel, and raises, exactly when `s` has an
   even number of entries; otherwise it reports whether an entry it
   stopped at carries `w`. Nothing is unlinked either way.
   */
  ghost function DeleteOutcomeOf(s: seq<WordFrequency>, w: string): DeleteOutcome
  {
    if |s| % 2 == 0 then RaisesAttributeError else Returns(CarriedAtEvenPosition(s, w))
  }

  /**
   On a dictionary built from `wfs` alone, the deletion routine raises when
   `wfs` has an even number of entries, and otherwise reports whether an
   entry at an even position of `wfs` carries the word: with an odd count,
   the nodes it stops at hold exactly those entries.
   */
  lemma BuildThenDelete(wfs: seq<WordFrequency>, w: string)
    ensures DeleteOutcomeOf(Reversed(wfs), w)
         == if |wfs| % 2 == 0 then RaisesAttributeError else Returns(CarriedAtEvenPosition(wfs, w))
  {
    ReversedMirrors(wfs);
    if |wfs| % 2 == 1 {
      EvenPositionsOfMirror(Reversed(wfs), wfs, w);
    }
  }

  /** `r` holds the entries of `s` in the opposite order. */
  ghost predicate Mirrors(r: seq<WordFrequency>, s: seq<WordFrequency>)
  {
    |r| == |s| && forall k :: 0 <= k < |s| ==> r[k] == s[|s| - 1 - k]
  }

  lemma ReversedMirrors(s: seq<WordFrequency>)
    ensures Mirrors(Reversed(s), s)
  {
    if s != [] {
      ReversedAt(s, 0);
    }
    forall k | 0 <= k < |s| ensures Reversed(s)[k] == s[|s| - 1 - k] {
      ReversedAt(s, k);
    }
  }

  /** With an odd number of entries, mirroring maps even positions onto even positions. */
  lemma EvenPositionsOfMirror(r: seq<WordFrequency>, s: seq<WordFrequency>, w: string)
    requires Mirrors(r, s) && |s| % 2 == 1
    ensures CarriedAtEvenPosition(r, w) <==> CarriedAtEvenPosition(s, w)
  {
    var n := |s|;
    if CarriedAtEvenPosition(r, w) {
      var i :| 0 <= i < n && i % 2 == 0 && r[i].word == w;
      MirrorIsEven(n, i);
      assert s[n - 1 - i] == r[i];
    }
    if CarriedAtEvenPosition(s, w) {
      var i :| 0 <= i < n && i % 2 == 0 && s[i].word == w;
      MirrorIsEven(n, i);
      assert r[n - 1 - i] == s[n - 1 - (n - 1 - i)];
    }
  }

  lemma MirrorIsEven(n: int, i: int)
    requires n % 2 == 1 && i % 2 == 0
    ensures (n - 1 - i) % 2 == 0
  {
    var a, b := n / 2, i / 2;
    assert n == 2 * a + 1 && i == 2 * b;
    assert n - 1 - i == 2 * (a - b);
  }

  /**
   The routine is not complete: with three entries it reports failure for
   the word of the middle entry, which it steps over.
   */
  lemma DeleteMissesMiddleEntry(a: WordFrequency, b: WordFrequency, c: WordFrequency)
    requires b.word != a.word && b.word != c.word
    ensures b.word in WordsOf([a, b, c])
    ensures DeleteOutcomeOf([a, b, c], b.word) == Returns(false)
  {
    var s := [a, b, c];
    assert s[1].word in WordsOf(s);
    forall i | 0 <= i < |s| && i % 2 == 0 ensures s[i].word != b.word {
      assert i == 0 || i == 2;
    }
  }

  /** One node of the list; the sentinel's `wordFrequency` is `None`. */
  class ListNode {
    var wordFrequency: Option<WordFrequency>
    var next: ListNode?

    constructor (wordFrequency: Option<WordFrequency>)
      ensures this.wordFrequency == wordFrequency && next == null
    {
      this.wordFrequency := wordFrequency;
      next := null;
    }
  }

  class LinkedListDictionary {
    var head: ListNode
    /** The entries read from `head` onwards, the sentinel excluded. */
    ghost var Contents: seq<WordFrequency>
    /** The nodes read from `head` onwards; the last one is the sentinel. */
    ghost var Spine: seq<ListNode>

    ghost predicate Valid()
      reads this, Spine
    {
      && |Spine| == |Contents| + 1
      && Spine[0] == head
      && (forall i {:trigger Spine[i].wordFrequency} :: 0 <= i < |Contents| ==>
            Spine[i].wordFrequency == Some(Contents[i]))
      && (forall i {:trigger Spine[i].next} :: 0 <= i < |Contents| ==> Spine[i].next == Spine[i + 1])
      && Spine[|Contents|].wordFrequency == None
      && Spine[|Contents|].next == null
    }

    /** A fresh dictionary is a lone sentinel. */
    constructor ()
      ensures Valid() && fresh(Spine)
      ensures Contents == [] && |Spine| == 1
      ensures head.wordFrequency == None && head.next == null
    {
      head := new ListNode(None);
      Contents := [];
      Spine := [head];
    }

    /** Prepends every input entry in order, without looking for duplicates. */
    method BuildDictionary(wfs: seq<WordFrequency>)
      requires Valid()
      modifies this
      ensures Valid()
      ensures Contents == Reversed(wfs) + old(Contents)
    {
      var i := 0;
      while i < |wfs|
        invariant 0 <= i <= |wfs|
        invariant Valid()
        invariant Contents == Reversed(wfs[..i]) + old(Contents)
      {
        Prepend(wfs[i]);
        ReversedStep(wfs, i);
        i := i + 1;
      }
      assert wfs[..i] == wfs;
    }

    /** Links a new node carrying `wf` in front of `head`. */
    method Prepend(wf: WordFrequency)
      requires Valid()
      modifies this
      ensures Valid()
      ensures Contents == [wf] + old(Contents)
      ensures Spine == [head] + old(Spine) && fresh(head)
    {
      var newNode := new ListNode(Some(wf));
      newNode.next := head;
      head := newNode;
      Contents := [wf] + Contents;
      Spine := [newNode] + Spine;
    }

    /** Visits every node from `head` to the sentinel; the last match visited wins. */
    method Search(word: string) returns (frequency: int)
      requires Valid()
      ensures frequency == ScanFrequency(Contents, word)
    {
      var current: ListNode? := head;
      frequency := 0;
      ghost var k := 0;
      while current != null
        invariant 0 <= k <= |Spine|
        invariant current == if k < |Spine| then Spine[k] else null
        invariant frequency == ScanFrequency(Contents[..if k < |Spine| then k else |Contents|], word)
        decreases |Spine| - k
      {
        if current.wordFrequency.Some? && current.wordFrequency.value.word == word {
          frequency := current.wordFrequency.value.frequency;
        }
        if k < |Contents| {
          assert Contents[..k + 1][..k] == Contents[..k];
        }
        current := current.next;
        k := k + 1;
      }
      assert Contents[..|Contents|] == Contents;
    }

    /**
     Scans the whole list for the word; prepends the entry and answers true
     only when no node carries the word already.
     */
    method AddWordFrequency(wf: WordFrequency) returns (added: bool)
      requires Valid()
      modifies this
      ensures Valid()
      ensures added <==> wf.word !in WordsOf(old(Contents))
      ensures Contents == if added then [wf] + old(Contents) else old(Contents)
      ensures Spine == if added then [head] + old(Spine) else old(Spine)
      ensures added ==> fresh(head)
    {
      added := true;
      var current: ListNode? := head;
      ghost var k := 0;
      while current != null
        invariant 0 <= k <= |Spine|
        invariant current == if k < |Spine| then Spine[k] else null
        invariant added <==> forall j :: 0 <= j < k && j < |Contents| ==> Contents[j].word != wf.word
        decreases |Spine| - k
      {
        if current.wordFrequency.Some? && current.wordFrequency.value.word == wf.word {
          added := false;
        }
        current := current.next;
        k := k + 1;
      }
      if added {
        Prepend(wf);
      }
    }

    /**
     Walks the list two nodes per round, reading the word of the node it
     stands on first, and never unlinks a node.
     */
    method DeleteWord(word: string) returns (outcome: DeleteOutcome)
      requires Valid()
      ensures outcome == DeleteOutcomeOf(Contents, word)
    {
      var found := false;
      var current: ListNode? := head;
      ghost var k := 0;
      while current != null
        invariant 0 <= k <= |Spine| && k % 2 == 0
        invariant current == if k < |Spine| then Spine[k] else null
        invariant found <==> exists j :: 0 <= j < k && j < |Contents| && j % 2 == 0 && Contents[j].word == word
        decreases |Spine| - k
      {
        if current.wordFrequency.None? {
          return RaisesAttributeError;
        }
        if current.wordFrequency.value.word == word {
          found := true;
        }
        current := current.next;
        current := current.next;
        k := k + 2;
      }
      outcome := Returns(found);
    }

    /** Not implemented in the source: always the empty list. */
    method Autocomplete(word: string) returns (completions: seq<WordFrequency>)
      ensures completions == []
    {
      completions := [];
    }
  }
}
