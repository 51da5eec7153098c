/**
 The record every dictionary backend stores, and the "last write wins"
 reading of a list of such records that the backends share.
 */
module WordFrequencies {

  datatype Option<T> = None | Some(value: T)

  /** A word together with its frequency. */
  datatype WordFrequency = WordFrequency(word: string, frequency: int)

  /** The words that occur in `s`. */
  function WordsOf(s: seq<WordFrequency>): set<string>
  {
    set i | 0 <= i < |s| :: s[i].word
  }

  /** `i` is the position of the last entry of `s` that carries the word `w`. */
  ghost predicate IsLastOccurrence(s: seq<WordFrequency>, w: string, i: int)
  {
    && 0 <= i < |s|
    && s[i].word == w
    && forall j :: i < j < |s| ==> s[j].word != w
  }

  /** `i` is the position of the first entry of `s` that carries the word `w`. */
  ghost predicate IsFirstOccurrence(s: seq<WordFrequency>, w: string, i: int)
  {
    && 0 <= i < |s|
    && s[i].word == w
    && forall j :: 0 <= j < i ==> s[j].word != w
  }

  /** Every word of `s` has a last occurrence in `s`. */
  function LastIndex(s: seq<WordFrequency>, w: string): (i: nat)
    requires w in WordsOf(s)
    ensures IsLastOccurrence(s, w, i)
  {
    var n := |s| - 1;
    if s[n].word == w then n
    else
      assert w in WordsOf(s[..n]) by {
        var k :| 0 <= k < |s| && s[k].word == w;
        assert s[..n][k].word == w;
      }
      LastIndex(s[..n], w)
  }

  /**
   Writes the entries of `s` into `m` from the first to the last, so that a
   later entry for a word overwrites an earlier one.
   */
  function Store(m: map<string, int>, s: seq<WordFrequency>): map<string, int>
  {
    if s == [] then m
    else Store(m, s[..|s| - 1])[s[|s| - 1].word := s[|s| - 1].frequency]
  }

  /** Storing adds exactly the words of `s` to the keys of `m`. */
  lemma {:induction false} StoreKeys(m: map<string, int>, s: seq<WordFrequency>)
    ensures Store(m, s).Keys == m.Keys + WordsOf(s)
  {
    if s != [] {
      var n := |s| - 1;
      StoreKeys(m, s[..n]);
      assert WordsOf(s) == WordsOf(s[..n]) + {s[n].word} by {
        forall x | x in WordsOf(s) ensures x in WordsOf(s[..n]) + {s[n].word} {
          var k :| 0 <= k < |s| && s[k].word == x;
          if k < n { assert s[..n][k].word == x; }
        }
        forall x | x in WordsOf(s[..n]) ensures x in WordsOf(s) {
          var k :| 0 <= k < n && s[..n][k].word == x;
          assert s[k].word == x;
        }
      }
    }
  }

  /** The value stored for a word of `s` is the frequency of its last occurrence. */
  lemma {:induction false} StoreLastWins(m: map<string, int>, s: seq<WordFrequency>, w: string, i: int)
    requires IsLastOccurrence(s, w, i)
    ensures w in Store(m, s) && Store(m, s)[w] == s[i].frequency
  {
    var n := |s| - 1;
    if i < n {
      assert s[n].word != w;
      StoreLastWins(m, s[..n], w, i);
    }
  }

  /** A key that no entry of `s` carries keeps its value from `m`. */
  lemma {:induction false} StoreKeepsOthers(m: map<string, int>, s: seq<WordFrequency>, w: string)
    requires w !in WordsOf(s)
    ensures w in Store(m, s) <==> w in m
    ensures w in m ==> Store(m, s)[w] == m[w]
  {
    if s != [] {
      var n := |s| - 1;
      assert s[n].word != w;
      assert w !in WordsOf(s[..n]) by {
        forall k | 0 <= k < n ensures s[..n][k].word != w {
          assert s[k].word != w;
        }
      }
      StoreKeepsOthers(m, s[..n], w);
    }
  }

  /** What storing `s` into `m` means, entry by entry. */
  lemma StoreFacts(m: map<string, int>, s: seq<WordFrequency>)
    ensures Store(m, s).Keys == m.Keys + WordsOf(s)
    ensures forall w, i :: IsLastOccurrence(s, w, i) ==> Store(m, s)[w] == s[i].frequency
    ensures forall w :: w in m && w !in WordsOf(s) ==> Store(m, s)[w] == m[w]
  {
    StoreKeys(m, s);
    forall w, i | IsLastOccurrence(s, w, i) ensures Store(m, s)[w] == s[i].frequency {
      StoreLastWins(m, s, w, i);
    }
    forall w | w in m && w !in WordsOf(s) ensures Store(m, s)[w] == m[w] {
      StoreKeepsOthers(m, s, w);
    }
  }
}
