/**
 * The bot's knowledge index `word_anagrams`: a map from a signature to the
 * words seen with that signature, in the order they were learnt.
 */
module AnagramIndex {
  import opened Wrappers
  import opened Signature

  type Index = map<string, seq<string>>

  /** The index invariant: every word is stored under its own signature. */
  ghost predicate Consistent(m: Index) {
    forall k, w :: k in m && w in m[k] ==> Sig(w) == k
  }

  /** `word_anagrams[''.join(sorted(letters))]`, with the `KeyError` case as `None`. */
  function Lookup(m: Index, letters: string): (r: Option<seq<string>>)
    ensures r.None? <==> Sig(letters) !in m
  {
    var k := Sig(letters);
    if k in m then Some(m[k]) else None
  }

  /**
   * The map after `update_dict(w)`: `w` is appended to the list under its
   * signature, or becomes a one-word list when the signature is new; every
   * other key keeps its list.
   */
  function Learn(m: Index, w: string): (r: Index)
    ensures r.Keys == m.Keys + {Sig(w)}
    ensures Sig(w) in m ==> r[Sig(w)] == m[Sig(w)] + [w]
    ensures Sig(w) !in m ==> r[Sig(w)] == [w]
    ensures forall k :: k in m && k != Sig(w) ==> r[k] == m[k]
  {
    var k := Sig(w);
    if k in m then m[k := m[k] + [w]] else m[k := [w]]
  }

  /** Learning keeps the index invariant. */
  lemma LearnConsistent(m: Index, w: string)
    requires Consistent(m)
    ensures Consistent(Learn(m, w))
  {
    var r := Learn(m, w);
    forall k, v | k in r && v in r[k] ensures Sig(v) == k {
      if k == Sig(w) && k in m && v !in m[k] {
        assert v in m[k] + [w];
      }
    }
  }

  /** Learning never forgets: every key stays, and every list only grows at its end. */
  lemma LearnNeverForgets(m: Index, w: string)
    ensures forall k :: k in m ==> k in Learn(m, w) && m[k] <= Learn(m, w)[k]
  {
  }

  /** Learning does not deduplicate: each call adds exactly one more copy of `w`. */
  lemma LearnAddsOneCopy(m: Index, w: string)
    ensures multiset(Learn(m, w)[Sig(w)]) ==
            (if Sig(w) in m then multiset(m[Sig(w)]) else multiset{}) + multiset{w}
  {
  }

  /** Learning `w` twice stores it twice, after whatever its entry held before. */
  lemma LearnTwiceStoresTwice(m: Index, w: string)
    ensures Learn(Learn(m, w), w)[Sig(w)] == (if Sig(w) in m then m[Sig(w)] else []) + [w, w]
  {
  }

  /** Looking up any anagram of the letters gives the same answer. */
  lemma LookupOfPermutation(m: Index, a: string, b: string)
    requires multiset(a) == multiset(b)
    ensures Lookup(m, a) == Lookup(m, b)
  {
    SigOfPermutation(a, b);
  }

  /** In a consistent index, every candidate a lookup returns is an anagram of the letters. */
  lemma LookupSound(m: Index, letters: string)
    requires Consistent(m)
    ensures Lookup(m, letters).Some? ==>
              forall w :: w in Lookup(m, letters).value ==> multiset(w) == multiset(letters)
  {
    if Lookup(m, letters).Some? {
      forall w | w in Lookup(m, letters).value ensures multiset(w) == multiset(letters) {
        assert Sig(w) == Sig(letters);
        SigEqualIffAnagrams(w, letters);
      }
    }
  }

  /** Every stored anagram of the letters is among the candidates a lookup returns. */
  lemma LookupComplete(m: Index, letters: string, k: string, w: string)
    requires Consistent(m)
    requires k in m && w in m[k] && multiset(w) == multiset(letters)
    ensures Lookup(m, letters).Some? && w in Lookup(m, letters).value
  {
    SigOfPermutation(w, letters);
  }

  /** After learning `w`, looking up any anagram of `w` ends with `w`. */
  lemma LookupAfterLearn(m: Index, w: string, letters: string)
    requires multiset(letters) == multiset(w)
    ensures Lookup(Learn(m, w), letters) ==
            Some((if Sig(w) in m then m[Sig(w)] else []) + [w])
  {
    SigOfPermutation(letters, w);
    assert [] + [w] == [w];
  }

  /** Learning a word leaves the lookup of non-anagrams untouched. */
  lemma LookupUnaffectedByLearn(m: Index, w: string, letters: string)
    requires multiset(letters) != multiset(w)
    ensures Lookup(Learn(m, w), letters) == Lookup(m, letters)
  {
    SigEqualIffAnagrams(letters, w);
  }
}
