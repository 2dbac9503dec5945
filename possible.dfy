/** The letter-consumption check of `isPossible` (ContentView.swift).
    The loop walks the candidate's letters and removes, for each one, the
    first matching letter from a working copy `tempWord`; it fails as soon
    as a letter has no match left. Which string the working copy starts
    from is the caller's choice: `isPossible` starts it from the candidate
    itself. */
module Possible {

  datatype Option<T> = None | Some(value: T)

  /** The letters of word, counted with multiplicity, are available in pool:
      each letter of word can be matched to its own occurrence in pool. */
  predicate SubAnagram(word: string, pool: string) {
    multiset(word) <= multiset(pool)
  }

  /** `firstIndex(of:)`: the position of the first occurrence of c in s. */
  function FirstIndex(s: string, c: char): (r: Option<nat>)
    ensures r.None? <==> c !in s
    ensures r.Some? ==> r.value < |s| && s[r.value] == c && c !in s[..r.value]
  {
    if s == [] then None
    else if s[0] == c then Some(0)
    else match FirstIndex(s[1..], c)
      case None => None
      case Some(i) =>
        assert s[..i + 1] == [s[0]] + s[1..][..i];
        Some(i + 1)
  }

  /** `remove(at:)`: s without its character at position i. */
  function RemoveAt(s: string, i: nat): (r: string)
    requires i < |s|
    ensures |r| == |s| - 1
    ensures multiset(r) == multiset(s) - multiset{s[i]}
  {
    assert s == s[..i] + [s[i]] + s[i + 1..];
    s[..i] + s[i + 1..]
  }

  /** The `for letter in word` loop of `isPossible`, run with `tempWord`
      starting as pool. It succeeds exactly when word is a sub-anagram of
      pool: the working copy always holds pool minus the letters already
      consumed. */
  method ConsumeLetters(word: string, pool: string) returns (ok: bool)
    ensures ok <==> SubAnagram(word, pool)
  {
    var tempWord := pool;
    for i := 0 to |word|
      invariant multiset(word[..i]) <= multiset(pool)
      invariant multiset(tempWord) == multiset(pool) - multiset(word[..i])
    {
      var letter := word[i];
      match FirstIndex(tempWord, letter)
      case Some(pos) =>
        MatchedLetter(word, i, pool, tempWord, pos);
        tempWord := RemoveAt(tempWord, pos);
      case None =>
        UnmatchedLetter(word, i, pool);
        return false;
    }
    assert word[..|word|] == word;
    return true;
  }

  /** Consuming a letter that is still available keeps the consumed letters
      within pool, and the working copy loses exactly that letter. */
  lemma MatchedLetter(word: string, i: nat, pool: string, tempWord: string, pos: nat)
    requires i < |word| && pos < |tempWord| && tempWord[pos] == word[i]
    requires multiset(word[..i]) <= multiset(pool)
    requires multiset(tempWord) == multiset(pool) - multiset(word[..i])
    ensures multiset(word[..i + 1]) <= multiset(pool)
    ensures multiset(RemoveAt(tempWord, pos)) == multiset(pool) - multiset(word[..i + 1])
  {
    assert word[..i + 1] == word[..i] + [word[i]];
    assert word[i] in multiset(tempWord);
  }

  /** A letter with no copy left in the working copy means word needs more
      of that letter than pool has. */
  lemma UnmatchedLetter(word: string, i: nat, pool: string)
    requires i < |word|
    requires multiset(word[..i]) <= multiset(pool)
    requires word[i] !in multiset(pool) - multiset(word[..i])
    ensures !SubAnagram(word, pool)
  {
    var letter := word[i];
    assert word == word[..i] + [letter] + word[i + 1..];
    assert multiset(word)[letter] >= multiset(word[..i])[letter] + 1;
  }

  /** `isPossible(word:)` as written: `tempWord` starts as the candidate
      itself, so every letter finds its match and the answer is always yes. */
  method IsPossible(word: string) returns (ok: bool)
    ensures ok
  {
    ok := ConsumeLetters(word, word);
  }

  /** The game's rule is that an answer is spelled from the root word's
      letters, which is not what `isPossible` checks: "wrist" has a 't' that
      "silkworm" lacks, yet the check as written (the candidate against
      itself) accepts it. */
  lemma {:induction false} PossibleIgnoresRoot()
    ensures SubAnagram("wrist", "wrist")
    ensures !SubAnagram("wrist", "silkworm")
  {
    assert "wrist"[4] == 't';
    MissingLetter("wrist", "silkworm", 't');
  }

  /** A letter of word that pool lacks altogether rules out a sub-anagram. */
  lemma MissingLetter(word: string, pool: string, c: char)
    requires c in word && c !in pool
    ensures !SubAnagram(word, pool)
  {
    assert multiset(word)[c] > 0;
    assert multiset(pool)[c] == 0;
  }
}
