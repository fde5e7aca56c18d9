/** The chain-length remark of the MCD docstring (mcrw.py:43-51), on the
    seed word "suggest": with one character of context 'g' may follow 'g'
    (so a walk can repeat it without end), while with two characters of
    context "gg" may be followed only by what followed it in the seed. */
module SuggestExample {
  import opened Text
  import opened ChainTable

  // Each lemma takes the seed list as a parameter fixed by its `requires`,
  // so that the seed word is written once and the chain lemmas apply to it
  // as to any seed list.

  /** With chain length 1, "g" is a prefix that 'g' may follow. */
  lemma SuggestOneDeep(words: seq<string>)
    requires words == ["suggest"]
    ensures Ch('g') in Lookup(Chain(1, words), "g")
  {
    OneDeepWindow(words);
    ChainHasChar(1, words, 0, "g", 'g');
  }

  /** With chain length 2, "gg" is followed by 'e', as in the seed, and
      never by a third 'g'. */
  lemma SuggestTwoDeep(words: seq<string>)
    requires words == ["suggest"]
    ensures Ch('e') in Lookup(Chain(2, words), "gg")
    ensures Ch('g') !in Lookup(Chain(2, words), "gg")
  {
    TwoDeepWindows(words);
    ChainHasChar(2, words, 0, "gg", 'e');
    ChainLacksChar(2, words, "gg", 'g');
  }

  /** " suggest" holds "gg". */
  lemma OneDeepWindow(words: seq<string>)
    requires words == ["suggest"]
    ensures |words| == 1 && |"g"| == 1 && IsSubstring("g" + ['g'], Pad(1, Strip(words[0])))
  {
    StripTrimmed("suggest");
    assert Spaces(1) == " ";
    assert Pad(1, Strip(words[0])) == " suggest";
    assert OccursAt("gg", " suggest", 3);
    assert "g" + ['g'] == "gg";
  }

  /** "  suggest" holds "gge" and no "ggg". */
  lemma TwoDeepWindows(words: seq<string>)
    requires words == ["suggest"]
    ensures |words| == 1 && |"gg"| == 2
    ensures IsSubstring("gg" + ['e'], Pad(2, Strip(words[0])))
    ensures forall j :: 0 <= j < |words| ==> !IsSubstring("gg" + ['g'], Pad(2, Strip(words[j])))
  {
    StripTrimmed("suggest");
    assert Spaces(2) == "  ";
    var s := "  suggest";
    assert Pad(2, Strip(words[0])) == s;
    assert OccursAt("gge", s, 4);
    assert "gg" + ['e'] == "gge";
    assert "gg" + ['g'] == "ggg";
    forall n | 0 <= n <= |s| - 3
      ensures !OccursAt("ggg", s, n)
    {
      if n <= 3 {
        assert s[n..n + 3][0] == s[n] != 'g';
      } else {
        assert s[n..n + 3][6 - n] == s[6] != 'g';
      }
    }
  }
}
