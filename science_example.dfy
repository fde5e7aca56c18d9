/** The worked example of the MCD docstring (mcrw.py:21-39): the single
    seed word "science" with a chain length of 2. */
module ScienceExample {
  import opened Wrappers
  import opened Text
  import opened ChainTable
  import opened WordSampler

  /** The dictionary the docstring lists for "science" and chain length 2;
      the end marker `End` is its "\n". */
  const ScienceTable: Table := map[
    "  " := [Ch('s')],
    " s" := [Ch('c')],
    "sc" := [Ch('i')],
    "ci" := [Ch('e')],
    "ie" := [Ch('n')],
    "en" := [Ch('c')],
    "nc" := [Ch('e')],
    "ce" := [End]
  ]

  /** The transitions populate adds for "science", two at a time: each
      window of two characters of "  science" to the next character, then
      "ce" to the end. The pairs let the proof of `ScienceChain` add two
      transitions per step instead of reasoning about all eight at once. */
  const ScienceQuarter1: seq<Transition> := [Transition("  ", Ch('s')), Transition(" s", Ch('c'))]
  const ScienceQuarter2: seq<Transition> := [Transition("sc", Ch('i')), Transition("ci", Ch('e'))]
  const ScienceQuarter3: seq<Transition> := [Transition("ie", Ch('n')), Transition("en", Ch('c'))]
  const ScienceQuarter4: seq<Transition> := [Transition("nc", Ch('e')), Transition("ce", End)]
  const ScienceTransitions: seq<Transition> :=
    ScienceQuarter1 + ScienceQuarter2 + ScienceQuarter3 + ScienceQuarter4

  lemma ScienceWordTransitions()
    ensures Transitions(2, ["science"]) == ScienceTransitions
  {
    StripTrimmed("science");
    assert ["science"][..0] == [];
    assert Transitions(2, ["science"]) == WordTransitions(2, "science");
    SciencePairs();
  }

  /** The windows of "  science" and the characters that follow them. */
  lemma SciencePairs()
    ensures WordTransitions(2, "science") == ScienceTransitions
  {
    var trs := WordTransitions(2, "science");
    ScienceFirstPairs();
    ScienceLastPairs();
    assert trs == trs[0..2] + trs[2..4] + trs[4..6] + trs[6..8];
  }

  /** `k` spaces before "science". */
  lemma SciencePadded()
    ensures Pad(2, "science") == "  science"
  {
    assert Spaces(2) == "  ";
  }

  lemma ScienceFirstPairs()
    ensures WordTransitions(2, "science")[0..2] == ScienceQuarter1
    ensures WordTransitions(2, "science")[2..4] == ScienceQuarter2
  {
    var trs := WordTransitions(2, "science");
    SciencePadded();
    var s := "  science";
    assert s[0..2] == "  " && s[1..3] == " s" && s[2..4] == "sc" && s[3..5] == "ci";
    assert trs[0..2] == [trs[0], trs[1]];
    assert trs[2..4] == [trs[2], trs[3]];
  }

  lemma ScienceLastPairs()
    ensures WordTransitions(2, "science")[4..6] == ScienceQuarter3
    ensures WordTransitions(2, "science")[6..8] == ScienceQuarter4
  {
    var trs := WordTransitions(2, "science");
    SciencePadded();
    var s := "  science";
    assert s[4..6] == "ie" && s[5..7] == "en" && s[6..8] == "nc" && s[7..9] == "ce";
    assert trs[4..6] == [trs[4], trs[5]];
    assert trs[6..8] == [trs[6], trs[7]];
  }

  /** The dictionary after each pair of transitions: the intermediate
      tables the proof of `ScienceChain` passes through. */
  const ScienceTable1: Table := map["  " := [Ch('s')], " s" := [Ch('c')]]
  const ScienceTable2: Table := ScienceTable1["sc" := [Ch('i')]]["ci" := [Ch('e')]]
  const ScienceTable3: Table := ScienceTable2["ie" := [Ch('n')]]["en" := [Ch('c')]]

  /** Two transitions with new, different prefixes each create a
      one-element list. */
  lemma InsertAllFresh(t: Table, a: Transition, b: Transition)
    requires a.prefix !in t && b.prefix !in t && a.prefix != b.prefix
    ensures InsertAll(t, [a, b]) == t[a.prefix := [a.suffix]][b.prefix := [b.suffix]]
  {
    assert [a, b][..1] == [a];
    assert [a][..0] == [];
    assert InsertAll(t, [a]) == Added(t, a.prefix, a.suffix) == t[a.prefix := [a.suffix]];
    assert InsertAll(t, [a, b]) == Added(InsertAll(t, [a]), b.prefix, b.suffix);
  }

  lemma ScienceSteps12()
    ensures InsertAll(map[], ScienceQuarter1) == ScienceTable1
    ensures InsertAll(ScienceTable1, ScienceQuarter2) == ScienceTable2
  {
    InsertAllFresh(map[], ScienceQuarter1[0], ScienceQuarter1[1]);
    assert "sc" != "  " && "sc" != " s" && "ci" != "  " && "ci" != " s";
    InsertAllFresh(ScienceTable1, ScienceQuarter2[0], ScienceQuarter2[1]);
  }

  lemma ScienceStep3()
    ensures InsertAll(ScienceTable2, ScienceQuarter3) == ScienceTable3
  {
    assert "ie" != "  " && "ie" != " s" && "ie" != "sc" && "ie" != "ci";
    assert "en" != "  " && "en" != " s" && "en" != "sc" && "en" != "ci";
    InsertAllFresh(ScienceTable2, ScienceQuarter3[0], ScienceQuarter3[1]);
  }

  lemma ScienceStep4()
    ensures InsertAll(ScienceTable3, ScienceQuarter4) == ScienceTable
  {
    assert "nc" != "  " && "nc" != " s" && "nc" != "sc" && "nc" != "ci" && "nc" != "ie" && "nc" != "en";
    assert "ce" != "  " && "ce" != " s" && "ce" != "sc" && "ce" != "ci" && "ce" != "ie" && "ce" != "en";
    InsertAllFresh(ScienceTable3, ScienceQuarter4[0], ScienceQuarter4[1]);
    var t := ScienceTable3["nc" := [Ch('e')]]["ce" := [End]];
    assert t.Keys == ScienceTable.Keys;
  }

  /** populate on ["science"] with chain length 2 builds exactly that
      dictionary. */
  lemma ScienceChain()
    ensures Chain(2, ["science"]) == ScienceTable
  {
    ScienceWordTransitions();
    ScienceSteps12();
    ScienceStep3();
    ScienceStep4();
    var q1, q2, q3, q4 := ScienceQuarter1, ScienceQuarter2, ScienceQuarter3, ScienceQuarter4;
    InsertAllAppend(map[], q1 + q2 + q3, q4);
    InsertAllAppend(map[], q1 + q2, q3);
    InsertAllAppend(map[], q1, q2);
  }

  /** Each prefix of the "science" dictionary lists a single suffix. */
  lemma ScienceEntries()
    ensures NonEmptyLists(ScienceTable)
    ensures ScienceTable["  "] == [Ch('s')] && ScienceTable[" s"] == [Ch('c')]
    ensures ScienceTable["sc"] == [Ch('i')] && ScienceTable["ci"] == [Ch('e')]
    ensures ScienceTable["ie"] == [Ch('n')] && ScienceTable["en"] == [Ch('c')]
    ensures ScienceTable["nc"] == [Ch('e')] && ScienceTable["ce"] == [End]
  {
  }

  /** One step of a walk at a prefix whose only suffix is the character `c`:
      the walk goes on from the slid prefix with `c` appended to the name. */
  lemma WalkOnly(t: Table, p: string, name: string, c: char, pick: nat -> nat, pos: nat)
    requires NonEmptyLists(t) && p in t && t[p] == [Ch(c)] && |name| <= 9
    ensures Walk(t, p, name, pick, pos) == Walk(t, Slide(p, c), name + [c], pick, pos + 1)
  {
    assert Choose(t, p, pick(pos)) == Success(Ch(c));
    WalkGoesOn(t, p, name, c, pick, pos);
  }

  /** The last steps of the walk of the docstring, from "en" with "scie"
      spelled. */
  lemma ScienceWalkTail(pick: nat -> nat, pos: nat)
    ensures Walk(ScienceTable, "ie", "scie", pick, pos + 4) == Success(("science", pos + 8))
  {
    var t := ScienceTable;
    ScienceEntries();
    assert Choose(t, "ce", pick(pos + 7)) == Success(End);
    WalkStops(t, "ce", "science", pick, pos + 7);
    assert Slide("nc", 'e') == "ce" && "scienc" + ['e'] == "science";
    WalkOnly(t, "nc", "scienc", 'e', pick, pos + 6);
    assert Slide("en", 'c') == "nc" && "scien" + ['c'] == "scienc";
    WalkOnly(t, "en", "scien", 'c', pick, pos + 5);
    assert Slide("ie", 'n') == "en" && "scie" + ['n'] == "scien";
    WalkOnly(t, "ie", "scie", 'n', pick, pos + 4);
  }

  /** The first steps of the walk of the docstring, from two spaces. */
  lemma ScienceWalkHead(pick: nat -> nat, pos: nat)
    ensures Walk(ScienceTable, "  ", "", pick, pos) == Walk(ScienceTable, "ie", "scie", pick, pos + 4)
  {
    var t := ScienceTable;
    ScienceEntries();
    assert Slide("ci", 'e') == "ie" && "sci" + ['e'] == "scie";
    WalkOnly(t, "ci", "sci", 'e', pick, pos + 3);
    assert Slide("sc", 'i') == "ci" && "sc" + ['i'] == "sci";
    WalkOnly(t, "sc", "sc", 'i', pick, pos + 2);
    assert Slide(" s", 'c') == "sc" && "s" + ['c'] == "sc";
    WalkOnly(t, " s", "s", 'c', pick, pos + 1);
    assert Slide("  ", 's') == " s" && "" + ['s'] == "s";
    WalkOnly(t, "  ", "", 's', pick, pos);
  }

  /** The walk of the docstring: from two spaces every prefix has a single
      suffix, so whatever the draws, the walk spells "science" and then
      meets the end marker, using eight draws. */
  lemma ScienceWalk(pick: nat -> nat, pos: nat)
    ensures Walk(ScienceTable, "  ", "", pick, pos) == Success(("science", pos + 8))
  {
    ScienceWalkHead(pick, pos);
    ScienceWalkTail(pick, pos);
  }

  /** generate_words(count) on the "science" dictionary yields "Science"
      `count` times, whatever the draws. */
  lemma {:induction false} ScienceWords(count: nat, pick: nat -> nat, pos: nat)
    ensures Generate(ScienceTable, 2, count, pick, pos) == Success(seq(count, _ => "Science"))
  {
    ScienceNames(count, pick, pos);
    ScienceCapitalized();
    var names := seq(count, _ => "science");
    assert CapitalizeAll(names) == seq(count, _ => "Science");
  }

  lemma ScienceCapitalized()
    ensures Capitalize("science") == "Science"
  {
  }

  /** Before capitalization: `count` walks all give "science". */
  lemma {:induction false} ScienceNames(count: nat, pick: nat -> nat, pos: nat)
    ensures Walks(ScienceTable, 2, count, pick, pos) == Success(seq(count, _ => "science"))
  {
    if count > 0 {
      assert Spaces(2) == "  ";
      ScienceEntries();
      ScienceWalk(pick, pos);
      WalksStep(ScienceTable, 2, count, pick, pos, "science", pos + 8);
      ScienceNames(count - 1, pick, pos + 8);
      assert seq(count, _ => "science") == ["science"] + seq(count - 1, _ => "science");
    } else {
      assert seq(count, _ => "science") == [];
    }
  }
}
