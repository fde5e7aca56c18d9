/** The MCD class of mcrw.py: a dictionary from prefixes to suffix lists that
    `populate` fills in place from the seed words and that `generate_words`
    walks. */
module Mcrw {
  import opened Wrappers
  import opened Text
  import opened ChainTable
  import opened WordSampler

  /** The error `populate` reports, before exiting, for a chain length
      outside 1..10. */
  datatype ConfigError = ChainLengthOutOfRange(chainlen: int)

  class MCD {
    /** The number of characters of context, fixed at construction. */
    const chainlen: int
    /** The dictionary itself. */
    var table: Table

    /** Every key has `chainlen` characters and a non-empty list. */
    ghost predicate Valid()
      reads this
    {
      KeysFit(table, chainlen)
    }

    /** `dict.__init__(self)` and `self.chainlen = chainlen`: an empty table. */
    constructor (chainlen: int)
      ensures this.chainlen == chainlen && table == map[]
      ensures Valid()
    {
      this.chainlen := chainlen;
      table := map[];
    }

    /** `add_key(prefix, suffix)`: appends `suffix` to the list under
        `prefix`, creating the list when `prefix` is new; no other entry
        changes. */
    method AddKey(prefix: string, suffix: Suffix)
      modifies this
      ensures table == Added(old(table), prefix, suffix)
    {
      if prefix in table {
        table := table[prefix := table[prefix] + [suffix]];
      } else {
        table := table[prefix := [suffix]];
      }
    }

    /** `get_suffix(prefix)`, with the random pick made by `draw`: a missing
        prefix is a `KeyError`, otherwise the result is one of the suffixes
        listed under `prefix`. */
    function GetSuffix(prefix: string, draw: nat): (r: Result<Suffix, LookupError>)
      reads this
      requires Valid()
      ensures r.Failure? <==> prefix !in table
      ensures r.Failure? ==> r.error == KeyError(prefix)
      ensures r.Success? ==> r.value in table[prefix]
    {
      Choose(table, prefix, draw)
    }

    /** `populate()` on the seed words `words` (already read from the file):
        a chain length outside 1..10 is rejected and nothing is added;
        otherwise every stripped word `w` adds, in order, one transition per
        window of `chainlen` characters of `chainlen` spaces + `w` to the next
        character, and one from its last `chainlen` characters to the end. */
    method Populate(words: seq<string>) returns (r: Outcome<ConfigError>)
      requires Valid()
      modifies this
      ensures Valid()
      ensures !ValidChainLength(chainlen) ==>
                r == Fail(ChainLengthOutOfRange(chainlen)) && table == old(table)
      ensures ValidChainLength(chainlen) ==>
                r == Pass && table == InsertAll(old(table), Transitions(chainlen, words))
    {
      if chainlen > 10 || chainlen < 1 {
        return Fail(ChainLengthOutOfRange(chainlen));
      }
      var k: nat := chainlen;
      ghost var t0 := table;
      var i := 0;
      assert words[..0] == [];
      while i < |words|
        invariant 0 <= i <= |words|
        invariant Valid()
        invariant table == InsertAll(t0, Transitions(k, words[..i]))
      {
        var l := Strip(words[i]);
        AddWord(l);
        InsertAllAppend(t0, Transitions(k, words[..i]), WordTransitions(k, l));
        PopulateWordStep(k, words, i);
        i := i + 1;
      }
      assert words[..|words|] == words;
      return Pass;
    }

    /** One pass of populate's outer loop, on the stripped word `l`: the
        transitions of `l` are added in order, each window of `chainlen`
        characters of `chainlen` spaces + `l` to the next character, then
        the last `chainlen` characters to the end. */
    method AddWord(l: string)
      requires Valid() && ValidChainLength(chainlen)
      modifies this
      ensures Valid()
      ensures table == InsertAll(old(table), WordTransitions(chainlen, l))
    {
      var k: nat := chainlen;
      var s := Pad(k, l);
      ghost var t0 := table;
      var n := 0;
      while n < |l|
        invariant 0 <= n <= |l|
        invariant Valid()
        invariant table == InsertAll(t0, WordTransitions(k, l)[..n])
      {
        AddedKeysFit(table, k, s[n..n + k], Ch(s[n + k]));
        PopulateCharStep(t0, k, l, n);
        AddKey(s[n..n + k], Ch(s[n + k]));
        n := n + 1;
      }
      AddedKeysFit(table, k, s[|l|..|l| + k], End);
      PopulateEndStep(t0, k, l);
      AddKey(s[|l|..|l| + k], End);
    }

    /** `list(generate_words(count))` with the random draws `pick(0)`,
        `pick(1)`, ... ; like `xrange(N)`, a count of zero or less gives no
        words. The generator only reads the dictionary, so its loops run on
        the table's value (`GenerateFrom`). */
    method GenerateWords(count: int, pick: nat -> nat) returns (r: Result<seq<string>, LookupError>)
      requires Valid()
      ensures count <= 0 ==> r == Success([])
      ensures count > 0 ==> r == Generate(table, chainlen, count, pick, 0)
    {
      var n: nat := if count < 0 then 0 else count;
      r := GenerateFrom(table, chainlen, n, pick);
      if count <= 0 {
        GenerateDone(table, chainlen, pick, 0, []);
        PrependNothing(r);
      }
    }
  }

  /** The inner `while True` loop of generate_words on the table `t`, drawing
      `pick(pos)`, `pick(pos + 1)`, ... : the walk from `k` spaces and the
      empty name, giving the name (not yet capitalized) and the next draw, or
      the `KeyError` of `get_suffix`. */
  method WalkFrom(t: Table, k: int, pick: nat -> nat, pos: nat) returns (r: Result<(string, nat), LookupError>)
    requires NonEmptyLists(t)
    ensures r == Walk(t, Spaces(k), "", pick, pos)
  {
    var prefix := Spaces(k);
    var name := "";
    var next := pos;
    if k >= 1 {
      ContextOfEmpty(k);
    }
    while true
      invariant |name| <= 10
      invariant k >= 1 ==> prefix == Context(k, name)
      invariant Walk(t, prefix, name, pick, next) == Walk(t, Spaces(k), "", pick, pos)
      decreases 10 - |name|
    {
      var suffix := Choose(t, prefix, pick(next));
      if suffix.Failure? {
        WalkFails(t, prefix, name, pick, next);
        return Failure(suffix.error);
      }
      if suffix.value == End || |name| > 9 {
        WalkStops(t, prefix, name, pick, next);
        return Success((name, next + 1));
      }
      WalkGoesOn(t, prefix, name, suffix.value.c, pick, next);
      if k >= 1 {
        SlideContext(k, name, suffix.value.c);
      }
      next := next + 1;
      name := name + [suffix.value.c];
      prefix := Slide(prefix, suffix.value.c);
    }
  }

  /** The outer loop of generate_words on the table `t`: `count` walks, each
      from `k` spaces and the empty name, each yielding its name
      capitalized; a walk that reaches a prefix with no entry raises
      `KeyError`. */
  method GenerateFrom(t: Table, k: int, count: nat, pick: nat -> nat) returns (r: Result<seq<string>, LookupError>)
    requires NonEmptyLists(t)
    ensures r == Generate(t, k, count, pick, 0)
  {
    var words: seq<string> := [];
    var pos: nat := 0;
    var remaining := count;
    ghost var goal := Generate(t, k, count, pick, 0);
    PrependNothing(goal);
    while remaining > 0
      invariant goal == Prepend(words, Generate(t, k, remaining, pick, pos))
    {
      var walked := WalkFrom(t, k, pick, pos);
      GenerateNext(t, k, remaining, pick, pos, words, walked);
      if walked.Failure? {
        return Failure(walked.error);
      }
      words := words + [Capitalize(walked.value.0)];
      pos := walked.value.1;
      remaining := remaining - 1;
    }
    GenerateDone(t, k, pick, pos, words);
    return Success(words);
  }

  /** One transition of populate's inner loop: `add_key` on the window at
      `n` extends the table by the `n`-th transition of the word. */
  lemma PopulateCharStep(t0: Table, k: nat, l: string, n: nat)
    requires n < |l|
    ensures Added(InsertAll(t0, WordTransitions(k, l)[..n]), Pad(k, l)[n..n + k], Ch(Pad(k, l)[n + k])) ==
            InsertAll(t0, WordTransitions(k, l)[..n + 1])
  {
    var s := Pad(k, l);
    var trs := WordTransitions(k, l);
    assert trs[n] == Transition(s[n..n + k], Ch(s[n + k]));
    assert trs[..n + 1] == trs[..n] + [trs[n]];
    InsertAllSnoc(t0, trs[..n], trs[n]);
  }

  /** The end transition populate adds after the inner loop completes the
      transitions of the word. */
  lemma PopulateEndStep(t0: Table, k: nat, l: string)
    ensures Added(InsertAll(t0, WordTransitions(k, l)[..|l|]), Pad(k, l)[|l|..|l| + k], End) ==
            InsertAll(t0, WordTransitions(k, l))
  {
    var s := Pad(k, l);
    var trs := WordTransitions(k, l);
    assert trs[|l|] == Transition(s[|l|..|l| + k], End);
    assert trs == trs[..|l|] + [trs[|l|]];
    InsertAllSnoc(t0, trs[..|l|], trs[|l|]);
  }

  /** The transitions of the first `i + 1` seed words. */
  lemma PopulateWordStep(k: nat, words: seq<string>, i: nat)
    requires i < |words|
    ensures Transitions(k, words[..i + 1]) == Transitions(k, words[..i]) + WordTransitions(k, Strip(words[i]))
  {
    assert words[..i + 1][..i] == words[..i];
  }

  /** `MCD(filename, chainlen)` with the lines of the file already read into
      `words`: fails for a chain length outside 1..10, and otherwise gives a
      fresh MCD holding the table of the seed words. */
  method Create(words: seq<string>, chainlen: int) returns (r: Result<MCD, ConfigError>)
    ensures r.Failure? <==> !ValidChainLength(chainlen)
    ensures r.Failure? ==> r.error == ChainLengthOutOfRange(chainlen)
    ensures r.Success? ==> fresh(r.value) && r.value.Valid() && r.value.chainlen == chainlen
    ensures r.Success? ==> r.value.table == Chain(chainlen, words)
  {
    var m := new MCD(chainlen);
    var outcome := m.Populate(words);
    if outcome.Fail? {
      return Failure(outcome.error);
    }
    return Success(m);
  }
}
