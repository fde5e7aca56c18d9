/** The random walk of `MCD.generate_words` (mcrw.py:87-89, 119-132) as
    functions of the table and of a stream of random draws. */
module WordSampler {
  import opened Wrappers
  import opened Text
  import opened ChainTable

  /** The `KeyError` a walk raises when it reaches a prefix with no entry. */
  datatype LookupError = KeyError(prefix: string)

  /** `prefix[1:] + c`: the context window moved on by one character; like
      Python's slice, the empty prefix stays empty before `c` is added. */
  function Slide(prefix: string, c: char): (r: string)
    ensures |prefix| > 0 ==> |r| == |prefix| && r[..|r| - 1] == prefix[1..]
    ensures r != [] && r[|r| - 1] == c
  {
    (if prefix == [] then prefix else prefix[1..]) + [c]
  }

  /** No list of the table is empty, so a random pick always has a choice. */
  predicate NonEmptyLists(t: Table) {
    forall p :: p in t ==> t[p] != []
  }

  /** `random.choice(t[p])` with the random draw `draw`: a missing prefix is a
      `KeyError`; otherwise the draw, reduced modulo the length of the list,
      picks one element of it. Every index in range is the pick of some
      draw, so this covers every choice `random.choice` can make. */
  function Choose(t: Table, p: string, draw: nat): (r: Result<Suffix, LookupError>)
    requires NonEmptyLists(t)
    ensures r.Failure? <==> p !in t
    ensures r.Failure? ==> r.error == KeyError(p)
    ensures r.Success? ==> r.value in t[p]
  {
    if p in t then Success(t[p][draw % |t[p]|]) else Failure(KeyError(p))
  }

  /** Every element of a listed prefix's list is the pick of some draw:
      the draw equal to its index. */
  lemma ChooseCovers(t: Table, p: string, i: nat)
    requires NonEmptyLists(t) && p in t && i < |t[p]|
    ensures Choose(t, p, i) == Success(t[p][i])
  {
  }

  /** The inner `while True` loop of generate_words from the state
      (`prefix`, `name`), drawing `pick(pos)`, `pick(pos + 1)`, ... : it stops
      on the end marker or once `name` has more than 9 characters, and
      otherwise appends the suffix and slides the prefix. The result is the
      finished name and the position of the next unused draw. */
  function Walk(t: Table, prefix: string, name: string, pick: nat -> nat, pos: nat)
    : (r: Result<(string, nat), LookupError>)
    requires NonEmptyLists(t)
    ensures r.Success? ==> name <= r.value.0 && r.value.1 > pos
    ensures r.Success? && |name| <= 10 ==> |r.value.0| <= 10
    decreases 10 - |name|
  {
    match Choose(t, prefix, pick(pos))
    case Failure(e) => Failure(e)
    case Success(s) =>
      if s == End || |name| > 9 then Success((name, pos + 1))
      else Walk(t, Slide(prefix, s.c), name + [s.c], pick, pos + 1)
  }

  /** A walk whose first draw meets a missing prefix fails with its
      `KeyError`. */
  lemma WalkFails(t: Table, prefix: string, name: string, pick: nat -> nat, pos: nat)
    requires NonEmptyLists(t) && Choose(t, prefix, pick(pos)).Failure?
    ensures Walk(t, prefix, name, pick, pos) == Failure(KeyError(prefix))
  {
  }

  /** A walk whose first draw is the end marker, or whose name is already
      longer than 9 characters, finishes with that name. */
  lemma WalkStops(t: Table, prefix: string, name: string, pick: nat -> nat, pos: nat)
    requires NonEmptyLists(t) && Choose(t, prefix, pick(pos)).Success?
    requires Choose(t, prefix, pick(pos)).value == End || |name| > 9
    ensures Walk(t, prefix, name, pick, pos) == Success((name, pos + 1))
  {
  }

  /** A walk whose first draw is the character `c` goes on from the slid
      prefix with `c` appended to the name. */
  lemma WalkGoesOn(t: Table, prefix: string, name: string, c: char, pick: nat -> nat, pos: nat)
    requires NonEmptyLists(t) && Choose(t, prefix, pick(pos)) == Success(Ch(c)) && |name| <= 9
    ensures Walk(t, prefix, name, pick, pos) == Walk(t, Slide(prefix, c), name + [c], pick, pos + 1)
  {
  }

  /** The names of `count` successive walks, each from `k` spaces and the
      empty name, before capitalization; the first failing walk fails all. */
  function Walks(t: Table, k: int, count: nat, pick: nat -> nat, pos: nat)
    : (r: Result<seq<string>, LookupError>)
    requires NonEmptyLists(t)
    ensures r.Success? ==> |r.value| == count
    decreases count
  {
    if count == 0 then Success([])
    else
      match Walk(t, Spaces(k), "", pick, pos)
      case Failure(e) => Failure(e)
      case Success((name, next)) =>
        match Walks(t, k, count - 1, pick, next)
        case Failure(e) => Failure(e)
        case Success(rest) => Success([name] + rest)
  }

  /** Every name of a successful series of walks has at most 10 characters. */
  lemma {:induction false} WalksShape(t: Table, k: int, count: nat, pick: nat -> nat, pos: nat)
    requires NonEmptyLists(t) && Walks(t, k, count, pick, pos).Success?
    ensures forall i :: 0 <= i < count ==> |Walks(t, k, count, pick, pos).value[i]| <= 10
    decreases count
  {
    if count > 0 {
      var next := Walk(t, Spaces(k), "", pick, pos).value.1;
      WalksShape(t, k, count - 1, pick, next);
    }
  }

  /** `list(generate_words(count))`: the capitalized names of `count` walks. */
  function Generate(t: Table, k: int, count: nat, pick: nat -> nat, pos: nat)
    : Result<seq<string>, LookupError>
    requires NonEmptyLists(t)
  {
    Capitalized(Walks(t, k, count, pick, pos))
  }

  /** The names of a successful series of walks, capitalized; an error is
      passed on. */
  function Capitalized(r: Result<seq<string>, LookupError>): Result<seq<string>, LookupError> {
    match r
    case Failure(e) => Failure(e)
    case Success(names) => Success(CapitalizeAll(names))
  }

  /** `name.capitalize()` for each name, in order. */
  function CapitalizeAll(names: seq<string>): seq<string> {
    seq(|names|, i requires 0 <= i < |names| => Capitalize(names[i]))
  }

  /** Capitalizing a list of names capitalizes each one and keeps their
      number and order. */
  lemma CapitalizeAllShape(names: seq<string>)
    ensures |CapitalizeAll(names)| == |names|
    ensures forall i :: 0 <= i < |names| ==> CapitalizeAll(names)[i] == Capitalize(names[i])
  {
  }

  /** generate_words(count) gives words exactly when every walk finishes:
      then it gives `count` words, each the capitalized name of its walk and
      at most 10 characters long. */
  lemma GenerateShape(t: Table, k: int, count: nat, pick: nat -> nat, pos: nat)
    requires NonEmptyLists(t)
    ensures Generate(t, k, count, pick, pos).Success? <==> Walks(t, k, count, pick, pos).Success?
    ensures Generate(t, k, count, pick, pos).Success? ==>
              |Generate(t, k, count, pick, pos).value| == count &&
              forall i :: 0 <= i < count ==>
                Generate(t, k, count, pick, pos).value[i] == Capitalize(Walks(t, k, count, pick, pos).value[i]) &&
                |Generate(t, k, count, pick, pos).value[i]| <= 10
  {
    if Walks(t, k, count, pick, pos).Success? {
      WalksShape(t, k, count, pick, pos);
      CapitalizeAllShape(Walks(t, k, count, pick, pos).value);
    }
  }

  /** `names` before the result of the remaining walks. */
  function Prepend(names: seq<string>, rest: Result<seq<string>, LookupError>)
    : (r: Result<seq<string>, LookupError>)
    ensures r.Success? <==> rest.Success?
    ensures r.Success? ==> r.value == names + rest.value
  {
    match rest
    case Success(more) => Success(names + more)
    case Failure(e) => Failure(e)
  }

  lemma PrependNothing(rest: Result<seq<string>, LookupError>)
    ensures Prepend([], rest) == rest
  {
    if rest.Success? {
      assert [] + rest.value == rest.value;
    }
  }

  /** A series of walks is its first walk followed by the rest. */
  lemma WalksStep(t: Table, k: int, count: nat, pick: nat -> nat, pos: nat, name: string, next: nat)
    requires NonEmptyLists(t) && count > 0
    requires Walk(t, Spaces(k), "", pick, pos) == Success((name, next))
    ensures Walks(t, k, count, pick, pos) == Prepend([name], Walks(t, k, count - 1, pick, next))
  {
  }

  /** One walk followed by the remaining ones, on the capitalized words:
      the step generate_words' outer loop takes. */
  lemma GenerateStep(t: Table, k: int, count: nat, pick: nat -> nat, pos: nat, words: seq<string>,
                     name: string, next: nat)
    requires NonEmptyLists(t) && count > 0
    requires Walk(t, Spaces(k), "", pick, pos) == Success((name, next))
    ensures Prepend(words, Generate(t, k, count, pick, pos)) ==
            Prepend(words + [Capitalize(name)], Generate(t, k, count - 1, pick, next))
  {
    WalksStep(t, k, count, pick, pos, name, next);
    var rest := Walks(t, k, count - 1, pick, next);
    CapitalizedPrepend([name], rest);
    assert CapitalizeAll([name]) == [Capitalize(name)];
    PrependPrepend(words, [Capitalize(name)], Capitalized(rest));
  }

  /** Capitalizing names put before a result capitalizes each part. */
  lemma CapitalizedPrepend(names: seq<string>, rest: Result<seq<string>, LookupError>)
    ensures Capitalized(Prepend(names, rest)) == Prepend(CapitalizeAll(names), Capitalized(rest))
  {
    if rest.Success? {
      assert CapitalizeAll(names + rest.value) == CapitalizeAll(names) + CapitalizeAll(rest.value);
    }
  }

  /** Putting `b` and then `a` before a result is putting `a + b` before it. */
  lemma PrependPrepend(a: seq<string>, b: seq<string>, rest: Result<seq<string>, LookupError>)
    ensures Prepend(a, Prepend(b, rest)) == Prepend(a + b, rest)
  {
    if rest.Success? {
      assert a + (b + rest.value) == (a + b) + rest.value;
    }
  }

  /** A walk that raises `KeyError` part-way through ends the whole run
      with that error. */
  lemma GenerateFails(t: Table, k: int, count: nat, pick: nat -> nat, pos: nat, words: seq<string>)
    requires NonEmptyLists(t) && count > 0 && Walk(t, Spaces(k), "", pick, pos).Failure?
    ensures Prepend(words, Generate(t, k, count, pick, pos)) == Failure(Walk(t, Spaces(k), "", pick, pos).error)
  {
  }

  /** One pass of generate_words' outer loop, whatever its walk gives: a
      `KeyError` ends the run with it, and a finished walk adds its
      capitalized name before the remaining walks. */
  lemma GenerateNext(t: Table, k: int, count: nat, pick: nat -> nat, pos: nat, words: seq<string>,
                     walked: Result<(string, nat), LookupError>)
    requires NonEmptyLists(t) && count > 0 && walked == Walk(t, Spaces(k), "", pick, pos)
    ensures walked.Failure? ==> Prepend(words, Generate(t, k, count, pick, pos)) == Failure(walked.error)
    ensures walked.Success? ==>
              Prepend(words, Generate(t, k, count, pick, pos)) ==
              Prepend(words + [Capitalize(walked.value.0)], Generate(t, k, count - 1, pick, walked.value.1))
  {
    if walked.Failure? {
      GenerateFails(t, k, count, pick, pos, words);
    } else {
      GenerateStep(t, k, count, pick, pos, words, walked.value.0, walked.value.1);
    }
  }

  /** No walks left: the words so far are the result. */
  lemma GenerateDone(t: Table, k: int, pick: nat -> nat, pos: nat, words: seq<string>)
    requires NonEmptyLists(t)
    ensures Prepend(words, Generate(t, k, 0, pick, pos)) == Success(words)
  {
    assert Generate(t, k, 0, pick, pos).value == [];
    assert words + [] == words;
  }

  // ---------------------------------------------------------------------
  // The walk never fails on a table built from seed words.

  /** A table every walk can run on: the all-spaces start is a key, every
      key has `k` characters and a non-empty list, and sliding any key by any
      character listed under it gives a key again. */
  ghost predicate WellFormed(t: Table, k: nat) {
    && Spaces(k) in t
    && (forall p :: p in t ==> |p| == k && t[p] != [])
    && (forall p, i :: p in t && 0 <= i < |t[p]| && t[p][i].Ch? ==> Slide(p, t[p][i].c) in t)
  }

  /** Before any character is drawn the context is `k` spaces. */
  lemma ContextOfEmpty(k: nat)
    ensures Context(k, "") == Spaces(k)
  {
    assert Pad(k, "")[0..k] == Spaces(k);
  }

  /** Sliding the context of `name` by `c` gives the context of `name + c`:
      the prefix is always the last `k` characters of `k` spaces + name. */
  lemma SlideContext(k: nat, name: string, c: char)
    requires k >= 1
    ensures Slide(Context(k, name), c) == Context(k, name + [c])
  {
    var s := Pad(k, name);
    assert Pad(k, name + [c]) == s + [c];
    assert Context(k, name) == s[|name|..];
    assert Context(k, name + [c]) == s[|name| + 1..] + [c];
  }

  /** The table of a non-empty seed list is well formed. */
  lemma ChainWellFormed(k: nat, words: seq<string>)
    requires k >= 1 && words != []
    ensures WellFormed(Chain(k, words), k)
  {
    var t: Table := Chain(k, words);
    ChainKeys(k, words);
    StartIsKey(k, words);
    forall p: string, i: int | p in t && 0 <= i < |t[p]| && t[p][i].Ch? ensures Slide(p, t[p][i].c) in t {
      SlideIsKey(k, words, p, t[p][i].c);
    }
  }

  /** `k` spaces, where every walk starts, is a key of the table of a
      non-empty seed list: the first seed word starts there. */
  lemma StartIsKey(k: nat, words: seq<string>)
    requires words != []
    ensures Spaces(k) in Chain(k, words)
  {
    var w0 := Strip(words[0]);
    if w0 == [] {
      assert Context(k, w0) == Spaces(k);
      ChainHasEnd(k, words, 0);
    } else {
      PadStart(k, w0);
      ChainHasChar(k, words, 0, Spaces(k), w0[0]);
    }
  }

  /** The padded form of a non-empty word starts with `k` spaces and the
      word's first character. */
  lemma PadStart(k: nat, w: string)
    requires w != []
    ensures IsSubstring(Spaces(k) + [w[0]], Pad(k, w))
  {
    var s := Pad(k, w);
    assert s[k] == s[k..][0] == w[0];
    assert s[..k + 1] == s[..k] + [s[k]];
    assert OccursAt(Spaces(k) + [w[0]], s, 0);
  }

  /** Sliding the window `p + c` found at index `n` of `s` gives the
      window of `s` that starts one character later: the key of the next
      window, or the last `|p|` characters of `s`. */
  lemma SlideWindow(s: string, n: nat, p: string, c: char)
    requires |p| >= 1 && OccursAt(p + [c], s, n)
    ensures n + |p| + 1 < |s| ==> OccursAt(Slide(p, c) + [s[n + |p| + 1]], s, n + 1)
    ensures n + |p| + 1 == |s| ==> Slide(p, c) == s[n + 1..|s|]
  {
    var k := |p|;
    assert s[n..n + k + 1] == p + [c];
    forall i | 0 <= i < k ensures Slide(p, c)[i] == s[n + 1 + i] {
      if i < k - 1 {
        assert Slide(p, c)[i] == p[i + 1] == (p + [c])[i + 1];
      } else {
        assert (p + [c])[k] == c;
      }
    }
    assert Slide(p, c) == s[n + 1..n + k + 1];
    if n + k + 1 < |s| {
      assert s[n + 1..n + k + 2] == s[n + 1..n + k + 1] + [s[n + k + 1]];
    }
  }

  /** Sliding a key by a character listed under it gives a key again. */
  lemma SlideIsKey(k: nat, words: seq<string>, p: string, c: char)
    requires k >= 1 && p in Chain(k, words) && Ch(c) in Chain(k, words)[p]
    ensures Slide(p, c) in Chain(k, words)
  {
    ChainCharFrom(k, words, p, c);
    var j :| 0 <= j < |words| && IsSubstring(p + [c], Pad(k, Strip(words[j])));
    var n :| OccursAt(p + [c], Pad(k, Strip(words[j])), n);
    SlideInWord(k, words, j, p, c, n);
  }

  /** The window after `p + c` at index `n` of padded seed word `j` is
      recorded: a further character, or the end of the word. */
  lemma SlideInWord(k: nat, words: seq<string>, j: nat, p: string, c: char, n: nat)
    requires k >= 1 && j < |words| && |p| == k
    requires OccursAt(p + [c], Pad(k, Strip(words[j])), n)
    ensures Slide(p, c) in Chain(k, words)
  {
    var w := Strip(words[j]);
    var s := Pad(k, w);
    SlideWindow(s, n, p, c);
    var q := Slide(p, c);
    if n + 1 < |w| {
      assert OccursAt(q + [s[n + k + 1]], s, n + 1);
      ChainHasChar(k, words, j, q, s[n + k + 1]);
    } else {
      assert q == Context(k, w);
      ChainHasEnd(k, words, j);
    }
  }

  /** On a well-formed table a walk from a key never raises `KeyError`. */
  lemma {:induction false} WalkSucceeds(t: Table, k: nat, prefix: string, name: string, pick: nat -> nat, pos: nat)
    requires WellFormed(t, k) && prefix in t
    ensures Walk(t, prefix, name, pick, pos).Success?
    decreases 10 - |name|
  {
    var s := t[prefix][pick(pos) % |t[prefix]|];
    if s != End && |name| <= 9 {
      WalkSucceeds(t, k, Slide(prefix, s.c), name + [s.c], pick, pos + 1);
    }
  }

  /** On a well-formed table every requested word is produced. */
  lemma {:induction false} WalksSucceed(t: Table, k: nat, count: nat, pick: nat -> nat, pos: nat)
    requires WellFormed(t, k)
    ensures Walks(t, k, count, pick, pos).Success?
    decreases count
  {
    if count > 0 {
      WalkSucceeds(t, k, Spaces(k), "", pick, pos);
      var next := Walk(t, Spaces(k), "", pick, pos).value.1;
      WalksSucceed(t, k, count - 1, pick, next);
    }
  }

  /** With no seed words the table is empty, and the first draw of
      generate_words raises `KeyError` on the all-spaces prefix. */
  lemma NoSeedsKeyError(k: nat, count: nat, pick: nat -> nat)
    requires count > 0
    ensures Chain(k, []) == map[]
    ensures Generate(Chain(k, []), k, count, pick, 0) == Failure(KeyError(Spaces(k)))
  {
    WalkFails(map[], Spaces(k), "", pick, 0);
  }

  // ---------------------------------------------------------------------
  // What a walk produces.

  /** Each character of `name` is listed in `t` under the context of the
      characters before it. */
  ghost predicate Traced(t: Table, k: nat, name: string) {
    forall j :: 0 <= j < |name| ==>
      Context(k, name[..j]) in t && Ch(name[j]) in t[Context(k, name[..j])]
  }

  /** A finished walk: every character was drawn from the table, and the
      walk stopped at a key that lists the end marker or at the length cap. */
  ghost predicate Walked(t: Table, k: nat, name: string) {
    && Traced(t, k, name)
    && Context(k, name) in t
    && (End in t[Context(k, name)] || |name| == 10)
  }

  lemma {:induction false} WalkTraced(t: Table, k: nat, name: string, pick: nat -> nat, pos: nat)
    requires k >= 1 && NonEmptyLists(t) && Traced(t, k, name) && |name| <= 10
    requires Walk(t, Context(k, name), name, pick, pos).Success?
    ensures Walked(t, k, Walk(t, Context(k, name), name, pick, pos).value.0)
    decreases 10 - |name|
  {
    var prefix := Context(k, name);
    var s := t[prefix][pick(pos) % |t[prefix]|];
    if s != End && |name| <= 9 {
      var name' := name + [s.c];
      SlideContext(k, name, s.c);
      forall j | 0 <= j < |name'|
        ensures Context(k, name'[..j]) in t && Ch(name'[j]) in t[Context(k, name'[..j])]
      {
        if j < |name| {
          assert name'[..j] == name[..j] && name'[j] == name[j];
        } else {
          assert name'[..j] == name;
        }
      }
      WalkTraced(t, k, name', pick, pos + 1);
    }
  }

  /** Every name of a successful series of walks is a finished walk from the
      empty name. */
  lemma {:induction false} WalksWalked(t: Table, k: nat, count: nat, pick: nat -> nat, pos: nat)
    requires k >= 1 && NonEmptyLists(t) && Walks(t, k, count, pick, pos).Success?
    ensures forall i :: 0 <= i < count ==> Walked(t, k, Walks(t, k, count, pick, pos).value[i])
    decreases count
  {
    if count > 0 {
      assert Context(k, "") == Spaces(k);
      WalkTraced(t, k, "", pick, pos);
      var next := Walk(t, Spaces(k), "", pick, pos).value.1;
      WalksWalked(t, k, count - 1, pick, next);
    }
  }

  // ---------------------------------------------------------------------
  // Generated words, in terms of the seed words.

  /** The window of `k + 1` characters of `k` spaces + `name` at index `n`. */
  function Window(k: nat, name: string, n: nat): (r: string)
    requires n < |name|
    ensures |r| == k + 1
  {
    Pad(k, name)[n..n + k + 1]
  }

  /** The window at `n` is the context of the first `n` characters followed
      by character `n`. */
  lemma WindowIsContext(k: nat, name: string, n: nat)
    requires n < |name|
    ensures Window(k, name, n) == Context(k, name[..n]) + [name[n]]
  {
    var s := Pad(k, name);
    assert Pad(k, name[..n]) == s[..n + k];
    assert Context(k, name[..n]) == s[n..n + k];
    assert s[n + k] == name[n];
    assert s[n..n + k + 1] == s[n..n + k] + [s[n + k]];
  }

  /** A name made only of what the seed words show: each window of `k + 1`
      characters of its padded form occurs in some padded seed word, and,
      unless it stopped at the length cap, it ends the way some seed word
      ends. */
  ghost predicate FromSeeds(k: nat, words: seq<string>, name: string) {
    && (forall n :: 0 <= n < |name| ==>
          exists j :: 0 <= j < |words| && IsSubstring(Window(k, name, n), Pad(k, Strip(words[j]))))
    && (|name| < 10 ==>
          exists j :: 0 <= j < |words| && Context(k, name) == Context(k, Strip(words[j])))
  }

  lemma WalkedFromSeeds(k: nat, words: seq<string>, name: string)
    requires k >= 1 && Walked(Chain(k, words), k, name)
    ensures FromSeeds(k, words, name)
  {
    var t: Table := Chain(k, words);
    forall n | 0 <= n < |name|
      ensures exists j :: 0 <= j < |words| && IsSubstring(Window(k, name, n), Pad(k, Strip(words[j])))
    {
      WindowIsContext(k, name, n);
      ChainChars(k, words, Context(k, name[..n]), name[n]);
    }
    if |name| < 10 {
      ChainEnds(k, words, Context(k, name));
    }
  }

  /** generate_words(count) on the table of a non-empty seed list with a
      valid chain length never raises: it gives exactly `count` words, each
      at most 10 characters long, each the capitalized name of a walk that
      only reuses windows of the seed words. */
  lemma GeneratedWords(k: nat, words: seq<string>, count: nat, pick: nat -> nat)
    requires ValidChainLength(k) && words != []
    ensures NonEmptyLists(Chain(k, words))
    ensures Generate(Chain(k, words), k, count, pick, 0).Success?
    ensures var names := Walks(Chain(k, words), k, count, pick, 0).value;
            var r := Generate(Chain(k, words), k, count, pick, 0).value;
            |r| == count == |names| &&
            forall i :: 0 <= i < count ==>
              |r[i]| <= 10 && r[i] == Capitalize(names[i]) && FromSeeds(k, words, names[i])
  {
    var t: Table := Chain(k, words);
    ChainWellFormed(k, words);
    WalksSucceed(t, k, count, pick, 0);
    WalksWalked(t, k, count, pick, 0);
    GenerateShape(t, k, count, pick, 0);
    var names := Walks(t, k, count, pick, 0).value;
    forall i | 0 <= i < count ensures FromSeeds(k, words, names[i]) {
      WalkedFromSeeds(k, words, names[i]);
    }
  }

  /** A name that only reuses windows of empty seed words is empty: its
      first window has `k + 1` characters, and a padded empty seed word only
      `k`. */
  lemma NonEmptyNotFromEmptySeeds(k: nat, words: seq<string>, name: string)
    requires forall j :: 0 <= j < |words| ==> Strip(words[j]) == ""
    requires name != []
    ensures !FromSeeds(k, words, name)
  {
    var w := Window(k, name, 0);
    forall j | 0 <= j < |words|
      ensures !IsSubstring(w, Pad(k, Strip(words[j])))
    {
      assert |Pad(k, Strip(words[j]))| == k;
    }
  }

  lemma FromEmptySeeds(k: nat, words: seq<string>, name: string)
    requires forall j :: 0 <= j < |words| ==> Strip(words[j]) == ""
    requires FromSeeds(k, words, name)
    ensures name == ""
  {
    if name != [] {
      NonEmptyNotFromEmptySeeds(k, words, name);
      assert false;
    }
  }

  lemma AllEmpty(res: Result<seq<string>, LookupError>, names: seq<string>, count: nat)
    requires res.Success? && |res.value| == count == |names|
    requires forall i :: 0 <= i < count ==> res.value[i] == Capitalize(names[i]) && names[i] == ""
    ensures res == Success(seq(count, _ => ""))
  {
    assert res.value == seq(count, _ => "");
  }

  /** When every seed word strips to the empty string, every generated word
      is empty. */
  lemma EmptySeedsGiveEmptyWords(k: nat, words: seq<string>, count: nat, pick: nat -> nat)
    requires ValidChainLength(k) && words != []
    requires forall j :: 0 <= j < |words| ==> Strip(words[j]) == ""
    ensures NonEmptyLists(Chain(k, words))
    ensures Generate(Chain(k, words), k, count, pick, 0) == Success(seq(count, _ => ""))
  {
    GeneratedWords(k, words, count, pick);
    var names := Walks(Chain(k, words), k, count, pick, 0).value;
    forall i | 0 <= i < count ensures names[i] == "" {
      FromEmptySeeds(k, words, names[i]);
    }
    AllEmpty(Generate(Chain(k, words), k, count, pick, 0), names, count);
  }
}
