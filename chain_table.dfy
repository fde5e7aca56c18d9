/** The prefix -> suffixes table that `MCD.add_key` and `MCD.populate` build
    (mcrw.py:80-86, 106-118), written as functions of the seed words. */
module ChainTable {
  import opened Text

  /** What may follow a prefix: a character of a seed word, or the end of
      the word, which mcrw.py stores as the string "\n". */
  datatype Suffix = Ch(c: char) | End

  /** One `add_key(prefix, suffix)` call. */
  datatype Transition = Transition(prefix: string, suffix: Suffix)

  /** The dictionary an MCD object is: each prefix maps to the list of the
      suffixes seen after it, in the order seen, duplicates kept. */
  type Table = map<string, seq<Suffix>>

  /** The chain lengths `populate` accepts. */
  const MinChainLength: int := 1
  const MaxChainLength: int := 10

  predicate ValidChainLength(k: int) {
    MinChainLength <= k <= MaxChainLength
  }

  /** The list stored under `p`, or the empty list when `p` is not a key. */
  function Lookup(t: Table, p: string): seq<Suffix> {
    if p in t then t[p] else []
  }

  /** The table after `add_key(p, x)`: `x` appended to the list under `p`,
      which is created when `p` is new; every other entry is kept. */
  function Added(t: Table, p: string, x: Suffix): (r: Table)
    ensures r.Keys == t.Keys + {p}
    ensures r[p] == Lookup(t, p) + [x]
    ensures forall q :: q in t && q != p ==> r[q] == t[q]
  {
    if p in t then t[p := t[p] + [x]] else t[p := [x]]
  }

  /** Every key of `t` has `k` characters and a non-empty list. */
  predicate KeysFit(t: Table, k: int) {
    forall p :: p in t ==> |p| == k && t[p] != []
  }

  /** Adding a `k`-character key keeps every key at `k` characters and every
      list non-empty. */
  lemma AddedKeysFit(t: Table, k: int, p: string, x: Suffix)
    requires KeysFit(t, k) && |p| == k
    ensures KeysFit(Added(t, p, x), k)
  {
  }

  /** The table after adding the transitions `trs`, in order. */
  function InsertAll(t: Table, trs: seq<Transition>): Table {
    if trs == [] then t
    else
      var last := trs[|trs| - 1];
      Added(InsertAll(t, trs[..|trs| - 1]), last.prefix, last.suffix)
  }

  lemma InsertAllSnoc(t: Table, trs: seq<Transition>, tr: Transition)
    ensures InsertAll(t, trs + [tr]) == Added(InsertAll(t, trs), tr.prefix, tr.suffix)
  {
    assert (trs + [tr])[..|trs|] == trs;
  }

  /** Adding `a` and then `b` is adding `a + b`. */
  lemma {:induction false} InsertAllAppend(t: Table, a: seq<Transition>, b: seq<Transition>)
    ensures InsertAll(t, a + b) == InsertAll(InsertAll(t, a), b)
    decreases |b|
  {
    if b == [] {
      assert a + b == a;
    } else {
      var init, last := b[..|b| - 1], b[|b| - 1];
      calc {
        InsertAll(t, a + b);
        { assert a + b == (a + init) + [last]; }
        InsertAll(t, (a + init) + [last]);
        { InsertAllSnoc(t, a + init, last); }
        Added(InsertAll(t, a + init), last.prefix, last.suffix);
        { InsertAllAppend(t, a, init); }
        Added(InsertAll(InsertAll(t, a), init), last.prefix, last.suffix);
        { InsertAllSnoc(InsertAll(t, a), init, last); }
        InsertAll(InsertAll(t, a), init + [last]);
        { assert b == init + [last]; }
        InsertAll(InsertAll(t, a), b);
      }
    }
  }

  /** The seed word `w` after `k` spaces: the string `s` of populate. */
  function Pad(k: nat, w: string): (s: string)
    ensures |s| == k + |w|
    ensures s[..k] == Spaces(k) && s[k..] == w
  {
    Spaces(k) + w
  }

  /** The last `k` characters of the padded word: the context that follows
      the whole of `w`. */
  function Context(k: nat, w: string): (r: string)
    ensures |r| == k
  {
    Pad(k, w)[|w|..|w| + k]
  }

  /** The `add_key` calls populate makes for one stripped word `w`: each
      window of `k` characters of the padded word followed by the next
      character, then the last window followed by the end marker. */
  function WordTransitions(k: nat, w: string): (r: seq<Transition>)
    ensures |r| == |w| + 1
    ensures forall i :: 0 <= i < |r| ==> |r[i].prefix| == k
    ensures forall i :: 0 <= i < |w| ==> r[i].suffix.Ch?
    ensures r[|w|].suffix == End
  {
    var s := Pad(k, w);
    seq(|w|, n requires 0 <= n < |w| => Transition(s[n..n + k], Ch(s[n + k])))
      + [Transition(s[|w|..|w| + k], End)]
  }

  /** Σ (len(w.strip()) + 1) over the seed words. */
  function SeedSize(words: seq<string>): nat {
    if words == [] then 0
    else SeedSize(words[..|words| - 1]) + |Strip(words[|words| - 1])| + 1
  }

  /** Every `add_key` call populate makes, in order, for the seed words. */
  function Transitions(k: nat, words: seq<string>): seq<Transition> {
    if words == [] then []
    else Transitions(k, words[..|words| - 1]) + WordTransitions(k, Strip(words[|words| - 1]))
  }

  /** populate makes Σ (len(w.strip()) + 1) `add_key` calls, each with a
      prefix of `k` characters. */
  lemma {:induction false} TransitionsShape(k: nat, words: seq<string>)
    ensures |Transitions(k, words)| == SeedSize(words)
    ensures forall i :: 0 <= i < |Transitions(k, words)| ==> |Transitions(k, words)[i].prefix| == k
  {
    if words != [] {
      var init := words[..|words| - 1];
      var before: seq<Transition> := Transitions(k, init);
      var last: seq<Transition> := WordTransitions(k, Strip(words[|words| - 1]));
      TransitionsShape(k, init);
      assert Transitions(k, words) == before + last;
      forall i | 0 <= i < |before| + |last|
        ensures |(before + last)[i].prefix| == k
      {
        if i < |before| {
          assert (before + last)[i] == before[i];
        } else {
          assert (before + last)[i] == last[i - |before|];
        }
      }
    }
  }

  /** The table populate builds on an empty MCD from the seed words. */
  function Chain(k: nat, words: seq<string>): Table {
    InsertAll(map[], Transitions(k, words))
  }

  /** The suffixes of the transitions keyed by `p`, in order. */
  function SuffixesFor(trs: seq<Transition>, p: string): (r: seq<Suffix>)
    ensures forall x :: x in r <==> Transition(p, x) in trs
  {
    if trs == [] then []
    else
      var last := trs[|trs| - 1];
      var init := SuffixesFor(trs[..|trs| - 1], p);
      assert trs == trs[..|trs| - 1] + [last];
      if last.prefix == p then init + [last.suffix] else init
  }

  /** Adding transitions appends, under each prefix, exactly the suffixes of
      the transitions keyed by it, in order; a prefix is a key afterwards iff
      it was one before or some transition is keyed by it. */
  lemma {:induction false} InsertAllContents(t: Table, trs: seq<Transition>, p: string)
    ensures p in InsertAll(t, trs) <==> p in t || SuffixesFor(trs, p) != []
    ensures Lookup(InsertAll(t, trs), p) == Lookup(t, p) + SuffixesFor(trs, p)
  {
    if trs != [] {
      InsertAllContents(t, trs[..|trs| - 1], p);
    }
  }

  /** Adding transitions never leaves an empty list in the table. */
  lemma {:induction false} InsertAllNonEmpty(t: Table, trs: seq<Transition>)
    requires forall p :: p in t ==> t[p] != []
    ensures forall p :: p in InsertAll(t, trs) ==> InsertAll(t, trs)[p] != []
  {
    if trs != [] {
      InsertAllNonEmpty(t, trs[..|trs| - 1]);
    }
  }

  // ---------------------------------------------------------------------
  // Counting: the total length of the suffix lists.

  ghost function PickKey(t: Table): (p: string)
    requires |t| > 0
    ensures p in t
  {
    var p :| p in t; p
  }

  /** The sum of the lengths of all suffix lists of `t`. */
  ghost function TotalSize(t: Table): nat
    decreases |t|
  {
    if |t| == 0 then 0
    else
      var p := PickKey(t);
      assert (t - {p}).Keys == t.Keys - {p};
      |t[p]| + TotalSize(t - {p})
  }

  lemma {:induction false} TotalSizeRemove(t: Table, p: string)
    requires p in t
    ensures TotalSize(t) == |t[p]| + TotalSize(t - {p})
    decreases |t|
  {
    var q := PickKey(t);
    if q != p {
      assert (t - {q}).Keys == t.Keys - {q};
      assert (t - {p}).Keys == t.Keys - {p};
      TotalSizeRemove(t - {q}, p);
      TotalSizeRemove(t - {p}, q);
      assert t - {q} - {p} == t - {p} - {q};
    }
  }

  /** Each `add_key` call adds exactly one suffix to the table. */
  lemma AddedSize(t: Table, p: string, x: Suffix)
    ensures TotalSize(Added(t, p, x)) == TotalSize(t) + 1
  {
    if p in t {
      ReplacedSize(t, p, t[p] + [x]);
    } else {
      FreshSize(t, p, [x]);
    }
  }

  /** Replacing the list under a key changes the total by the difference in
      length. */
  lemma ReplacedSize(t: Table, p: string, v: seq<Suffix>)
    requires p in t
    ensures TotalSize(t[p := v]) == TotalSize(t) - |t[p]| + |v|
  {
    TotalSizeRemove(t[p := v], p);
    TotalSizeRemove(t, p);
    assert t[p := v] - {p} == t - {p};
  }

  /** A new key adds the length of its list to the total. */
  lemma FreshSize(t: Table, p: string, v: seq<Suffix>)
    requires p !in t
    ensures TotalSize(t[p := v]) == TotalSize(t) + |v|
  {
    TotalSizeRemove(t[p := v], p);
    assert t[p := v] - {p} == t;
  }

  lemma {:induction false} InsertAllSize(t: Table, trs: seq<Transition>)
    ensures TotalSize(InsertAll(t, trs)) == TotalSize(t) + |trs|
  {
    if trs != [] {
      var last := trs[|trs| - 1];
      InsertAllSize(t, trs[..|trs| - 1]);
      AddedSize(InsertAll(t, trs[..|trs| - 1]), last.prefix, last.suffix);
    }
  }

  /** The table built from the seed words holds Σ (len(w.strip()) + 1)
      suffixes in all. */
  lemma ChainSize(k: nat, words: seq<string>)
    ensures TotalSize(Chain(k, words)) == SeedSize(words)
  {
    InsertAllSize(map[], Transitions(k, words));
    TransitionsShape(k, words);
  }

  // ---------------------------------------------------------------------
  // What the table records, in terms of the seed words.

  /** An empty seed word contributes one transition: from `k` spaces to the
      end marker. */
  lemma EmptyWordTransitions(k: nat)
    ensures WordTransitions(k, "") == [Transition(Spaces(k), End)]
  {
    assert Pad(k, "")[0..k] == Spaces(k);
  }

  /** The character transitions of one word are exactly the windows of
      `k + 1` characters of its padded form, and its only end transition is
      keyed by its last `k` padded characters. */
  lemma WordTransitionsIff(k: nat, w: string, p: string, x: Suffix)
    ensures x.Ch? ==> (Transition(p, x) in WordTransitions(k, w) <==>
                        |p| == k && IsSubstring(p + [x.c], Pad(k, w)))
    ensures x == End ==> (Transition(p, x) in WordTransitions(k, w) <==> p == Context(k, w))
  {
    if x.Ch? {
      if Transition(p, x) in WordTransitions(k, w) {
        WordCharFrom(k, w, p, x.c);
      }
      if |p| == k && IsSubstring(p + [x.c], Pad(k, w)) {
        WordHasChar(k, w, p, x.c);
      }
    } else {
      if Transition(p, x) in WordTransitions(k, w) {
        WordEndFrom(k, w, p);
      }
      if p == Context(k, w) {
        WordHasEnd(k, w);
      }
    }
  }

  /** A character transition of a word is a window of its padded form. */
  lemma WordCharFrom(k: nat, w: string, p: string, c: char)
    requires Transition(p, Ch(c)) in WordTransitions(k, w)
    ensures |p| == k && IsSubstring(p + [c], Pad(k, w))
  {
    var s := Pad(k, w);
    var r := WordTransitions(k, w);
    var i :| 0 <= i < |r| && r[i] == Transition(p, Ch(c));
    assert i < |w|;
    assert r[i] == Transition(s[i..i + k], Ch(s[i + k]));
    assert s[i..i + k + 1] == s[i..i + k] + [s[i + k]];
    assert OccursAt(p + [c], s, i);
  }

  /** Every window of the padded form of a word is one of its character
      transitions. */
  lemma WordHasChar(k: nat, w: string, p: string, c: char)
    requires |p| == k && IsSubstring(p + [c], Pad(k, w))
    ensures Transition(p, Ch(c)) in WordTransitions(k, w)
  {
    var s := Pad(k, w);
    var n :| OccursAt(p + [c], s, n);
    assert s[n..n + k + 1] == s[n..n + k] + [s[n + k]];
    assert (p + [c])[..k] == p && (p + [c])[k] == c;
    assert p == s[n..n + k] && c == s[n + k];
    assert WordTransitions(k, w)[n] == Transition(p, Ch(c));
  }

  /** The only end transition of a word is keyed by its context. */
  lemma WordEndFrom(k: nat, w: string, p: string)
    requires Transition(p, End) in WordTransitions(k, w)
    ensures p == Context(k, w)
  {
    var r := WordTransitions(k, w);
    var i :| 0 <= i < |r| && r[i] == Transition(p, End);
    assert i == |w|;
  }

  /** A word's last `k` padded characters are followed by the end marker. */
  lemma WordHasEnd(k: nat, w: string)
    ensures Transition(Context(k, w), End) in WordTransitions(k, w)
  {
    assert WordTransitions(k, w)[|w|] == Transition(Context(k, w), End);
  }

  /** Every transition made for the seed words is made for one of them. */
  lemma {:induction false} TransitionsFrom(k: nat, words: seq<string>, tr: Transition)
    requires tr in Transitions(k, words)
    ensures exists j :: 0 <= j < |words| && tr in WordTransitions(k, Strip(words[j]))
  {
    var n := |words| - 1;
    var init := words[..n];
    assert Transitions(k, words) == Transitions(k, init) + WordTransitions(k, Strip(words[n]));
    if tr !in WordTransitions(k, Strip(words[n])) {
      TransitionsFrom(k, init, tr);
      var j :| 0 <= j < |init| && tr in WordTransitions(k, Strip(init[j]));
      assert init[j] == words[j];
    }
  }

  /** Every transition made for one seed word is made for the seed words. */
  lemma {:induction false} TransitionsHas(k: nat, words: seq<string>, j: nat, tr: Transition)
    requires j < |words| && tr in WordTransitions(k, Strip(words[j]))
    ensures tr in Transitions(k, words)
  {
    var n := |words| - 1;
    var before, last := Transitions(k, words[..n]), WordTransitions(k, Strip(words[n]));
    TransitionsLast(k, words);
    if j < n {
      assert words[..n][j] == words[j];
      TransitionsHas(k, words[..n], j, tr);
      assert tr in before;
    } else {
      assert j == n;
    }
    InConcat(tr, before, last);
  }

  /** The transitions of the seed words end with those of the last word. */
  lemma TransitionsLast(k: nat, words: seq<string>)
    requires words != []
    ensures Transitions(k, words) ==
            Transitions(k, words[..|words| - 1]) + WordTransitions(k, Strip(words[|words| - 1]))
  {
  }

  /** An element of either part is an element of the concatenation. */
  lemma InConcat<T>(x: T, a: seq<T>, b: seq<T>)
    ensures x in a + b <==> x in a || x in b
  {
    if x in a {
      var i :| 0 <= i < |a| && a[i] == x;
      assert (a + b)[i] == x;
    }
    if x in b {
      var i :| 0 <= i < |b| && b[i] == x;
      assert (a + b)[|a| + i] == x;
    }
  }

  /** A transition is made for the seed words iff it is made for one of them. */
  lemma TransitionsIff(k: nat, words: seq<string>, tr: Transition)
    ensures tr in Transitions(k, words) <==>
            exists j :: 0 <= j < |words| && tr in WordTransitions(k, Strip(words[j]))
  {
    if tr in Transitions(k, words) {
      TransitionsFrom(k, words, tr);
    }
    if exists j :: 0 <= j < |words| && tr in WordTransitions(k, Strip(words[j])) {
      var j :| 0 <= j < |words| && tr in WordTransitions(k, Strip(words[j]));
      TransitionsHas(k, words, j, tr);
    }
  }

  /** A character listed under `p` comes from a window `p + c` of some
      padded seed word. */
  lemma ChainCharFrom(k: nat, words: seq<string>, p: string, c: char)
    requires p in Chain(k, words) && Ch(c) in Chain(k, words)[p]
    ensures |p| == k && exists j :: 0 <= j < |words| && IsSubstring(p + [c], Pad(k, Strip(words[j])))
  {
    var trs := Transitions(k, words);
    InsertAllContents(map[], trs, p);
    assert Transition(p, Ch(c)) in trs;
    TransitionsFrom(k, words, Transition(p, Ch(c)));
    var j :| 0 <= j < |words| && Transition(p, Ch(c)) in WordTransitions(k, Strip(words[j]));
    WordCharFrom(k, Strip(words[j]), p, c);
  }

  /** The window `p + c` of seed word `j` is recorded. */
  lemma ChainHasChar(k: nat, words: seq<string>, j: nat, p: string, c: char)
    requires j < |words| && |p| == k && IsSubstring(p + [c], Pad(k, Strip(words[j])))
    ensures p in Chain(k, words) && Ch(c) in Chain(k, words)[p]
  {
    var trs := Transitions(k, words);
    WordHasChar(k, Strip(words[j]), p, c);
    TransitionsHas(k, words, j, Transition(p, Ch(c)));
    InsertAllContents(map[], trs, p);
    assert Ch(c) in SuffixesFor(trs, p);
  }

  /** `Ch(c)` is listed under `p` iff `p` has `k` characters and `p + c`
      occurs in the padded form of some stripped seed word: no character
      transition is invented and none is lost. */
  lemma ChainChars(k: nat, words: seq<string>, p: string, c: char)
    ensures (p in Chain(k, words) && Ch(c) in Chain(k, words)[p]) <==>
            |p| == k && exists j :: 0 <= j < |words| && IsSubstring(p + [c], Pad(k, Strip(words[j])))
  {
    if p in Chain(k, words) && Ch(c) in Chain(k, words)[p] {
      ChainCharFrom(k, words, p, c);
    }
    if |p| == k && exists j :: 0 <= j < |words| && IsSubstring(p + [c], Pad(k, Strip(words[j]))) {
      var j :| 0 <= j < |words| && IsSubstring(p + [c], Pad(k, Strip(words[j])));
      ChainHasChar(k, words, j, p, c);
    }
  }

  /** A window `p + c` that occurs in no padded seed word is never
      recorded. */
  lemma ChainLacksChar(k: nat, words: seq<string>, p: string, c: char)
    requires forall j :: 0 <= j < |words| ==> !IsSubstring(p + [c], Pad(k, Strip(words[j])))
    ensures Ch(c) !in Lookup(Chain(k, words), p)
  {
    if p in Chain(k, words) && Ch(c) in Chain(k, words)[p] {
      ChainCharFrom(k, words, p, c);
    }
  }

  /** An end marker listed under `p` comes from the end of some seed word. */
  lemma ChainEndFrom(k: nat, words: seq<string>, p: string)
    requires p in Chain(k, words) && End in Chain(k, words)[p]
    ensures exists j :: 0 <= j < |words| && p == Context(k, Strip(words[j]))
  {
    var trs := Transitions(k, words);
    InsertAllContents(map[], trs, p);
    assert Transition(p, End) in trs;
    TransitionsFrom(k, words, Transition(p, End));
    var j :| 0 <= j < |words| && Transition(p, End) in WordTransitions(k, Strip(words[j]));
    WordEndFrom(k, Strip(words[j]), p);
  }

  /** The end of seed word `j` is recorded under its last `k` padded
      characters. */
  lemma ChainHasEnd(k: nat, words: seq<string>, j: nat)
    requires j < |words|
    ensures Context(k, Strip(words[j])) in Chain(k, words)
    ensures End in Chain(k, words)[Context(k, Strip(words[j]))]
  {
    var trs := Transitions(k, words);
    var p := Context(k, Strip(words[j]));
    WordHasEnd(k, Strip(words[j]));
    TransitionsHas(k, words, j, Transition(p, End));
    InsertAllContents(map[], trs, p);
    assert End in SuffixesFor(trs, p);
  }

  /** `End` is listed under `p` iff `p` is the last `k` padded characters of
      some stripped seed word. */
  lemma ChainEnds(k: nat, words: seq<string>, p: string)
    ensures (p in Chain(k, words) && End in Chain(k, words)[p]) <==>
            exists j :: 0 <= j < |words| && p == Context(k, Strip(words[j]))
  {
    if p in Chain(k, words) && End in Chain(k, words)[p] {
      ChainEndFrom(k, words, p);
    }
    if exists j :: 0 <= j < |words| && p == Context(k, Strip(words[j])) {
      var j :| 0 <= j < |words| && p == Context(k, Strip(words[j]));
      ChainHasEnd(k, words, j);
    }
  }

  /** Every key of the table has exactly `k` characters and a non-empty list. */
  lemma ChainKeys(k: nat, words: seq<string>)
    ensures forall p :: p in Chain(k, words) ==> |p| == k && Chain(k, words)[p] != []
  {
    var trs := Transitions(k, words);
    TransitionsShape(k, words);
    InsertAllNonEmpty(map[], trs);
    forall p | p in Chain(k, words) ensures |p| == k {
      InsertAllContents(map[], trs, p);
      var x := SuffixesFor(trs, p)[0];
      assert Transition(p, x) in trs;
      var i :| 0 <= i < |trs| && trs[i] == Transition(p, x);
      assert |trs[i].prefix| == k;
    }
  }
}
