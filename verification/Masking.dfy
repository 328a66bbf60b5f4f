/** The content filter of homework2/server.cpp: every occurrence of a filter word, whatever its case, is
    replaced by asterisks, one occurrence at a time from the left. */
module Masking {
  import opened Wrappers

  function LowerChar(c: char): char {
    if 'A' <= c <= 'Z' then c - 'A' + 'a' else c
  }

  function Lower(s: string): (r: string)
    ensures |r| == |s| && forall i :: 0 <= i < |s| ==> r[i] == LowerChar(s[i])
  {
    seq(|s|, i requires 0 <= i < |s| => LowerChar(s[i]))
  }

  predicate OccursAt(text: string, word: string, p: nat) {
    p + |word| <= |text| && forall i :: 0 <= i < |word| ==> text[p + i] == word[i]
  }

  /** std::string::find from position p: the first occurrence. */
  function Find(text: string, word: string, p: nat): (r: Option<nat>)
    ensures r.Some? ==> p <= r.value && OccursAt(text, word, r.value) && forall q :: p <= q < r.value ==> !OccursAt(text, word, q)
    ensures r.None? ==> forall q :: p <= q ==> !OccursAt(text, word, q)
    decreases |text| - p
  {
    if p + |word| > |text| then None
    else if OccursAt(text, word, p) then Some(p)
    else if p == |text| then None
    else Find(text, word, p + 1)
  }

  function Stars(n: nat): string {
    seq(n, _ => '*')
  }

  function Replace(text: string, p: nat, n: nat): (r: string)
    requires p + n <= |text|
    ensures |r| == |text|
    ensures forall i :: 0 <= i < |r| ==> r[i] == if p <= i < p + n then '*' else text[i]
  {
    text[..p] + Stars(n) + text[p + n..]
  }

  function CountPlain(text: string): nat {
    if text == "" then 0 else CountPlain(text[..|text| - 1]) + (if text[|text| - 1] == '*' then 0 else 1)
  }

  /** A word the filter can work with: not empty, and without asterisks. */
  predicate GoodWord(word: string) {
    word != "" && '*' !in word
  }

  predicate GoodWords(words: seq<string>) {
    forall i :: 0 <= i < |words| ==> GoodWord(words[i])
  }

  lemma {:induction false} FewerPlain(a: string, b: string)
    requires |a| == |b| && forall i :: 0 <= i < |a| ==> b[i] == a[i] || b[i] == '*'
    ensures CountPlain(b) <= CountPlain(a)
    ensures (exists i :: 0 <= i < |a| && a[i] != '*' && b[i] == '*') ==> CountPlain(b) < CountPlain(a)
  {
    if a != "" {
      FewerPlain(a[..|a| - 1], b[..|b| - 1]);
      if i :| 0 <= i < |a| && a[i] != '*' && b[i] == '*' {
        assert i < |a| - 1 ==> a[..|a| - 1][i] != '*' && b[..|b| - 1][i] == '*';
      }
    }
  }

  lemma LowerKeepsStars(text: string, word: string)
    ensures forall i :: 0 <= i < |text| ==> (Lower(text)[i] == '*' <==> text[i] == '*')
    ensures GoodWord(word) ==> GoodWord(Lower(word))
  {
  }

  /** Why the loop ends: an occurrence of the word holds a character that is not yet an asterisk. */
  lemma ReplaceDecreases(text: string, word: string, p: nat)
    requires GoodWord(word) && OccursAt(Lower(text), Lower(word), p)
    ensures CountPlain(Replace(text, p, |word|)) < CountPlain(text)
  {
    LowerKeepsStars(text, word);
    assert Lower(text)[p + 0] == Lower(word)[0];
    FewerPlain(text, Replace(text, p, |word|));
  }

  /** The masking of one word. */
  function MaskWord(text: string, word: string): string
    requires GoodWord(word)
    decreases CountPlain(text)
  {
    match Find(Lower(text), Lower(word), 0)
    case None => text
    case Some(p) =>
      ReplaceDecreases(text, word, p);
      MaskWord(Replace(text, p, |word|), word)
  }

  function Mask(text: string, words: seq<string>): string
    requires GoodWords(words)
  {
    if words == [] then text else MaskWord(Mask(text, words[..|words| - 1]), words[|words| - 1])
  }

  // ---- what masking does ----

  ghost predicate Occurs(text: string, word: string) {
    exists p: nat :: OccursAt(Lower(text), Lower(word), p)
  }

  /** Position i lies in an occurrence of the word. */
  ghost predicate Covered(text: string, word: string, i: int) {
    exists p: nat :: OccursAt(Lower(text), Lower(word), p) && p <= i < p + |word|
  }

  /** Same length; a position keeps its character or becomes an asterisk. */
  ghost predicate Starred(a: string, b: string) {
    |a| == |b| && forall i :: 0 <= i < |a| ==> b[i] == a[i] || b[i] == '*'
  }

  /** Asterisks create no occurrence of a good word. */
  lemma StarsCreateNothing(a: string, b: string, word: string, p: nat)
    requires Starred(a, b) && GoodWord(word) && OccursAt(Lower(b), Lower(word), p)
    ensures OccursAt(Lower(a), Lower(word), p)
  {
    LowerKeepsStars(b, word);
    forall i | 0 <= i < |word| ensures Lower(a)[p + i] == Lower(word)[i] {
      assert Lower(b)[p + i] == Lower(word)[i];
    }
  }

  lemma CoveredBefore(a: string, b: string, word: string, i: int)
    requires Starred(a, b) && GoodWord(word) && Covered(b, word, i)
    ensures Covered(a, word, i)
  {
    var p: nat :| OccursAt(Lower(b), Lower(word), p) && p <= i < p + |word|;
    StarsCreateNothing(a, b, word, p);
  }

  /** Position i lies in an occurrence of the word in `text` that is nothing but asterisks in r. */
  ghost predicate Hidden(text: string, word: string, r: string, i: int) {
    exists p: nat :: OccursAt(Lower(text), Lower(word), p) && p <= i < p + |word| && StarsAt(r, p, |word|)
  }

  ghost predicate StarsAt(r: string, p: nat, n: nat) {
    p + n <= |r| && forall j :: p <= j < p + n ==> r[j] == '*'
  }

  lemma HiddenBefore(a: string, b: string, word: string, r: string, i: int)
    requires Starred(a, b) && GoodWord(word) && Hidden(b, word, r, i)
    ensures Hidden(a, word, r, i)
  {
    var p: nat :| OccursAt(Lower(b), Lower(word), p) && p <= i < p + |word| && StarsAt(r, p, |word|);
    StarsCreateNothing(a, b, word, p);
  }

  lemma HiddenAfter(text: string, word: string, a: string, b: string, i: int)
    requires Starred(a, b) && Hidden(text, word, a, i)
    ensures Hidden(text, word, b, i)
  {
    var p: nat :| OccursAt(Lower(text), Lower(word), p) && p <= i < p + |word| && StarsAt(a, p, |word|);
    assert StarsAt(b, p, |word|);
  }

  lemma {:induction false} MaskWordHides(text: string, word: string, i: int)
    requires GoodWord(word) && 0 <= i < |text|
    ensures |MaskWord(text, word)| == |text|
    ensures MaskWord(text, word)[i] != text[i] ==> Hidden(text, word, MaskWord(text, word), i)
    decreases CountPlain(text)
  {
    MaskWordEffect(text, word);
    var found := Find(Lower(text), Lower(word), 0);
    if found.Some? {
      var p := found.value;
      var next := Replace(text, p, |word|);
      ReplaceDecreases(text, word, p);
      MaskWordHides(next, word, i);
      MaskWordEffect(next, word);
      var r := MaskWord(next, word);
      assert r == MaskWord(text, word) && StarsAt(r, p, |word|);
      if r[i] != next[i] {
        HiddenBefore(text, next, word, r, i);
      }
    }
  }

  /** A character that changed lies in an occurrence of some filter word in the original text, and the whole of that
      occurrence is asterisks now. */
  lemma {:induction false} MaskHides(text: string, words: seq<string>, i: int)
    requires GoodWords(words) && 0 <= i < |text|
    ensures |Mask(text, words)| == |text|
    ensures Mask(text, words)[i] != text[i] ==>
      exists k :: 0 <= k < |words| && Hidden(text, words[k], Mask(text, words), i)
    decreases |words|
  {
    MaskEffect(text, words);
    if words != [] {
      var front, last := words[..|words| - 1], words[|words| - 1];
      var mid, r := Mask(text, front), Mask(text, words);
      MaskEffect(text, front);
      MaskWordEffect(mid, last);
      MaskHides(text, front, i);
      MaskWordHides(mid, last, i);
      if mid[i] != text[i] {
        var k :| 0 <= k < |front| && Hidden(text, front[k], mid, i);
        HiddenAfter(text, words[k], mid, r, i);
      } else if r[i] != mid[i] {
        HiddenBefore(text, mid, last, r, i);
        assert Hidden(text, words[|words| - 1], r, i);
      }
    }
  }

  // ---- one pass ----

  /** Reference definition: one pass from the left, which skips each occurrence that it masks. */
  function OnePass(text: string, word: string): (r: string)
    requires GoodWord(word)
    ensures |r| == |text|
    decreases |text|
  {
    if text == "" then ""
    else if Begins(text, word, 0) then Stars(|word|) + OnePass(text[|word|..], word)
    else [text[0]] + OnePass(text[1..], word)
  }

  /** The word begins at position p, in any case. */
  predicate Begins(text: string, word: string, p: nat) {
    OccursAt(Lower(text), Lower(word), p)
  }

  /** No occurrence begins before position n. */
  ghost predicate NoneBefore(text: string, word: string, n: nat) {
    forall q: nat :: q < n ==> !Begins(text, word, q)
  }

  lemma FindsFirst(text: string, word: string, p: nat)
    requires Begins(text, word, p) && NoneBefore(text, word, p)
    ensures Find(Lower(text), Lower(word), 0) == Some(p)
  {
    forall q: nat | q < p ensures !OccursAt(Lower(text), Lower(word), q) {
      assert !Begins(text, word, q);
    }
  }

  lemma FirstIsReplaced(text: string, word: string, p: nat)
    requires GoodWord(word) && Begins(text, word, p) && NoneBefore(text, word, p)
    ensures p + |word| <= |text| && CountPlain(Replace(text, p, |word|)) < CountPlain(text)
    ensures MaskWord(text, word) == MaskWord(Replace(text, p, |word|), word)
  {
    FindsFirst(text, word, p);
    ReplaceDecreases(text, word, p);
  }

  lemma NothingReplaced(text: string, word: string)
    requires GoodWord(word) && forall q: nat :: !Begins(text, word, q)
    ensures MaskWord(text, word) == text
  {
    var found := Find(Lower(text), Lower(word), 0);
    if found.Some? {
      assert Begins(text, word, found.value);
    }
  }

  lemma FirstOrNone(text: string, word: string) returns (first: Option<nat>)
    ensures match first
            case None => forall q: nat :: !Begins(text, word, q)
            case Some(p) => Begins(text, word, p) && NoneBefore(text, word, p)
  {
    first := Find(Lower(text), Lower(word), 0);
  }

  lemma BeginsShifted(u: string, t: string, word: string, q: nat)
    ensures Begins(u + t, word, |u| + q) <==> Begins(t, word, q)
  {
    assert forall i :: 0 <= i < |t| ==> Lower(u + t)[|u| + i] == Lower(t)[i];
    if Begins(u + t, word, |u| + q) {
      forall i | 0 <= i < |word| ensures Lower(t)[q + i] == Lower(word)[i] {
        assert Lower(u + t)[|u| + q + i] == Lower(word)[i];
      }
    }
  }

  lemma NoneBeforeStays(a: string, b: string, word: string, n: nat)
    requires Starred(a, b) && GoodWord(word) && NoneBefore(a, word, n)
    ensures NoneBefore(b, word, n)
  {
    forall q: nat | q < n ensures !Begins(b, word, q) {
      assert !Begins(a, word, q);
      if Begins(b, word, q) {
        StarsCreateNothing(a, b, word, q);
      }
    }
  }

  lemma FirstShifted(u: string, t: string, word: string, q: nat)
    requires NoneBefore(u + t, word, |u|) && NoneBefore(t, word, q)
    ensures NoneBefore(u + t, word, |u| + q)
  {
    forall o: nat | o < |u| + q ensures !Begins(u + t, word, o) {
      if o >= |u| {
        BeginsShifted(u, t, word, o - |u|);
      }
    }
  }

  lemma FirstInWhole(u: string, t: string, word: string, q: nat)
    requires NoneBefore(u + t, word, |u|) && Begins(t, word, q) && NoneBefore(t, word, q)
    ensures Begins(u + t, word, |u| + q) && NoneBefore(u + t, word, |u| + q)
  {
    FirstShifted(u, t, word, q);
    BeginsShifted(u, t, word, q);
  }

  lemma ReplaceShifted(u: string, t: string, word: string, q: nat, whole: string, rest: string)
    requires GoodWord(word) && whole == u + t && NoneBefore(whole, word, |u|) && q + |word| <= |t|
    requires Begins(whole, word, |u| + q) && NoneBefore(whole, word, |u| + q)
    requires rest == Replace(t, q, |word|)
    ensures NoneBefore(u + rest, word, |u|) && MaskWord(whole, word) == MaskWord(u + rest, word)
  {
    ReplaceInside(u, t, q, |word|);
    NoneBeforeStays(whole, u + rest, word, |u|);
    FirstIsReplaced(whole, word, |u| + q);
  }

  lemma ReplaceInside(u: string, t: string, q: nat, n: nat)
    requires q + n <= |t|
    ensures Replace(u + t, |u| + q, n) == u + Replace(t, q, n) && Starred(u + t, u + Replace(t, q, n))
  {
  }

  /** Masking leaves a front alone in which no occurrence begins. */
  lemma {:induction false} MaskAfterPrefix(u: string, t: string, word: string)
    requires GoodWord(word) && NoneBefore(u + t, word, |u|)
    ensures MaskWord(u + t, word) == u + MaskWord(t, word)
    decreases CountPlain(t)
  {
    var first := FirstOrNone(t, word);
    if first.Some? {
      var q := first.value;
      FirstIsReplaced(t, word, q);
      FirstInWhole(u, t, word, q);
      ReplaceShifted(u, t, word, q, u + t, Replace(t, q, |word|));
      MaskAfterPrefix(u, Replace(t, q, |word|), word);
    } else {
      NothingReplaced(t, word);
      forall o: nat ensures !Begins(u + t, word, o) {
        FirstShifted(u, t, word, o + 1);
      }
      NothingReplaced(u + t, word);
    }
  }

  /** So does the one pass. */
  lemma {:induction false} PassSkips(u: string, t: string, word: string)
    requires GoodWord(word) && NoneBefore(u + t, word, |u|)
    ensures OnePass(u + t, word) == u + OnePass(t, word)
    decreases |u|
  {
    if u == "" {
      assert u + t == t;
    } else {
      var rest := u[1..];
      assert (u + t)[1..] == rest + t && [u[0]] + (rest + t) == u + t;
      assert !Begins(u + t, word, 0);
      forall q: nat | q < |rest| ensures !Begins(rest + t, word, q) {
        BeginsShifted([u[0]], rest + t, word, q);
        assert !Begins(u + t, word, q + 1);
      }
      PassSkips(rest, t, word);
    }
  }

  lemma NothingBeginsInStars(text: string, word: string, q: nat)
    requires GoodWord(word) && q < |text| && text[q] == '*'
    ensures !Begins(text, word, q)
  {
    LowerKeepsStars(text, word);
    assert Lower(text)[q + 0] != Lower(word)[0];
  }

  lemma PassMasksFirst(text: string, word: string, p: nat)
    requires GoodWord(word) && Begins(text, word, p) && NoneBefore(text, word, p)
    ensures p + |word| <= |text|
    ensures OnePass(text, word) == text[..p] + Stars(|word|) + OnePass(text[p + |word|..], word)
  {
    var u, t := text[..p], text[p..];
    assert text == u + t && t[|word|..] == text[p + |word|..];
    PassSkips(u, t, word);
    BeginsShifted(u, t, word, 0);
    assert OnePass(t, word) == Stars(|word|) + OnePass(t[|word|..], word);
  }

  lemma MaskMasksFirst(text: string, word: string, p: nat)
    requires GoodWord(word) && Begins(text, word, p) && NoneBefore(text, word, p)
    ensures p + |word| <= |text|
    ensures MaskWord(text, word) == text[..p] + Stars(|word|) + MaskWord(text[p + |word|..], word)
  {
    FirstIsReplaced(text, word, p);
    var front, t := text[..p] + Stars(|word|), text[p + |word|..];
    var next := Replace(text, p, |word|);
    assert next == front + t && Starred(text, next);
    NoneBeforeStays(text, next, word, p);
    forall q: nat | q < |front| ensures !Begins(next, word, q) {
      if q >= p {
        NothingBeginsInStars(next, word, q);
      }
    }
    MaskAfterPrefix(front, t, word);
  }

  lemma OneStep(text: string, word: string, p: nat, rest: string)
    requires GoodWord(word) && Begins(text, word, p) && NoneBefore(text, word, p)
    requires p + |word| <= |text| && rest == text[p + |word|..] && MaskWord(rest, word) == OnePass(rest, word)
    ensures MaskWord(text, word) == OnePass(text, word)
  {
    PassMasksFirst(text, word, p);
    MaskMasksFirst(text, word, p);
  }

  lemma NoStep(text: string, word: string)
    requires GoodWord(word) && forall q: nat :: !Begins(text, word, q)
    ensures MaskWord(text, word) == OnePass(text, word)
  {
    NothingReplaced(text, word);
    assert text + "" == text;
    PassSkips(text, "", word);
  }

  /** Main result: searching and replacing until nothing is found computes the one pass. */
  lemma {:induction false} MaskIsOnePass(text: string, word: string)
    requires GoodWord(word)
    ensures MaskWord(text, word) == OnePass(text, word)
    decreases |text|
  {
    var first := FirstOrNone(text, word);
    if first.Some? {
      var rest := text[first.value + |word|..];
      MaskIsOnePass(rest, word);
      OneStep(text, word, first.value, rest);
    } else {
      NoStep(text, word);
    }
  }

  /** The words are masked one after the other, the first one first. */
  lemma {:induction false} FirstWordFirst(text: string, words: seq<string>)
    requires GoodWords(words) && words != []
    ensures Mask(text, words) == Mask(OnePass(text, words[0]), words[1..])
    decreases |words|
  {
    var front, last := words[..|words| - 1], words[|words| - 1];
    MaskIsOnePass(text, words[0]);
    if |words| == 1 {
      assert Mask(text, front) == text && words[1..] == [];
    } else {
      FirstWordFirst(text, front);
      assert words[1..][..|words[1..]| - 1] == front[1..];
    }
  }

  lemma {:induction false} MaskWordEffect(text: string, word: string)
    requires GoodWord(word)
    ensures var r := MaskWord(text, word);
      && Starred(text, r) && !Occurs(r, word)
      && forall i :: 0 <= i < |text| && r[i] != text[i] ==> Covered(text, word, i)
    decreases CountPlain(text)
  {
    var found := Find(Lower(text), Lower(word), 0);
    if found.Some? {
      var p := found.value;
      var next := Replace(text, p, |word|);
      ReplaceDecreases(text, word, p);
      MaskWordEffect(next, word);
      var r := MaskWord(next, word);
      assert Starred(text, next) && r == MaskWord(text, word);
      forall i | 0 <= i < |text| && r[i] != text[i] ensures Covered(text, word, i) {
        if next[i] == text[i] {
          CoveredBefore(text, next, word, i);
        } else {
          assert OccursAt(Lower(text), Lower(word), p) && p <= i < p + |word|;
        }
      }
    } else {
      assert forall q: nat :: !OccursAt(Lower(text), Lower(word), q);
    }
  }

  /** Main result: after masking no filter word is left, not even one masked earlier; the length is kept, and
      only characters inside an occurrence in the original text have changed, to asterisks. */
  lemma {:induction false} MaskEffect(text: string, words: seq<string>)
    requires GoodWords(words)
    ensures var r := Mask(text, words);
      && Starred(text, r)
      && (forall k :: 0 <= k < |words| ==> !Occurs(r, words[k]))
      && forall i :: 0 <= i < |text| && r[i] != text[i] ==> exists k :: 0 <= k < |words| && Covered(text, words[k], i)
    decreases |words|
  {
    if words != [] {
      var front, last := words[..|words| - 1], words[|words| - 1];
      var mid, r := Mask(text, front), Mask(text, words);
      MaskEffect(text, front);
      MaskWordEffect(mid, last);
      forall k | 0 <= k < |words| ensures !Occurs(r, words[k]) {
        if Occurs(r, words[k]) && k < |front| {
          var p: nat :| OccursAt(Lower(r), Lower(words[k]), p);
          StarsCreateNothing(mid, r, words[k], p);
          assert Occurs(mid, front[k]);
        }
      }
      forall i | 0 <= i < |text| && r[i] != text[i]
        ensures exists k :: 0 <= k < |words| && Covered(text, words[k], i)
      {
        if mid[i] == text[i] {
          CoveredBefore(text, mid, last, i);
          assert Covered(text, words[|words| - 1], i);
        } else {
          var k :| 0 <= k < |front| && Covered(text, front[k], i);
          assert Covered(text, words[k], i);
        }
      }
    }
  }

  lemma {:induction false} CleanTextUnchanged(text: string, words: seq<string>)
    requires GoodWords(words) && forall k :: 0 <= k < |words| ==> !Occurs(text, words[k])
    ensures Mask(text, words) == text
    decreases |words|
  {
    if words != [] {
      CleanTextUnchanged(text, words[..|words| - 1]);
      var found := Find(Lower(text), Lower(words[|words| - 1]), 0);
      assert !Occurs(text, words[|words| - 1]);
    }
  }

  /** A second pass changes nothing. */
  lemma MaskTwice(text: string, words: seq<string>)
    requires GoodWords(words)
    ensures Mask(Mask(text, words), words) == Mask(text, words)
  {
    MaskEffect(text, words);
    CleanTextUnchanged(Mask(text, words), words);
  }

  lemma LowerReplace(text: string, p: nat, n: nat)
    requires p + n <= |text|
    ensures Lower(Replace(text, p, n)) == Replace(Lower(text), p, n)
  {
  }

  /** The loops of sendMessage and setPinMessage: `lower` is kept in step with the message. */
  method MaskMessage(message: string, filterList: seq<string>) returns (masked: string)
    requires GoodWords(filterList)
    ensures masked == Mask(message, filterList)
  {
    masked := message;
    var lower := Lower(message);
    for k := 0 to |filterList|
      invariant lower == Lower(masked) && masked == Mask(message, filterList[..k])
    {
      var word := Lower(filterList[k]);
      ghost var before := masked;
      var pos := Find(lower, word, 0);
      while pos.Some?
        invariant lower == Lower(masked) && pos == Find(lower, word, 0)
        invariant MaskWord(masked, filterList[k]) == MaskWord(before, filterList[k])
        decreases CountPlain(masked)
      {
        ReplaceDecreases(masked, filterList[k], pos.value);
        LowerReplace(masked, pos.value, |word|);
        masked := Replace(masked, pos.value, |word|);
        lower := Replace(lower, pos.value, |word|);
        pos := Find(lower, word, 0);
      }
      assert filterList[..k + 1][..k] == filterList[..k];
    }
    assert filterList[..|filterList|] == filterList;
  }

  /** The words every chat room starts with. */
  function FilterList(): seq<string> {
    ["==", "Superpie", "hello", "Starburst Stream", "Domain Expansion"]
  }

  const CAPITALS: string := "ABCDEFGHIJKLMNOPQRSTUVWXYZ"
  const SMALL: string := "abcdefghijklmnopqrstuvwxyz"

  /** Capital and small letters are the same to the filter, and no other characters are. */
  lemma LowerLetters(i: nat)
    requires i < 26
    ensures LowerChar(CAPITALS[i]) == LowerChar(SMALL[i]) == SMALL[i]
  {
    assert CAPITALS[i] == 'A' + i as char && SMALL[i] == 'a' + i as char;
  }

  lemma LowerOthers(c: char)
    requires c !in CAPITALS
    ensures LowerChar(c) == c
  {
    if 'A' <= c <= 'Z' {
      CapitalAt(c);
    }
  }

  lemma CapitalAt(c: char)
    requires 'A' <= c <= 'Z'
    ensures c in CAPITALS
  {
    var i := c as int - 'A' as int;
    assert CAPITALS[i] == 'A' + i as char;
  }

  /** The five words of the filter, in small letters. */
  ghost predicate Banned(word: string) {
    word == "==" || word == "superpie" || word == "hello" || word == "starburst stream" || word == "domain expansion"
  }

  ghost predicate BannedAt(text: string, word: string, p: nat) {
    Banned(word) && OccursAt(Lower(text), word, p)
  }

  ghost predicate InFilter(word: string) {
    exists k :: 0 <= k < |FilterList()| && Lower(FilterList()[k]) == word
  }

  lemma FilterListWords(words: seq<string>)
    requires words == FilterList()
    ensures |words| == 5 && Lower(words[0]) == "==" && Lower(words[1]) == "superpie" && Lower(words[2]) == "hello"
    ensures Lower(words[3]) == "starburst stream" && Lower(words[4]) == "domain expansion"
  {
  }

  lemma FilterIsBanned(word: string)
    ensures InFilter(word) <==> Banned(word)
  {
    var words := FilterList();
    FilterListWords(words);
    if Banned(word) {
      assert exists k :: 0 <= k < 5 && Lower(words[k]) == word;
    }
  }

  lemma UnchangedIffClean(text: string, words: seq<string>)
    requires GoodWords(words)
    ensures Mask(text, words) == text <==> forall k :: 0 <= k < |words| ==> !Occurs(text, words[k])
  {
    MaskEffect(text, words);
    if forall k :: 0 <= k < |words| ==> !Occurs(text, words[k]) {
      CleanTextUnchanged(text, words);
    }
  }

  /** A text passes the filter of a room unchanged exactly when it holds none of the five words, in any case. */
  lemma PassesUnchanged(text: string)
    ensures GoodWords(FilterList())
    ensures Mask(text, FilterList()) == text <==> forall word, p: nat :: !BannedAt(text, word, p)
  {
    var words := FilterList();
    FilterListGood();
    UnchangedIffClean(text, words);
    if k :| 0 <= k < |words| && Occurs(text, words[k]) {
      var p: nat :| OccursAt(Lower(text), Lower(words[k]), p);
      FilterIsBanned(Lower(words[k]));
      assert BannedAt(text, Lower(words[k]), p);
    }
    if word, p: nat :| BannedAt(text, word, p) {
      FilterIsBanned(word);
      var k :| 0 <= k < |words| && Lower(words[k]) == word;
      assert Occurs(text, words[k]);
    }
  }

  /** A filter word alone becomes asterisks, every one of its characters. */
  lemma WordIsHidden(text: string, word: string)
    requires GoodWord(word) && Lower(text) == Lower(word)
    ensures MaskWord(text, word) == seq(|word|, _ => '*')
  {
    MaskIsOnePass(text, word);
    assert Begins(text, word, 0) && text[|word|..] == "";
  }

  lemma FilterListGood()
    ensures GoodWords(FilterList())
  {
  }
}
