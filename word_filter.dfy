/**
 * Turning the word source's entries into the puzzle's candidate words: keep
 * noun-tagged entries, upper-case, keep purely alphabetic words of 3 to 12
 * letters, drop repeats, stop after 30, order longest first (stably) and keep
 * the first 15. The entries arrive already ordered by the caller.
 */
module WordFilter {
  import opened Wrappers
  import opened SeqUtil
  import opened Letters

  /** Entries collected before the sort. */
  const COLLECT_LIMIT: nat := 30
  /** Candidates handed to the puzzle builder: max(MAX_WORDS, 10). */
  const MAX_CANDIDATES: nat := 15
  const MIN_WORD_LENGTH: nat := 3
  const MAX_WORD_LENGTH: nat := 12

  /** One entry of the word source: a word and its tags, either possibly missing. */
  datatype Candidate = Candidate(word: Option<string>, tags: Option<seq<string>>)

  /** Tagged as a noun and neither as a pronoun nor as an adjective. */
  predicate NounTagged(item: Candidate) {
    item.tags.Some? && "n" in item.tags.value && "pron" !in item.tags.value && "adj" !in item.tags.value
  }

  /** The entries that pass the noun filter, in their original order. */
  function NounFilter(data: seq<Candidate>): (r: seq<Candidate>)
    ensures forall k :: 0 <= k < |r| ==> NounTagged(r[k]) && r[k] in data
    ensures forall x :: x in data && NounTagged(x) ==> x in r
  {
    if data == [] then []
    else (if NounTagged(data[0]) then [data[0]] else []) + NounFilter(data[1..])
  }

  /** The string form of the entry's word; a missing word is stringified as "undefined". */
  function WordText(item: Candidate): string {
    if item.word.Some? then item.word.value else "undefined"
  }

  /** Matches `^[A-Z]+$`. */
  predicate AllCaps(w: string) {
    |w| > 0 && forall i :: 0 <= i < |w| ==> 'A' <= w[i] <= 'Z'
  }

  /** Upper-casing leaves an all-capitals word as it is. */
  lemma AllCapsUpper(w: string)
    requires AllCaps(w)
    ensures UpperString(w) == w
  {
    forall i | 0 <= i < |w| ensures UpperString(w)[i] == w[i] {
      assert 'A' <= w[i] <= 'Z';
    }
  }

  /** A word the puzzle may use. */
  predicate PuzzleWord(w: string) {
    AllCaps(w) && MIN_WORD_LENGTH <= |w| <= MAX_WORD_LENGTH
  }

  /** The entry survives the per-entry checks of the collecting loop. */
  predicate Eligible(item: Candidate) {
    var w := UpperString(WordText(item));
    PuzzleWord(w) && !(item.tags.Some? && "n" !in item.tags.value)
  }

  /** The upper-cased words of the eligible entries, in order, repeats included. */
  function Normalized(data: seq<Candidate>): (r: seq<string>)
    ensures forall k :: 0 <= k < |r| ==> PuzzleWord(r[k])
  {
    if data == [] then []
    else
      var item := data[|data| - 1];
      Normalized(data[..|data| - 1]) + (if Eligible(item) then [UpperString(WordText(item))] else [])
  }

  /** First occurrences only, in order. */
  function Dedup(s: seq<string>): seq<string> {
    if s == [] then []
    else
      var d := Dedup(s[..|s| - 1]);
      if s[|s| - 1] in d then d else d + [s[|s| - 1]]
  }

  predicate IsPrefix(a: seq<string>, b: seq<string>) {
    |a| <= |b| && b[..|a|] == a
  }

  function Take(s: seq<string>, n: nat): (r: seq<string>)
    ensures IsPrefix(r, s) && |r| == if |s| <= n then |s| else n
  {
    if |s| <= n then s else s[..n]
  }

  /** Dedup keeps exactly the elements of its input, each once. */
  lemma {:induction false} DedupSpec(s: seq<string>)
    ensures Distinct(Dedup(s))
    ensures forall x :: x in Dedup(s) <==> x in s
  {
    if s != [] {
      DedupSpec(s[..|s| - 1]);
      assert s == s[..|s| - 1] + [s[|s| - 1]];
    }
  }

  /** Deduplicating a prefix gives a prefix of the deduplicated whole. */
  lemma {:induction false} DedupPrefix(s: seq<string>, k: nat)
    requires k <= |s|
    ensures IsPrefix(Dedup(s[..k]), Dedup(s))
  {
    if k < |s| {
      var n := |s| - 1;
      DedupPrefix(s[..n], k);
      assert s[..n][..k] == s[..k];
    } else {
      assert s[..k] == s;
    }
  }

  /** The normalized words of a prefix of the entries are a prefix of all normalized words. */
  lemma {:induction false} NormalizedPrefix(data: seq<Candidate>, k: nat)
    requires k <= |data|
    ensures IsPrefix(Normalized(data[..k]), Normalized(data))
  {
    if k < |data| {
      var n := |data| - 1;
      NormalizedPrefix(data[..n], k);
      assert data[..n][..k] == data[..k];
    } else {
      assert data[..k] == data;
    }
  }

  /** Dedup of a prefix is a prefix of the Dedup, for a prefix given as a sequence. */
  lemma DedupOfPrefix(a: seq<string>, b: seq<string>)
    requires IsPrefix(a, b)
    ensures IsPrefix(Dedup(a), Dedup(b))
  {
    DedupPrefix(b, |a|);
  }

  /** The words the collecting loop keeps, as a function of the (noun-filtered) entries. */
  function Collected(data: seq<Candidate>): seq<string> {
    Take(Dedup(Normalized(data)), COLLECT_LIMIT)
  }

  /** One more element: Dedup keeps it exactly when it is new. */
  lemma DedupStep(s: seq<string>, x: string)
    ensures Dedup(s + [x]) == if x in Dedup(s) then Dedup(s) else Dedup(s) + [x]
  {
    assert (s + [x])[..|s|] == s;
  }

  /** One more entry: the normalized words grow by that entry's word when it is eligible. */
  lemma NormalizedStep(data: seq<Candidate>, i: nat)
    requires i < |data|
    ensures Normalized(data[..i + 1]) == Normalized(data[..i]) + (if Eligible(data[i]) then [UpperString(WordText(data[i]))] else [])
  {
    assert data[..i + 1][..i] == data[..i];
  }

  /** The collected words: distinct puzzle words, at most 30, and all of them when fewer than 30. */
  lemma CollectedSpec(data: seq<Candidate>)
    ensures Distinct(Collected(data)) && |Collected(data)| <= COLLECT_LIMIT
    ensures forall k :: 0 <= k < |Collected(data)| ==> PuzzleWord(Collected(data)[k]) && Collected(data)[k] in Normalized(data)
    ensures |Collected(data)| < COLLECT_LIMIT ==> forall x :: x in Normalized(data) ==> x in Collected(data)
  {
    var nw := Normalized(data);
    DedupSpec(nw);
    var d := Dedup(nw);
    forall k | 0 <= k < |Collected(data)| ensures PuzzleWord(Collected(data)[k]) && Collected(data)[k] in nw {
      assert Collected(data)[k] == d[k];
      assert d[k] in d;
      var j :| 0 <= j < |nw| && nw[j] == d[k];
    }
  }

  /** What one more entry does to the collected words. */
  lemma CollectStep(data: seq<Candidate>, i: nat)
    requires i < |data|
    ensures var d := Dedup(Normalized(data[..i]));
      var w := UpperString(WordText(data[i]));
      Dedup(Normalized(data[..i + 1])) == if Eligible(data[i]) && w !in d then d + [w] else d
  {
    NormalizedStep(data, i);
    if Eligible(data[i]) {
      DedupStep(Normalized(data[..i]), UpperString(WordText(data[i])));
    } else {
      assert Normalized(data[..i + 1]) == Normalized(data[..i]);
    }
  }

  /** Once the words of a prefix of the entries reach the limit, they are all the loop keeps. */
  lemma CollectFull(data: seq<Candidate>, k: nat)
    requires k <= |data| && |Dedup(Normalized(data[..k]))| == COLLECT_LIMIT
    ensures Collected(data) == Dedup(Normalized(data[..k]))
  {
    NormalizedPrefix(data, k);
    DedupOfPrefix(Normalized(data[..k]), Normalized(data));
  }

  /** The per-entry checks of the collecting loop: the upper-cased word must be capital letters
      only, 3 to 12 of them, and an entry with tags must be tagged as a noun. */
  method ScreenEntry(item: Candidate) returns (w: string, ok: bool)
    ensures w == UpperString(WordText(item)) && ok == Eligible(item)
  {
    w := UpperString(WordText(item));
    ok := AllCaps(w) && MIN_WORD_LENGTH <= |w| <= MAX_WORD_LENGTH;
    if ok && item.tags.Some? && "n" !in item.tags.value {
      ok := false;
    }
  }

  /** The collecting loop: walk the entries, skip ineligible words and repeats, stop at 30 words. */
  method CollectWords(data: seq<Candidate>) returns (words: seq<string>)
    ensures words == Collected(data)
  {
    words := [];
    var seen: set<string> := {};
    var i := 0;
    while i < |data|
      invariant 0 <= i <= |data|
      invariant words == Dedup(Normalized(data[..i]))
      invariant forall x :: x in seen <==> x in words
      invariant |words| < COLLECT_LIMIT
    {
      var item := data[i];
      CollectStep(data, i);
      var w, ok := ScreenEntry(item);
      if !ok || w in seen {
        i := i + 1;
        continue;
      }
      seen := seen + {w};
      words := words + [w];
      if |words| >= COLLECT_LIMIT {
        CollectFull(data, i + 1);
        return;
      }
      i := i + 1;
    }
    assert data[..i] == data;
  }

  /** Non-increasing in length. */
  predicate LengthDesc(s: seq<string>) {
    forall i, j :: 0 <= i < j < |s| ==> |s[i]| >= |s[j]|
  }

  /** Every suffix of a longest-first list is longest-first. */
  lemma LengthDescSuffix(s: seq<string>, k: nat)
    requires LengthDesc(s) && k <= |s|
    ensures LengthDesc(s[k..])
  {
    forall i, j | 0 <= i < j < |s| - k ensures |s[k..][i]| >= |s[k..][j]| {
      assert s[k..][i] == s[k + i] && s[k..][j] == s[k + j];
    }
  }

  /** Places `x` after every element at least as long as it. */
  function Insert(t: seq<string>, x: string): seq<string> {
    if t == [] then [x]
    else if |t[0]| >= |x| then [t[0]] + Insert(t[1..], x)
    else [x] + t
  }

  /** Stable sort by length, longest first: the array sort with comparator `b.length - a.length`. */
  function SortByLengthDesc(s: seq<string>): seq<string> {
    if s == [] then [] else Insert(SortByLengthDesc(s[..|s| - 1]), s[|s| - 1])
  }

  /** The elements of length `len`, in order. */
  function OfLength(s: seq<string>, len: nat): seq<string> {
    if s == [] then [] else (if |s[0]| == len then [s[0]] else []) + OfLength(s[1..], len)
  }

  lemma {:induction false} OfLengthConcat(a: seq<string>, b: seq<string>, len: nat)
    ensures OfLength(a + b, len) == OfLength(a, len) + OfLength(b, len)
  {
    if a == [] {
      assert a + b == b;
    } else {
      assert (a + b)[0] == a[0];
      assert (a + b)[1..] == a[1..] + b;
      OfLengthConcat(a[1..], b, len);
    }
  }

  lemma {:induction false} OfLengthShorter(t: seq<string>, len: nat)
    requires forall k :: 0 <= k < |t| ==> |t[k]| < len
    ensures OfLength(t, len) == []
  {
    if t != [] {
      OfLengthShorter(t[1..], len);
    }
  }

  lemma {:induction false} InsertMultiset(t: seq<string>, x: string)
    ensures multiset(Insert(t, x)) == multiset(t) + multiset{x}
  {
    if t != [] && |t[0]| >= |x| {
      InsertMultiset(t[1..], x);
      assert t == [t[0]] + t[1..];
    }
  }

  lemma {:induction false} InsertSorted(t: seq<string>, x: string)
    requires LengthDesc(t)
    ensures LengthDesc(Insert(t, x))
  {
    if t != [] && |t[0]| >= |x| {
      InsertSorted(t[1..], x);
      var rest := Insert(t[1..], x);
      InsertMultiset(t[1..], x);
      forall k | 0 <= k < |rest| ensures |rest[k]| <= |t[0]| {
        assert rest[k] in multiset(rest);
        if rest[k] != x {
          assert rest[k] in multiset(t[1..]);
          var j :| 0 <= j < |t[1..]| && t[1..][j] == rest[k];
          assert t[1..][j] == t[j + 1];
        }
      }
    }
  }

  lemma {:induction false} InsertOfLength(t: seq<string>, x: string, len: nat)
    requires LengthDesc(t)
    ensures OfLength(Insert(t, x), len) == OfLength(t, len) + (if |x| == len then [x] else [])
  {
    if t == [] {
      assert OfLength([x], len) == (if |x| == len then [x] else []) + OfLength([], len);
    } else if |t[0]| >= |x| {
      assert LengthDesc(t[1..]);
      InsertOfLength(t[1..], x, len);
      assert t == [t[0]] + t[1..];
      OfLengthConcat([t[0]], Insert(t[1..], x), len);
      OfLengthConcat([t[0]], t[1..], len);
    } else {
      OfLengthConcat([x], t, len);
      if |x| == len {
        OfLengthShorter(t, len);
      }
    }
  }

  /** The sort puts longer words first. */
  lemma {:induction false} SortOrders(s: seq<string>)
    ensures LengthDesc(SortByLengthDesc(s))
  {
    if s != [] {
      SortOrders(s[..|s| - 1]);
      InsertSorted(SortByLengthDesc(s[..|s| - 1]), s[|s| - 1]);
    }
  }

  /** The sort permutes its input. */
  lemma {:induction false} SortPermutes(s: seq<string>)
    ensures multiset(SortByLengthDesc(s)) == multiset(s)
  {
    if s != [] {
      var n := |s| - 1;
      SortPermutes(s[..n]);
      InsertMultiset(SortByLengthDesc(s[..n]), s[n]);
      assert s == s[..n] + [s[n]];
    }
  }

  /** The sort is stable: the words of each length keep their original order. */
  lemma {:induction false} SortStable(s: seq<string>, len: nat)
    ensures OfLength(SortByLengthDesc(s), len) == OfLength(s, len)
  {
    if s != [] {
      var n := |s| - 1;
      var t, x := SortByLengthDesc(s[..n]), s[n];
      var single := if |x| == len then [x] else [];
      SortStable(s[..n], len);
      SortOrders(s[..n]);
      InsertOfLength(t, x, len);
      assert OfLength(SortByLengthDesc(s), len) == OfLength(s[..n], len) + single;
      assert s == s[..n] + [x];
      OfLengthConcat(s[..n], [x], len);
      assert OfLength([x], len) == single by {
        assert [x][1..] == [];
      }
    }
  }

  /** A list has no repeats exactly when no word occurs in it twice. */
  lemma {:induction false} DistinctCount(s: seq<string>)
    ensures Distinct(s) <==> forall y :: multiset(s)[y] <= 1
  {
    if s != [] {
      var n := |s| - 1;
      var p, z := s[..n], s[n];
      assert s == p + [z];
      DistinctCount(p);
      if Distinct(s) {
        assert Distinct(p) by {
          forall i, j | 0 <= i < j < |p| ensures p[i] != p[j] { assert p[i] == s[i] && p[j] == s[j]; }
        }
        assert z !in p;
      }
      if forall y :: multiset(s)[y] <= 1 {
        assert forall y :: multiset(p)[y] <= 1 by {
          forall y ensures multiset(p)[y] <= 1 { assert multiset(s)[y] == multiset(p)[y] + multiset([z])[y]; }
        }
        assert multiset(p)[z] == 0 by { assert multiset(s)[z] == multiset(p)[z] + 1; }
        forall i, j | 0 <= i < j < |s| ensures s[i] != s[j] {
          if j == n { assert s[i] == p[i]; assert p[i] in multiset(p); } else { assert s[i] == p[i] && s[j] == p[j]; }
        }
      }
    }
  }

  /** Sorting keeps the words of a list and keeps them distinct. */
  lemma SortKeepsWords(s: seq<string>)
    ensures forall x :: x in SortByLengthDesc(s) <==> x in s
    ensures Distinct(s) ==> Distinct(SortByLengthDesc(s))
  {
    SortPermutes(s);
    var t := SortByLengthDesc(s);
    forall x ensures x in t <==> x in s {
      assert x in t <==> x in multiset(t);
    }
    if Distinct(s) {
      DistinctCount(s);
      DistinctCount(t);
    }
  }

  /** Entries to candidate words: noun filter, collecting loop, longest-first sort, first 15. */
  method SelectCandidates(data: seq<Candidate>) returns (words: seq<string>)
    ensures words == Take(SortByLengthDesc(Collected(NounFilter(data))), MAX_CANDIDATES)
    ensures |words| <= MAX_CANDIDATES && LengthDesc(words) && Distinct(words)
    ensures forall k :: 0 <= k < |words| ==> PuzzleWord(words[k]) && words[k] in Normalized(NounFilter(data))
  {
    var nouns := NounFilter(data);
    var collected := CollectWords(nouns);
    var sorted := SortByLengthDesc(collected);
    words := Take(sorted, MAX_CANDIDATES);
    CollectedSpec(nouns);
    SortOrders(collected);
    SortKeepsWords(collected);
    forall k | 0 <= k < |words|
      ensures PuzzleWord(words[k]) && words[k] in Normalized(nouns)
    {
      assert words[k] == sorted[k];
      assert sorted[k] in sorted;
      var j :| 0 <= j < |collected| && collected[j] == sorted[k];
    }
  }
}
