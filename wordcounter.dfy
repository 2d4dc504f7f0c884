/** The word counter of wordcounter/counter.go: the comment bodies of a feed are
    lowercased and split on white space, every word is tallied in a map, the tallies
    are copied into a slice and the slice is sorted by ascending count. */
module WordCounter {
  import opened Wrappers
  import opened Decimal
  import opened IntParse

  /** One element of the JSON feed; only the body is read. */
  datatype Comment = Comment(postId: int, id: int, name: string, email: string, body: string)

  /** A word and how often it occurs. */
  datatype WordCount = WordCount(word: string, count: int)

  // ---------------------------------------------------------------------------
  // strings.ToLower and strings.Fields.

  function LowerChar(c: char): char {
    if 'A' <= c <= 'Z' then (c as int + 32) as char else c
  }

  /** strings.ToLower on the ASCII letters; every other character is kept. */
  function ToLower(s: string): (r: string)
    ensures |r| == |s|
    ensures forall i :: 0 <= i < |s| ==> r[i] == LowerChar(s[i])
  {
    seq(|s|, i requires 0 <= i < |s| => LowerChar(s[i]))
  }

  /** unicode.IsSpace: the Latin-1 spaces and the other White_Space characters. */
  predicate IsSpace(c: char) {
    || c == '\t' || c == '\n' || c == '\U{000B}' || c == '\U{000C}' || c == '\r' || c == ' '
    || c == '\U{0085}' || c == '\U{00A0}' || c == '\U{1680}'
    || ('\U{2000}' <= c <= '\U{200A}')
    || c == '\U{2028}' || c == '\U{2029}' || c == '\U{202F}' || c == '\U{205F}' || c == '\U{3000}'
  }

  predicate NoSpace(s: string) {
    forall i :: 0 <= i < |s| ==> !IsSpace(s[i])
  }

  /** The length of the word a string starts with. */
  function WordLength(s: string): (k: nat)
    requires s != [] && !IsSpace(s[0])
    ensures 1 <= k <= |s| && NoSpace(s[..k])
    ensures k < |s| ==> IsSpace(s[k])
  {
    if |s| == 1 || IsSpace(s[1]) then 1
    else
      var k := 1 + WordLength(s[1..]);
      assert forall i :: 1 <= i < k ==> s[..k][i] == s[1..][..k - 1][i - 1];
      k
  }

  /** strings.Fields: the maximal runs of non-space characters, in order. */
  function Fields(s: string): (ws: seq<string>)
    ensures forall i :: 0 <= i < |ws| ==> ws[i] != [] && NoSpace(ws[i])
    decreases |s|
  {
    if s == [] then []
    else if IsSpace(s[0]) then Fields(s[1..])
    else
      var k := WordLength(s);
      [s[..k]] + Fields(s[k..])
  }

  /** The words of the comments, comment by comment: what the nested loops visit. */
  function Words(cs: seq<Comment>): seq<string> {
    if cs == [] then [] else Words(cs[..|cs| - 1]) + Fields(ToLower(cs[|cs| - 1].body))
  }

  // ---------------------------------------------------------------------------
  // The tally, as a specification.

  /** How often `w` occurs in `ws`. */
  function Occurrences(ws: seq<string>, w: string): (n: nat)
    ensures n <= |ws|
    ensures n > 0 <==> w in ws
  {
    if ws == [] then 0
    else
      assert ws == ws[..|ws| - 1] + [ws[|ws| - 1]];
      Occurrences(ws[..|ws| - 1], w) + (if ws[|ws| - 1] == w then 1 else 0)
  }

  /** The result Counter promises for the words `ws`: one entry per distinct word,
      carrying the number of its occurrences. */
  predicate IsTally(r: seq<WordCount>, ws: seq<string>) {
    && (forall i :: 0 <= i < |r| ==> r[i].word in ws && r[i].count == Occurrences(ws, r[i].word))
    && (forall w :: w in ws ==> WordCount(w, Occurrences(ws, w)) in r)
    && (forall i, j :: 0 <= i < j < |r| ==> r[i].word != r[j].word)
  }

  /** Non-decreasing by count, the order Less sorts into. */
  predicate SortedByCount(r: seq<WordCount>) {
    forall i, j :: 0 <= i < j < |r| ==> r[i].count <= r[j].count
  }

  /** The map after the words `ws` were counted: a key per distinct word, mapped to
      its number of occurrences. */
  ghost predicate Counts(m: map<string, int>, ws: seq<string>) {
    && (forall w :: w in m <==> w in ws)
    && (forall w :: w in m ==> m[w] == Occurrences(ws, w))
  }

  /** wordC[w]++ counts one more word. */
  lemma CountsStep(m: map<string, int>, ws: seq<string>, x: string)
    requires Counts(m, ws)
    ensures Counts(m[x := (if x in m then m[x] else 0) + 1], ws + [x])
  {
    var ws' := ws + [x];
    assert ws'[..|ws'| - 1] == ws;
    forall w
      ensures w in ws' <==> w in ws || w == x
    {
      assert w in ws ==> w in ws';
    }
  }

  /** The slice before sorting, by membership and multiplicity, which the sort keeps. */
  ghost predicate Entries(s: seq<WordCount>, ws: seq<string>) {
    && (forall e :: e in s ==> e.word in ws && e.count == Occurrences(ws, e.word))
    && (forall w :: w in ws ==> WordCount(w, Occurrences(ws, w)) in s)
    && (forall e :: multiset(s)[e] <= 1)
  }

  /** Two positions hold the same entry only if it occurs twice. */
  lemma TwoPositions(s: seq<WordCount>, i: int, j: int)
    requires 0 <= i < j < |s| && s[i] == s[j]
    ensures multiset(s)[s[i]] >= 2
  {
    assert s == s[..j] + s[j..];
    assert s[i] in s[..j];
    assert s[j] == s[j..][0];
  }

  lemma EntriesTally(s: seq<WordCount>, ws: seq<string>)
    requires Entries(s, ws)
    ensures IsTally(s, ws)
  {
    forall i, j | 0 <= i < j < |s|
      ensures s[i].word != s[j].word
    {
      assert s[i] in s && s[j] in s;
      if s[i].word == s[j].word {
        assert s[i] == s[j];
        TwoPositions(s, i, j);
      }
    }
  }

  lemma EntriesPermuted(s: seq<WordCount>, t: seq<WordCount>, ws: seq<string>)
    requires Entries(s, ws) && multiset(s) == multiset(t)
    ensures Entries(t, ws)
  {
    forall e | e in t
      ensures e in s
    {
      assert e in multiset(t);
    }
    forall w | w in ws
      ensures WordCount(w, Occurrences(ws, w)) in t
    {
      assert WordCount(w, Occurrences(ws, w)) in multiset(s);
    }
  }

  // ---------------------------------------------------------------------------
  // sort.Interface.

  /** WordCounts.Len. */
  function Len(wc: seq<WordCount>): int {
    |wc|
  }

  /** WordCounts.Less: by count alone. */
  predicate Less(wc: seq<WordCount>, i: int, j: int)
    requires 0 <= i < |wc| && 0 <= j < |wc|
  {
    wc[i].count < wc[j].count
  }

  /** Less is a strict weak order: irreflexive and transitive, and entries it does
      not separate have equal counts, so their relative order is left open. */
  lemma LessOrders(wc: seq<WordCount>, i: int, j: int, k: int)
    requires 0 <= i < |wc| && 0 <= j < |wc| && 0 <= k < |wc|
    ensures !Less(wc, i, i)
    ensures Less(wc, i, j) && Less(wc, j, k) ==> Less(wc, i, k)
    ensures !Less(wc, i, j) && !Less(wc, j, i) <==> wc[i].count == wc[j].count
    ensures Less(wc, i, j) ==> !Less(wc, j, i)
  {
  }

  /** WordCounts.Swap, on the slice's backing array. */
  method Swap(a: array<WordCount>, i: int, j: int)
    requires 0 <= i < a.Length && 0 <= j < a.Length
    modifies a
    ensures a[..] == old(a[..])[i := old(a[j])][j := old(a[i])]
    ensures multiset(a[..]) == multiset(old(a[..]))
  {
    a[i], a[j] := a[j], a[i];
  }

  /** The first i + 1 entries are in order once the one at j is left out. */
  predicate SortedExcept(s: seq<WordCount>, i: int, j: int)
    requires i < |s|
  {
    forall k, l :: 0 <= k < l <= i && k != j && l != j ==> s[k].count <= s[l].count
  }

  /** The entry at j is below every entry after it, up to i. */
  predicate BelowRest(s: seq<WordCount>, i: int, j: int)
    requires 0 <= j && i < |s|
  {
    forall l :: j < l <= i ==> s[j].count < s[l].count
  }

  lemma InsertStart(s: seq<WordCount>, i: int)
    requires 0 < i < |s| && SortedByCount(s[..i])
    ensures SortedExcept(s, i, i) && BelowRest(s, i, i)
  {
    forall k, l | 0 <= k < l <= i && k != i && l != i ensures s[k].count <= s[l].count {
      assert s[k] == s[..i][k] && s[l] == s[..i][l];
    }
  }

  /** Swapping the inserted entry with a larger left neighbour moves the gap left. */
  lemma InsertStep(s: seq<WordCount>, i: int, j: int)
    requires 0 < j <= i < |s|
    requires SortedExcept(s, i, j) && BelowRest(s, i, j) && s[j].count < s[j - 1].count
    ensures SortedExcept(s[j := s[j - 1]][j - 1 := s[j]], i, j - 1)
    ensures BelowRest(s[j := s[j - 1]][j - 1 := s[j]], i, j - 1)
  {
  }

  lemma InsertDone(s: seq<WordCount>, i: int, j: int)
    requires 0 <= j <= i < |s|
    requires SortedExcept(s, i, j) && BelowRest(s, i, j)
    requires j == 0 || s[j - 1].count <= s[j].count
    ensures SortedByCount(s[..i + 1])
  {
    forall k, l | 0 <= k < l <= i ensures s[k].count <= s[l].count {
      if l == j && k < j - 1 {
        assert s[k].count <= s[j - 1].count;
      }
    }
  }

  /** sort.Sort through Len, Less and Swap. The library's pattern-defeating quicksort
      is replaced by insertion sort with adjacent swaps: the contract is the same,
      sorted by Less and a permutation. */
  method Sort(a: array<WordCount>)
    modifies a
    ensures SortedByCount(a[..])
    ensures multiset(a[..]) == multiset(old(a[..]))
  {
    if a.Length == 0 {
      return;
    }
    var i := 1;
    while i < Len(a[..])
      invariant 1 <= i <= a.Length
      invariant SortedByCount(a[..i])
      invariant multiset(a[..]) == multiset(old(a[..]))
    {
      InsertStart(a[..], i);
      var j := i;
      while j > 0 && Less(a[..], j, j - 1)
        invariant 0 <= j <= i
        invariant SortedExcept(a[..], i, j) && BelowRest(a[..], i, j)
        invariant multiset(a[..]) == multiset(old(a[..]))
      {
        InsertStep(a[..], i, j);
        Swap(a, j, j - 1);
        j := j - 1;
      }
      InsertDone(a[..], i, j);
      i := i + 1;
    }
    assert a[..i] == a[..];
  }

  // ---------------------------------------------------------------------------
  // Counter.

  /** The words of one more comment follow those of the comments before it. */
  lemma WordsStep(cs: seq<Comment>, c: int)
    requires 0 <= c < |cs|
    ensures Words(cs[..c + 1]) == Words(cs[..c]) + Fields(ToLower(cs[c].body))
  {
    assert cs[..c + 1][..c] == cs[..c];
  }

  /** The drain of the map into the slice, part way: `keys` are the keys not yet
      appended, and every appended entry is a key with its count, once. */
  ghost predicate Drained(m: map<string, int>, keys: set<string>, s: seq<WordCount>) {
    && keys <= m.Keys
    && (forall e :: e in s ==> e.word in m && e.word !in keys && e.count == m[e.word])
    && (forall k :: k in m && k !in keys ==> WordCount(k, m[k]) in s)
    && (forall e :: multiset(s)[e] <= 1)
  }

  lemma DrainStep(m: map<string, int>, keys: set<string>, s: seq<WordCount>, key: string)
    requires Drained(m, keys, s) && key in keys
    ensures Drained(m, keys - {key}, s + [WordCount(key, m[key])])
  {
    var e := WordCount(key, m[key]);
    assert e !in s;
    var s' := s + [e];
    forall x | x in s' ensures x in s || x == e {
    }
  }

  /** Once every key is appended, the slice holds the tally the map counted. */
  lemma DrainDone(m: map<string, int>, s: seq<WordCount>, ws: seq<string>)
    requires Drained(m, {}, s) && Counts(m, ws)
    ensures Entries(s, ws)
  {
  }

  /** Counter: lowercase and split every body, count the words in a map, copy the
      map's entries into a slice in whatever order the map yields them, sort. */
  method Counter(comments: seq<Comment>) returns (r: seq<WordCount>)
    ensures IsTally(r, Words(comments))
    ensures SortedByCount(r)
  {
    var wordC: map<string, int> := map[];
    var c := 0;
    while c < |comments|
      invariant 0 <= c <= |comments|
      invariant Counts(wordC, Words(comments[..c]))
    {
      var text := ToLower(comments[c].body);
      var words := Fields(text);
      var i := 0;
      assert Words(comments[..c]) + words[..i] == Words(comments[..c]);
      while i < |words|
        invariant 0 <= i <= |words|
        invariant Counts(wordC, Words(comments[..c]) + words[..i])
      {
        CountsStep(wordC, Words(comments[..c]) + words[..i], words[i]);
        assert Words(comments[..c]) + words[..i] + [words[i]] == Words(comments[..c]) + words[..i + 1];
        wordC := wordC[words[i] := (if words[i] in wordC then wordC[words[i]] else 0) + 1];
        i := i + 1;
      }
      assert words[..i] == words;
      WordsStep(comments, c);
      c := c + 1;
    }
    assert comments[..c] == comments;
    ghost var ws := Words(comments);

    var wCs: seq<WordCount> := [];
    var keys := wordC.Keys;
    while keys != {}
      invariant Drained(wordC, keys, wCs)
      decreases |keys|
    {
      var key :| key in keys;
      DrainStep(wordC, keys, wCs, key);
      wCs := wCs + [WordCount(key, wordC[key])];
      keys := keys - {key};
    }
    DrainDone(wordC, wCs, ws);

    var a := new WordCount[|wCs|](i requires 0 <= i < |wCs| => wCs[i]);
    assert a[..] == wCs;
    Sort(a);
    r := a[..];
    EntriesPermuted(wCs, r, ws);
    EntriesTally(r, ws);
  }

  // ---------------------------------------------------------------------------
  // What the tally promises.

  function SumCounts(r: seq<WordCount>): int {
    if r == [] then 0 else SumCounts(r[..|r| - 1]) + r[|r| - 1].count
  }

  /** The occurrences in `ws` of the words of `r`, added up. */
  function SumOccurrences(r: seq<WordCount>, ws: seq<string>): nat {
    if r == [] then 0 else SumOccurrences(r[..|r| - 1], ws) + Occurrences(ws, r[|r| - 1].word)
  }

  /** How many entries of `r` carry the word `x`. */
  function Hits(r: seq<WordCount>, x: string): nat {
    if r == [] then 0 else Hits(r[..|r| - 1], x) + (if r[|r| - 1].word == x then 1 else 0)
  }

  lemma {:induction false} SumCountsIsOccurrences(r: seq<WordCount>, ws: seq<string>)
    requires forall i :: 0 <= i < |r| ==> r[i].count == Occurrences(ws, r[i].word)
    ensures SumCounts(r) == SumOccurrences(r, ws)
  {
    if r != [] {
      var init := r[..|r| - 1];
      assert forall i :: 0 <= i < |init| ==> init[i] == r[i];
      SumCountsIsOccurrences(init, ws);
    }
  }

  lemma {:induction false} SumOccurrencesStep(r: seq<WordCount>, ws: seq<string>, x: string)
    ensures SumOccurrences(r, ws + [x]) == SumOccurrences(r, ws) + Hits(r, x)
  {
    var ws' := ws + [x];
    assert ws'[..|ws'| - 1] == ws;
    if r != [] {
      SumOccurrencesStep(r[..|r| - 1], ws, x);
    }
  }

  lemma {:induction false} HitsOnce(r: seq<WordCount>, x: string, k: int)
    requires 0 <= k < |r| && r[k].word == x
    requires forall i, j :: 0 <= i < j < |r| ==> r[i].word != r[j].word
    ensures Hits(r, x) == 1
  {
    var init := r[..|r| - 1];
    if k == |r| - 1 {
      HitsNone(init, x);
    } else {
      assert init[k] == r[k];
      HitsOnce(init, x, k);
    }
  }

  lemma {:induction false} HitsNone(r: seq<WordCount>, x: string)
    requires forall i :: 0 <= i < |r| ==> r[i].word != x
    ensures Hits(r, x) == 0
  {
    if r != [] {
      HitsNone(r[..|r| - 1], x);
    }
  }

  lemma {:induction false} CoveringSum(r: seq<WordCount>, ws: seq<string>)
    requires forall i, j :: 0 <= i < j < |r| ==> r[i].word != r[j].word
    requires forall w :: w in ws ==> exists k :: 0 <= k < |r| && r[k].word == w
    ensures SumOccurrences(r, ws) == |ws|
  {
    if ws == [] {
      SumOccurrencesEmpty(r);
    } else {
      var init := ws[..|ws| - 1];
      var x := ws[|ws| - 1];
      assert ws == init + [x];
      assert x in ws;
      assert forall w :: w in init ==> w in ws;
      CoveringSum(r, init);
      SumOccurrencesStep(r, init, x);
      var k :| 0 <= k < |r| && r[k].word == x;
      HitsOnce(r, x, k);
    }
  }

  lemma {:induction false} SumOccurrencesEmpty(r: seq<WordCount>)
    ensures SumOccurrences(r, []) == 0
  {
    if r != [] {
      SumOccurrencesEmpty(r[..|r| - 1]);
    }
  }

  /** The counts of a tally add up to the number of words. */
  lemma CountsAddUp(r: seq<WordCount>, ws: seq<string>)
    requires IsTally(r, ws)
    ensures SumCounts(r) == |ws|
  {
    SumCountsIsOccurrences(r, ws);
    forall w | w in ws
      ensures exists k :: 0 <= k < |r| && r[k].word == w
    {
      var e := WordCount(w, Occurrences(ws, w));
      assert e in r;
      var k :| 0 <= k < |r| && r[k] == e;
    }
    CoveringSum(r, ws);
  }

  /** No two distinct words occur equally often. */
  predicate DistinctCounts(ws: seq<string>) {
    forall w, v :: w in ws && v in ws && w != v ==> Occurrences(ws, w) != Occurrences(ws, v)
  }

  /** When no two words tie, the sorted tally is unique: the order in which the map
      yielded its entries and the sort's freedom with equal counts leave no trace. */
  lemma SortedTallyUnique(r: seq<WordCount>, t: seq<WordCount>, ws: seq<string>)
    requires IsTally(r, ws) && SortedByCount(r) && IsTally(t, ws) && SortedByCount(t)
    requires DistinctCounts(ws)
    ensures r == t
  {
    TallyStrict(r, ws);
    TallyStrict(t, ws);
    forall e ensures e in r <==> e in t {
      if e in r { TallyMember(r, t, ws, e); }
      if e in t { TallyMember(t, r, ws, e); }
    }
    StrictSame(r, t);
  }

  /** Sorted and without ties, a tally is strictly ascending. */
  lemma TallyStrict(r: seq<WordCount>, ws: seq<string>)
    requires IsTally(r, ws) && SortedByCount(r) && DistinctCounts(ws)
    ensures forall i, j :: 0 <= i < j < |r| ==> r[i].count < r[j].count
  {
  }

  /** Two tallies of the same words hold the same entries. */
  lemma TallyMember(r: seq<WordCount>, t: seq<WordCount>, ws: seq<string>, e: WordCount)
    requires IsTally(r, ws) && IsTally(t, ws) && e in r
    ensures e in t
  {
    var i :| 0 <= i < |r| && r[i] == e;
    assert e == WordCount(e.word, Occurrences(ws, e.word));
  }

  /** Past a shared first entry, an entry of one strictly ascending sequence is in
      the other's tail. */
  lemma TailMember(r: seq<WordCount>, t: seq<WordCount>, e: WordCount)
    requires forall i, j :: 0 <= i < j < |r| ==> r[i].count < r[j].count
    requires r != [] && t != [] && r[0] == t[0]
    requires (forall x :: x in r ==> x in t) && e in r[1..]
    ensures e in t[1..]
  {
    var i :| 0 <= i < |r[1..]| && r[1..][i] == e;
    assert r[i + 1] == e && e.count > r[0].count;
    assert e in t;
    var j :| 0 <= j < |t| && t[j] == e;
    assert j > 0 && t[1..][j - 1] == e;
  }

  /** Strictly ascending sequences with the same entries are equal. */
  lemma {:induction false} StrictSame(r: seq<WordCount>, t: seq<WordCount>)
    requires forall i, j :: 0 <= i < j < |r| ==> r[i].count < r[j].count
    requires forall i, j :: 0 <= i < j < |t| ==> t[i].count < t[j].count
    requires forall e :: e in r <==> e in t
    ensures r == t
    decreases |r|
  {
    assert r != [] ==> r[0] in t;
    assert t != [] ==> t[0] in r;
    if r != [] && t != [] {
      SameHead(r, t);
      SameTail(r, t);
      StrictSame(r[1..], t[1..]);
      assert r == [r[0]] + r[1..] && t == [t[0]] + t[1..];
    }
  }

  /** Two strictly ascending sequences with the same entries start alike. */
  lemma SameHead(r: seq<WordCount>, t: seq<WordCount>)
    requires forall i, j :: 0 <= i < j < |r| ==> r[i].count < r[j].count
    requires forall i, j :: 0 <= i < j < |t| ==> t[i].count < t[j].count
    requires r != [] && t != [] && r[0] in t && t[0] in r
    ensures r[0] == t[0]
  {
    var k :| 0 <= k < |t| && t[k] == r[0];
    var m :| 0 <= m < |r| && r[m] == t[0];
    assert r[0].count <= r[m].count && t[0].count <= t[k].count;
  }

  /** Past that first entry, their tails hold the same entries. */
  lemma SameTail(r: seq<WordCount>, t: seq<WordCount>)
    requires forall i, j :: 0 <= i < j < |r| ==> r[i].count < r[j].count
    requires forall i, j :: 0 <= i < j < |t| ==> t[i].count < t[j].count
    requires r != [] && t != [] && r[0] == t[0]
    requires forall e :: e in r <==> e in t
    ensures forall e :: e in r[1..] <==> e in t[1..]
  {
    forall e ensures e in r[1..] <==> e in t[1..] {
      if e in r[1..] { TailMember(r, t, e); }
      if e in t[1..] { TailMember(t, r, e); }
    }
  }

  /** Counting ignores case: comments whose bodies agree once lowercased have the
      same words, so the same tallies. */
  lemma {:induction false} CaseInsensitive(cs: seq<Comment>, ds: seq<Comment>)
    requires |cs| == |ds|
    requires forall i :: 0 <= i < |cs| ==> ToLower(cs[i].body) == ToLower(ds[i].body)
    ensures Words(cs) == Words(ds)
    ensures forall r :: IsTally(r, Words(cs)) <==> IsTally(r, Words(ds))
  {
    if cs != [] {
      CaseInsensitive(cs[..|cs| - 1], ds[..|ds| - 1]);
    }
  }

  /** Lowercasing twice is lowercasing once, so "God" and "god" are one word. */
  lemma LowerTwice(s: string)
    ensures ToLower(ToLower(s)) == ToLower(s)
    ensures ToLower("God") == ToLower("god") == "god"
  {
  }

  /** A body of white space only has no words. */
  lemma {:induction false} BlankHasNoFields(s: string)
    requires forall i :: 0 <= i < |s| ==> IsSpace(s[i])
    ensures Fields(s) == []
    decreases |s|
  {
    if s != [] {
      BlankHasNoFields(s[1..]);
    }
  }

  /** With no comments, or only blank ones, the result is empty. */
  lemma {:induction false} BlankCommentsNoCounts(cs: seq<Comment>, r: seq<WordCount>)
    requires forall i, j :: 0 <= i < |cs| && 0 <= j < |cs[i].body| ==> IsSpace(cs[i].body[j])
    requires IsTally(r, Words(cs))
    ensures Words(cs) == [] && r == []
  {
    BlankWords(cs);
    TallyLength(r, Words(cs));
    assert Vocabulary([]) == {};
  }

  lemma {:induction false} BlankWords(cs: seq<Comment>)
    requires forall i, j :: 0 <= i < |cs| && 0 <= j < |cs[i].body| ==> IsSpace(cs[i].body[j])
    ensures Words(cs) == []
  {
    if cs != [] {
      var last := cs[|cs| - 1].body;
      var lower := ToLower(last);
      assert forall j :: 0 <= j < |lower| ==> IsSpace(lower[j]) by {
        forall j | 0 <= j < |lower| ensures IsSpace(lower[j]) {
          assert IsSpace(last[j]);
        }
      }
      BlankHasNoFields(lower);
      BlankWords(cs[..|cs| - 1]);
    }
  }

  // ---------------------------------------------------------------------------
  // The fields split off exactly the non-space characters.

  function RemoveSpaces(s: string): (r: string)
    ensures NoSpace(r)
  {
    if s == [] then [] else (if IsSpace(s[0]) then [] else [s[0]]) + RemoveSpaces(s[1..])
  }

  function Concat(ws: seq<string>): string {
    if ws == [] then [] else ws[0] + Concat(ws[1..])
  }

  lemma {:induction false} RemoveSpacesAppend(a: string, b: string)
    ensures RemoveSpaces(a + b) == RemoveSpaces(a) + RemoveSpaces(b)
  {
    if a != [] {
      var head := if IsSpace(a[0]) then [] else [a[0]];
      assert (a + b)[0] == a[0] && (a + b)[1..] == a[1..] + b;
      assert RemoveSpaces(a + b) == head + RemoveSpaces(a[1..] + b);
      RemoveSpacesAppend(a[1..], b);
      assert RemoveSpaces(a) == head + RemoveSpaces(a[1..]);
    } else {
      assert a + b == b;
    }
  }

  lemma {:induction false} RemoveNoSpaces(s: string)
    requires NoSpace(s)
    ensures RemoveSpaces(s) == s
  {
    if s != [] {
      RemoveNoSpaces(s[1..]);
    }
  }

  /** Joining the fields back together gives the string with its white space
      removed: no character is lost, none is added. */
  lemma {:induction false} FieldsCover(s: string)
    ensures Concat(Fields(s)) == RemoveSpaces(s)
    decreases |s|
  {
    if s != [] {
      if IsSpace(s[0]) {
        FieldsCover(s[1..]);
      } else {
        var k := WordLength(s);
        FieldsCover(s[k..]);
        assert s == s[..k] + s[k..];
        RemoveSpacesAppend(s[..k], s[k..]);
        RemoveNoSpaces(s[..k]);
        var fs := [s[..k]] + Fields(s[k..]);
        assert fs[1..] == Fields(s[k..]);
      }
    }
  }

  /** WordLength is the position of the first white space, or the whole length. */
  lemma WordLengthUnique(s: string, k: nat)
    requires s != [] && !IsSpace(s[0])
    requires 1 <= k <= |s| && NoSpace(s[..k]) && (k < |s| ==> IsSpace(s[k]))
    ensures WordLength(s) == k
  {
    var m := WordLength(s);
    if k < |s| { SpaceBound(s, m, k); }
    if m < |s| { SpaceBound(s, k, m); }
  }

  /** A space at position `j` ends every space-free prefix by `j`. */
  lemma SpaceBound(s: string, n: nat, j: nat)
    requires n <= |s| && NoSpace(s[..n]) && j < |s| && IsSpace(s[j])
    ensures n <= j
  {
  }

  /** A non-empty run without white space is one field. */
  lemma FieldsOfWord(s: string)
    requires s != [] && NoSpace(s)
    ensures Fields(s) == [s]
  {
    WordLengthUnique(s, |s|);
    assert s[..|s|] == s && s[|s|..] == [];
  }

  /** White space separates: the fields on either side of a space character are
      the fields of the two sides. */
  lemma {:induction false} FieldsSplit(a: string, c: char, b: string)
    requires IsSpace(c)
    ensures Fields(a + [c] + b) == Fields(a) + Fields(b)
    decreases |a|
  {
    var s := a + [c] + b;
    if a == [] {
      assert s[0] == c && s[1..] == b;
      assert Fields(s) == Fields(b);
      assert Fields(a) + Fields(b) == [] + Fields(b);
    } else if IsSpace(a[0]) {
      assert s[0] == a[0] && s[1..] == a[1..] + [c] + b;
      FieldsSplit(a[1..], c, b);
      assert Fields(s) == Fields(a[1..] + [c] + b);
      assert Fields(a) == Fields(a[1..]);
    } else {
      var k := WordLength(a);
      FieldsWordFirst(a, c, b);
      FieldsSplit(a[k..], c, b);
      assert Fields(a) == [a[..k]] + Fields(a[k..]);
    }
  }

  /** The first word of `a` is also the first word of `a`, a space and `b`. */
  lemma FieldsWordFirst(a: string, c: char, b: string)
    requires IsSpace(c) && a != [] && !IsSpace(a[0])
    ensures Fields(a + [c] + b) == [a[..WordLength(a)]] + Fields(a[WordLength(a)..] + [c] + b)
  {
    var s := a + [c] + b;
    var k := WordLength(a);
    assert s[0] == a[0] && s[..k] == a[..k];
    assert s[k] == if k < |a| then a[k] else c;
    WordLengthUnique(s, k);
    assert s[k..] == a[k..] + [c] + b;
  }

  // ---------------------------------------------------------------------------
  // ProcessComment.

  /** The feed as json.Decoder leaves it: the comments, or why decoding failed. */
  datatype Feed = Undecodable(reason: string) | Decoded(comments: seq<Comment>)

  /** The distinct words of `ws`. */
  function Vocabulary(ws: seq<string>): set<string> {
    set w | w in ws
  }

  function WordsOf(r: seq<WordCount>): set<string> {
    if r == [] then {} else WordsOf(r[..|r| - 1]) + {r[|r| - 1].word}
  }

  lemma {:induction false} WordsOfMembers(r: seq<WordCount>)
    ensures forall w :: w in WordsOf(r) <==> exists i :: 0 <= i < |r| && r[i].word == w
  {
    if r != [] {
      var init := r[..|r| - 1];
      WordsOfMembers(init);
      assert forall i :: 0 <= i < |init| ==> init[i] == r[i];
    }
  }

  lemma {:induction false} WordsOfDistinct(r: seq<WordCount>)
    requires forall i, j :: 0 <= i < j < |r| ==> r[i].word != r[j].word
    ensures |WordsOf(r)| == |r|
  {
    if r != [] {
      var init := r[..|r| - 1];
      assert forall i :: 0 <= i < |init| ==> init[i] == r[i];
      WordsOfDistinct(init);
      WordsOfMembers(init);
      assert r[|r| - 1].word !in WordsOf(init);
    }
  }

  /** A tally has one entry per distinct word. */
  lemma TallyLength(r: seq<WordCount>, ws: seq<string>)
    requires IsTally(r, ws)
    ensures |r| == |Vocabulary(ws)|
  {
    WordsOfMembers(r);
    WordsOfDistinct(r);
    forall w | w in Vocabulary(ws)
      ensures w in WordsOf(r)
    {
      var e := WordCount(w, Occurrences(ws, w));
      assert e in r;
      var k :| 0 <= k < |r| && r[k] == e;
    }
    assert WordsOf(r) == Vocabulary(ws);
  }

  /** What ProcessComment returns: distinct words with their counts, ascending by
      count, and no word left out occurs less often than one kept. */
  predicate LeastFrequent(p: seq<WordCount>, ws: seq<string>) {
    && (forall i :: 0 <= i < |p| ==> p[i].word in ws && p[i].count == Occurrences(ws, p[i].word))
    && (forall i, j :: 0 <= i < j < |p| ==> p[i].word != p[j].word)
    && SortedByCount(p)
    && (forall w, i :: w in ws && WordCount(w, Occurrences(ws, w)) !in p && 0 <= i < |p| ==>
          p[i].count <= Occurrences(ws, w))
  }

  lemma PrefixLeastFrequent(r: seq<WordCount>, ws: seq<string>, n: int)
    requires IsTally(r, ws) && SortedByCount(r) && 0 <= n <= |r|
    ensures LeastFrequent(r[..n], ws)
  {
    var p := r[..n];
    assert forall i :: 0 <= i < n ==> p[i] == r[i];
    forall w, i | w in ws && WordCount(w, Occurrences(ws, w)) !in p && 0 <= i < |p|
      ensures p[i].count <= Occurrences(ws, w)
    {
      LeftOutNotBelow(r, n, WordCount(w, Occurrences(ws, w)), i);
    }
  }

  /** An entry of a sorted slice that is not among its first n counts at least as
      much as each of those. */
  lemma LeftOutNotBelow(r: seq<WordCount>, n: int, e: WordCount, i: int)
    requires SortedByCount(r) && 0 <= i < n <= |r| && e in r && e !in r[..n]
    ensures r[i].count <= e.count
  {
    var k :| 0 <= k < |r| && r[k] == e;
    assert forall t :: 0 <= t < n ==> r[..n][t] == r[t] != e;
  }

  /** ProcessComment: the first upperLimit entries of Counter's result, or the
      decoder's error and no counts. Slicing past the result's length panics in Go,
      hence the bound. */
  method ProcessComment(feed: Feed, upperLimit: int) returns (r: Result<seq<WordCount>, string>)
    requires feed.Decoded? ==> 0 <= upperLimit <= |Vocabulary(Words(feed.comments))|
    ensures feed.Undecodable? ==> r == Failure("unable to decode json: " + feed.reason)
    ensures feed.Decoded? ==> r.Success? && |r.value| == upperLimit
    ensures feed.Decoded? ==> LeastFrequent(r.value, Words(feed.comments))
  {
    match feed
    case Undecodable(reason) =>
      return Failure("unable to decode json: " + reason);
    case Decoded(comments) =>
      var wordCounts := Counter(comments);
      TallyLength(wordCounts, Words(comments));
      PrefixLeastFrequent(wordCounts, Words(comments), upperLimit);
      return Success(wordCounts[..upperLimit]);
  }

  // ---------------------------------------------------------------------------
  // WordCount.String.

  function Spaces(n: nat): (s: string)
    ensures |s| == n && forall i :: 0 <= i < n ==> s[i] == ' '
  {
    if n == 0 then "" else Spaces(n - 1) + " "
  }

  /** fmt's "%3d   %s": the count right-aligned in three columns, three spaces, the
      word. */
  function String(p: WordCount): string {
    var digits := Show(p.count);
    Spaces(if |digits| < 3 then 3 - |digits| else 0) + digits + "   " + p.word
  }

  function TrimLeft(s: string): string {
    if s != [] && s[0] == ' ' then TrimLeft(s[1..]) else s
  }

  lemma {:induction false} TrimSpaces(n: nat, s: string)
    requires s == [] || s[0] != ' '
    ensures TrimLeft(Spaces(n) + s) == s
  {
    if n > 0 {
      assert Spaces(n) + s == " " + (Spaces(n - 1) + s) by {
        assert Spaces(n) == Spaces(n - 1) + " ";
        forall i | 0 <= i < n ensures Spaces(n)[i] == (" " + Spaces(n - 1))[i] {}
        assert Spaces(n) == " " + Spaces(n - 1);
      }
      TrimSpaces(n - 1, s);
    }
  }

  /** The line String prints is at least three columns of count, then three spaces
      and the word; the count column reads back as the count. */
  lemma StringReadsBack(p: WordCount)
    requires MinInt64 <= p.count <= MaxInt64
    ensures var s := String(p);
      var column := |s| - 3 - |p.word|;
      && 3 <= column && s[column..] == "   " + p.word
      && Atoi(TrimLeft(s[..column])) == Parsed(p.count, None)
  {
    var digits := Show(p.count);
    var pad := if |digits| < 3 then 3 - |digits| else 0;
    var s := String(p);
    var column := |s| - 3 - |p.word|;
    assert s == (Spaces(pad) + digits) + ("   " + p.word);
    assert s[..column] == Spaces(pad) + digits;
    assert digits[0] != ' ' by {
      var u := if p.count < 0 then -p.count else p.count;
      if p.count >= 0 {
        assert digits == Fixed(u, Max(0, NumDigits(u)));
      }
    }
    TrimSpaces(pad, digits);
    AtoiShow(p.count);
  }
}
