/**
 The letter-grouped listing of a system page: walking the sorted game names, a
 header is emitted whenever the upper-cased first character changes, then the
 game itself. The listing is a sequence of items instead of HTML text.
 */
module Grouping {
  import opened Ascii
  import opened Seqs
  import opened Sorting

  datatype Item = Header(letter: char) | Game(name: string)

  /** The group letter of a game: `game[0].toUpperCase()`. */
  function Key(game: string): char
    requires |game| > 0
  {
    ToUpper(game[0])
  }

  function Keys(games: seq<string>): (ks: seq<char>)
    requires AllNonEmpty(games)
    ensures |ks| == |games|
    ensures forall i :: 0 <= i < |games| ==> ks[i] == Key(games[i])
  {
    seq(|games|, i requires 0 <= i < |games| => Key(games[i]))
  }

  /** The game entries of a listing, in order. */
  function GameNames(items: seq<Item>): seq<string> {
    if items == [] then []
    else
      var n := |items| - 1;
      GameNames(items[..n]) + (if items[n].Game? then [items[n].name] else [])
  }

  /** The header letters of a listing, in order. */
  function Headers(items: seq<Item>): seq<char> {
    if items == [] then []
    else
      var n := |items| - 1;
      Headers(items[..n]) + (if items[n].Header? then [items[n].letter] else [])
  }

  lemma {:induction false} NamesConcat(a: seq<Item>, b: seq<Item>)
    ensures GameNames(a + b) == GameNames(a) + GameNames(b)
    decreases |b|
  {
    if b == [] {
      assert a + b == a;
    } else {
      var n := |b| - 1;
      assert (a + b)[..|a| + n] == a + b[..n];
      NamesConcat(a, b[..n]);
    }
  }

  lemma {:induction false} HeadersConcat(a: seq<Item>, b: seq<Item>)
    ensures Headers(a + b) == Headers(a) + Headers(b)
    decreases |b|
  {
    if b == [] {
      assert a + b == a;
    } else {
      var n := |b| - 1;
      assert (a + b)[..|a| + n] == a + b[..n];
      HeadersConcat(a, b[..n]);
    }
  }

  lemma GameNamesConcat(a: seq<Item>, b: seq<Item>)
    ensures GameNames(a + b) == GameNames(a) + GameNames(b)
    ensures Headers(a + b) == Headers(a) + Headers(b)
  {
    NamesConcat(a, b);
    HeadersConcat(a, b);
  }

  /** The first character of each maximal run of equal letters. */
  function Compress(ks: seq<char>): (r: seq<char>)
    ensures |r| <= |ks|
    ensures |ks| > 0 ==> |r| > 0 && r[|r| - 1] == ks[|ks| - 1]
  {
    if ks == [] then []
    else
      var n := |ks| - 1;
      var init := ks[..n];
      if n > 0 && ks[n] == ks[n - 1] then Compress(init)
      else Compress(init) + [ks[n]]
  }

  lemma CompressUnfold(ks: seq<char>)
    requires |ks| > 0
    ensures var n := |ks| - 1;
            Compress(ks) == Compress(ks[..n]) + (if n > 0 && ks[n] == ks[n - 1] then [] else [ks[n]])
  {
  }

  /** Compressing keeps exactly the letters that occur. */
  lemma {:induction false} CompressMembers(ks: seq<char>, c: char)
    ensures c in Compress(ks) <==> c in ks
    decreases |ks|
  {
    if ks != [] {
      var n := |ks| - 1;
      CompressUnfold(ks);
      CompressMembers(ks[..n], c);
      SplitLast(ks);
      assert c in ks <==> c in ks[..n] || c == ks[n];
    }
  }

  /** No letter follows itself after compressing. */
  lemma {:induction false} CompressNoRepeat(ks: seq<char>)
    ensures forall i :: 0 <= i < |Compress(ks)| - 1 ==> Compress(ks)[i] != Compress(ks)[i + 1]
    decreases |ks|
  {
    if ks != [] {
      var n := |ks| - 1;
      CompressUnfold(ks);
      CompressNoRepeat(ks[..n]);
      var c := Compress(ks[..n]);
      if !(n > 0 && ks[n] == ks[n - 1]) {
        assert forall i :: 0 <= i < |c| ==> (c + [ks[n]])[i] == c[i];
        assert n > 0 ==> c[|c| - 1] == ks[n - 1];
      }
    }
  }

  /** Whether game `n` opens a new group. */
  predicate OpensGroup(games: seq<string>, n: int)
    requires AllNonEmpty(games) && 0 <= n < |games|
  {
    n == 0 || Key(games[n]) != Key(games[n - 1])
  }

  /** The items emitted for game `n`. */
  function Block(games: seq<string>, n: int): (b: seq<Item>)
    requires AllNonEmpty(games) && 0 <= n < |games|
  {
    (if OpensGroup(games, n) then [Header(Key(games[n]))] else []) + [Game(games[n])]
  }

  /** The grouped listing, defined game by game: game `n` is preceded by a
      header exactly when it opens a new group. */
  function Group(games: seq<string>): seq<Item>
    requires AllNonEmpty(games)
  {
    if games == [] then []
    else
      var n := |games| - 1;
      Group(games[..n]) + Block(games, n)
  }

  lemma SingleItem(x: Item)
    ensures GameNames([x]) == if x.Game? then [x.name] else []
    ensures Headers([x]) == if x.Header? then [x.letter] else []
  {
    assert [x][..0] == [];
  }

  lemma BlockContents(games: seq<string>, n: int)
    requires AllNonEmpty(games) && 0 <= n < |games|
    ensures GameNames(Block(games, n)) == [games[n]]
    ensures Headers(Block(games, n)) == if OpensGroup(games, n) then [Key(games[n])] else []
  {
    var g := Game(games[n]);
    SingleItem(g);
    if OpensGroup(games, n) {
      var h := Header(Key(games[n]));
      SingleItem(h);
      GameNamesConcat([h], [g]);
    } else {
      assert Block(games, n) == [g];
    }
  }


  lemma PrefixNonEmpty(games: seq<string>, n: int)
    requires AllNonEmpty(games) && 0 <= n <= |games|
    ensures AllNonEmpty(games[..n])
  {
    assert forall i :: 0 <= i < n ==> games[..n][i] == games[i];
  }

  lemma GroupUnfold(games: seq<string>)
    requires AllNonEmpty(games) && |games| > 0
    ensures Group(games) == Group(games[..|games| - 1]) + Block(games, |games| - 1)
  {
  }

  /** Grouping keeps every game, once, in input order: the page lists exactly
      `games`, so it shows `games.length` entries. */
  lemma {:induction false} GroupGames(games: seq<string>)
    requires AllNonEmpty(games)
    ensures GameNames(Group(games)) == games
    ensures |GameNames(Group(games))| == |games|
    decreases |games|
  {
    if games != [] {
      var n := |games| - 1;
      PrefixNonEmpty(games, n);
      GroupUnfold(games);
      GroupGames(games[..n]);
      GameNamesConcat(Group(games[..n]), Block(games, n));
      BlockContents(games, n);
      SplitLast(games);
    }
  }

  lemma KeysPrefix(games: seq<string>, n: int)
    requires AllNonEmpty(games) && 0 <= n <= |games|
    ensures AllNonEmpty(games[..n])
    ensures Keys(games)[..n] == Keys(games[..n])
  {
    PrefixNonEmpty(games, n);
  }

  /** The headers are the first letters of the maximal runs of equal letters. */
  lemma {:induction false} GroupHeaders(games: seq<string>)
    requires AllNonEmpty(games)
    ensures Headers(Group(games)) == Compress(Keys(games))
    decreases |games|
  {
    if games != [] {
      var n := |games| - 1;
      PrefixNonEmpty(games, n);
      GroupUnfold(games);
      GroupHeaders(games[..n]);
      GameNamesConcat(Group(games[..n]), Block(games, n));
      BlockContents(games, n);
      var ks := Keys(games);
      KeysPrefix(games, n);
      CompressUnfold(ks);
      assert OpensGroup(games, n) <==> !(n > 0 && ks[n] == ks[n - 1]);
    }
  }

  /** The source's loop: `currentLetter` starts as the empty string, so the first
      game always opens a group. */
  method GroupLoop(games: seq<string>) returns (items: seq<Item>)
    requires AllNonEmpty(games)
    ensures items == Group(games)
  {
    items := [];
    var currentLetter: string := "";
    var i := 0;
    while i < |games|
      invariant 0 <= i <= |games|
      invariant items == Group(games[..i])
      invariant currentLetter == if i == 0 then "" else [Key(games[i - 1])]
    {
      var game := games[i];
      var firstLetter := [ToUpper(game[0])];
      if firstLetter != currentLetter {
        currentLetter := firstLetter;
        items := items + [Header(firstLetter[0])];
      }
      items := items + [Game(game)];
      assert games[..i + 1][..i] == games[..i];
      i := i + 1;
    }
    assert games[..i] == games;
  }

  /** Equal letters are never separated by a different one. */
  predicate Contiguous(ks: seq<char>) {
    forall i, m, j :: 0 <= i < m < j < |ks| && ks[i] == ks[j] ==> ks[m] == ks[i]
  }

  predicate NonDecreasing(ks: seq<char>) {
    forall i, j :: 0 <= i < j < |ks| ==> ks[i] <= ks[j]
  }

  predicate StrictlyIncreasing(ks: seq<char>) {
    forall i, j :: 0 <= i < j < |ks| ==> ks[i] < ks[j]
  }

  /** When equal letters are contiguous, each letter opens exactly one run. */
  lemma {:induction false} CompressDistinct(ks: seq<char>)
    requires Contiguous(ks)
    ensures Distinct(Compress(ks))
    decreases |ks|
  {
    if ks != [] {
      var n := |ks| - 1;
      var p := ks[..n];
      assert Contiguous(p);
      CompressDistinct(p);
      CompressUnfold(ks);
      if !(n > 0 && ks[n] == ks[n - 1]) {
        assert forall j :: 0 <= j < n - 1 && ks[j] == ks[n] ==> ks[n - 1] == ks[n];
        assert ks[n] !in p;
        var c := Compress(p);
        CompressMembers(p, ks[n]);
        assert ks[n] !in c;
        assert forall i :: 0 <= i < |c| ==> (c + [ks[n]])[i] == c[i];
      }
    }
  }

  lemma AppendIncreasing(c: seq<char>, x: char)
    requires StrictlyIncreasing(c)
    requires forall i :: 0 <= i < |c| ==> c[i] < x
    ensures StrictlyIncreasing(c + [x])
  {
  }

  /** Non-decreasing letters give strictly increasing headers. */
  lemma {:induction false} CompressIncreasing(ks: seq<char>)
    requires NonDecreasing(ks)
    ensures StrictlyIncreasing(Compress(ks))
    decreases |ks|
  {
    if ks != [] {
      var n := |ks| - 1;
      var p := ks[..n];
      assert NonDecreasing(p);
      CompressIncreasing(p);
      CompressUnfold(ks);
      if !(n > 0 && ks[n] == ks[n - 1]) {
        var c := Compress(p);
        forall i | 0 <= i < |c| ensures c[i] < ks[n] {
          CompressMembers(p, c[i]);
          assert c[i] in p;
          var j :| 0 <= j < n && p[j] == c[i];
          assert ks[j] <= ks[n - 1];
          assert ks[n - 1] < ks[n];
        }
        AppendIncreasing(c, ks[n]);
      }
    }
  }

  lemma NonDecreasingIsContiguous(ks: seq<char>)
    requires NonDecreasing(ks)
    ensures Contiguous(ks)
  {
  }

  function LetterSet(ks: seq<char>): set<char> {
    set i | 0 <= i < |ks| :: ks[i]
  }

  /** A sequence of distinct letters has as many elements as its set. */
  lemma {:induction false} DistinctSize(ks: seq<char>)
    requires Distinct(ks)
    ensures |LetterSet(ks)| == |ks|
    decreases |ks|
  {
    if ks != [] {
      var n := |ks| - 1;
      var p := ks[..n];
      assert Distinct(p);
      DistinctSize(p);
      assert LetterSet(ks) == LetterSet(p) + {ks[n]};
      assert ks[n] !in LetterSet(p);
    }
  }

  /** With contiguous letters (as sorting produces) the headers are pairwise
      distinct, name every letter that occurs, and there are as many headers as
      distinct letters. */
  lemma HeaderCount(games: seq<string>)
    requires AllNonEmpty(games)
    requires Contiguous(Keys(games))
    ensures Distinct(Headers(Group(games)))
    ensures LetterSet(Headers(Group(games))) == LetterSet(Keys(games))
    ensures |Headers(Group(games))| == |LetterSet(Keys(games))|
  {
    var ks := Keys(games);
    GroupHeaders(games);
    CompressDistinct(ks);
    var h := Compress(ks);
    assert LetterSet(h) == LetterSet(ks) by {
      forall c ensures c in LetterSet(h) <==> c in LetterSet(ks) {
        CompressMembers(ks, c);
        assert c in LetterSet(h) <==> c in h;
        assert c in LetterSet(ks) <==> c in ks;
      }
    }
    DistinctSize(h);
  }

  /** A comparator that orders by group letter first. */
  ghost predicate OrdersByKey(le: (string, string) -> bool) {
    forall a, b :: |a| > 0 && |b| > 0 && le(a, b) ==> Key(a) <= Key(b)
  }

  lemma SortedKeysNonDecreasing(games: seq<string>, le: (string, string) -> bool)
    requires AllNonEmpty(games)
    requires SortedBy(games, le) && OrdersByKey(le)
    ensures NonDecreasing(Keys(games))
  {
    var ks := Keys(games);
    forall i, j | 0 <= i < j < |ks| ensures ks[i] <= ks[j] {
      assert le(games[i], games[j]);
    }
  }

  /** Games sorted by such a comparator get their headers in increasing order,
      one per letter. */
  lemma SortedHeadersIncrease(games: seq<string>, le: (string, string) -> bool)
    requires AllNonEmpty(games)
    requires SortedBy(games, le) && OrdersByKey(le)
    ensures StrictlyIncreasing(Headers(Group(games)))
    ensures Contiguous(Keys(games))
  {
    SortedKeysNonDecreasing(games, le);
    NonDecreasingIsContiguous(Keys(games));
    GroupHeaders(games);
    CompressIncreasing(Keys(games));
  }

  /** Two adjacent headers of a listing never name the same letter. */
  lemma HeadersNoAdjacentRepeat(games: seq<string>)
    requires AllNonEmpty(games)
    ensures forall i :: 0 <= i < |Headers(Group(games))| - 1 ==>
              Headers(Group(games))[i] != Headers(Group(games))[i + 1]
  {
    GroupHeaders(games);
    CompressNoRepeat(Keys(games));
  }

  predicate GameAt(items: seq<Item>, k: int) {
    0 <= k < |items| && items[k].Game? && |items[k].name| > 0
  }

  /** The shape of a grouped listing, item by item: it opens with a header;
      every header is followed by a game of its letter; a header after a game
      changes the letter; two adjacent games share their letter. */
  predicate WellGrouped(items: seq<Item>) {
    && (forall k :: 0 <= k < |items| && items[k].Game? ==> |items[k].name| > 0)
    && (|items| > 0 ==> items[0].Header?)
    && (forall k :: 0 <= k < |items| && items[k].Header? ==>
          GameAt(items, k + 1) && Key(items[k + 1].name) == items[k].letter)
    && (forall k :: 0 < k < |items| && items[k].Header? ==>
          GameAt(items, k - 1) && Key(items[k - 1].name) != items[k].letter)
    && (forall k :: 0 < k < |items| && items[k].Game? && items[k - 1].Game? ==>
          GameAt(items, k) && GameAt(items, k - 1) && Key(items[k - 1].name) == Key(items[k].name))
  }

  lemma GroupLast(games: seq<string>)
    requires AllNonEmpty(games) && |games| > 0
    ensures |Group(games)| > 0
    ensures Group(games)[|Group(games)| - 1] == Game(games[|games| - 1])
  {
    GroupUnfold(games);
  }

  lemma GroupEmpty(games: seq<string>)
    requires AllNonEmpty(games)
    ensures Group(games) == [] <==> games == []
  {
    if games != [] {
      GroupLast(games);
    }
  }

  /** The items that follow listing `g` for one more game `x`. */
  function NextBlock(g: seq<Item>, x: string): seq<Item>
    requires |x| > 0
    requires g == [] || GameAt(g, |g| - 1)
  {
    (if g == [] || Key(g[|g| - 1].name) != Key(x) then [Header(Key(x))] else []) + [Game(x)]
  }

  /** Appending a game that opens a new group keeps the grouped shape. */
  lemma ExtendWithHeader(g: seq<Item>, x: string)
    requires WellGrouped(g)
    requires g == [] || GameAt(g, |g| - 1)
    requires |x| > 0
    requires g == [] || Key(g[|g| - 1].name) != Key(x)
    ensures WellGrouped(g + [Header(Key(x)), Game(x)])
  {
    var items := g + [Header(Key(x)), Game(x)];
    var n := |g|;
    assert forall k :: 0 <= k < n ==> items[k] == g[k];
    assert items[n] == Header(Key(x)) && items[n + 1] == Game(x);
    forall k | 0 <= k < |items| && items[k].Header?
      ensures GameAt(items, k + 1) && Key(items[k + 1].name) == items[k].letter
    {
      if k < n {
        assert g[k].Header?;
      }
    }
    forall k | 0 < k < |items| && items[k].Header?
      ensures GameAt(items, k - 1) && Key(items[k - 1].name) != items[k].letter
    {
      if k < n {
        assert g[k].Header?;
      }
    }
    forall k | 0 < k < |items| && items[k].Game? && items[k - 1].Game?
      ensures GameAt(items, k) && GameAt(items, k - 1) && Key(items[k - 1].name) == Key(items[k].name)
    {
      if k < n {
        assert g[k].Game? && g[k - 1].Game?;
      }
    }
  }

  /** Appending a game of the current group keeps the grouped shape. */
  lemma ExtendWithoutHeader(g: seq<Item>, x: string)
    requires WellGrouped(g)
    requires g != [] && GameAt(g, |g| - 1)
    requires |x| > 0
    requires Key(g[|g| - 1].name) == Key(x)
    ensures WellGrouped(g + [Game(x)])
  {
    var items := g + [Game(x)];
    var n := |g|;
    assert forall k :: 0 <= k < n ==> items[k] == g[k];
    assert items[n] == Game(x);
    forall k | 0 <= k < |items| && items[k].Header?
      ensures GameAt(items, k + 1) && Key(items[k + 1].name) == items[k].letter
    {
      assert g[k].Header?;
    }
    forall k | 0 < k < |items| && items[k].Header?
      ensures GameAt(items, k - 1) && Key(items[k - 1].name) != items[k].letter
    {
      assert g[k].Header?;
    }
    forall k | 0 < k < |items| && items[k].Game? && items[k - 1].Game?
      ensures GameAt(items, k) && GameAt(items, k - 1) && Key(items[k - 1].name) == Key(items[k].name)
    {
      if k < n {
        assert g[k].Game? && g[k - 1].Game?;
      }
    }
  }

  /** Appending the block of one more game keeps the grouped shape. */
  lemma WellGroupedExtend(g: seq<Item>, x: string)
    requires WellGrouped(g)
    requires g == [] || GameAt(g, |g| - 1)
    requires |x| > 0
    ensures WellGrouped(g + NextBlock(g, x))
  {
    if g == [] || Key(g[|g| - 1].name) != Key(x) {
      assert NextBlock(g, x) == [Header(Key(x)), Game(x)];
      ExtendWithHeader(g, x);
    } else {
      assert NextBlock(g, x) == [Game(x)];
      ExtendWithoutHeader(g, x);
    }
  }

  /** The grouped listing has the grouped shape. */
  lemma {:induction false} GroupWellGrouped(games: seq<string>)
    requires AllNonEmpty(games)
    ensures WellGrouped(Group(games))
    decreases |games|
  {
    if games != [] {
      var n := |games| - 1;
      var init := games[..n];
      var x := games[n];
      PrefixNonEmpty(games, n);
      GroupWellGrouped(init);
      GroupEmpty(init);
      if n > 0 {
        GroupLast(init);
      }
      GroupAppend(init, x);
      SplitLast(games);
      WellGroupedExtend(Group(init), x);
    }
  }

  /** Cutting a grouped listing after a game leaves a grouped listing. */
  lemma WellGroupedPrefix(items: seq<Item>, m: int)
    requires WellGrouped(items)
    requires 0 <= m <= |items|
    requires m == 0 || items[m - 1].Game?
    ensures WellGrouped(items[..m])
  {
    var p := items[..m];
    forall k | 0 <= k < |p| && p[k].Game? ensures |p[k].name| > 0 {
      assert p[k] == items[k];
    }
    forall k | 0 <= k < |p| && p[k].Header?
      ensures GameAt(p, k + 1) && Key(p[k + 1].name) == p[k].letter
    {
      assert p[k] == items[k];
      assert k + 1 < m;
      assert p[k + 1] == items[k + 1];
    }
    forall k | 0 < k < |p| && p[k].Header?
      ensures GameAt(p, k - 1) && Key(p[k - 1].name) != p[k].letter
    {
      assert p[k] == items[k] && p[k - 1] == items[k - 1];
    }
    forall k | 0 < k < |p| && p[k].Game? && p[k - 1].Game?
      ensures GameAt(p, k) && GameAt(p, k - 1) && Key(p[k - 1].name) == Key(p[k].name)
    {
      assert p[k] == items[k] && p[k - 1] == items[k - 1];
    }
    assert |p| > 0 ==> p[0] == items[0];
  }

  lemma GameNamesUnfold(items: seq<Item>)
    requires |items| > 0
    ensures var m := |items| - 1;
            GameNames(items) == GameNames(items[..m]) + (if items[m].Game? then [items[m].name] else [])
  {
  }

  lemma AppendNonEmpty(init: seq<string>, x: string)
    requires AllNonEmpty(init) && |x| > 0
    ensures AllNonEmpty(init + [x])
  {
  }

  /** Grouping one more game appends its block. */
  lemma GroupAppend(init: seq<string>, x: string)
    requires AllNonEmpty(init) && |x| > 0
    ensures AllNonEmpty(init + [x])
    ensures Group(init + [x]) ==
            Group(init) + ((if init == [] || Key(x) != Key(init[|init| - 1]) then [Header(Key(x))] else []) + [Game(x)])
  {
    AppendNonEmpty(init, x);
    var games := init + [x];
    var n := |init|;
    assert games[..n] == init;
    assert games[n] == x;
    assert n > 0 ==> games[n - 1] == init[n - 1];
    GroupUnfold(games);
    assert Group(games) == Group(init) + Block(games, n);
    assert Block(games, n) ==
           (if init == [] || Key(x) != Key(init[n - 1]) then [Header(Key(x))] else []) + [Game(x)];
  }


  lemma NamesBeforeHeader(items: seq<Item>)
    requires |items| > 1 && items[|items| - 1].Game? && items[|items| - 2].Header?
    ensures GameNames(items) == GameNames(items[..|items| - 2]) + [items[|items| - 1].name]
  {
    var m := |items| - 1;
    var q := items[..m - 1];
    GameNamesUnfold(items);
    assert items[..m] == q + [items[m - 1]];
    NamesConcat(q, [items[m - 1]]);
    SingleItem(items[m - 1]);
  }

  /** Inductive step of `GroupUnique` when the last game follows a header. */
  lemma UniqueAfterHeader(items: seq<Item>)
    requires |items| > 1 && GameAt(items, |items| - 1) && items[|items| - 2].Header?
    requires items[|items| - 2].letter == Key(items[|items| - 1].name)
    requires |items| > 2 ==> GameAt(items, |items| - 3) &&
                             Key(items[|items| - 3].name) != items[|items| - 2].letter
    requires AllNonEmpty(GameNames(items[..|items| - 2]))
    requires Group(GameNames(items[..|items| - 2])) == items[..|items| - 2]
    ensures AllNonEmpty(GameNames(items))
    ensures Group(GameNames(items)) == items
  {
    var m := |items| - 1;
    var x := items[m].name;
    var q := items[..m - 1];
    var init := GameNames(q);
    NamesBeforeHeader(items);
    assert init != [] ==> Key(x) != Key(init[|init| - 1]) by {
      if init != [] {
        GroupEmpty(init);
        GroupLast(init);
        assert items[m - 2] == q[|q| - 1];
      }
    }
    GroupAppend(init, x);
    assert items[m - 1] == Header(Key(x));
    assert items[m] == Game(x);
    assert Group(init + [x]) == q + ([items[m - 1]] + [items[m]]);
    SplitLastTwo(items);
  }

  /** Inductive step of `GroupUnique` when the last two items are games. */
  lemma UniqueAfterGame(items: seq<Item>)
    requires |items| > 1 && GameAt(items, |items| - 1) && GameAt(items, |items| - 2)
    requires Key(items[|items| - 2].name) == Key(items[|items| - 1].name)
    requires AllNonEmpty(GameNames(items[..|items| - 1]))
    requires Group(GameNames(items[..|items| - 1])) == items[..|items| - 1]
    ensures AllNonEmpty(GameNames(items))
    ensures Group(GameNames(items)) == items
  {
    var m := |items| - 1;
    var x := items[m].name;
    var p := items[..m];
    var init := GameNames(p);
    assert GameNames(items) == init + [x] by {
      GameNamesUnfold(items);
    }
    assert init != [] && Key(x) == Key(init[|init| - 1]) by {
      GroupEmpty(init);
      GroupLast(init);
    }
    GroupAppend(init, x);
    SplitLast(items);
  }

  /** A grouped listing is the grouping of its own games: no other arrangement
      of headers around a game list has the grouped shape. */
  lemma {:induction false} GroupUnique(items: seq<Item>)
    requires WellGrouped(items)
    ensures AllNonEmpty(GameNames(items))
    ensures Group(GameNames(items)) == items
    decreases |items|
  {
    if items != [] {
      var m := |items| - 1;
      assert GameAt(items, m);
      if m > 0 && items[m - 1].Header? {
        assert m > 1 ==> GameAt(items, m - 2);
        WellGroupedPrefix(items, m - 1);
        GroupUnique(items[..m - 1]);
        UniqueAfterHeader(items);
      } else if m > 0 {
        WellGroupedPrefix(items, m);
        GroupUnique(items[..m]);
        assert GameAt(items, m - 1);
        UniqueAfterGame(items);
      }
    }
  }

  /** Without contiguous letters a letter can head two groups: a locale-aware
      comparator sorts "Écho" between "Eagle" and "Egg". */
  lemma RepeatedHeaderWithoutContiguity()
    ensures Headers(Group(["Eagle", "\U{C9}cho", "Egg"])) == ['E', '\U{C9}', 'E']
  {
    ExampleKeys();
    HeadersOfKeys(["Eagle", "\U{C9}cho", "Egg"], ['E', '\U{C9}', 'E']);
  }

  /** Any games whose initials are E, É, E get exactly those three headers. */
  lemma HeadersOfKeys(games: seq<string>, ks: seq<char>)
    requires AllNonEmpty(games) && Keys(games) == ks && ks == ['E', '\U{C9}', 'E']
    ensures Headers(Group(games)) == ks
  {
    GroupHeaders(games);
    var two: seq<char> := ['E', '\U{C9}'];
    var one: seq<char> := ['E'];
    assert ks[..2] == two && two[..1] == one && one[..0] == [];
    CompressUnfold(one);
    CompressUnfold(two);
    CompressUnfold(ks);
  }

  lemma ExampleKeys()
    ensures Keys(["Eagle", "\U{C9}cho", "Egg"]) == ['E', '\U{C9}', 'E']
  {
    var games := ["Eagle", "\U{C9}cho", "Egg"];
    assert games[..2] == ["Eagle", "\U{C9}cho"] && games[..2][..1] == ["Eagle"];
  }
}
