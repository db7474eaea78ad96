/**
 The two page kinds, as structure instead of HTML text: a system page (file
 name, title, count line, A-Z navigation bar, grouped listing) and the index
 page (one link and count per system).
 */
module Pages {
  import opened Wrappers
  import opened Ascii
  import opened Seqs
  import opened Sorting
  import opened Slugs
  import Scanner
  import opened Grouping

  /** The letters of the navigation bar, each linking to the header anchor of
      the same name. */
  const Alphabet: string := "ABCDEFGHIJKLMNOPQRSTUVWXYZ"

  lemma AlphabetInOrder()
    ensures |Alphabet| == 26
    ensures forall i :: 0 <= i < 26 ==> Alphabet[i] as int == 'A' as int + i
  {
    assert Alphabet == seq(26, i requires 0 <= i < 26 => ('A' as int + i) as char);
  }

  /** The navigation bar: always the 26 capitals in order, whatever the games. */
  function NavBar(): (nav: seq<char>)
    ensures |nav| == 26
    ensures forall i :: 0 <= i < |nav| ==> nav[i] as int == 'A' as int + i
    ensures forall c :: c in nav <==> IsUpper(c)
  {
    AlphabetInOrder();
    var nav := Alphabet;
    assert forall c :: IsUpper(c) ==> nav[c as int - 'A' as int] == c;
    nav
  }

  datatype Page = Page(
    fileName: string,
    title: string,
    dataSystem: string,
    count: nat,
    nav: seq<char>,
    listing: seq<Item>)

  /** For an empty name `game[0]` is `undefined`, so calling `toUpperCase` on it
      throws a TypeError and no page is written. */
  datatype PageError = EmptyGameName(index: nat)

  /** The first game name without a first character. */
  function FirstEmpty(games: seq<string>): (i: nat)
    requires !AllNonEmpty(games)
    ensures i < |games| && games[i] == []
    ensures forall j :: 0 <= j < i ==> |games[j]| > 0
  {
    if games[0] == [] then 0
    else
      assert !AllNonEmpty(games[1..]) by {
        var k :| 0 <= k < |games| && |games[k]| == 0;
        assert games[1..][k - 1] == games[k];
      }
      1 + FirstEmpty(games[1..])
  }

  /** The system page for `system` listing `games`. */
  function SystemPage(system: string, games: seq<string>): (r: Result<Page, PageError>)
    ensures r.Success? <==> AllNonEmpty(games)
    ensures r.Success? ==>
              && r.value.fileName == FileName(system)
              && r.value.title == system + " ROMs"
              && r.value.dataSystem == LowerAll(system)
              && r.value.count == |games|
              && r.value.nav == NavBar()
              && GameNames(r.value.listing) == games
              && WellGrouped(r.value.listing)
    ensures r.Failure? ==>
              && r.error.index < |games| && games[r.error.index] == []
              && forall j :: 0 <= j < r.error.index ==> |games[j]| > 0
  {
    if !AllNonEmpty(games) then Failure(EmptyGameName(FirstEmpty(games)))
    else
      GroupGames(games);
      GroupWellGrouped(games);
      Success(Page(FileName(system), system + " ROMs", LowerAll(system), |games|, NavBar(), Group(games)))
  }

  /** A group header is reachable from the navigation bar iff its letter is an
      ASCII capital; a game starting with a digit or symbol gets a group that
      only a direct anchor reaches. */
  lemma HeaderReachableFromNav(games: seq<string>, k: int)
    requires AllNonEmpty(games)
    requires 0 <= k < |Group(games)| && Group(games)[k].Header?
    ensures GameAt(Group(games), k + 1) && Key(Group(games)[k + 1].name) == Group(games)[k].letter
    ensures Group(games)[k].letter in NavBar() <==> IsUpper(Group(games)[k].letter)
    ensures Group(games)[k].letter in NavBar() <==> IsLower(Group(games)[k + 1].name[0]) || IsUpper(Group(games)[k + 1].name[0])
  {
    GroupWellGrouped(games);
  }

  /** One line of the index page. */
  datatype IndexEntry = IndexEntry(href: string, name: string, count: nat)

  /** The index page: one link per system, in the given order. Every listed
      system must be in the catalog, as the source reads its length. */
  function IndexPage(systems: seq<string>, games: map<string, seq<string>>): (r: seq<IndexEntry>)
    requires forall s :: s in systems ==> s in games
    ensures |r| == |systems|
    ensures forall i :: 0 <= i < |r| ==> r[i].name == systems[i] && r[i].count == |games[systems[i]]|
    ensures forall i :: 0 <= i < |r| ==> r[i].href == FileName(systems[i])
  {
    seq(|systems|, i requires 0 <= i < |systems| => IndexEntry(FileName(systems[i]), systems[i], |games[systems[i]]|))
  }

  /** Every index link points at the file its system page is written to, and
      shows that page's count. */
  lemma IndexLinksMatchPages(systems: seq<string>, games: map<string, seq<string>>, i: int)
    requires forall s :: s in systems ==> s in games
    requires 0 <= i < |systems|
    requires SystemPage(systems[i], games[systems[i]]).Success?
    ensures IndexPage(systems, games)[i].href == SystemPage(systems[i], games[systems[i]]).value.fileName
    ensures IndexPage(systems, games)[i].count == SystemPage(systems[i], games[systems[i]]).value.count
  {
    var e := IndexPage(systems, games)[i];
    var p := SystemPage(systems[i], games[systems[i]]).value;
    assert e.href == FileName(systems[i]);
  }

  /** For a scanned catalog: every system page can be built, its listing is the
      system's sorted games with well-placed headers, and the index has exactly
      one entry per system, linking to that page and showing its count. */
  lemma ScannedCatalogRenders(root: seq<Scanner.RootEntry>, le: (string, string) -> bool)
    requires TotalPreorder(le)
    requires forall i :: 0 <= i < |root| ==> Scanner.NamesNonEmpty(root[i].listing)
    ensures var c := Scanner.Scan(root, le);
            && |IndexPage(c.systems, c.games)| == |c.systems|
            && forall i :: 0 <= i < |c.systems| ==>
                 && SystemPage(c.systems[i], c.games[c.systems[i]]).Success?
                 && SortedBy(GameNames(SystemPage(c.systems[i], c.games[c.systems[i]]).value.listing), le)
                 && IndexPage(c.systems, c.games)[i].href == SystemPage(c.systems[i], c.games[c.systems[i]]).value.fileName
                 && IndexPage(c.systems, c.games)[i].count == |c.games[c.systems[i]]|
  {
    var c := Scanner.Scan(root, le);
    forall i | 0 <= i < |c.systems|
      ensures SystemPage(c.systems[i], c.games[c.systems[i]]).Success?
      ensures SortedBy(GameNames(SystemPage(c.systems[i], c.games[c.systems[i]]).value.listing), le)
    {
      Scanner.ScanWellFormed(root, le, c.systems[i]);
    }
    forall i | 0 <= i < |c.systems|
      ensures IndexPage(c.systems, c.games)[i].href == SystemPage(c.systems[i], c.games[c.systems[i]]).value.fileName
    {
      IndexLinksMatchPages(c.systems, c.games, i);
    }
  }

  /** "7th Guest" opens a group headed "7", which the navigation bar does not
      link to. */
  lemma DigitGroupOffNav()
    ensures Group(["7th Guest"]) == [Header('7'), Game("7th Guest")]
    ensures '7' !in NavBar()
  {
    var games := ["7th Guest"];
    GroupUnfold(games);
    assert games[..0] == [];
  }
}
