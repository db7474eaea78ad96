/**
 The catalog scanner (`getGamesBySystem`): every directory under the root,
 except one named `__proto__`, is a system; its game names are the non-hidden regular files it lists, with the
 final extension removed, sorted with the supplied comparator. Directory
 listings are values here instead of file-system reads.
 */
module Scanner {
  import opened Seqs
  import opened Sorting

  /** One name returned by listing a system directory; `isFile` is what
      `stat(...).isFile()` reports for it. */
  datatype Entry = Entry(name: string, isFile: bool)

  /** One entry of the root listing, with the listing of its contents (ignored
      unless it is a directory). */
  datatype RootEntry = RootEntry(name: string, isDirectory: bool, listing: seq<Entry>)

  /** System name to sorted game names, with the systems in key order. */
  datatype Catalog = Catalog(systems: seq<string>, games: map<string, seq<string>>)

  predicate IsHidden(name: string) {
    |name| > 0 && name[0] == '.'
  }

  /** The filter on each directory entry: not hidden, and a regular file. */
  predicate IsListed(e: Entry) {
    !IsHidden(e.name) && e.isFile
  }

  /** Index of the last `.` in `s`, or -1 when there is none. */
  function LastDot(s: string): (k: int)
    ensures -1 <= k < |s|
    ensures k >= 0 ==> s[k] == '.'
    ensures forall i :: k < i < |s| ==> s[i] != '.'
  {
    if s == [] then -1
    else if s[|s| - 1] == '.' then |s| - 1
    else LastDot(s[..|s| - 1])
  }

  /** The `name` part of a parsed path: everything before the last `.`, unless
      that dot is the first character or there is none, when the name is kept
      whole. */
  function Stem(name: string): (r: string)
    ensures r <= name
    ensures
      || (r == name && forall i :: 0 < i < |name| ==> name[i] != '.')
      || (0 < |r| < |name| && name[|r|] == '.' && forall i :: |r| < i < |name| ==> name[i] != '.')
  {
    var k := LastDot(name);
    if k <= 0 then name else name[..k]
  }

  /** A name with no dot is its own stem. */
  lemma StemWithoutDot(name: string)
    requires forall i :: 0 <= i < |name| ==> name[i] != '.'
    ensures Stem(name) == name
  {
  }

  /** The stem of `base.ext`, where `ext` holds no dot and `base` is not empty,
      is `base`. */
  lemma StemStripsLastExtension(base: string, ext: string)
    requires |base| > 0
    requires forall i :: 0 <= i < |ext| ==> ext[i] != '.'
    ensures Stem(base + "." + ext) == base
  {
    var name := base + "." + ext;
    var k := LastDot(name);
    assert name[|base|] == '.';
    assert forall i :: |base| < i < |name| ==> name[i] == ext[i - |base| - 1];
    assert k == |base|;
    assert name[..k] == base;
  }

  /** The entries of a listing that survive the filter, in listing order. */
  function Visible(listing: seq<Entry>): (r: seq<Entry>)
    ensures forall i :: 0 <= i < |r| ==> IsListed(r[i])
    ensures forall e :: multiset(r)[e] == if IsListed(e) then multiset(listing)[e] else 0
  {
    if listing == [] then []
    else
      assert listing == [listing[0]] + listing[1..];
      (if IsListed(listing[0]) then [listing[0]] else []) + Visible(listing[1..])
  }

  /** The filter distributes over the listing: the kept entries come in
      listing order. */
  lemma {:induction false} VisibleConcat(a: seq<Entry>, b: seq<Entry>)
    ensures Visible(a + b) == Visible(a) + Visible(b)
    decreases |a|
  {
    if a == [] {
      assert a + b == b;
    } else {
      var t := a[1..];
      var head := if IsListed(a[0]) then [a[0]] else [];
      calc {
        Visible(a + b);
        { assert (a + b)[0] == a[0]; assert (a + b)[1..] == t + b; }
        head + Visible(t + b);
        { VisibleConcat(t, b); }
        head + (Visible(t) + Visible(b));
        { Assoc(head, Visible(t), Visible(b)); }
        (head + Visible(t)) + Visible(b);
        Visible(a) + Visible(b);
      }
    }
  }

  /** One entry survives the filter exactly when it is listed. */
  lemma VisibleSingle(e: Entry)
    ensures Visible([e]) == if IsListed(e) then [e] else []
  {
    assert [e][1..] == [];
  }

  function Stems(es: seq<Entry>): (r: seq<string>)
    ensures |r| == |es|
    ensures forall i :: 0 <= i < |es| ==> r[i] == Stem(es[i].name)
  {
    seq(|es|, i requires 0 <= i < |es| => Stem(es[i].name))
  }

  /** The game names of one system directory. */
  function GamesIn(listing: seq<Entry>, le: (string, string) -> bool): (games: seq<string>)
    requires TotalPreorder(le)
    ensures SortedBy(games, le)
    ensures multiset(games) == multiset(Stems(Visible(listing)))
  {
    Sort(Stems(Visible(listing)), le)
  }

  /** What a directory listing always satisfies: no entry has an empty name. */
  predicate NamesNonEmpty(listing: seq<Entry>) {
    forall i :: 0 <= i < |listing| ==> |listing[i].name| > 0
  }

  /** Stems of real file names are never empty, so every game name has a first
      character. */
  lemma GamesNonEmpty(listing: seq<Entry>, le: (string, string) -> bool)
    requires TotalPreorder(le)
    requires NamesNonEmpty(listing)
    ensures AllNonEmpty(GamesIn(listing, le))
  {
    var vis := Visible(listing);
    var stems := Stems(vis);
    var games := GamesIn(listing, le);
    forall i | 0 <= i < |stems| ensures |stems[i]| > 0 {
      assert vis[i] in multiset(vis);
      assert vis[i] in multiset(listing);
    }
    forall i | 0 <= i < |games| ensures |games[i]| > 0 {
      assert games[i] in multiset(games);
      assert games[i] in multiset(stems);
    }
  }

  lemma GameNameHasListedFile(listing: seq<Entry>, le: (string, string) -> bool, g: string)
    requires TotalPreorder(le)
    requires g in GamesIn(listing, le)
    ensures exists e :: e in listing && IsListed(e) && Stem(e.name) == g
  {
    var vis := Visible(listing);
    var stems := Stems(vis);
    assert g in multiset(GamesIn(listing, le));
    assert g in multiset(stems);
    var i :| 0 <= i < |stems| && stems[i] == g;
    var e := vis[i];
    assert e in multiset(vis);
    assert e in multiset(listing);
  }

  lemma ListedFileHasGameName(listing: seq<Entry>, le: (string, string) -> bool, e: Entry)
    requires TotalPreorder(le)
    requires e in listing && IsListed(e)
    ensures Stem(e.name) in GamesIn(listing, le)
  {
    var vis := Visible(listing);
    var stems := Stems(vis);
    assert e in multiset(listing);
    assert e in multiset(vis);
    var i :| 0 <= i < |vis| && vis[i] == e;
    assert stems[i] == Stem(e.name);
    assert Stem(e.name) in multiset(stems);
    assert Stem(e.name) in multiset(GamesIn(listing, le));
  }

  /** A name is listed for a system iff some regular, non-hidden file of that
      directory has it as its stem: subdirectories and hidden files contribute
      nothing. */
  lemma GameNameIffListedFile(listing: seq<Entry>, le: (string, string) -> bool, g: string)
    requires TotalPreorder(le)
    ensures g in GamesIn(listing, le) <==>
            exists e :: e in listing && IsListed(e) && Stem(e.name) == g
  {
    if g in GamesIn(listing, le) {
      GameNameHasListedFile(listing, le, g);
    }
    if e :| e in listing && IsListed(e) && Stem(e.name) == g {
      ListedFileHasGameName(listing, le, e);
    }
  }

  /** One game per regular, non-hidden file: a directory without such files
      gives none. */
  lemma GameCountIsFileCount(listing: seq<Entry>, le: (string, string) -> bool)
    requires TotalPreorder(le)
    ensures |GamesIn(listing, le)| == |Visible(listing)|
    ensures (forall e :: e in listing ==> !IsListed(e)) ==> GamesIn(listing, le) == []
  {
    var vis := Visible(listing);
    var games := GamesIn(listing, le);
    assert |games| == |multiset(games)|;
    if forall e :: e in listing ==> !IsListed(e) {
      forall e ensures multiset(vis)[e] == 0 {
        if IsListed(e) {
          assert e !in multiset(listing);
        }
      }
      assert multiset(vis) == multiset{};
    }
  }

  /** The names of the directories of the root listing, in listing order. */
  function DirectoryNames(root: seq<RootEntry>): (names: seq<string>)
    ensures |names| <= |root|
    ensures forall n :: n in names <==> exists i :: 0 <= i < |root| && root[i].isDirectory && root[i].name == n
  {
    if root == [] then []
    else
      var init := root[..|root| - 1];
      var e := root[|root| - 1];
      assert forall i :: 0 <= i < |init| ==> init[i] == root[i];
      DirectoryNames(init) + (if e.isDirectory then [e.name] else [])
  }

  /** Filtering distributes over the listing, and one entry contributes its
      name exactly when it is a directory: so the names come in listing order,
      each as often as it is listed. */
  lemma {:induction false} DirectoryNamesConcat(a: seq<RootEntry>, b: seq<RootEntry>)
    ensures DirectoryNames(a + b) == DirectoryNames(a) + DirectoryNames(b)
    ensures |b| == 1 ==> DirectoryNames(b) == if b[0].isDirectory then [b[0].name] else []
    decreases |b|
  {
    if b == [] {
      assert a + b == a;
    } else {
      var init := b[..|b| - 1];
      assert (a + b)[..|a + b| - 1] == a + init;
      assert (a + b)[|a + b| - 1] == b[|b| - 1];
      DirectoryNamesConcat(a, init);
      if |b| == 1 {
        assert init == [];
      }
    }
  }

  /** Assigning `result["__proto__"]` calls the inherited prototype setter
      instead of creating an own property, so this name never becomes a key. */
  const ProtoKey := "__proto__"

  /** The names that become own keys of the catalog object, in order. */
  function OwnKeys(names: seq<string>): (r: seq<string>)
    ensures forall n :: n in r <==> n in names && n != ProtoKey
  {
    if names == [] then []
    else
      var init := names[..|names| - 1];
      var x := names[|names| - 1];
      assert names == init + [x];
      OwnKeys(init) + (if x != ProtoKey then [x] else [])
  }

  /** Dropping `__proto__` distributes over the name list and keeps any other
      single name: so the keys come in the order of the names. */
  lemma {:induction false} OwnKeysConcat(a: seq<string>, b: seq<string>)
    ensures OwnKeys(a + b) == OwnKeys(a) + OwnKeys(b)
    ensures |b| == 1 ==> OwnKeys(b) == if b[0] != ProtoKey then [b[0]] else []
    decreases |b|
  {
    if b == [] {
      assert a + b == a;
    } else {
      var init := b[..|b| - 1];
      assert (a + b)[..|a + b| - 1] == a + init;
      assert (a + b)[|a + b| - 1] == b[|b| - 1];
      OwnKeysConcat(a, init);
      if |b| == 1 {
        assert init == [];
      }
    }
  }

  /** A directory named `__proto__` is listed but gets neither a key nor a page. */
  lemma ProtoDirectoryDropped(le: (string, string) -> bool, listing: seq<Entry>)
    requires TotalPreorder(le)
    ensures DirectoryNames([RootEntry(ProtoKey, true, listing)]) == [ProtoKey]
    ensures Scan([RootEntry(ProtoKey, true, listing)], le).systems == []
  {
    DirectoryNamesConcat([], [RootEntry(ProtoKey, true, listing)]);
    assert [] + [RootEntry(ProtoKey, true, listing)] == [RootEntry(ProtoKey, true, listing)];
  }

  /** No later directory in the root listing has the same name as entry `i`. */
  predicate LastOfItsName(root: seq<RootEntry>, i: int)
    requires 0 <= i < |root|
  {
    forall j :: i < j < |root| && root[j].isDirectory ==> root[j].name != root[i].name
  }

  /** The catalog: one key per directory of the root, mapped to the game names
      of that directory; a repeated name keeps its first position and its last
      listing, as assigning an object property does, and `__proto__` gets no key. */
  function Scan(root: seq<RootEntry>, le: (string, string) -> bool): (c: Catalog)
    requires TotalPreorder(le)
    ensures Distinct(c.systems)
    ensures forall s :: s in c.systems <==> s in c.games
    ensures forall s :: s in c.games <==> s in DirectoryNames(root) && s != ProtoKey
  {
    if root == [] then Catalog([], map[])
    else
      var init := root[..|root| - 1];
      var e := root[|root| - 1];
      var c := Scan(init, le);
      if !e.isDirectory || e.name == ProtoKey then c
      else
        Catalog(if e.name in c.games then c.systems else c.systems + [e.name],
                c.games[e.name := GamesIn(e.listing, le)])
  }

  /** Each system maps to the games of its directory (the last one of that name). */
  lemma {:induction false} ScanGames(root: seq<RootEntry>, le: (string, string) -> bool, i: int)
    requires TotalPreorder(le)
    requires 0 <= i < |root| && root[i].isDirectory && LastOfItsName(root, i)
    requires root[i].name != ProtoKey
    ensures root[i].name in Scan(root, le).games
    ensures Scan(root, le).games[root[i].name] == GamesIn(root[i].listing, le)
    decreases |root|
  {
    var init := root[..|root| - 1];
    var e := root[|root| - 1];
    var n := root[i].name;
    ScanStep(root, le);
    if i < |root| - 1 {
      assert init[i] == root[i];
      assert LastOfItsName(init, i) by {
        forall j | i < j < |init| && init[j].isDirectory ensures init[j].name != init[i].name {
          assert init[j] == root[j];
        }
      }
      ScanGames(init, le, i);
      assert e.isDirectory ==> e.name != n;
    }
  }

  /** One step of the scan: the last root entry either leaves the map alone or
      assigns its name. */
  lemma ScanStep(root: seq<RootEntry>, le: (string, string) -> bool)
    requires TotalPreorder(le) && root != []
    ensures var e := root[|root| - 1];
            var g := Scan(root[..|root| - 1], le).games;
            Scan(root, le).games == if !e.isDirectory || e.name == ProtoKey then g else g[e.name := GamesIn(e.listing, le)]
  {
  }

  /** Every game list of the catalog is sorted and, for real listings, free of
      empty names. */
  lemma {:induction false} ScanWellFormed(root: seq<RootEntry>, le: (string, string) -> bool, s: string)
    requires TotalPreorder(le)
    requires forall i :: 0 <= i < |root| ==> NamesNonEmpty(root[i].listing)
    requires s in DirectoryNames(root) && s != ProtoKey
    ensures s in Scan(root, le).games
    ensures SortedBy(Scan(root, le).games[s], le)
    ensures AllNonEmpty(Scan(root, le).games[s])
    decreases |root|
  {
    var init := root[..|root| - 1];
    var e := root[|root| - 1];
    if e.isDirectory && s == e.name {
      GamesNonEmpty(e.listing, le);
    } else {
      assert forall i :: 0 <= i < |init| ==> init[i] == root[i];
      ScanWellFormed(init, le, s);
    }
  }

  /** With distinct directory names, the systems come in listing order, less
      the one name that cannot be a key. */
  lemma {:induction false} ScanOrder(root: seq<RootEntry>, le: (string, string) -> bool)
    requires TotalPreorder(le)
    requires Distinct(DirectoryNames(root))
    ensures Scan(root, le).systems == OwnKeys(DirectoryNames(root))
    decreases |root|
  {
    if root != [] {
      var init := root[..|root| - 1];
      var e := root[|root| - 1];
      var d := DirectoryNames(init);
      assert DirectoryNames(root) == d + (if e.isDirectory then [e.name] else []);
      assert Distinct(d) by {
        forall i, j | 0 <= i < j < |d| ensures d[i] != d[j] {
          assert DirectoryNames(root)[i] == d[i] && DirectoryNames(root)[j] == d[j];
        }
      }
      if e.isDirectory {
        assert e.name !in d by {
          forall i | 0 <= i < |d| ensures d[i] != e.name {
            assert DirectoryNames(root)[i] == d[i];
            assert DirectoryNames(root)[|d|] == e.name;
          }
        }
        var names := d + [e.name];
        assert names[..|names| - 1] == d;
      } else {
        assert d + [] == d;
      }
      ScanOrder(init, le);
    }
  }
}
