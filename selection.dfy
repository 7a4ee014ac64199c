/**
 * The per-frame list pipeline of the overlay (src/ui.rs): sort the window
 * snapshot, keep the entries whose lowercased title contains the lowercased
 * query, and drop the overlay's own window.
 *
 * The snapshot comes from `get_open_windows`, whose module is not part of this
 * model; it is an input here.  The ordering of `OpenWindow` is not visible
 * either: it is taken to be title order (by code point) with the window
 * handle as tie-break.  `SortedUnique` shows that any correct sort under that
 * order yields the same list, so the insertion sort below stands for the
 * library sort.
 */
module Selection {
  import opened Text

  /** The overlay's own window title (src/ui.rs:12). */
  const TITLE: string := "RecentApps++"

  /** One top-level window of the snapshot: its title and its opaque handle. */
  datatype Entry = Entry(title: string, hwnd: nat)

  predicate EntryLe(x: Entry, y: Entry) {
    if x.title == y.title then x.hwnd <= y.hwnd else TitleLe(x.title, y.title)
  }

  /** `EntryLe` is a total order. */
  lemma EntryLeTotalOrder()
    ensures forall x, y :: EntryLe(x, y) || EntryLe(y, x)
    ensures forall x, y :: EntryLe(x, y) && EntryLe(y, x) ==> x == y
    ensures forall x, y, z :: EntryLe(x, y) && EntryLe(y, z) ==> EntryLe(x, z)
  {
    forall x: Entry, y: Entry ensures EntryLe(x, y) || EntryLe(y, x) {
      TitleLeTotal(x.title, y.title);
    }
    forall x: Entry, y: Entry | EntryLe(x, y) && EntryLe(y, x) ensures x == y {
      if x.title != y.title {
        TitleLeAntisymmetric(x.title, y.title);
      }
    }
    forall x: Entry, y: Entry, z: Entry | EntryLe(x, y) && EntryLe(y, z) ensures EntryLe(x, z) {
      if x.title != y.title && y.title != z.title {
        TitleLeTransitive(x.title, y.title, z.title);
        if x.title == z.title {
          TitleLeAntisymmetric(x.title, y.title);
        }
      }
    }
  }

  ghost predicate Sorted(s: seq<Entry>) {
    forall i, j :: 0 <= i < j < |s| ==> EntryLe(s[i], s[j])
  }

  /** Inserts `e` before the first entry it does not follow. */
  function Insert(e: Entry, s: seq<Entry>): seq<Entry> {
    if s == [] || EntryLe(e, s[0]) then [e] + s else [s[0]] + Insert(e, s[1..])
  }

  function Sort(s: seq<Entry>): seq<Entry> {
    if s == [] then [] else Insert(s[0], Sort(s[1..]))
  }

  lemma {:induction false} InsertCorrect(e: Entry, s: seq<Entry>)
    requires Sorted(s)
    ensures Sorted(Insert(e, s))
    ensures multiset(Insert(e, s)) == multiset(s) + multiset{e}
  {
    EntryLeTotalOrder();
    if s == [] || EntryLe(e, s[0]) {
    } else {
      var t := Insert(e, s[1..]);
      InsertCorrect(e, s[1..]);
      assert s == [s[0]] + s[1..];
      forall x | x in t ensures EntryLe(s[0], x) {
        assert x in multiset(t);
        if x != e {
          assert x in multiset(s[1..]);
        }
      }
    }
  }

  /** The sorted snapshot: ordered, and a permutation of the snapshot. */
  lemma {:induction false} SortCorrect(s: seq<Entry>)
    ensures Sorted(Sort(s))
    ensures multiset(Sort(s)) == multiset(s)
  {
    if s != [] {
      SortCorrect(s[1..]);
      InsertCorrect(s[0], Sort(s[1..]));
      assert s == [s[0]] + s[1..];
    }
  }

  /** Under a total order there is only one sorted permutation of a snapshot. */
  lemma {:induction false} SortedUnique(a: seq<Entry>, b: seq<Entry>)
    requires Sorted(a) && Sorted(b)
    requires multiset(a) == multiset(b)
    ensures a == b
  {
    EntryLeTotalOrder();
    if a == [] {
      assert |b| == |multiset(b)| == 0;
    } else {
      assert |b| == |multiset(b)| == |multiset(a)| == |a|;
      assert a[0] in multiset(b);
      assert b[0] in multiset(a);
      var j :| 0 <= j < |b| && b[j] == a[0];
      var i :| 0 <= i < |a| && a[i] == b[0];
      assert EntryLe(a[0], a[i]);
      assert EntryLe(b[0], b[j]);
      assert a[0] == b[0];
      assert a == [a[0]] + a[1..];
      assert b == [b[0]] + b[1..];
      assert multiset(a) == multiset{a[0]} + multiset(a[1..]);
      assert multiset(b) == multiset{b[0]} + multiset(b[1..]);
      assert multiset(a[1..]) == multiset(a) - multiset{a[0]};
      assert multiset(b[1..]) == multiset(b) - multiset{b[0]};
      SortedUnique(a[1..], b[1..]);
    }
  }

  /** The title is the overlay's own, compared case-insensitively (src/ui.rs:93). */
  predicate IsOwnTitle(title: string) {
    Lower(title) == Lower(TITLE)
  }

  /** The two `filter` predicates of src/ui.rs:90-93. */
  predicate Keep(e: Entry, query: string) {
    Contains(Lower(e.title), Lower(query)) && !IsOwnTitle(e.title)
  }

  /** Keeps, in order, the entries that pass both predicates. */
  function Filter(s: seq<Entry>, query: string): (r: seq<Entry>)
    ensures forall i :: 0 <= i < |r| ==> Keep(r[i], query)
    ensures |r| <= |s|
  {
    if s == [] then []
    else
      var rest := Filter(s[1..], query);
      if Keep(s[0], query) then [s[0]] + rest else rest
  }

  /** `r` is `s` with some entries left out and the rest in their original order. */
  predicate IsSubsequence(r: seq<Entry>, s: seq<Entry>) {
    if r == [] then true
    else if s == [] then false
    else (r[0] == s[0] && IsSubsequence(r[1..], s[1..])) || IsSubsequence(r, s[1..])
  }

  lemma {:induction false} SubsequenceMembers(r: seq<Entry>, s: seq<Entry>)
    requires IsSubsequence(r, s)
    ensures forall x :: x in r ==> x in s
  {
    if r != [] {
      if r[0] == s[0] && IsSubsequence(r[1..], s[1..]) {
        SubsequenceMembers(r[1..], s[1..]);
        assert r == [r[0]] + r[1..];
      } else {
        SubsequenceMembers(r, s[1..]);
      }
    }
  }

  /** Leaving entries out of a sorted list keeps it sorted. */
  lemma {:induction false} SubsequenceSorted(r: seq<Entry>, s: seq<Entry>)
    requires IsSubsequence(r, s) && Sorted(s)
    ensures Sorted(r)
  {
    if r != [] {
      assert Sorted(s[1..]) by {
        forall i, j | 0 <= i < j < |s[1..]| ensures EntryLe(s[1..][i], s[1..][j]) {
          assert s[1..][i] == s[i + 1] && s[1..][j] == s[j + 1];
        }
      }
      if r[0] == s[0] && IsSubsequence(r[1..], s[1..]) {
        SubsequenceSorted(r[1..], s[1..]);
        SubsequenceMembers(r[1..], s[1..]);
        forall j | 0 < j < |r| ensures EntryLe(r[0], r[j]) {
          assert r[j] == r[1..][j - 1];
          assert r[j] in s[1..];
        }
      } else {
        SubsequenceSorted(r, s[1..]);
      }
    }
  }

  /** The filtered list keeps the snapshot's order. */
  lemma {:induction false} FilterSubsequence(s: seq<Entry>, query: string)
    ensures IsSubsequence(Filter(s, query), s)
  {
    if s != [] {
      FilterSubsequence(s[1..], query);
      var r := Filter(s, query);
      if Keep(s[0], query) {
        assert r[1..] == Filter(s[1..], query);
      } else {
        SubsequenceSkip(r, s);
      }
    }
  }

  lemma {:induction false} SubsequenceSkip(r: seq<Entry>, s: seq<Entry>)
    requires s != [] && IsSubsequence(r, s[1..])
    ensures IsSubsequence(r, s)
  {
  }

  /** Exactly the qualifying entries survive, each as often as in the snapshot. */
  lemma {:induction false} FilterExact(s: seq<Entry>, query: string)
    ensures forall e :: multiset(Filter(s, query))[e] == if Keep(e, query) then multiset(s)[e] else 0
  {
    if s != [] {
      FilterExact(s[1..], query);
      assert s == [s[0]] + s[1..];
    }
  }

  /** No qualifying entry is dropped, and nothing else gets in. */
  lemma FilterMembers(s: seq<Entry>, query: string)
    ensures forall e :: e in Filter(s, query) <==> e in s && Keep(e, query)
  {
    FilterExact(s, query);
    forall e ensures e in Filter(s, query) <==> e in s && Keep(e, query) {
      assert e in Filter(s, query) <==> e in multiset(Filter(s, query));
      assert e in s <==> e in multiset(s);
    }
  }

  /** With an empty query only the overlay's own window is dropped (src/ui.rs:91). */
  lemma EmptyQueryKeepsAllButSelf(s: seq<Entry>)
    ensures forall e :: e in Filter(s, []) <==> e in s && !IsOwnTitle(e.title)
  {
    FilterMembers(s, []);
    forall e: Entry {
      KeepWithEmptyQuery(e);
    }
  }

  /** Every title contains the empty query, so only the own-title test remains. */
  lemma KeepWithEmptyQuery(e: Entry)
    ensures Keep(e, []) == !IsOwnTitle(e.title)
  {
    ContainsEmpty(Lower(e.title));
  }

  /** The query's own case does not matter. */
  lemma {:induction false} FilterCaseInsensitive(s: seq<Entry>, query: string)
    ensures Filter(s, Lower(query)) == Filter(s, query)
  {
    LowerIdempotent(query);
    if s != [] {
      FilterCaseInsensitive(s[1..], query);
    }
  }

  /** Filtering a filtered list again changes nothing. */
  lemma {:induction false} FilterIdempotent(s: seq<Entry>, query: string)
    ensures Filter(Filter(s, query), query) == Filter(s, query)
  {
    if s != [] {
      FilterIdempotent(s[1..], query);
    }
  }

  /** The list the overlay shows for a snapshot and the current search text (src/ui.rs:86-94). */
  function View(snapshot: seq<Entry>, query: string): seq<Entry> {
    Filter(Sort(snapshot), query)
  }

  /**
   * The shown list is sorted, every shown entry passes both predicates, it
   * is an order-preserving selection of the sorted snapshot, and it holds
   * every qualifying snapshot entry exactly as often as the snapshot does.
   */
  lemma ViewCorrect(snapshot: seq<Entry>, query: string)
    ensures Sorted(View(snapshot, query))
    ensures IsSubsequence(View(snapshot, query), Sort(snapshot))
    ensures forall i :: 0 <= i < |View(snapshot, query)| ==> Keep(View(snapshot, query)[i], query)
    ensures forall e :: multiset(View(snapshot, query))[e] == if Keep(e, query) then multiset(snapshot)[e] else 0
  {
    SortCorrect(snapshot);
    FilterSubsequence(Sort(snapshot), query);
    SubsequenceSorted(View(snapshot, query), Sort(snapshot));
    FilterExact(Sort(snapshot), query);
  }

  /** The overlay never lists its own window (src/ui.rs:93). */
  lemma ViewExcludesSelf(snapshot: seq<Entry>, query: string, e: Entry)
    requires e in View(snapshot, query)
    ensures !IsOwnTitle(e.title)
    ensures Contains(Lower(e.title), Lower(query))
  {
  }

  /** A snapshot with the overlay's own window and an empty query: the others, in title order. */
  lemma EmptyQueryExample(mail: Entry, browser: Entry, own: Entry)
    requires mail == Entry("Mail", 1) && browser == Entry("Browser", 2) && own == Entry(TITLE, 3)
    ensures View([mail, browser, own], []) == [browser, mail]
  {
    SortExample(mail, browser, own);
    FilterExample(mail, browser, own);
  }

  lemma FilterExample(mail: Entry, browser: Entry, own: Entry)
    requires mail == Entry("Mail", 1) && browser == Entry("Browser", 2) && own == Entry(TITLE, 3)
    ensures Filter([browser, mail, own], []) == [browser, mail]
  {
    KeepWithEmptyQuery(own);
    KeepWithEmptyQuery(mail);
    KeepWithEmptyQuery(browser);
    assert |Lower(mail.title)| != |Lower(TITLE)|;
    assert |Lower(browser.title)| != |Lower(TITLE)|;
    FilterDrop(own, [], []);
    assert [own] == [own] + [];
    FilterKeep(mail, [own], []);
    assert [mail] + [own] == [mail, own];
    FilterKeep(browser, [mail, own], []);
    assert [browser] + [mail, own] == [browser, mail, own];
  }

  /** The same snapshot with the query "ma": only the mail window is left. */
  lemma QueryExample(mail: Entry, browser: Entry, own: Entry)
    requires mail == Entry("Mail", 1) && browser == Entry("Browser", 2) && own == Entry(TITLE, 3)
    ensures View([mail, browser, own], "ma") == [mail]
  {
    SortExample(mail, browser, own);
    MatchesMa(mail, browser);
    FilterDrop(own, [], "ma");
    assert [own] == [own] + [];
    FilterKeep(mail, [own], "ma");
    assert [mail] + [own] == [mail, own];
    FilterDrop(browser, [mail, own], "ma");
    assert [browser] + [mail, own] == [browser, mail, own];
  }

  lemma MatchesMa(mail: Entry, browser: Entry)
    requires mail == Entry("Mail", 1) && browser == Entry("Browser", 2)
    ensures Keep(mail, "ma") && !Keep(browser, "ma")
  {
    assert Lower("ma") == "ma";
    assert Lower(mail.title) == "mail";
    assert Lower(browser.title) == "browser";
    assert |Lower(mail.title)| != |Lower(TITLE)|;
    assert Contains("mail", "ma");
    ContainsIff("browser", "ma");
    assert forall i :: 0 <= i < |"browser"| ==> "browser"[i] != 'm';
    assert forall i :: OccursAt("browser", "ma", i) ==> "browser"[i..i + 2][0] == "browser"[i] == 'm';
  }

  lemma FilterKeep(e: Entry, rest: seq<Entry>, query: string)
    requires Keep(e, query)
    ensures Filter([e] + rest, query) == [e] + Filter(rest, query)
  {
    assert ([e] + rest)[1..] == rest;
  }

  lemma FilterDrop(e: Entry, rest: seq<Entry>, query: string)
    requires !Keep(e, query)
    ensures Filter([e] + rest, query) == Filter(rest, query)
  {
    assert ([e] + rest)[1..] == rest;
  }

  lemma SortExample(mail: Entry, browser: Entry, own: Entry)
    requires mail == Entry("Mail", 1) && browser == Entry("Browser", 2) && own == Entry(TITLE, 3)
    ensures Sort([mail, browser, own]) == [browser, mail, own]
  {
    assert TitleLe(browser.title, own.title);
    assert !TitleLe(mail.title, browser.title);
    assert TitleLe(mail.title, own.title);
    assert [mail, browser, own][1..] == [browser, own];
    assert [browser, own][1..] == [own];
    assert Sort([own]) == [own];
    assert Sort([browser, own]) == Insert(browser, [own]) == [browser, own];
    assert Insert(mail, [own]) == [mail, own];
    assert Insert(mail, [browser, own]) == [browser] + Insert(mail, [own]);
  }
}
