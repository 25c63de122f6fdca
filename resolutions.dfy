/** The resolution records and the pure queries over a collection of them:
    lookup by case number, the stable newest-first ordering by date, the
    truncated "latest" listing, and the construction of a new record from
    the create command's arguments. */
module Resolutions {
  import opened Wrappers
  import opened Text

  /** One resolution as read from the JSON file. `caseNumber` is the only
      field every record has; any other field may be absent (`None`).
      `kind` is the JSON field "type". */
  datatype Resolution = Resolution(
    caseNumber: string,
    title: Option<string>,
    preamble: Option<string>,
    kind: Option<string>,
    submittedBy: Option<string>,
    date: Option<string>,
    signatories: Option<seq<string>>,
    operativeClauses: Option<seq<string>>,
    conclusion: Option<string>)

  // ---------------------------------------------------------------- lookup

  predicate HasCase(items: seq<Resolution>, key: string) {
    exists i :: 0 <= i < |items| && items[i].caseNumber == key
  }

  /** `i` is the position of the first record whose case number is `key`. */
  predicate IsFirstMatch(items: seq<Resolution>, key: string, i: int) {
    0 <= i < |items| && items[i].caseNumber == key
    && forall j :: 0 <= j < i ==> items[j].caseNumber != key
  }

  /** `get_resolution`: the first record whose case number equals `key`
      exactly, or `None` when there is none. */
  function FindCase(items: seq<Resolution>, key: string): (r: Option<Resolution>)
    ensures r.None? <==> !HasCase(items, key)
    ensures r.Some? ==> exists i :: IsFirstMatch(items, key, i) && items[i] == r.value
  {
    if items == [] then None
    else if items[0].caseNumber == key then
      assert IsFirstMatch(items, key, 0);
      Some(items[0])
    else
      var r := FindCase(items[1..], key);
      FindCaseShift(items, key, r);
      r
  }

  lemma FindCaseShift(items: seq<Resolution>, key: string, r: Option<Resolution>)
    requires items != [] && items[0].caseNumber != key
    requires r.None? <==> !HasCase(items[1..], key)
    requires r.Some? ==> exists i :: IsFirstMatch(items[1..], key, i) && items[1..][i] == r.value
    ensures r.None? <==> !HasCase(items, key)
    ensures r.Some? ==> exists i :: IsFirstMatch(items, key, i) && items[i] == r.value
  {
    if HasCase(items, key) {
      var i :| 0 <= i < |items| && items[i].caseNumber == key;
      assert items[1..][i - 1].caseNumber == key;
    }
    if r.Some? {
      var i :| IsFirstMatch(items[1..], key, i) && items[1..][i] == r.value;
      assert IsFirstMatch(items, key, i + 1);
    }
  }

  /** No two records share a case number (kept by create, not checked on load). */
  predicate UniqueCaseNumbers(items: seq<Resolution>) {
    forall i, j :: 0 <= i < j < |items| ==> items[i].caseNumber != items[j].caseNumber
  }

  /** In a collection with unique case numbers the lookup finds a record
      exactly when that record is in the collection under that key. */
  lemma FindCaseUnique(items: seq<Resolution>, key: string, rec: Resolution)
    requires UniqueCaseNumbers(items)
    ensures FindCase(items, key) == Some(rec) <==> rec in items && rec.caseNumber == key
  {
    if rec in items && rec.caseNumber == key {
      var k :| 0 <= k < |items| && items[k] == rec;
      var r := FindCase(items, key);
      var i :| IsFirstMatch(items, key, i) && items[i] == r.value;
      assert i == k;
    }
  }

  /** Appending a record whose case number is new keeps case numbers unique,
      and the lookup then finds exactly that record. */
  lemma AppendNewCase(items: seq<Resolution>, rec: Resolution)
    requires FindCase(items, rec.caseNumber) == None
    ensures UniqueCaseNumbers(items) ==> UniqueCaseNumbers(items + [rec])
    ensures FindCase(items + [rec], rec.caseNumber) == Some(rec)
  {
    var all := items + [rec];
    assert IsFirstMatch(all, rec.caseNumber, |items|);
    var r := FindCase(all, rec.caseNumber);
    var i :| IsFirstMatch(all, rec.caseNumber, i) && all[i] == r.value;
    assert i == |items|;
  }

  /** Appending leaves the lookup of every other case number as it was. */
  lemma {:induction false} FindCaseAppendOther(items: seq<Resolution>, rec: Resolution, key: string)
    requires key != rec.caseNumber
    ensures FindCase(items + [rec], key) == FindCase(items, key)
  {
    if items == [] {
    } else {
      assert (items + [rec])[1..] == items[1..] + [rec];
      FindCaseAppendOther(items[1..], rec, key);
    }
  }

  // ------------------------------------------------------ ordering by date

  /** The sort key of the latest listing: the date, or `""` when the record has none. */
  function DateKey(r: Resolution): (k: string)
    ensures r.date.None? ==> k == ""
    ensures r.date.Some? ==> k == r.date.value
  {
    r.date.GetOr("")
  }

  /** Newest first: every record's key is greater than or equal to every
      later one's, in Python's string order. */
  predicate SortedNewestFirst(s: seq<Resolution>) {
    forall i, j :: 0 <= i < j < |s| ==> LexLe(DateKey(s[j]), DateKey(s[i]))
  }

  /** The records of `s` whose sort key is `d`, in their order in `s`. */
  function WithDate(s: seq<Resolution>, d: string): (r: seq<Resolution>)
    ensures |r| <= |s|
  {
    if s == [] then []
    else (if DateKey(s[0]) == d then [s[0]] else []) + WithDate(s[1..], d)
  }

  /** Insert `x` in front of the first record whose key is not greater than
      its own: `x` goes after the strictly newer records and before every
      record with an equal key. */
  function InsertByDate(x: Resolution, s: seq<Resolution>): (r: seq<Resolution>)
    ensures multiset(r) == multiset(s) + multiset{x}
  {
    if s == [] then [x]
    else if LexLe(DateKey(s[0]), DateKey(x)) then [x] + s
    else
      assert s == [s[0]] + s[1..];
      [s[0]] + InsertByDate(x, s[1..])
  }

  /** Python's `sorted(s, key=DateKey, reverse=True)`, as a stable insertion
      sort: each record is inserted ahead of those with an equal key that came
      after it in `s`. */
  function SortByDate(s: seq<Resolution>): (r: seq<Resolution>)
    ensures multiset(r) == multiset(s)
    ensures |r| == |s|
  {
    if s == [] then []
    else
      assert s == [s[0]] + s[1..];
      InsertByDate(s[0], SortByDate(s[1..]))
  }

  lemma {:induction false} InsertByDateSorted(x: Resolution, s: seq<Resolution>)
    requires SortedNewestFirst(s)
    ensures SortedNewestFirst(InsertByDate(x, s))
  {
    if s == [] {
    } else if LexLe(DateKey(s[0]), DateKey(x)) {
      var r := [x] + s;
      forall i, j | 0 <= i < j < |r| ensures LexLe(DateKey(r[j]), DateKey(r[i])) {
        if i == 0 && j > 1 {
          LexLeTransitive(DateKey(s[j - 1]), DateKey(s[0]), DateKey(x));
        }
      }
    } else {
      LexLeTotal(DateKey(s[0]), DateKey(x));
      InsertByDateSorted(x, s[1..]);
      var t := InsertByDate(x, s[1..]);
      var r := [s[0]] + t;
      forall i, j | 0 <= i < j < |r| ensures LexLe(DateKey(r[j]), DateKey(r[i])) {
        if i == 0 {
          assert r[j] in multiset(t);
          assert r[j] in multiset(s[1..]) + multiset{x};
          if r[j] != x {
            var k :| 0 <= k < |s[1..]| && s[1..][k] == r[j];
            assert s[k + 1] == r[j];
          }
        }
      }
    }
  }

  /** The stable sort puts the records newest first. */
  lemma {:induction false} SortByDateSorted(s: seq<Resolution>)
    ensures SortedNewestFirst(SortByDate(s))
  {
    if s != [] {
      SortByDateSorted(s[1..]);
      InsertByDateSorted(s[0], SortByDate(s[1..]));
    }
  }

  lemma {:induction false} WithDateAppend(a: seq<Resolution>, b: seq<Resolution>, d: string)
    ensures WithDate(a + b, d) == WithDate(a, d) + WithDate(b, d)
  {
    if a == [] {
      assert a + b == b;
    } else {
      var head := if DateKey(a[0]) == d then [a[0]] else [];
      assert (a + b)[0] == a[0];
      assert (a + b)[1..] == a[1..] + b;
      WithDateAppend(a[1..], b, d);
      calc {
        WithDate(a + b, d);
        head + WithDate(a[1..] + b, d);
        head + (WithDate(a[1..], d) + WithDate(b, d));
        (head + WithDate(a[1..], d)) + WithDate(b, d);
      }
    }
  }

  lemma {:induction false} InsertByDateWithDate(x: Resolution, s: seq<Resolution>, d: string)
    ensures WithDate(InsertByDate(x, s), d) == (if DateKey(x) == d then [x] else []) + WithDate(s, d)
  {
    if s == [] {
    } else if LexLe(DateKey(s[0]), DateKey(x)) {
      assert ([x] + s)[1..] == s;
    } else {
      var t := InsertByDate(x, s[1..]);
      InsertByDateWithDate(x, s[1..], d);
      var head := if DateKey(s[0]) == d then [s[0]] else [];
      var xs := if DateKey(x) == d then [x] else [];
      assert WithDate(s, d) == head + WithDate(s[1..], d);
      assert ([s[0]] + t)[1..] == t;
      assert WithDate([s[0]] + t, d) == head + WithDate(t, d);
      if DateKey(x) == d {
        LexLeRefl(d);
        assert head == [];
      }
      assert head + xs == xs + head;
    }
  }

  /** Stability: for every date, the records carrying that date appear in the
      sorted sequence in exactly their original relative order. */
  lemma {:induction false} SortByDateStable(s: seq<Resolution>, d: string)
    ensures WithDate(SortByDate(s), d) == WithDate(s, d)
  {
    if s != [] {
      SortByDateStable(s[1..], d);
      InsertByDateWithDate(s[0], SortByDate(s[1..]), d);
    }
  }

  /** Records without a date sort as `""`, the least key, so they come after
      every record whose date is not empty. */
  lemma MissingDateLast(s: seq<Resolution>, i: int, j: int)
    requires SortedNewestFirst(s)
    requires 0 <= i < j < |s| && s[i].date.None?
    ensures DateKey(s[j]) == ""
  {
    LexLeEmpty(DateKey(s[j]));
  }

  lemma {:induction false} WithDateMembers(s: seq<Resolution>, d: string, x: Resolution)
    ensures x in WithDate(s, d) <==> x in s && DateKey(x) == d
  {
    if s != [] {
      WithDateMembers(s[1..], d, x);
      assert s == [s[0]] + s[1..];
    }
  }

  /** In a newest-first sequence no record is newer than the first one. */
  lemma HeadIsNewest(t: seq<Resolution>, x: Resolution)
    requires SortedNewestFirst(t) && x in t
    ensures LexLe(DateKey(x), DateKey(t[0]))
  {
    var a :| 0 <= a < |t| && t[a] == x;
    if a == 0 { LexLeRefl(DateKey(x)); }
  }

  /** Two newest-first sequences that agree on the records of each date start
      with the same record. */
  lemma StableSortSameHead(t: seq<Resolution>, u: seq<Resolution>)
    requires SortedNewestFirst(t) && SortedNewestFirst(u)
    requires t != [] && u != []
    requires forall d :: WithDate(t, d) == WithDate(u, d)
    ensures t[0] == u[0]
  {
    var k, k' := DateKey(t[0]), DateKey(u[0]);
    assert WithDate(t, k) == [t[0]] + WithDate(t[1..], k);
    assert WithDate(u, k')== [u[0]] + WithDate(u[1..], k');
    assert WithDate(u, k) == WithDate(t, k);
    assert WithDate(t, k') == WithDate(u, k');
    WithDateMembers(u, k, t[0]);
    WithDateMembers(t, k', u[0]);
    HeadIsNewest(u, t[0]);
    HeadIsNewest(t, u[0]);
    LexLeAntisymmetric(k, k');
    assert WithDate(u, k)[0] == u[0];
  }

  lemma WithDateOwnKey(s: seq<Resolution>)
    ensures s != [] ==> WithDate(s, DateKey(s[0])) != []
  {
  }

  /** Sorted-newest-first and stable together determine the order: any two
      sequences that are both newest first and agree on the records of each
      date are equal. So `SortByDate` is the only stable newest-first
      arrangement of a collection. */
  lemma {:induction false} StableSortUnique(t: seq<Resolution>, u: seq<Resolution>)
    requires SortedNewestFirst(t) && SortedNewestFirst(u)
    requires forall d :: WithDate(t, d) == WithDate(u, d)
    ensures t == u
  {
    if t != [] && u != [] {
      StableSortSameHead(t, u);
      forall d ensures WithDate(t[1..], d) == WithDate(u[1..], d) {
        var head := if DateKey(t[0]) == d then [t[0]] else [];
        assert WithDate(t, d) == head + WithDate(t[1..], d);
        assert WithDate(u, d) == head + WithDate(u[1..], d);
        assert WithDate(t, d)[|head|..] == WithDate(t[1..], d);
        assert WithDate(u, d)[|head|..] == WithDate(u[1..], d);
      }
      StableSortUnique(t[1..], u[1..]);
      assert t == [t[0]] + t[1..] && u == [u[0]] + u[1..];
    } else if t != [] {
      WithDateOwnKey(t);
      assert false;
    } else if u != [] {
      WithDateOwnKey(u);
      assert false;
    }
  }

  /** The stable sort is characterised by its two properties (proved in
      `SortByDateSorted` and `SortByDateStable`): any arrangement that is
      newest first and keeps the records of every date in their order in `s`
      is `SortByDate(s)`. */
  lemma StableSortIsSortByDate(s: seq<Resolution>, t: seq<Resolution>)
    requires SortedNewestFirst(t)
    requires forall d :: WithDate(t, d) == WithDate(s, d)
    ensures t == SortByDate(s)
  {
    var sorted := SortByDate(s);
    SortByDateSorted(s);
    forall d ensures WithDate(t, d) == WithDate(sorted, d) {
      SortByDateStable(s, d);
    }
    StableSortUnique(t, sorted);
  }

  /** `list_latest(limit)`: the first `limit` records of the stable
      newest-first order (all of them when there are fewer). */
  function Latest(items: seq<Resolution>, limit: nat): (r: seq<Resolution>)
    ensures |r| == if limit < |items| then limit else |items|
    ensures SortedNewestFirst(r)
    ensures multiset(r) <= multiset(items)
    ensures r == SortByDate(items)[..|r|]
  {
    var sorted := SortByDate(items);
    SortByDateSorted(items);
    var n := if limit < |items| then limit else |items|;
    assert sorted == sorted[..n] + sorted[n..];
    sorted[..n]
  }

  lemma {:induction false} WithDatePrefix(s: seq<Resolution>, n: nat, d: string)
    requires n <= |s|
    ensures WithDate(s[..n], d) <= WithDate(s, d)
  {
    assert s == s[..n] + s[n..];
    WithDateAppend(s[..n], s[n..], d);
  }

  /** The latest listing is stable too: the records of one date it shows are
      the earliest-inserted ones of that date, in their original order. */
  lemma LatestStable(items: seq<Resolution>, limit: nat, d: string)
    ensures WithDate(Latest(items, limit), d) <= WithDate(items, d)
  {
    var n := if limit < |items| then limit else |items|;
    WithDatePrefix(SortByDate(items), n, d);
    SortByDateStable(items, d);
  }

  /** The listing shows the newest records: every record of the collection
      that is left out is no newer than any record that is listed. */
  lemma LatestAreNewest(items: seq<Resolution>, limit: nat, x: Resolution, y: Resolution)
    requires x in multiset(items) - multiset(Latest(items, limit))
    requires y in Latest(items, limit)
    ensures LexLe(DateKey(x), DateKey(y))
  {
    var sorted := SortByDate(items);
    var r := Latest(items, limit);
    var n := |r|;
    var rest := sorted[n..];
    assert sorted == r + rest;
    assert multiset(rest) == multiset(items) - multiset(r) by {
      assert multiset(sorted) == multiset(r) + multiset(rest);
    }
    assert x in rest;
    var j :| 0 <= j < |rest| && rest[j] == x;
    var i :| 0 <= i < n && r[i] == y;
    assert sorted[i] == y && sorted[n + j] == x;
    SortByDateSorted(items);
    assert LexLe(DateKey(sorted[n + j]), DateKey(sorted[i]));
  }

  /** A listing at least as long as the collection shows all of it. */
  lemma LatestAll(items: seq<Resolution>, limit: nat)
    requires limit >= |items|
    ensures multiset(Latest(items, limit)) == multiset(items)
  {
    assert SortByDate(items)[..|items|] == SortByDate(items);
  }

  // ------------------------------------------------------- record creation

  /** The comma-separated argument lists of the create command: every
      segment between commas, stripped. Empty segments are kept as `""`. */
  function ParseList(s: string): (r: seq<string>)
    ensures |r| == Count(s, ',') + 1
    ensures forall i :: 0 <= i < |r| ==> ',' !in r[i]
  {
    var parts := Split(s, ',');
    seq(|parts|, i requires 0 <= i < |parts| => Strip(parts[i]))
  }

  /** Each element of the parsed list is the stripped text of the segment
      between the corresponding commas. */
  lemma ParseListSegments(segments: seq<string>)
    requires |segments| > 0
    requires forall i :: 0 <= i < |segments| ==> ',' !in segments[i]
    ensures |ParseList(Join(segments, ","))| == |segments|
    ensures forall i :: 0 <= i < |segments| ==> ParseList(Join(segments, ","))[i] == Strip(segments[i])
  {
    SplitJoin(segments, ',');
  }

  /** White space after a comma is stripped: `"A, B"` gives `["A", "B"]`,
      as does any pair of comma-free names written this way. */
  lemma {:induction false} ParseListCommaSpace(a: string, b: string)
    requires ',' !in a && ',' !in b
    ensures ParseList(a + ", " + b) == [Strip(a), Strip(b)]
  {
    var segments := [a, " " + b];
    assert ',' !in " " + b;
    assert Join(segments, ",") == a + ", " + b by {
      assert segments[1..] == [" " + b];
    }
    ParseListSegments(segments);
    assert " " + b == [' '] + b;
    StripLeadingSpace(' ', b);
  }

  /** Empty segments are kept, not dropped: two adjacent commas give an empty
      element between the stripped neighbours, and the empty argument gives
      one empty element. */
  lemma {:induction false} ParseListKeepsEmpty(a: string, b: string)
    requires ',' !in a && ',' !in b
    ensures ParseList(a + ",," + b) == [Strip(a), "", Strip(b)]
    ensures ParseList("") == [""]
  {
    var segments := [a, "", b];
    JoinThree(a, "", b, ",");
    assert a + "," + "" + "," + b == a + ",," + b;
    ParseListSegments(segments);
    StripAllSpace("");
    var p := ParseList(a + ",," + b);
    assert |p| == 3 && p[0] == Strip(a) && p[1] == "" && p[2] == Strip(b);
    assert Split("", ',') == [""];
  }

  /** The create example: signatories `"A, B"` become `["A", "B"]`. */
  lemma ParseListTwoNames()
    ensures ParseList("A, B") == ["A", "B"]
  {
    assert "A, B" == "A" + ", " + "B";
    ParseListCommaSpace("A", "B");
    StripUnpadded("A");
    StripUnpadded("B");
  }

  /** The record `create_resolution` builds: every string argument stored as
      given and both lists parsed from their comma-separated form. */
  function NewRecord(caseNumber: string, title: string, preamble: string, kind: string,
                     submittedBy: string, date: string, signatories: string,
                     clauses: string, conclusion: string): (r: Resolution)
    ensures r.caseNumber == caseNumber
    ensures r.title == Some(title) && r.preamble == Some(preamble) && r.kind == Some(kind)
    ensures r.submittedBy == Some(submittedBy) && r.date == Some(date)
    ensures r.conclusion == Some(conclusion)
    ensures r.signatories == Some(ParseList(signatories))
    ensures r.operativeClauses == Some(ParseList(clauses))
    ensures |r.signatories.value| == Count(signatories, ',') + 1
    ensures |r.operativeClauses.value| == Count(clauses, ',') + 1
  {
    Resolution(caseNumber, Some(title), Some(preamble), Some(kind), Some(submittedBy),
               Some(date), Some(ParseList(signatories)), Some(ParseList(clauses)),
               Some(conclusion))
  }
}
