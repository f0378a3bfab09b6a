/**
 * The pure helpers of the committee-candidate table in src/Party.jsx: the office
 * list for the position selector, the office/slate filter, the grouping of the
 * filtered candidates by office, the status of a candidate, the two slate maps
 * and the fallbacks of a table row.
 *
 * The page reads its own data file, whose records carry a `slate` (not a party)
 * and the optional `declined` and `undeliverable` flags; a missing flag is false.
 */
module Party {
  import opened Wrappers
  import opened Seqs

  /** One record of the committee candidates' data file. */
  datatype Candidate = Candidate(
    name: string,
    office: string,
    slate: string,
    responded: bool,
    declined: bool,
    undeliverable: bool,
    supportsStatehood: Option<string>)

  /** The selector value that stands for "no restriction". */
  const ALL: string := "all"
  const FREE_DC: string := "Free DC Slate"
  const DEMS_UNITED: string := "Democrats United to Free DC"

  /** The fixed order of the committee positions (the `order` list, written twice in the page). */
  const OFFICE_ORDER: seq<string> := [
      "National Committeeman", "National Committeewoman",
      "At-Large Committeeman", "At-Large Committeewoman",
      "Ward 1 Committeeman", "Ward 1 Committeewoman",
      "Ward 2 Committeeman", "Ward 2 Committeewoman",
      "Ward 3 Committeeman", "Ward 3 Committeewoman",
      "Ward 4 Committeeman", "Ward 4 Committeewoman",
      "Ward 5 Committeeman", "Ward 5 Committeewoman",
      "Ward 6 Committeeman", "Ward 6 Committeewoman",
      "Ward 7 Committeeman", "Ward 7 Committeewoman",
      "Ward 8 Committeeman", "Ward 8 Committeewoman"
    ]

  /**
   * A proof device, not part of the page: a number read off an office title's
   * first letter, ward digit and final "man"/"woman". On the list it is the
   * title's position, so two listed titles that differ have different codes,
   * which is how `OfficeOrderDistinct` shows the list is free of repeats.
   */
  function OrderCode(office: string): int {
    if |office| < 6 then -1
    else
      var woman := if office[|office| - 5] == 'w' then 1 else 0;
      if office[0] == 'N' then woman
      else if office[0] == 'A' then 2 + woman
      else 4 + 2 * (office[5] as int - '1' as int) + woman
  }

  /** The national and at-large titles. */
  lemma OrderCodeNationalAtLarge()
    ensures forall i :: 0 <= i < 4 ==> OrderCode(OFFICE_ORDER[i]) == i
  {
    assert OrderCode(OFFICE_ORDER[0]) == 0;
    assert OrderCode(OFFICE_ORDER[1]) == 1;
    assert OrderCode(OFFICE_ORDER[2]) == 2;
    assert OrderCode(OFFICE_ORDER[3]) == 3;
  }

  /** The titles of wards 1 to 4. */
  lemma OrderCodeWards1To4()
    ensures forall i :: 4 <= i < 12 ==> OrderCode(OFFICE_ORDER[i]) == i
  {
    assert OrderCode(OFFICE_ORDER[4]) == 4;
    assert OrderCode(OFFICE_ORDER[5]) == 5;
    assert OrderCode(OFFICE_ORDER[6]) == 6;
    assert OrderCode(OFFICE_ORDER[7]) == 7;
    assert OrderCode(OFFICE_ORDER[8]) == 8;
    assert OrderCode(OFFICE_ORDER[9]) == 9;
    assert OrderCode(OFFICE_ORDER[10]) == 10;
    assert OrderCode(OFFICE_ORDER[11]) == 11;
  }

  /** The titles of wards 5 to 8. */
  lemma OrderCodeWards5To8()
    ensures forall i :: 12 <= i < 20 ==> OrderCode(OFFICE_ORDER[i]) == i
  {
    assert OrderCode(OFFICE_ORDER[12]) == 12;
    assert OrderCode(OFFICE_ORDER[13]) == 13;
    assert OrderCode(OFFICE_ORDER[14]) == 14;
    assert OrderCode(OFFICE_ORDER[15]) == 15;
    assert OrderCode(OFFICE_ORDER[16]) == 16;
    assert OrderCode(OFFICE_ORDER[17]) == 17;
    assert OrderCode(OFFICE_ORDER[18]) == 18;
    assert OrderCode(OFFICE_ORDER[19]) == 19;
  }

  lemma OrderCodeIsPosition()
    ensures forall i :: 0 <= i < |OFFICE_ORDER| ==> OrderCode(OFFICE_ORDER[i]) == i
  {
    OrderCodeNationalAtLarge();
    OrderCodeWards1To4();
    OrderCodeWards5To8();
  }

  /** No office is listed twice. */
  lemma OfficeOrderDistinct()
    ensures NoDups(OFFICE_ORDER)
  {
    OrderCodeIsPosition();
  }

  // ---------------------------------------------------------------------------
  // The office list
  // ---------------------------------------------------------------------------

  /** `order.indexOf(office)`: -1 for an office that is not on the list. */
  function Rank(order: seq<string>, office: string): int {
    IndexOf(order, office)
  }

  /** The offices of rank `k`. */
  function RankIs(order: seq<string>, k: int): string -> bool {
    (office: string) => Rank(order, office) == k
  }

  /** Two different offices never share a rank of at least 0. */
  lemma RankDistinct(order: seq<string>, a: string, b: string)
    requires a != b && Rank(order, a) >= 0
    ensures Rank(order, a) != Rank(order, b)
  {
  }

  predicate RankSorted(order: seq<string>, s: seq<string>) {
    forall i, j :: 0 <= i < j < |s| ==> Rank(order, s[i]) <= Rank(order, s[j])
  }

  /** Puts `x` before the first element whose rank is not below its own. */
  function Insert(order: seq<string>, x: string, t: seq<string>): (r: seq<string>)
    ensures multiset(r) == multiset(t) + multiset{x}
    decreases |t|
  {
    if |t| == 0 || Rank(order, x) <= Rank(order, t[0]) then [x] + t
    else
      assert t == [t[0]] + t[1..];
      [t[0]] + Insert(order, x, t[1..])
  }

  /**
   * `s.sort((a, b) => order.indexOf(a) - order.indexOf(b))`, a stable sort by rank;
   * every stable sort by the same key gives this result.
   */
  function SortByRank(order: seq<string>, s: seq<string>): (r: seq<string>)
    ensures multiset(r) == multiset(s)
    decreases |s|
  {
    if |s| == 0 then []
    else
      assert s == [s[0]] + s[1..];
      Insert(order, s[0], SortByRank(order, s[1..]))
  }

  function OfficeOf(c: Candidate): string {
    c.office
  }

  /** The distinct offices of the data, sorted by their rank in `order`. */
  function OfficesBy(order: seq<string>, cs: seq<Candidate>): seq<string> {
    SortByRank(order, Dedup(Map(cs, OfficeOf)))
  }

  /** The `offices` memo. */
  function Offices(cs: seq<Candidate>): seq<string> {
    OfficesBy(OFFICE_ORDER, cs)
  }

  lemma {:induction false} InsertSorted(order: seq<string>, x: string, t: seq<string>)
    requires RankSorted(order, t)
    ensures RankSorted(order, Insert(order, x, t))
    decreases |t|
  {
    if |t| == 0 || Rank(order, x) <= Rank(order, t[0]) {
      var r := [x] + t;
      forall i, j | 0 <= i < j < |r|
        ensures Rank(order, r[i]) <= Rank(order, r[j])
      {
        if i == 0 {
          assert Rank(order, t[0]) <= Rank(order, t[j - 1]);
        }
      }
    } else {
      InsertSorted(order, x, t[1..]);
      var rest := Insert(order, x, t[1..]);
      forall k | 0 <= k < |rest|
        ensures Rank(order, t[0]) <= Rank(order, rest[k])
      {
        assert rest[k] in multiset(rest);
        if rest[k] != x {
          assert rest[k] in t[1..];
        }
      }
    }
  }

  lemma {:induction false} SortSorted(order: seq<string>, s: seq<string>)
    ensures RankSorted(order, SortByRank(order, s))
    decreases |s|
  {
    if |s| > 0 {
      SortSorted(order, s[1..]);
      InsertSorted(order, s[0], SortByRank(order, s[1..]));
    }
  }

  lemma {:induction false} InsertNoDups(order: seq<string>, x: string, t: seq<string>)
    requires NoDups(t) && x !in t
    ensures NoDups(Insert(order, x, t))
    decreases |t|
  {
    if |t| > 0 && Rank(order, x) > Rank(order, t[0]) {
      InsertNoDups(order, x, t[1..]);
      var rest := Insert(order, x, t[1..]);
      assert t[0] !in t[1..];
      assert t[0] !in multiset(rest);
    }
  }

  lemma {:induction false} SortNoDups(order: seq<string>, s: seq<string>)
    requires NoDups(s)
    ensures NoDups(SortByRank(order, s))
    decreases |s|
  {
    if |s| > 0 {
      SortNoDups(order, s[1..]);
      assert s[0] !in s[1..];
      assert s[0] !in multiset(SortByRank(order, s[1..]));
      InsertNoDups(order, s[0], SortByRank(order, s[1..]));
    }
  }

  /** Inserting puts `x` in front of the rest of its own rank class. */
  lemma {:induction false} InsertJoinsClass(order: seq<string>, x: string, t: seq<string>)
    ensures Filter(Insert(order, x, t), RankIs(order, Rank(order, x))) == [x] + Filter(t, RankIs(order, Rank(order, x)))
    decreases |t|
  {
    var p := RankIs(order, Rank(order, x));
    if |t| == 0 || Rank(order, x) <= Rank(order, t[0]) {
      FilterCons(x, t, p);
    } else {
      InsertJoinsClass(order, x, t[1..]);
      assert [t[0]] + t[1..] == t;
      FilterSkipsFront(t[0], Insert(order, x, t[1..]), t[1..], x, p);
    }
  }

  /** Inserting leaves every other rank class as it was. */
  lemma {:induction false} InsertSparesOtherClasses(order: seq<string>, x: string, t: seq<string>, k: int)
    requires Rank(order, x) != k
    ensures Filter(Insert(order, x, t), RankIs(order, k)) == Filter(t, RankIs(order, k))
    decreases |t|
  {
    var p := RankIs(order, k);
    if |t| == 0 || Rank(order, x) <= Rank(order, t[0]) {
      FilterCons(x, t, p);
    } else {
      InsertSparesOtherClasses(order, x, t[1..], k);
      assert [t[0]] + t[1..] == t;
      FilterSameFront(t[0], Insert(order, x, t[1..]), t[1..], p);
    }
  }

  /** An element that fails the filter can move in front of `x` without changing it. */
  lemma FilterSkipsFront(a: string, rest: seq<string>, t: seq<string>, x: string, p: string -> bool)
    requires Filter(rest, p) == [x] + Filter(t, p)
    requires !p(a)
    ensures Filter([a] + rest, p) == [x] + Filter([a] + t, p)
  {
    FilterCons(a, rest, p);
    FilterCons(a, t, p);
  }

  /** Sequences that filter alike still do so with the same element in front. */
  lemma FilterSameFront(a: string, rest: seq<string>, t: seq<string>, p: string -> bool)
    requires Filter(rest, p) == Filter(t, p)
    ensures Filter([a] + rest, p) == Filter([a] + t, p)
  {
    FilterCons(a, rest, p);
    FilterCons(a, t, p);
  }

  /** The sort is stable: within one rank the input order is kept. */
  lemma {:induction false} SortStable(order: seq<string>, s: seq<string>, k: int)
    ensures Filter(SortByRank(order, s), RankIs(order, k)) == Filter(s, RankIs(order, k))
    decreases |s|
  {
    if |s| > 0 {
      SortStable(order, s[1..], k);
      var sorted := SortByRank(order, s[1..]);
      assert [s[0]] + s[1..] == s;
      if Rank(order, s[0]) == k {
        InsertJoinsClass(order, s[0], sorted);
        FilterCons(s[0], s[1..], RankIs(order, k));
      } else {
        InsertSparesOtherClasses(order, s[0], sorted, k);
        FilterCons(s[0], s[1..], RankIs(order, k));
      }
    }
  }

  /** Office list contents: every office that occurs in the data, each exactly once. */
  lemma OfficeListContents(order: seq<string>, cs: seq<Candidate>)
    ensures forall o :: o in OfficesBy(order, cs) <==> exists i :: 0 <= i < |cs| && cs[i].office == o
    ensures NoDups(OfficesBy(order, cs))
  {
    var data := Map(cs, OfficeOf);
    MapAt(cs, OfficeOf);
    var d := Dedup(data);
    SortNoDups(order, d);
    forall o
      ensures o in OfficesBy(order, cs) <==> exists i :: 0 <= i < |cs| && cs[i].office == o
    {
      assert o in OfficesBy(order, cs) <==> o in multiset(d);
      if o in data {
        var i :| 0 <= i < |data| && data[i] == o;
        assert cs[i].office == o;
      }
    }
  }

  /** A filter keeps any strictly increasing key strictly increasing. */
  lemma {:induction false} FilterKeepsIncreasing(s: seq<string>, p: string -> bool, data: seq<string>)
    requires forall i, j :: 0 <= i < j < |s| ==> IndexOf(data, s[i]) < IndexOf(data, s[j])
    ensures forall i, j :: 0 <= i < j < |Filter(s, p)| ==>
              IndexOf(data, Filter(s, p)[i]) < IndexOf(data, Filter(s, p)[j])
    decreases |s|
  {
    if |s| > 0 {
      FilterKeepsIncreasing(s[1..], p, data);
      var rest := Filter(s[1..], p);
      if p(s[0]) {
        var r := [s[0]] + rest;
        forall i, j | 0 <= i < j < |r|
          ensures IndexOf(data, r[i]) < IndexOf(data, r[j])
        {
          if i == 0 {
            assert r[j] in s[1..];
          }
        }
      }
    }
  }

  /**
   * Office list order: offices on the list appear in list order and after every
   * office that is not on it; the unlisted ones (rank -1) come in the order in
   * which they first appear in the data.
   */
  lemma OfficeListOrder(order: seq<string>, cs: seq<Candidate>)
    ensures var r := OfficesBy(order, cs);
            forall i, j :: 0 <= i < j < |r| && Rank(order, r[i]) >= 0 ==> Rank(order, r[i]) < Rank(order, r[j])
    ensures var r := OfficesBy(order, cs);
            forall i, j :: 0 <= i < j < |r| && Rank(order, r[j]) == -1 ==> Rank(order, r[i]) == -1
    ensures var data := Map(cs, OfficeOf);
            var unlisted := Filter(OfficesBy(order, cs), RankIs(order, -1));
            forall i, j :: 0 <= i < j < |unlisted| ==> IndexOf(data, unlisted[i]) < IndexOf(data, unlisted[j])
  {
    var data := Map(cs, OfficeOf);
    var d := Dedup(data);
    var r := OfficesBy(order, cs);
    SortSorted(order, d);
    OfficeListContents(order, cs);
    forall i, j | 0 <= i < j < |r| && Rank(order, r[i]) >= 0
      ensures Rank(order, r[i]) < Rank(order, r[j])
    {
      RankDistinct(order, r[i], r[j]);
    }
    SortStable(order, d, -1);
    DedupFirstAppearance(data);
    FilterKeepsIncreasing(d, RankIs(order, -1), data);
  }

  // ---------------------------------------------------------------------------
  // The filter
  // ---------------------------------------------------------------------------

  /** The `filteredCandidates` test: each selector either is "all" or equals the field. */
  predicate Selects(office: string, slate: string, c: Candidate) {
    (office == ALL || c.office == office) && (slate == ALL || c.slate == slate)
  }

  function Selector(office: string, slate: string): Candidate -> bool {
    (c: Candidate) => Selects(office, slate, c)
  }

  /** The `filteredCandidates` memo. */
  function FilteredCandidates(cs: seq<Candidate>, office: string, slate: string): seq<Candidate> {
    Filter(cs, Selector(office, slate))
  }

  /**
   * With both selectors at "all" the filter is the identity; otherwise it keeps
   * the order of the data and keeps exactly the candidates both selectors admit,
   * every copy of each.
   */
  lemma FilterContract(cs: seq<Candidate>, office: string, slate: string)
    ensures office == ALL && slate == ALL ==> FilteredCandidates(cs, office, slate) == cs
    ensures IsSubseq(FilteredCandidates(cs, office, slate), cs)
    ensures forall c :: c in FilteredCandidates(cs, office, slate) <==>
              c in cs && (office == ALL || c.office == office) && (slate == ALL || c.slate == slate)
    ensures forall c :: multiset(FilteredCandidates(cs, office, slate))[c] ==
              if (office == ALL || c.office == office) && (slate == ALL || c.slate == slate)
              then multiset(cs)[c] else 0
  {
    FilterIsSubseq(cs, Selector(office, slate));
    FilterCounts(cs, Selector(office, slate));
    if office == ALL && slate == ALL {
      FilterAllPass(cs, Selector(office, slate));
    }
  }

  // ---------------------------------------------------------------------------
  // Grouping
  // ---------------------------------------------------------------------------

  /** One entry of `groupedCandidates`: an office and its candidates. */
  datatype Group = Group(office: string, members: seq<Candidate>)

  function HasOffice(office: string): Candidate -> bool {
    (c: Candidate) => c.office == office
  }

  /** The candidates whose office is one of `order`. */
  function InOrder(order: seq<string>): Candidate -> bool {
    (c: Candidate) => c.office in order
  }

  /** The group of `office`: its candidates, or nothing when it has none. */
  function GroupOf(cs: seq<Candidate>, office: string): (g: seq<Group>)
    ensures |g| <= 1
    ensures |g| == 1 <==> exists c :: c in cs && c.office == office
    ensures |g| == 1 ==> g[0].office == office && g[0].members == Filter(cs, HasOffice(office))
  {
    var members := Filter(cs, HasOffice(office));
    if |members| > 0 then
      assert members[0] in members;
      [Group(office, members)]
    else
      assert forall c :: c in cs && c.office == office ==> c in members;
      []
  }

  /**
   * Grouping by office, then keeping the groups in the order of `order`:
   * an office of `order` with no candidate gets no group, and an office not
   * in `order` is dropped.
   */
  function GroupsOver(cs: seq<Candidate>, order: seq<string>): (gs: seq<Group>)
    ensures forall i :: 0 <= i < |gs| ==>
              gs[i].office in order && |gs[i].members| > 0
              && gs[i].members == Filter(cs, HasOffice(gs[i].office))
    decreases |order|
  {
    if |order| == 0 then []
    else GroupOf(cs, order[0]) + GroupsOver(cs, order[1..])
  }

  /** The `groupedCandidates` memo. */
  function Grouped(filtered: seq<Candidate>): seq<Group> {
    GroupsOver(filtered, OFFICE_ORDER)
  }

  function GroupOffice(g: Group): string {
    g.office
  }

  /** The group keys, in order (`Object.entries(groupedCandidates)`). */
  function Keys(gs: seq<Group>): seq<string> {
    Map(gs, GroupOffice)
  }

  /** The candidates of all groups, group after group: the rows of the table body. */
  function Members(gs: seq<Group>): seq<Candidate>
    decreases |gs|
  {
    if |gs| == 0 then [] else gs[0].members + Members(gs[1..])
  }

  /** Group keys follow the order. */
  lemma {:induction false} GroupKeysOrdered(cs: seq<Candidate>, order: seq<string>)
    ensures IsSubseq(Keys(GroupsOver(cs, order)), order)
    decreases |order|
  {
    if |order| > 0 {
      GroupKeysOrdered(cs, order[1..]);
      var g0 := GroupOf(cs, order[0]);
      var rest := GroupsOver(cs, order[1..]);
      MapAppend(g0, rest, GroupOffice);
      if |g0| == 1 {
        MapAt(g0, GroupOffice);
        assert Keys(GroupsOver(cs, order)) == [order[0]] + Keys(rest);
        assert ([order[0]] + Keys(rest))[1..] == Keys(rest);
      } else {
        assert g0 == [];
        assert GroupsOver(cs, order) == rest;
      }
    }
  }

  /** Every group key is an office of the order that has a candidate. */
  lemma KeyHasCandidate(cs: seq<Candidate>, order: seq<string>, o: string)
    requires o in Keys(GroupsOver(cs, order))
    ensures o in order && exists c :: c in cs && c.office == o
  {
    var gs := GroupsOver(cs, order);
    MapAt(gs, GroupOffice);
    var i :| 0 <= i < |gs| && Keys(gs)[i] == o;
    assert gs[i].members[0] in Filter(cs, HasOffice(o));
  }

  /** Every office of the order that has a candidate is a group key. */
  lemma {:induction false} CandidateHasKey(cs: seq<Candidate>, order: seq<string>, o: string, c: Candidate)
    requires o in order && c in cs && c.office == o
    ensures o in Keys(GroupsOver(cs, order))
    decreases |order|
  {
    var g0 := GroupOf(cs, order[0]);
    var rest := GroupsOver(cs, order[1..]);
    MapAppend(g0, rest, GroupOffice);
    MapAt(GroupsOver(cs, order), GroupOffice);
    if o == order[0] {
      assert Keys(GroupsOver(cs, order))[0] == o;
    } else {
      CandidateHasKey(cs, order[1..], o, c);
    }
  }

  /** A group key is present exactly for an office of the order that has a candidate. */
  lemma GroupKeysPresent(cs: seq<Candidate>, order: seq<string>, o: string)
    ensures o in Keys(GroupsOver(cs, order)) <==> o in order && exists c :: c in cs && c.office == o
  {
    if o in Keys(GroupsOver(cs, order)) {
      KeyHasCandidate(cs, order, o);
    }
    if o in order && exists c :: c in cs && c.office == o {
      var c :| c in cs && c.office == o;
      CandidateHasKey(cs, order, o, c);
    }
  }

  /** Over an order without repeats, no two groups share a key. */
  lemma GroupKeysDistinct(cs: seq<Candidate>, order: seq<string>)
    requires NoDups(order)
    ensures NoDups(Keys(GroupsOver(cs, order)))
  {
    GroupKeysOrdered(cs, order);
    SubseqNoDups(Keys(GroupsOver(cs, order)), order);
  }

  /** The groups of the page are pairwise disjoint. */
  lemma GroupsDisjoint(filtered: seq<Candidate>)
    ensures var gs := Grouped(filtered);
            forall i, j, c :: 0 <= i < |gs| && 0 <= j < |gs| && i != j && c in gs[i].members ==>
              c !in gs[j].members
  {
    OfficeOrderDistinct();
    GroupsOverDisjoint(filtered, OFFICE_ORDER);
    assert Grouped(filtered) == GroupsOver(filtered, OFFICE_ORDER);
  }

  /** Over an order without repeats, no candidate is in two groups. */
  lemma GroupsOverDisjoint(cs: seq<Candidate>, order: seq<string>)
    requires NoDups(order)
    ensures var gs := GroupsOver(cs, order);
            forall i, j, c :: 0 <= i < |gs| && 0 <= j < |gs| && i != j && c in gs[i].members ==>
              c !in gs[j].members
  {
    var gs := GroupsOver(cs, order);
    GroupKeysDistinct(cs, order);
    forall i, j, c | 0 <= i < |gs| && 0 <= j < |gs| && i != j && c in gs[i].members
      ensures c !in gs[j].members
    {
      assert Keys(gs)[i] != Keys(gs)[j];
    }
  }

  /** The rows of one office's group, as a multiset. */
  lemma GroupOfRows(cs: seq<Candidate>, office: string)
    ensures multiset(Members(GroupOf(cs, office))) == multiset(Filter(cs, HasOffice(office)))
  {
    var g := GroupOf(cs, office);
    if |g| == 1 {
      assert Members(g) == g[0].members + Members([]);
    } else {
      assert Filter(cs, HasOffice(office)) == [];
    }
  }

  lemma {:induction false} MembersAppend(a: seq<Group>, b: seq<Group>)
    ensures Members(a + b) == Members(a) + Members(b)
    decreases |a|
  {
    if |a| > 0 {
      assert (a + b)[1..] == a[1..] + b;
      MembersAppend(a[1..], b);
    } else {
      assert a + b == b;
    }
  }

  /**
   * The rows under the groups are exactly the candidates whose office is in the
   * order, each as many times as it occurs.
   */
  lemma {:induction false} GroupRows(cs: seq<Candidate>, order: seq<string>)
    requires NoDups(order)
    ensures multiset(Members(GroupsOver(cs, order))) == multiset(Filter(cs, InOrder(order)))
    decreases |order|
  {
    if |order| > 0 {
      var o := order[0];
      assert NoDups(order[1..]);
      GroupRows(cs, order[1..]);
      MembersAppend(GroupOf(cs, o), GroupsOver(cs, order[1..]));
      GroupOfRows(cs, o);
      OrderSplits(order);
      FilterDisjointMultiset(cs, HasOffice(o), InOrder(order[1..]), InOrder(order));
    }
  }

  /** An order without repeats splits into its head and a tail that lacks it. */
  lemma OrderSplits(order: seq<string>)
    requires |order| > 0 && NoDups(order)
    ensures forall c: Candidate :: InOrder(order)(c) == (HasOffice(order[0])(c) || InOrder(order[1..])(c))
    ensures forall c: Candidate :: !(HasOffice(order[0])(c) && InOrder(order[1..])(c))
  {
    assert order == [order[0]] + order[1..];
    assert order[0] !in order[1..];
  }

  // ---------------------------------------------------------------------------
  // Status, slates and the table row
  // ---------------------------------------------------------------------------

  /** The four statuses of `getStatus`, with the row's CSS class and badge label. */
  datatype Status = Responded | Declined | Undeliverable | NoResponse {
    function Class(): string {
      match this
      case Responded => "responded"
      case Declined => "declined"
      case Undeliverable => "undeliverable"
      case NoResponse => "no-response"
    }

    function Label(): string {
      match this
      case Responded => "\U{2713} Yes"
      case Declined => "\U{2717} Declined"
      case Undeliverable => "\U{26A0} No Valid Contact"
      case NoResponse => "\U{2014} Pending"
    }
  }

  /** `getStatus`: the first flag set, in the order responded, declined, undeliverable. */
  function GetStatus(c: Candidate): (s: Status)
    ensures s.Responded? <==> c.responded
    ensures s.Declined? <==> !c.responded && c.declined
    ensures s.Undeliverable? <==> !c.responded && !c.declined && c.undeliverable
    ensures s.NoResponse? <==> !c.responded && !c.declined && !c.undeliverable
  {
    if c.responded then Responded
    else if c.declined then Declined
    else if c.undeliverable then Undeliverable
    else NoResponse
  }

  /** A row's class tells its status apart, and so does its label. */
  lemma StatusDistinct(s: Status, t: Status)
    ensures s.Class() == t.Class() <==> s == t
    ensures s.Label() == t.Label() <==> s == t
  {
    if s != t {
      assert s.Class()[0] != t.Class()[0] || |s.Class()| != |t.Class()|;
      assert s.Label()[0] != t.Label()[0];
    }
  }

  /** `getSlateClass`. */
  function SlateClass(slate: string): (r: string)
    ensures r == "free-dc" <==> slate == FREE_DC
    ensures r == "dems-united" <==> slate == DEMS_UNITED
    ensures r == "independent" <==> slate != FREE_DC && slate != DEMS_UNITED
  {
    if slate == FREE_DC then "free-dc"
    else if slate == DEMS_UNITED then "dems-united"
    else "independent"
  }

  /** `getSlateAbbrev`. */
  function SlateAbbrev(slate: string): (r: string)
    ensures r == "FDC" <==> slate == FREE_DC
    ensures r == "DU" <==> slate == DEMS_UNITED
    ensures r == "IND" <==> slate != FREE_DC && slate != DEMS_UNITED
  {
    if slate == FREE_DC then "FDC"
    else if slate == DEMS_UNITED then "DU"
    else "IND"
  }

  /** The two slate maps tell the same slates apart: a badge's class and text always agree. */
  lemma SlateMapsAgree(a: string, b: string)
    ensures SlateClass(a) == SlateClass(b) <==> SlateAbbrev(a) == SlateAbbrev(b)
  {
  }

  /** The placeholder shown for a missing value. */
  const DASH: string := "\U{2014}"

  /** JavaScript falsiness of an optional text: absent, `null` or empty. */
  predicate Falsy(v: Option<string>) {
    v.None? || v.value == ""
  }

  /** `candidate.supportsStatehood || '—'`: a truthy value as it is, otherwise the dash. */
  function SupportShown(v: Option<string>): (r: string)
    ensures r != ""
    ensures !Falsy(v) ==> r == v.value
  {
    if Falsy(v) then DASH else v.value
  }

  /** The dash shows exactly for a falsy value or for a value that is itself the dash. */
  lemma SupportFallback(v: Option<string>)
    ensures SupportShown(v) == DASH <==> Falsy(v) || v == Some(DASH)
  {
  }

  /** What one row of the table body shows. */
  datatype TableRow = TableRow(
    name: string,
    slateClass: string,
    slateAbbrev: string,
    slateTitle: string,
    position: Option<string>,
    status: Status,
    support: string,
    viewResponse: bool)

  /** The row of one candidate; the position column exists only while the office selector is "all". */
  function ShowRow(selectedOffice: string): Candidate -> TableRow {
    (c: Candidate) => TableRow(
      c.name,
      SlateClass(c.slate),
      SlateAbbrev(c.slate),
      c.slate,
      if selectedOffice == ALL then Some(c.office) else None,
      GetStatus(c),
      SupportShown(c.supportsStatehood),
      c.responded)
  }

  /** The table body for the current selectors. */
  function Table(cs: seq<Candidate>, office: string, slate: string): seq<TableRow> {
    Map(Members(Grouped(FilteredCandidates(cs, office, slate))), ShowRow(office))
  }

  /**
   * The table has one row per filtered candidate whose office is on the fixed
   * list; each row offers "View Response" exactly when its status is responded,
   * shows its position exactly when the office selector is "all", and never
   * leaves the statehood cell blank.
   */
  lemma TableShape(cs: seq<Candidate>, office: string, slate: string)
    ensures |Table(cs, office, slate)| == |Filter(FilteredCandidates(cs, office, slate), InOrder(OFFICE_ORDER))|
    ensures forall i :: 0 <= i < |Table(cs, office, slate)| ==>
              var row := Table(cs, office, slate)[i];
              && (row.viewResponse <==> row.status.Responded?)
              && (row.position.Some? <==> office == ALL)
              && row.support != ""
  {
    var rows := Members(Grouped(FilteredCandidates(cs, office, slate)));
    MapAt(rows, ShowRow(office));
    RowCount(FilteredCandidates(cs, office, slate));
    RowsShape(rows, office);
  }

  /** Every shown row offers its response exactly when responded, and so on. */
  lemma RowsShape(rows: seq<Candidate>, office: string)
    ensures forall i :: 0 <= i < |rows| ==>
              var row := ShowRow(office)(rows[i]);
              && (row.viewResponse <==> row.status.Responded?)
              && (row.position.Some? <==> office == ALL)
              && row.support != ""
  {
  }

  /** One row per filtered candidate whose office is on the fixed list. */
  lemma RowCount(filtered: seq<Candidate>)
    ensures |Members(Grouped(filtered))| == |Filter(filtered, InOrder(OFFICE_ORDER))|
  {
    OfficeOrderDistinct();
    GroupRows(filtered, OFFICE_ORDER);
    assert |multiset(Members(Grouped(filtered)))| == |Members(Grouped(filtered))|;
  }
}
