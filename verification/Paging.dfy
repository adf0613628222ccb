/**
 Keyset pagination of integration keys and escalation policies: each page is the start of an ordered query whose
 WHERE clause skips everything up to the last row of the page before. A walk follows the cursors to the end.
 */
module Paging {
  import opened Common

  /** id is the primary key, a UUID compared as a number; favorite is a favorite of the searching user. */
  datatype Row = Row(id: nat, name: string, favorite: bool)

  /** Where ORDER BY puts a row: favorites first if asked for, then lower(name), then id if it is ordered by. */
  datatype Pos = Pos(group: nat, name: real, id: nat)

  predicate Less(a: Pos, b: Pos) {
    a.group < b.group || (a.group == b.group && (a.name < b.name || (a.name == b.name && a.id < b.id)))
  }

  /**
   The two searches. rows are those matching every condition but the cursor, and lower places lower(name) in the
   database's collation. The policy cursor carries the favorite flag of the last row only if keepsFavorite is set.
   */
  datatype Query =
    | IntKeys(rows: set<Row>, lower: string -> real)
    | Policies(rows: set<Row>, lower: string -> real, favoritesFirst: bool, keepsFavorite: bool)

  function Position(q: Query, r: Row): Pos {
    match q
    case IntKeys(_, lower) => Pos(0, lower(r.name), r.id)
    case Policies(_, lower, favoritesFirst, _) => Pos(if favoritesFirst && !r.favorite then 1 else 0, lower(r.name), 0)
  }

  // ---- The WHERE clauses ----

  /** The cursor condition of intKeySearchTemplate; an empty name is no cursor, an empty ID one by name alone. */
  predicate KeyAfter(lower: string -> real, after: string, afterID: Option<nat>, r: Row) {
    after == ""
    || (match afterID
        case Some(id) => lower(r.name) > lower(after) || (lower(r.name) == lower(after) && r.id > id)
        case None => lower(r.name) > lower(after))
  }

  /** A cursor without an ID skips what one with any ID skips, and all rows of the same lower(name). */
  lemma NameCursorSkipsTies(lower: string -> real, after: string, id: nat, r: Row)
    requires after != ""
    ensures KeyAfter(lower, after, None, r) <==> KeyAfter(lower, after, Some(id), r) && lower(r.name) != lower(after)
  {
  }

  /** SearchCursor. */
  datatype Cursor = Cursor(name: string, isFavorite: bool)

  /** The cursor condition of the policy search. */
  predicate PolicyAfter(lower: string -> real, favoritesFirst: bool, after: Cursor, r: Row) {
    after.name == ""
    || (if !favoritesFirst then lower(r.name) > lower(after.name)
        else if after.isFavorite then (r.favorite && lower(r.name) > lower(after.name)) || !r.favorite
        else !r.favorite && lower(r.name) > lower(after.name))
  }

  /** The rows the query keeps when its cursor was made from the row after. */
  function Selected(q: Query, after: Option<Row>): set<Row> {
    match q
    case IntKeys(rows, lower) =>
      (match after
       case None => set r | r in rows && KeyAfter(lower, "", None, r)
       case Some(a) => set r | r in rows && KeyAfter(lower, a.name, Some(a.id), r))
    case Policies(rows, lower, favoritesFirst, keepsFavorite) =>
      (match after
       case None => set r | r in rows && PolicyAfter(lower, favoritesFirst, Cursor("", false), r)
       case Some(a) =>
         set r | r in rows && PolicyAfter(lower, favoritesFirst, Cursor(a.name, keepsFavorite && a.favorite), r))
  }

  // ---- Results and walks ----

  /** s lists exactly the given rows, each once, in an order the query allows. */
  ghost predicate Sorting(q: Query, s: seq<Row>, rows: set<Row>) {
    && (forall i, j :: 0 <= i < j < |s| ==> !Less(Position(q, s[j]), Position(q, s[i])))
    && (forall i, j :: 0 <= i < j < |s| ==> s[i] != s[j])
    && (forall r :: r in s <==> r in rows)
  }

  function Front(s: seq<Row>, n: nat): seq<Row> {
    if |s| <= n then s else s[..n]
  }

  /**
   One page. The database answers with any allowed order, cut by LIMIT; the resolver asks for one row more than its
   page size n, to learn whether there is a next page, and drops it.
   */
  ghost predicate Page(q: Query, after: Option<Row>, n: nat, page: seq<Row>, hasNext: bool) {
    exists all :: Sorting(q, all, Selected(q, after)) && hasNext == (|Front(all, n + 1)| == n + 1)
                  && page == Front(Front(all, n + 1), n)
  }

  /** Pages followed by their end cursors; done when the last one has no next page. */
  ghost predicate Walk(q: Query, n: nat, after: Option<Row>, pages: seq<seq<Row>>, done: bool)
    decreases |pages|
  {
    if pages == [] then !done
    else if |pages| == 1 && done then Page(q, after, n, pages[0], false)
    else pages[0] != [] && Page(q, after, n, pages[0], true)
         && Walk(q, n, Some(pages[0][|pages[0]| - 1]), pages[1..], done)
  }

  function Flatten(pages: seq<seq<Row>>): seq<Row> {
    if pages == [] then [] else pages[0] + Flatten(pages[1..])
  }

  /** What a walk promises: every row once, in the declared order. */
  ghost predicate Complete(q: Query, pages: seq<seq<Row>>) {
    Sorting(q, Flatten(pages), q.rows)
  }

  lemma PageShape(q: Query, after: Option<Row>, n: nat, page: seq<Row>, hasNext: bool) returns (all: seq<Row>)
    requires Page(q, after, n, page, hasNext)
    ensures Sorting(q, all, Selected(q, after)) && hasNext == (|all| > n) && page == Front(all, n)
  {
    all :| Sorting(q, all, Selected(q, after)) && hasNext == (|Front(all, n + 1)| == n + 1)
           && page == Front(Front(all, n + 1), n);
  }

  // ---- Queries that skip by position ----

  function Later(q: Query, rows: set<Row>, last: Row): set<Row> {
    set r | r in rows && Less(Position(q, last), Position(q, r))
  }

  predicate UniquePositions(q: Query, rows: set<Row>) {
    forall a, b :: a in rows && b in rows && Position(q, a) == Position(q, b) ==> a == b
  }

  /** Among these rows, a cursor skips exactly the rows up to its own position. */
  ghost predicate SkipsByPosition(q: Query, rows: set<Row>) {
    forall last :: last in rows ==> Selected(q, Some(last)) == Later(q, rows, last)
  }

  lemma LaterIsByPosition(q: Query, rows: set<Row>, last: Row)
    requires SkipsByPosition(q, rows) && last in rows
    ensures SkipsByPosition(q, Later(q, rows, last)) && last !in Later(q, rows, last)
  {
    var rest := Later(q, rows, last);
    forall x | x in rest
      ensures Selected(q, Some(x)) == Later(q, rest, x)
    {
      assert Selected(q, Some(x)) == Later(q, rows, x);
    }
  }

  /** Nothing up to the cut is later than the row at the cut, and everything beyond it is. */
  lemma CutIsLast(q: Query, all: seq<Row>, rows: set<Row>, n: nat, k: nat)
    requires Sorting(q, all, rows) && UniquePositions(q, rows) && 0 < n < |all| && k < |all|
    ensures k >= n <==> Less(Position(q, all[n - 1]), Position(q, all[k]))
  {
    assert all[k] in all && all[n - 1] in all;
    if k < n - 1 {
      assert !Less(Position(q, all[n - 1]), Position(q, all[k]));
    } else if k >= n {
      assert !Less(Position(q, all[k]), Position(q, all[n - 1])) && all[k] != all[n - 1];
    }
  }

  lemma RestAfterCut(q: Query, all: seq<Row>, rows: set<Row>, n: nat, r: Row)
    requires Sorting(q, all, rows) && UniquePositions(q, rows) && 0 < n < |all|
    ensures r in Later(q, rows, all[n - 1]) <==> r in all[n..]
  {
    if r in all[n..] {
      var i :| 0 <= i < |all[n..]| && all[n..][i] == r;
      CutIsLast(q, all, rows, n, n + i);
    }
    if r in Later(q, rows, all[n - 1]) {
      var k :| 0 <= k < |all| && all[k] == r;
      CutIsLast(q, all, rows, n, k);
      assert all[n..][k - n] == r;
    }
  }

  lemma JoinPages(q: Query, all: seq<Row>, rows: set<Row>, n: nat, rest: seq<Row>)
    requires Sorting(q, all, rows) && 0 < n < |all|
    requires forall r :: r in Later(q, rows, all[n - 1]) <==> r in all[n..]
    requires Sorting(q, rest, Later(q, rows, all[n - 1]))
    ensures Sorting(q, all[..n] + rest, rows)
  {
    var s, last := all[..n] + rest, all[n - 1];
    forall i, j | 0 <= i < j < |s|
      ensures !Less(Position(q, s[j]), Position(q, s[i])) && s[i] != s[j]
    {
      if i < n <= j {
        assert s[j] == rest[j - n] && s[j] in rest && s[j] in Later(q, rows, last);
        assert i < n - 1 ==> !Less(Position(q, last), Position(q, all[i]));
      } else if i >= n {
        assert s[i] == rest[i - n] && s[j] == rest[j - n];
      }
    }
    forall r
      ensures r in s <==> r in rows
    {
      assert all == all[..n] + all[n..];
      assert r in s <==> r in all[..n] || r in rest;
      assert r in all <==> r in all[..n] || r in all[n..];
    }
  }

  lemma JoinLater(q: Query, all: seq<Row>, rows: set<Row>, n: nat, rest: seq<Row>)
    requires Sorting(q, all, rows) && UniquePositions(q, rows) && 0 < n < |all|
    requires Sorting(q, rest, Later(q, rows, all[n - 1]))
    ensures Sorting(q, all[..n] + rest, rows)
  {
    forall r
      ensures r in Later(q, rows, all[n - 1]) <==> r in all[n..]
    {
      RestAfterCut(q, all, rows, n, r);
    }
    JoinPages(q, all, rows, n, rest);
  }

  /** A finished walk of several pages: its first page is cut from a sorting, and the rest follows the cut. */
  lemma FirstPageOf(q: Query, n: nat, after: Option<Row>, pages: seq<seq<Row>>) returns (all: seq<Row>)
    requires n >= 1 && |pages| > 1 && Walk(q, n, after, pages, true)
    ensures Sorting(q, all, Selected(q, after)) && n < |all| && all[n - 1] in Selected(q, after)
    ensures Flatten(pages) == all[..n] + Flatten(pages[1..]) && Walk(q, n, Some(all[n - 1]), pages[1..], true)
  {
    all := PageShape(q, after, n, pages[0], true);
    assert all[n - 1] in all && pages[0][|pages[0]| - 1] == all[n - 1];
  }

  /** A finished walk of a query that skips by position yields the selected rows, each once, in order. */
  lemma {:induction false} WalkSorts(q: Query, n: nat, after: Option<Row>, pages: seq<seq<Row>>)
    requires n >= 1 && Walk(q, n, after, pages, true)
    requires SkipsByPosition(q, Selected(q, after)) && UniquePositions(q, Selected(q, after))
    ensures Sorting(q, Flatten(pages), Selected(q, after))
    decreases |pages|
  {
    if |pages| == 1 {
      var all := PageShape(q, after, n, pages[0], false);
      assert Flatten(pages) == pages[0] == all;
    } else {
      var all := FirstPageOf(q, n, after, pages);
      LaterIsByPosition(q, Selected(q, after), all[n - 1]);
      WalkSorts(q, n, Some(all[n - 1]), pages[1..]);
      JoinLater(q, all, Selected(q, after), n, Flatten(pages[1..]));
    }
  }

  // ---- Termination ----

  lemma {:induction false} SortingExists(q: Query, rows: set<Row>) returns (s: seq<Row>)
    ensures Sorting(q, s, rows)
    decreases |rows|
  {
    if rows == {} {
      s := [];
    } else {
      var first := Earliest(q, rows);
      var rest := SortingExists(q, rows - {first});
      s := [first] + rest;
      forall j | 0 < j < |s|
        ensures !Less(Position(q, s[j]), Position(q, s[0])) && s[0] != s[j]
      {
        assert s[j] == rest[j - 1] && s[j] in rest;
      }
    }
  }

  lemma {:induction false} Earliest(q: Query, rows: set<Row>) returns (first: Row)
    requires rows != {}
    ensures first in rows && forall r :: r in rows ==> !Less(Position(q, r), Position(q, first))
    decreases |rows|
  {
    var x :| x in rows;
    first := x;
    var others := rows - {x};
    if others != {} {
      var y := Earliest(q, others);
      if Less(Position(q, y), Position(q, x)) {
        first := y;
      }
    }
  }

  /** Names are never empty: both stores validate them. */
  predicate Named(rows: set<Row>) {
    forall r :: r in rows ==> r.name != ""
  }

  /** What a walk can still see after a cursor; without one, everything. */
  function Ahead(q: Query, after: Option<Row>): set<Row> {
    if after.None? then q.rows else Later(q, q.rows, after.value)
  }

  lemma SelectedIsAhead(q: Query, after: Option<Row>)
    requires Named(q.rows) && (after.Some? ==> after.value in q.rows)
    ensures Selected(q, after) <= Ahead(q, after)
    ensures !(q.Policies? && q.favoritesFirst && !q.keepsFavorite && after.Some? && after.value.favorite) ==>
              Selected(q, after) == Ahead(q, after)
  {
  }

  lemma AheadShrinks(q: Query, after: Option<Row>, last: Row)
    requires last in Ahead(q, after)
    ensures Later(q, q.rows, last) <= Ahead(q, after) - {last}
    ensures |Later(q, q.rows, last)| < |Ahead(q, after)|
  {
    var rest, all := Later(q, q.rows, last), Ahead(q, after);
    assert rest <= all - {last};
    CardinalityOfSubset(rest, all - {last});
  }

  lemma {:induction false} CardinalityOfSubset(a: set<Row>, b: set<Row>)
    requires a <= b
    ensures |a| <= |b|
  {
    if a != {} {
      var x :| x in a;
      CardinalityOfSubset(a - {x}, b - {x});
    }
  }

  /** The last row of a page that has a next one. */
  lemma CursorIsAhead(q: Query, after: Option<Row>, n: nat, page: seq<Row>)
    requires n >= 1 && Named(q.rows) && (after.Some? ==> after.value in q.rows) && Page(q, after, n, page, true)
    ensures |page| == n && page[n - 1] in Ahead(q, after) && page[n - 1] in q.rows
    ensures forall r :: r in page ==> r in Ahead(q, after)
  {
    var all := PageShape(q, after, n, page, true);
    SelectedIsAhead(q, after);
    assert page == all[..n];
    forall r | r in page
      ensures r in all
    {
    }
    assert page[n - 1] in page;
  }

  lemma {:induction false} WalkStep(q: Query, n: nat, after: Option<Row>, pages: seq<seq<Row>>, done: bool) returns (last: Row)
    requires n >= 1 && Named(q.rows) && (after.Some? ==> after.value in q.rows) && Walk(q, n, after, pages, done)
    requires |pages| > (if done then 1 else 0)
    ensures last in q.rows && |pages[0]| == n && last == pages[0][n - 1] && Walk(q, n, Some(last), pages[1..], done)
    ensures |Ahead(q, Some(last))| < |Ahead(q, after)|
    ensures Ahead(q, Some(last)) <= Ahead(q, after) && forall r :: r in pages[0] ==> r in Ahead(q, after)
  {
    CursorIsAhead(q, after, n, pages[0]);
    last := pages[0][n - 1];
    AheadShrinks(q, after, last);
  }

  /** No walk goes on forever: it has at most one page more than there are rows. */
  lemma {:induction false} WalksAreShort(q: Query, n: nat, after: Option<Row>, pages: seq<seq<Row>>, done: bool)
    requires n >= 1 && Named(q.rows) && (after.Some? ==> after.value in q.rows) && Walk(q, n, after, pages, done)
    ensures |pages| <= |Ahead(q, after)| + 1
    decreases |pages|
  {
    if |pages| > (if done then 1 else 0) {
      var last := WalkStep(q, n, after, pages, done);
      WalksAreShort(q, n, Some(last), pages[1..], done);
    }
  }

  lemma PageExists(q: Query, n: nat, after: Option<Row>) returns (page: seq<Row>, hasNext: bool)
    requires n >= 1 && Named(q.rows) && (after.Some? ==> after.value in q.rows)
    ensures Page(q, after, n, page, hasNext)
    ensures hasNext ==> |page| == n && page[n - 1] in q.rows && |Ahead(q, Some(page[n - 1]))| < |Ahead(q, after)|
  {
    var all := SortingExists(q, Selected(q, after));
    page, hasNext := Front(all, n), |all| > n;
    if hasNext {
      CursorIsAhead(q, after, n, page);
      AheadShrinks(q, after, page[n - 1]);
    }
  }

  /** Every walk can be finished. */
  lemma {:induction false} WalkExists(q: Query, n: nat, after: Option<Row>) returns (pages: seq<seq<Row>>)
    requires n >= 1 && Named(q.rows) && (after.Some? ==> after.value in q.rows)
    ensures Walk(q, n, after, pages, true)
    decreases |Ahead(q, after)|
  {
    var page, hasNext := PageExists(q, n, after);
    pages := [page];
    if hasNext {
      var rest := WalkExists(q, n, Some(page[n - 1]));
      pages := [page] + rest;
    }
  }

  lemma {:induction false} WalkStaysAhead(q: Query, n: nat, after: Option<Row>, pages: seq<seq<Row>>, r: Row)
    requires n >= 1 && Named(q.rows) && (after.Some? ==> after.value in q.rows) && Walk(q, n, after, pages, true)
    requires r in Flatten(pages)
    ensures r in Ahead(q, after)
    decreases |pages|
  {
    if |pages| == 1 {
      var all := PageShape(q, after, n, pages[0], false);
      SelectedIsAhead(q, after);
      assert Flatten(pages) == pages[0] == all;
    } else {
      var last := WalkStep(q, n, after, pages, true);
      if r !in pages[0] {
        WalkStaysAhead(q, n, Some(last), pages[1..], r);
      }
    }
  }

  // ---- Integration keys ----

  lemma SkippingQuery(q: Query, rows: set<Row>)
    requires Named(q.rows) && rows == q.rows
    requires q.Policies? ==> q.keepsFavorite || !q.favoritesFirst
    ensures SkipsByPosition(q, rows) && Selected(q, None) == rows
  {
    SelectedIsAhead(q, None);
    forall last | last in rows
      ensures Selected(q, Some(last)) == Later(q, rows, last)
    {
      SelectedIsAhead(q, Some(last));
    }
  }

  /** Walking the integration keys yields every matching key once, by lower(name) and then id. */
  lemma KeyWalkIsComplete(rows: set<Row>, lower: string -> real, n: nat, pages: seq<seq<Row>>)
    requires n >= 1 && Named(rows) && (forall a, b :: a in rows && b in rows && a.id == b.id ==> a == b)
    requires Walk(IntKeys(rows, lower), n, None, pages, true)
    ensures Complete(IntKeys(rows, lower), pages)
  {
    SkippingQuery(IntKeys(rows, lower), rows);
    WalkSorts(IntKeys(rows, lower), n, None, pages);
  }

  /** Without a name there is no cursor: the page after a nameless row is the first page again. */
  lemma NamelessCursorStartsOver(q: Query, last: Row)
    requires last.name == ""
    ensures Selected(q, Some(last)) == Selected(q, None) == q.rows
  {
  }

  // ---- Escalation policies ----

  /** No two matching policies of one favorite group share lower(name); the schema forbids it for all policies. */
  predicate UniqueNames(rows: set<Row>, lower: string -> real, favoritesFirst: bool) {
    forall a, b :: a in rows && b in rows && lower(a.name) == lower(b.name) && (favoritesFirst ==> a.favorite == b.favorite)
                   ==> a == b
  }

  lemma {:induction false} OneRowPagesSeparate(q: Query, after: Option<Row>, pages: seq<seq<Row>>, a: Row, b: Row)
    requires Named(q.rows) && (after.Some? ==> after.value in q.rows) && Walk(q, 1, after, pages, true)
    requires a in Flatten(pages) && b in Flatten(pages) && Position(q, a) == Position(q, b)
    ensures a == b
    decreases |pages|
  {
    if |pages| == 1 {
      assert Flatten(pages) == pages[0];
      var all := PageShape(q, after, 1, pages[0], false);
    } else {
      var last := WalkStep(q, 1, after, pages, true);
      forall r | r in Flatten(pages[1..])
        ensures Less(Position(q, last), Position(q, r))
      {
        WalkStaysAhead(q, 1, Some(last), pages[1..], r);
      }
      if a in Flatten(pages[1..]) && b in Flatten(pages[1..]) {
        OneRowPagesSeparate(q, Some(last), pages[1..], a, b);
      }
    }
  }

  ghost predicate AllWalksComplete(q: Query) {
    forall n: nat, pages :: n >= 1 && Walk(q, n, None, pages, true) ==> Complete(q, pages)
  }

  /**
   With a cursor that carries the favorite flag, or without favorites first, walks of every page size are complete
   exactly when lower(name) is unique within each favorite group.
   */
  lemma PolicyWalksAreCompleteExactly(rows: set<Row>, lower: string -> real, favoritesFirst: bool, keepsFavorite: bool)
    requires Named(rows) && (keepsFavorite || !favoritesFirst)
    ensures AllWalksComplete(Policies(rows, lower, favoritesFirst, keepsFavorite)) <==> UniqueNames(rows, lower, favoritesFirst)
  {
    var q := Policies(rows, lower, favoritesFirst, keepsFavorite);
    SkippingQuery(q, rows);
    if UniqueNames(rows, lower, favoritesFirst) {
      assert UniquePositions(q, rows);
      forall n: nat, pages | n >= 1 && Walk(q, n, None, pages, true)
        ensures Complete(q, pages)
      {
        WalkSorts(q, n, None, pages);
      }
    } else {
      var a, b :| a in rows && b in rows && a != b && Position(q, a) == Position(q, b);
      var pages := WalkExists(q, 1, None);
      if Complete(q, pages) {
        OneRowPagesSeparate(q, None, pages, a, b);
      }
    }
  }

  // ---- The cursor the policy resolver makes ----

  lemma {:induction false} SortingIsUnique(q: Query, s: seq<Row>, t: seq<Row>, rows: set<Row>)
    requires Sorting(q, s, rows) && Sorting(q, t, rows) && UniquePositions(q, rows)
    ensures s == t
    decreases |s|
  {
    assert t != [] ==> t[0] in t && t[0] in s;
    if s != [] {
      assert s[0] in s && s[0] in t;
      FirstIsEarliest(q, s, rows, t[0]);
      FirstIsEarliest(q, t, rows, s[0]);
      TailSorts(q, s, rows);
      TailSorts(q, t, rows);
      SortingIsUnique(q, s[1..], t[1..], rows - {s[0]});
      assert s == [s[0]] + s[1..] && t == [t[0]] + t[1..];
    }
  }

  lemma FirstIsEarliest(q: Query, s: seq<Row>, rows: set<Row>, r: Row)
    requires Sorting(q, s, rows) && r in s
    ensures !Less(Position(q, r), Position(q, s[0]))
  {
    var i :| 0 <= i < |s| && s[i] == r;
  }

  lemma TailSorts(q: Query, s: seq<Row>, rows: set<Row>)
    requires Sorting(q, s, rows) && s != []
    ensures Sorting(q, s[1..], rows - {s[0]})
  {
    assert s == [s[0]] + s[1..];
  }

  /** Behind a cursor without the flag come only policies that are not favorites, with later names. */
  lemma BareCursorSelects(q: Query, last: Row)
    requires q.Policies? && q.favoritesFirst && !q.keepsFavorite && Named(q.rows) && last in q.rows
    ensures var rest := Selected(q, Some(last));
            && (forall r :: r in rest <==> r in q.rows && !r.favorite && q.lower(r.name) > q.lower(last.name))
            && SkipsByPosition(q, rest)
            && (UniquePositions(q, q.rows) ==> UniquePositions(q, rest))
  {
    var rest := Selected(q, Some(last));
    forall x | x in rest
      ensures Selected(q, Some(x)) == Later(q, rest, x)
    {
    }
  }

  /** s lists the matching policies in order; the second page starts where the first one ended. */
  predicate FirstCutIsClean(s: seq<Row>, lower: string -> real, n: nat) {
    n >= 1 &&
    (|s| <= n || !s[n - 1].favorite || (!s[n].favorite && lower(s[n - 1].name) < lower(s[n].name)))
  }

  lemma CleanCutLosesNothing(q: Query, s: seq<Row>, n: nat)
    requires q.Policies? && q.favoritesFirst && !q.keepsFavorite && Named(q.rows) && UniquePositions(q, q.rows)
    requires Sorting(q, s, q.rows) && 0 < n < |s|
    ensures FirstCutIsClean(s, q.lower, n) ==> Selected(q, Some(s[n - 1])) == Later(q, q.rows, s[n - 1])
    ensures !FirstCutIsClean(s, q.lower, n) ==> s[n] !in Selected(q, Some(s[n - 1]))
  {
    var last := s[n - 1];
    assert last in s && s[n] in s;
    BareCursorSelects(q, last);
    if FirstCutIsClean(s, q.lower, n) {
      forall r | r in Later(q, q.rows, last)
        ensures r in Selected(q, Some(last))
      {
        RestAfterCut(q, s, q.rows, n, r);
        var i :| 0 <= i < |s[n..]| && s[n..][i] == r;
        assert r == s[n + i];
        assert i > 0 ==> !Less(Position(q, r), Position(q, s[n]));
      }
      SelectedIsAhead(q, Some(last));
    }
  }

  /**
   The resolver's cursor never carries the favorite flag. With favorites first, a walk then yields every policy once
   and in order exactly when its first page is the only one, ends beyond the favorites, or ends with the last
   favorite and that favorite's name comes before the name of every other policy. Otherwise the policy that should
   come first on the second page is never shown.
   */
  lemma {:induction false} ResolverWalkIsCompleteExactly(rows: set<Row>, lower: string -> real, s: seq<Row>, n: nat, pages: seq<seq<Row>>)
    requires n >= 1 && Named(rows) && UniqueNames(rows, lower, true)
    requires Sorting(Policies(rows, lower, true, false), s, rows)
    requires Walk(Policies(rows, lower, true, false), n, None, pages, true)
    ensures Complete(Policies(rows, lower, true, false), pages) <==> FirstCutIsClean(s, lower, n)
    ensures !FirstCutIsClean(s, lower, n) ==> n < |s| && s[n] !in Flatten(pages)
  {
    var q := Policies(rows, lower, true, false);
    assert UniquePositions(q, rows);
    SelectedIsAhead(q, None);
    if |pages| == 1 {
      var all := PageShape(q, None, n, pages[0], false);
      SortingIsUnique(q, s, all, rows);
      assert Flatten(pages) == s;
    } else {
      var all := PageShape(q, None, n, pages[0], true);
      SortingIsUnique(q, s, all, rows);
      LaterPagesDecide(q, s, n, pages);
    }
  }

  lemma LaterPagesDecide(q: Query, s: seq<Row>, n: nat, pages: seq<seq<Row>>)
    requires q.Policies? && q.favoritesFirst && !q.keepsFavorite && Named(q.rows) && UniquePositions(q, q.rows)
    requires Sorting(q, s, q.rows) && 0 < n < |s| && |pages| > 1 && pages[0] == s[..n]
    requires Walk(q, n, None, pages, true)
    ensures Complete(q, pages) <==> FirstCutIsClean(s, q.lower, n)
    ensures !FirstCutIsClean(s, q.lower, n) ==> s[n] !in Flatten(pages)
  {
    var last, tail := s[n - 1], Flatten(pages[1..]);
    assert last in s && s[n] in s;
    BareCursorSelects(q, last);
    WalkSorts(q, n, Some(last), pages[1..]);
    CleanCutLosesNothing(q, s, n);
    if FirstCutIsClean(s, q.lower, n) {
      JoinLater(q, s, q.rows, n, tail);
    } else {
      assert s[n] !in s[..n] && s[n] !in tail;
      assert s[n] !in s[..n] + tail;
    }
  }

  /** Two favorites and pages of one: there is a walk, and no walk ever shows the second favorite. */
  lemma SecondFavoriteIsLost() returns (walk: seq<seq<Row>>)
    ensures var a, b := Row(1, "first", true), Row(2, "second", true);
            var q := Policies({a, b}, (name: string) => if name == "first" then 0.0 else 1.0, true, false);
            && Walk(q, 1, None, walk, true)
            && forall pages :: Walk(q, 1, None, pages, true) ==> b !in Flatten(pages)
  {
    var a, b := Row(1, "first", true), Row(2, "second", true);
    var q := Policies({a, b}, (name: string) => if name == "first" then 0.0 else 1.0, true, false);
    assert a.name[0] != b.name[0];
    walk := WalkExists(q, 1, None);
    forall pages | Walk(q, 1, None, pages, true)
      ensures b !in Flatten(pages)
    {
      ResolverWalkIsCompleteExactly({a, b}, q.lower, [a, b], 1, pages);
    }
  }

  // ---- Reading the rows ----

  predicate AllScanned(fetched: seq<Option<Row>>) {
    forall i :: 0 <= i < |fetched| ==> fetched[i].Some?
  }

  function Values(fetched: seq<Option<Row>>): (rows: seq<Row>)
    requires AllScanned(fetched)
    ensures |rows| == |fetched| && forall i :: 0 <= i < |rows| ==> fetched[i] == Some(rows[i])
  {
    if fetched == [] then [] else [fetched[0].value] + Values(fetched[1..])
  }

  /**
   What a query returns: its rows in order, None for one that cannot be scanned, and after how many of them the
   connection breaks, if it does.
   */
  datatype Rows = Rows(rows: seq<Option<Row>>, breaksAfter: Option<nat>)

  predicate BreaksEarly(r: Rows) {
    r.breaksAfter.Some? && r.breaksAfter.value < |r.rows|
  }

  /** The rows for which Next returns true. */
  function Delivered(r: Rows): seq<Option<Row>> {
    if BreaksEarly(r) then r.rows[..r.breaksAfter.value] else r.rows
  }

  /** The result and error of the key search, which ends with rows.Err(). */
  function KeysRead(r: Rows): (seq<Row>, bool) {
    if AllScanned(Delivered(r)) then (Values(Delivered(r)), r.breaksAfter.Some?) else ([], true)
  }

  /** The result and error of the policy search, which does not. */
  function PoliciesRead(r: Rows): (seq<Row>, bool) {
    if AllScanned(Delivered(r)) then (Values(Delivered(r)), false) else ([], true)
  }

  /** Either an error is reported, or the result is all rows of the query. */
  predicate Sound(r: Rows, read: (seq<Row>, bool)) {
    read.1 || (AllScanned(r.rows) && read.0 == Values(r.rows))
  }

  /** The loop shared by both searches. */
  method ScanRows(fetched: seq<Option<Row>>) returns (result: seq<Row>, failed: bool)
    ensures failed == !AllScanned(fetched)
    ensures !failed ==> result == Values(fetched)
    ensures failed ==> result == []
  {
    result, failed := [], false;
    for i := 0 to |fetched|
      invariant AllScanned(fetched[..i]) && result == Values(fetched[..i])
    {
      if fetched[i].None? {
        return [], true;
      }
      result := result + [fetched[i].value];
      assert Values(fetched[..i + 1]) == result by {
        assert forall k :: 0 <= k < i ==> fetched[..i + 1][k] == fetched[..i][k];
      }
    }
    assert fetched[..|fetched|] == fetched;
  }

  method ScanKeys(r: Rows) returns (result: seq<Row>, err: bool)
    ensures (result, err) == KeysRead(r)
  {
    result, err := ScanRows(Delivered(r));
    err := err || r.breaksAfter.Some?;
  }

  method ScanPolicies(r: Rows) returns (result: seq<Row>, err: bool)
    ensures (result, err) == PoliciesRead(r)
  {
    result, err := ScanRows(Delivered(r));
  }

  /** The rows delivered are those before the break, or all. */
  lemma DeliveredExactly(r: Rows)
    ensures Delivered(r) <= r.rows
    ensures |Delivered(r)| == if r.breaksAfter.Some? && r.breaksAfter.value < |r.rows| then r.breaksAfter.value else |r.rows|
  {
  }

  lemma KeySearchIsSound(r: Rows)
    ensures Sound(r, KeysRead(r))
    ensures !KeysRead(r).1 <==> r.breaksAfter.None? && AllScanned(r.rows)
    ensures !AllScanned(Delivered(r)) ==> KeysRead(r).0 == PoliciesRead(r).0 == []
  {
    if r.breaksAfter.None? && AllScanned(r.rows) {
      assert KeysRead(r).0 == Values(r.rows);
    }
  }

  /**
   The policy search passes a part of the rows off as all of them exactly when the connection breaks before the last
   row, and every row until then can be scanned.
   */
  lemma PolicySearchIsSoundExactly(r: Rows)
    ensures Sound(r, PoliciesRead(r)) <==> !BreaksEarly(r) || !AllScanned(Delivered(r))
  {
    if BreaksEarly(r) && AllScanned(Delivered(r)) {
      assert |PoliciesRead(r).0| < |r.rows|;
    }
  }

  /** Two policies, and a connection that breaks between them. */
  lemma BrokenConnectionTruncates(a: Row, b: Row)
    ensures var r := Rows([Some(a), Some(b)], Some(1));
            PoliciesRead(r) == ([a], false) && !Sound(r, PoliciesRead(r)) && KeysRead(r) == ([a], true)
  {
    var r := Rows([Some(a), Some(b)], Some(1));
    assert Delivered(r) == [Some(a)];
    assert Values([Some(a)]) == [a] by {
      assert |Values([Some(a)])| == 1 && Some(Values([Some(a)])[0]) == Some(a);
    }
    PolicySearchIsSoundExactly(r);
  }
}
