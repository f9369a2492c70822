/** Pages of a channel's messages, cut by an anchor. */
module Paging {
  import opened Models
  import opened Sorting
  import opened Wrappers

  /** The columns of a message row. */
  datatype Message = Message(ID: Snowflake, Type: int, ChannelID: Snowflake, Timestamp: int, Pinned: bool,
                             AuthorID: Snowflake, ReferenceID: Snowflake, Content: Text, EditedTimestamp: int)

  type MessageTable = map<Snowflake, Message>

  ghost predicate ValidTable(table: MessageTable) {
    forall id :: id in table ==> table[id].ID == id && id > 0
  }

  const NO_MESSAGE := Message(0, 0, 0, 0, false, 0, 0, [], 0)

  function IdsOf(messages: seq<Message>): (ids: seq<Snowflake>) {
    seq(|messages|, i requires 0 <= i < |messages| => messages[i].ID)
  }

  /** Every message is as the table has it. */
  ghost predicate FromTable(table: MessageTable, messages: seq<Message>) {
    forall m :: m in messages ==> m.ID in table && table[m.ID] == m
  }

  // ---------------------------------------------------------------- the query

  /** The WHERE clause. Anchor 0 stands for no anchor. */
  predicate Wanted(table: MessageTable, channel: Snowflake, anchor: Snowflake, before: bool, id: Snowflake) {
    && id in table && table[id].ChannelID == channel
    && (anchor == 0 || if before then id < anchor else id > anchor)
  }

  predicate Descending(anchor: Snowflake, before: bool) {
    anchor == 0 || before
  }

  ghost predicate Ascending(ids: seq<Snowflake>) {
    forall i, j :: 0 <= i < j < |ids| ==> ids[i] < ids[j]
  }

  /** `page` is the wanted IDs nearest to the anchor, in ascending order: as many as the limit
      admits, a negative limit being none, and any wanted ID it leaves out is farther away. */
  ghost predicate IsPage(table: MessageTable, channel: Snowflake, anchor: Snowflake, limit: int, before: bool,
                         page: seq<Snowflake>)
  {
    && Ascending(page)
    && (forall id :: id in page ==> Wanted(table, channel, anchor, before, id))
    && (limit >= 0 ==> |page| <= limit)
    && (forall id :: Wanted(table, channel, anchor, before, id) && id !in page ==>
          && |page| == limit
          && forall p :: p in page ==> if Descending(anchor, before) then id < p else id > p)
  }

  method CollectWanted(table: MessageTable, channel: Snowflake, anchor: Snowflake, before: bool)
    returns (ids: seq<Snowflake>)
    ensures Distinct(ids)
    ensures forall id :: id in ids <==> Wanted(table, channel, anchor, before, id)
  {
    ids := [];
    var rest := table.Keys;
    while rest != {}
      invariant rest <= table.Keys && Distinct(ids)
      invariant forall id :: id in ids <==> Wanted(table, channel, anchor, before, id) && id !in rest
    {
      assert (forall id :: id !in rest) ==> rest == {};
      var id :| id in rest;
      rest := rest - {id};
      if Wanted(table, channel, anchor, before, id) {
        ids := ids + [id];
      }
    }
  }

  /** SELECT ... ORDER BY m.id DESC or ASC, LIMIT: the first `limit` wanted rows in that order. */
  method Select(table: MessageTable, channel: Snowflake, anchor: Snowflake, limit: int, before: bool)
    returns (rows: seq<Message>)
    requires ValidTable(table)
    ensures FromTable(table, rows)
    ensures var ids := IdsOf(rows);
            IsPage(table, channel, anchor, limit, before, if Descending(anchor, before) then Reversed(ids) else ids)
  {
    var ids := CollectWanted(table, channel, anchor, before);
    var desc := Descending(anchor, before);
    var le := (a: Snowflake, b: Snowflake) => if desc then a >= b else a <= b;
    var sorted := SortFunc(ids, le);
    PermutationDistinct(ids, sorted);
    forall id ensures id in sorted <==> id in ids { SameElements(sorted, ids, id); }
    var n := if 0 <= limit < |sorted| then limit else |sorted|;
    assert forall i, j :: 0 <= i < j < |sorted| ==> le(sorted[i], sorted[j]) && sorted[i] != sorted[j];
    WantedInTable(table, channel, anchor, before, sorted);
    rows := seq(n, i requires 0 <= i < n => table[sorted[i]]);
    assert IdsOf(rows) == sorted[..n];
    TakenIsPage(table, channel, anchor, limit, before, sorted, n);
  }

  lemma WantedInTable(table: MessageTable, channel: Snowflake, anchor: Snowflake, before: bool, ids: seq<Snowflake>)
    requires ValidTable(table) && forall id :: id in ids ==> Wanted(table, channel, anchor, before, id)
    ensures forall i :: 0 <= i < |ids| ==> ids[i] in table && table[ids[i]].ID == ids[i]
  {
    forall i | 0 <= i < |ids| ensures ids[i] in table && table[ids[i]].ID == ids[i] {
      assert ids[i] in ids && Wanted(table, channel, anchor, before, ids[i]);
    }
  }

  lemma TakenIsPage(table: MessageTable, channel: Snowflake, anchor: Snowflake, limit: int, before: bool,
                    sorted: seq<Snowflake>, n: nat)
    requires forall id :: id in sorted <==> Wanted(table, channel, anchor, before, id)
    requires n == if 0 <= limit < |sorted| then limit else |sorted|
    requires forall i, j :: 0 <= i < j < |sorted| ==>
               if Descending(anchor, before) then sorted[i] > sorted[j] else sorted[i] < sorted[j]
    ensures var ids := sorted[..n];
            IsPage(table, channel, anchor, limit, before, if Descending(anchor, before) then Reversed(ids) else ids)
  {
    var rows := sorted[..n];
    ReversedElements(rows);
    assert sorted == rows + sorted[n..];
    forall id | Wanted(table, channel, anchor, before, id) && id !in rows
      ensures n == limit && forall p :: p in rows ==> if Descending(anchor, before) then id < p else id > p
    {
      assert id in sorted[n..];
    }
  }

  function Reversed<T>(s: seq<T>): (r: seq<T>)
    ensures |r| == |s|
    ensures forall i :: 0 <= i < |r| ==> r[i] == s[|s| - 1 - i]
  {
    seq(|s|, i requires 0 <= i < |s| => s[|s| - 1 - i])
  }

  lemma ReversedElements(s: seq<Snowflake>)
    ensures forall x :: x in Reversed(s) <==> x in s
  {
    forall x | x in s ensures x in Reversed(s) {
      var i :| 0 <= i < |s| && s[i] == x;
      assert Reversed(s)[|s| - 1 - i] == x;
    }
  }

  method ReverseInPlace<T>(a: array<T>)
    modifies a
    ensures a[..] == Reversed(old(a[..]))
  {
    var i, j := 0, a.Length - 1;
    while i < j
      invariant 0 <= i <= a.Length && j == a.Length - 1 - i && i <= j + 1
      invariant forall k :: 0 <= k < i ==> a[k] == old(a[a.Length - 1 - k]) && a[a.Length - 1 - k] == old(a[k])
      invariant forall k :: i <= k <= j ==> a[k] == old(a[k])
    {
      a[i], a[j] := a[j], a[i];
      i, j := i + 1, j - 1;
    }
    assert forall k :: 0 <= k < a.Length ==> a[k] == old(a[a.Length - 1 - k]);
  }

  lemma ReversedRows(table: MessageTable, rows: seq<Message>)
    requires FromTable(table, rows)
    ensures IdsOf(Reversed(rows)) == Reversed(IdsOf(rows)) && FromTable(table, Reversed(rows))
  {
    assert forall k :: 0 <= k < |rows| ==> rows[k] in rows;
  }

  /** Whichever way the query ordered its rows, the page comes out in ascending order. */
  method GetMessagesByAnchor(table: MessageTable, channel: Snowflake, anchor: Snowflake, limit: int, before: bool)
    returns (page: seq<Message>)
    requires ValidTable(table)
    ensures FromTable(table, page)
    ensures IsPage(table, channel, anchor, limit, before, IdsOf(page))
  {
    var rows := Select(table, channel, anchor, limit, before);
    var messages := new Message[|rows|](i requires 0 <= i < |rows| => rows[i]);
    assert messages[..] == rows;
    if anchor == 0 || before {
      ReverseInPlace(messages);
      ReversedRows(table, rows);
    }
    page := messages[..];
  }

  // ---------------------------------------------------------------- pages are slices

  /** All of the channel's message IDs in order. */
  ghost predicate IsHistory(table: MessageTable, channel: Snowflake, history: seq<Snowflake>) {
    Ascending(history) && forall id :: id in history <==> id in table && table[id].ChannelID == channel
  }

  /** How many IDs come before `anchor`. */
  function CountBelow(history: seq<Snowflake>, anchor: Snowflake): (n: nat)
    ensures n <= |history|
    ensures Ascending(history) ==> forall i :: 0 <= i < |history| ==> (i < n <==> history[i] < anchor)
  {
    if history == [] then 0
    else if history[|history| - 1] < anchor then |history|
    else
      var rest := history[..|history| - 1];
      assert Ascending(history) ==> Ascending(rest);
      CountBelow(rest, anchor)
  }

  lemma AscendingInit(s: seq<Snowflake>)
    requires Ascending(s) && s != []
    ensures var n := |s| - 1;
            && s[n] in s && Ascending(s[..n])
            && (forall id :: id in s[..n] <==> id in s && id != s[n])
            && (forall id :: id in s ==> id <= s[n])
  {
    assert s == s[..|s| - 1] + [s[|s| - 1]];
  }

  lemma {:induction false} AscendingUnique(a: seq<Snowflake>, b: seq<Snowflake>)
    requires Ascending(a) && Ascending(b) && forall id :: id in a <==> id in b
    ensures a == b
  {
    if a == [] {
      assert forall i :: 0 <= i < |b| ==> b[i] in b;
    } else {
      assert a[0] in a && a[0] in b;
      AscendingInit(a);
      AscendingInit(b);
      var m, n := |a| - 1, |b| - 1;
      assert a[m] == b[n];
      AscendingUnique(a[..m], b[..n]);
      assert a == a[..m] + [a[m]] && b == b[..n] + [b[n]];
    }
  }

  /** Where the page lies in the history. */
  function PageBounds(history: seq<Snowflake>, anchor: Snowflake, limit: int, before: bool): (bounds: (nat, nat))
    ensures bounds.0 <= bounds.1 <= |history|
  {
    if Descending(anchor, before) then
      var hi := if anchor == 0 then |history| else CountBelow(history, anchor);
      (if 0 <= limit < hi then hi - limit else 0, hi)
    else
      var lo := CountBelow(history, anchor + 1);
      (lo, if 0 <= limit < |history| - lo then lo + limit else |history|)
  }

  /** A page is a contiguous stretch of the history, ending at the anchor or starting behind
      it, as long as the limit admits. */
  lemma PageIsSlice(table: MessageTable, channel: Snowflake, history: seq<Snowflake>,
                    anchor: Snowflake, limit: int, before: bool, page: seq<Snowflake>)
    requires IsHistory(table, channel, history) && IsPage(table, channel, anchor, limit, before, page)
    ensures var bounds := PageBounds(history, anchor, limit, before); page == history[bounds.0..bounds.1]
  {
    var bounds := PageBounds(history, anchor, limit, before);
    var slice := history[bounds.0..bounds.1];
    SliceIsPage(table, channel, history, anchor, limit, before);
    PageUnique(table, channel, anchor, limit, before, page, slice);
  }

  lemma SliceIsPage(table: MessageTable, channel: Snowflake, history: seq<Snowflake>, anchor: Snowflake, limit: int,
                    before: bool)
    requires IsHistory(table, channel, history)
    ensures var bounds := PageBounds(history, anchor, limit, before);
            IsPage(table, channel, anchor, limit, before, history[bounds.0..bounds.1])
  {
    var bounds := PageBounds(history, anchor, limit, before);
    var slice := history[bounds.0..bounds.1];
    SliceIsWanted(table, channel, history, anchor, limit, before);
    forall id | Wanted(table, channel, anchor, before, id) && id !in slice
      ensures |slice| == limit && forall p :: p in slice ==> if Descending(anchor, before) then id < p else id > p
    {
      assert id in history;
      var i :| 0 <= i < |history| && history[i] == id;
      LeftOut(history, anchor, limit, before, i);
    }
  }

  lemma SliceIsWanted(table: MessageTable, channel: Snowflake, history: seq<Snowflake>, anchor: Snowflake, limit: int,
                      before: bool)
    requires IsHistory(table, channel, history)
    ensures var bounds := PageBounds(history, anchor, limit, before);
            var slice := history[bounds.0..bounds.1];
            Ascending(slice) && forall id :: id in slice ==> Wanted(table, channel, anchor, before, id)
  {
    var bounds := PageBounds(history, anchor, limit, before);
    forall k | bounds.0 <= k < bounds.1 ensures Wanted(table, channel, anchor, before, history[k]) {
      assert history[k] in history;
    }
  }

  /** A wanted index outside the bounds lies on the far side of a full page. */
  lemma LeftOut(history: seq<Snowflake>, anchor: Snowflake, limit: int, before: bool, i: nat)
    requires Ascending(history) && i < |history|
    requires anchor == 0 || if before then history[i] < anchor else history[i] > anchor
    requires var bounds := PageBounds(history, anchor, limit, before); history[i] !in history[bounds.0..bounds.1]
    ensures var bounds := PageBounds(history, anchor, limit, before);
            var slice := history[bounds.0..bounds.1];
            |slice| == limit && forall p :: p in slice ==>
                if Descending(anchor, before) then history[i] < p else history[i] > p
  {
    var bounds := PageBounds(history, anchor, limit, before);
    var slice := history[bounds.0..bounds.1];
    assert forall k :: 0 <= k < |slice| ==> slice[k] == history[bounds.0 + k];
    assert forall k :: bounds.0 <= k < bounds.1 ==> history[k] in slice by {
      assert forall k :: bounds.0 <= k < bounds.1 ==> slice[k - bounds.0] == history[k];
    }
  }

  lemma PageUnique(table: MessageTable, channel: Snowflake, anchor: Snowflake, limit: int, before: bool,
                   a: seq<Snowflake>, b: seq<Snowflake>)
    requires IsPage(table, channel, anchor, limit, before, a) && IsPage(table, channel, anchor, limit, before, b)
    ensures a == b
  {
    PageWithin(table, channel, anchor, limit, before, a, b);
    PageWithin(table, channel, anchor, limit, before, b, a);
    AscendingUnique(a, b);
  }

  lemma PageWithin(table: MessageTable, channel: Snowflake, anchor: Snowflake, limit: int, before: bool,
                   a: seq<Snowflake>, b: seq<Snowflake>)
    requires IsPage(table, channel, anchor, limit, before, a) && IsPage(table, channel, anchor, limit, before, b)
    ensures forall id :: id in a ==> id in b
  {
    forall id | id in a ensures id in b {
      if id !in b {
        // b is full and nearer than id, so a holds all of b as well as id: one too many
        forall p | p in b ensures p in a {
        }
        SubsetLength(b, a, id);
      }
    }
  }

  /** An ID is in the page exactly when it is a message of the channel on the right side of the
      anchor with fewer than `limit` of these nearer than itself, or any number when the limit is
      negative; and the page is ascending. */
  lemma PageMembers(table: MessageTable, channel: Snowflake, anchor: Snowflake, limit: int, before: bool,
                    page: seq<Snowflake>, id: Snowflake)
    requires IsPage(table, channel, anchor, limit, before, page)
    ensures forall i, j :: 0 <= i < j < |page| ==> page[i] < page[j]
    ensures var nearer := set q | q in table && table[q].ChannelID == channel
                                  && (anchor == 0 || if before then q < anchor else q > anchor)
                                  && if anchor == 0 || before then q > id else q < id;
            id in page <==>
              && id in table && table[id].ChannelID == channel
              && (anchor == 0 || if before then id < anchor else id > anchor)
              && (limit < 0 || |nearer| < limit)
  {
    var nearer := set q | q in table && table[q].ChannelID == channel
                          && (anchor == 0 || if before then q < anchor else q > anchor)
                          && if anchor == 0 || before then q > id else q < id;
    assert forall q :: q in nearer <==>
      Wanted(table, channel, anchor, before, q) && if Descending(anchor, before) then q > id else q < id;
    var shown := set q | q in page;
    DistinctCount(page);
    if id in page {
      forall q | q in nearer ensures q in shown - {id} {
      }
      SubsetCount(nearer, shown - {id});
    } else if Wanted(table, channel, anchor, before, id) {
      forall q | q in shown ensures q in nearer {
      }
      SubsetCount(shown, nearer);
    }
  }

  lemma SubsetLength(b: seq<Snowflake>, a: seq<Snowflake>, extra: Snowflake)
    requires Ascending(a) && Ascending(b) && (forall p :: p in b ==> p in a) && extra in a && extra !in b
    ensures |b| < |a|
  {
    DistinctCount(a);
    DistinctCount(b);
    var x, y := set p | p in a, set p | p in b;
    assert extra in x && extra !in y;
    assert x == y + (x - y) && extra in x - y;
  }

  // ---------------------------------------------------------------- following the pages

  /** A client asks for the latest page, or the one before `anchor`, and then again before the
      oldest ID it got, and stops when a page comes back empty: the pages so far. */
  ghost predicate BackwardWalk(table: MessageTable, channel: Snowflake, limit: int, anchor: Snowflake,
                               pages: seq<seq<Snowflake>>)
    decreases |pages|
  {
    pages != [] ==>
      && IsPage(table, channel, anchor, limit, true, pages[0])
      && if pages[0] == [] then |pages| == 1
         else BackwardWalk(table, channel, limit, pages[0][0], pages[1..])
  }

  ghost predicate ForwardWalk(table: MessageTable, channel: Snowflake, limit: int, anchor: Snowflake,
                              pages: seq<seq<Snowflake>>)
    decreases |pages|
  {
    pages != [] ==>
      && IsPage(table, channel, anchor, limit, false, pages[0])
      && if pages[0] == [] then |pages| == 1
         else ForwardWalk(table, channel, limit, pages[0][|pages[0]| - 1], pages[1..])
  }

  ghost predicate Ended(pages: seq<seq<Snowflake>>) {
    pages != [] && pages[|pages| - 1] == []
  }

  /** Later pages of a backward walk hold earlier messages. */
  function JoinBackward(pages: seq<seq<Snowflake>>): seq<Snowflake> {
    if pages == [] then [] else JoinBackward(pages[1..]) + pages[0]
  }

  function JoinForward(pages: seq<seq<Snowflake>>): seq<Snowflake> {
    if pages == [] then [] else pages[0] + JoinForward(pages[1..])
  }

  /** How much history lies before the anchor, all of it when there is none. */
  function Reach(history: seq<Snowflake>, anchor: Snowflake): (n: nat)
    ensures n <= |history|
  {
    if anchor == 0 then |history| else CountBelow(history, anchor)
  }

  lemma BackwardWalkExtends(table: MessageTable, channel: Snowflake, limit: int, anchor: Snowflake,
                            pages: seq<seq<Snowflake>>, page: seq<Snowflake>)
    requires pages != [] && pages[0] != [] && IsPage(table, channel, anchor, limit, true, pages[0])
    requires BackwardWalk(table, channel, limit, pages[0][0], pages[1..] + [page])
    ensures BackwardWalk(table, channel, limit, anchor, pages + [page])
  {
    assert (pages + [page])[1..] == pages[1..] + [page];
  }

  /** A backward walk cannot go on for longer than one request per message and one more, and
      as long as it has not ended there is a next page. */
  lemma {:induction false} BackwardWalkEnds(table: MessageTable, channel: Snowflake, history: seq<Snowflake>,
                                            limit: int, anchor: Snowflake, pages: seq<seq<Snowflake>>)
    requires ValidTable(table) && IsHistory(table, channel, history)
    requires BackwardWalk(table, channel, limit, anchor, pages)
    ensures |pages| <= Reach(history, anchor) + 1
    ensures !Ended(pages) ==> exists page :: BackwardWalk(table, channel, limit, anchor, pages + [page])
    decreases |pages|
  {
    if pages == [] {
      SliceIsPage(table, channel, history, anchor, limit, true);
      var bounds := PageBounds(history, anchor, limit, true);
      assert BackwardWalk(table, channel, limit, anchor, pages + [history[bounds.0..bounds.1]]);
    } else {
      var lo := BackwardPage(table, channel, history, limit, anchor, pages[0]);
      if pages[0] != [] {
        BackwardWalkEnds(table, channel, history, limit, history[lo], pages[1..]);
        if !Ended(pages) {
          var page :| BackwardWalk(table, channel, limit, history[lo], pages[1..] + [page]);
          BackwardWalkExtends(table, channel, limit, anchor, pages, page);
        }
      }
    }
  }

  lemma EndedTail(pages: seq<seq<Snowflake>>)
    requires Ended(pages) && pages[0] != []
    ensures Ended(pages[1..])
  {
  }

  lemma JoinPrevious(pages: seq<seq<Snowflake>>, s: seq<Snowflake>, lo: nat, n: nat)
    requires lo <= n <= |s| && pages != [] && pages[0] == s[lo..n] && JoinBackward(pages[1..]) == s[..lo]
    ensures JoinBackward(pages) == s[..n]
  {
    assert s[..lo] + s[lo..n] == s[..n];
  }

  lemma {:induction false} BackwardWalkVisits(table: MessageTable, channel: Snowflake, history: seq<Snowflake>,
                                              limit: int, anchor: Snowflake, pages: seq<seq<Snowflake>>)
    requires ValidTable(table) && IsHistory(table, channel, history) && limit != 0
    requires BackwardWalk(table, channel, limit, anchor, pages) && Ended(pages)
    ensures JoinBackward(pages) == history[..Reach(history, anchor)]
    decreases |pages|
  {
    var lo := BackwardPage(table, channel, history, limit, anchor, pages[0]);
    if pages[0] == [] {
      assert pages[1..] == [];
    } else {
      EndedTail(pages);
      BackwardWalkVisits(table, channel, history, limit, history[lo], pages[1..]);
      JoinPrevious(pages, history, lo, Reach(history, anchor));
    }
  }

  /** A backward walk that has ended has visited every message before the anchor exactly once,
      in ID order; except with limit 0, when the first page is empty whatever there is. */
  lemma BackwardWalkComplete(table: MessageTable, channel: Snowflake, history: seq<Snowflake>, limit: int,
                             anchor: Snowflake, pages: seq<seq<Snowflake>>)
    requires ValidTable(table) && IsHistory(table, channel, history)
    requires BackwardWalk(table, channel, limit, anchor, pages) && Ended(pages)
    ensures JoinBackward(pages) == history[..Reach(history, anchor)] <==> limit != 0 || Reach(history, anchor) == 0
  {
    if limit != 0 {
      BackwardWalkVisits(table, channel, history, limit, anchor, pages);
    } else {
      var lo := BackwardPage(table, channel, history, limit, anchor, pages[0]);
      assert pages == [[]] && pages[1..] == [];
    }
  }

  lemma BackwardPage(table: MessageTable, channel: Snowflake, history: seq<Snowflake>, limit: int, anchor: Snowflake,
                     page: seq<Snowflake>)
    returns (lo: nat)
    requires ValidTable(table) && IsHistory(table, channel, history)
    requires IsPage(table, channel, anchor, limit, true, page)
    ensures var n := Reach(history, anchor);
            && lo <= n && page == history[lo..n]
            && (page == [] <==> limit == 0 || n == 0)
            && (page != [] ==> page[0] == history[lo] != 0 && Reach(history, history[lo]) == lo)
  {
    PageIsSlice(table, channel, history, anchor, limit, true, page);
    lo := PageBounds(history, anchor, limit, true).0;
    if page != [] {
      var first := history[lo];
      assert first in history;
      CountBelowElement(history, lo);
    }
  }

  lemma CountBelowElement(history: seq<Snowflake>, k: nat)
    requires Ascending(history) && k < |history|
    ensures CountBelow(history, history[k]) == k
    ensures CountBelow(history, history[k] + 1) == k + 1
  {
    var m, n := CountBelow(history, history[k]), CountBelow(history, history[k] + 1);
    assert k < n;
    assert m < |history| ==> !(history[m] < history[k]);
    assert n < |history| ==> !(history[n] < history[k] + 1);
  }

  lemma ForwardWalkExtends(table: MessageTable, channel: Snowflake, limit: int, anchor: Snowflake,
                           pages: seq<seq<Snowflake>>, page: seq<Snowflake>)
    requires pages != [] && pages[0] != [] && IsPage(table, channel, anchor, limit, false, pages[0])
    requires ForwardWalk(table, channel, limit, pages[0][|pages[0]| - 1], pages[1..] + [page])
    ensures ForwardWalk(table, channel, limit, anchor, pages + [page])
  {
    assert (pages + [page])[1..] == pages[1..] + [page];
  }

  /** Forward paging from a real anchor, likewise. */
  lemma {:induction false} ForwardWalkEnds(table: MessageTable, channel: Snowflake, history: seq<Snowflake>,
                                           limit: int, anchor: Snowflake, pages: seq<seq<Snowflake>>)
    requires ValidTable(table) && IsHistory(table, channel, history) && anchor != 0
    requires ForwardWalk(table, channel, limit, anchor, pages)
    ensures |pages| <= |history| - CountBelow(history, anchor + 1) + 1
    ensures !Ended(pages) ==> exists page :: ForwardWalk(table, channel, limit, anchor, pages + [page])
    decreases |pages|
  {
    if pages == [] {
      SliceIsPage(table, channel, history, anchor, limit, false);
      var bounds := PageBounds(history, anchor, limit, false);
      assert ForwardWalk(table, channel, limit, anchor, pages + [history[bounds.0..bounds.1]]);
    } else {
      var hi := ForwardPage(table, channel, history, limit, anchor, pages[0]);
      if pages[0] != [] {
        ForwardWalkEnds(table, channel, history, limit, history[hi - 1], pages[1..]);
        if !Ended(pages) {
          var page :| ForwardWalk(table, channel, limit, history[hi - 1], pages[1..] + [page]);
          ForwardWalkExtends(table, channel, limit, anchor, pages, page);
        }
      }
    }
  }

  lemma JoinNext(pages: seq<seq<Snowflake>>, s: seq<Snowflake>, from: nat, hi: nat)
    requires from <= hi <= |s| && pages != [] && pages[0] == s[from..hi] && JoinForward(pages[1..]) == s[hi..]
    ensures JoinForward(pages) == s[from..]
  {
    assert s[from..hi] + s[hi..] == s[from..];
  }

  lemma {:induction false} ForwardWalkVisits(table: MessageTable, channel: Snowflake, history: seq<Snowflake>,
                                             limit: int, anchor: Snowflake, pages: seq<seq<Snowflake>>)
    requires ValidTable(table) && IsHistory(table, channel, history) && anchor != 0 && limit != 0
    requires ForwardWalk(table, channel, limit, anchor, pages) && Ended(pages)
    ensures JoinForward(pages) == history[CountBelow(history, anchor + 1)..]
    decreases |pages|
  {
    var hi := ForwardPage(table, channel, history, limit, anchor, pages[0]);
    if pages[0] == [] {
      assert pages[1..] == [];
    } else {
      EndedTail(pages);
      ForwardWalkVisits(table, channel, history, limit, history[hi - 1], pages[1..]);
      JoinNext(pages, history, CountBelow(history, anchor + 1), hi);
    }
  }

  lemma ForwardWalkComplete(table: MessageTable, channel: Snowflake, history: seq<Snowflake>, limit: int,
                            anchor: Snowflake, pages: seq<seq<Snowflake>>)
    requires ValidTable(table) && IsHistory(table, channel, history) && anchor != 0
    requires ForwardWalk(table, channel, limit, anchor, pages) && Ended(pages)
    ensures var from := CountBelow(history, anchor + 1);
            JoinForward(pages) == history[from..] <==> limit != 0 || from == |history|
  {
    if limit != 0 {
      ForwardWalkVisits(table, channel, history, limit, anchor, pages);
    } else {
      var hi := ForwardPage(table, channel, history, limit, anchor, pages[0]);
      assert pages == [[]] && pages[1..] == [];
    }
  }

  lemma ForwardPage(table: MessageTable, channel: Snowflake, history: seq<Snowflake>, limit: int, anchor: Snowflake,
                    page: seq<Snowflake>)
    returns (hi: nat)
    requires ValidTable(table) && IsHistory(table, channel, history) && anchor != 0
    requires IsPage(table, channel, anchor, limit, false, page)
    ensures var from := CountBelow(history, anchor + 1);
            && from <= hi <= |history| && page == history[from..hi]
            && (page == [] <==> limit == 0 || from == |history|)
            && (page != [] ==>
                  && page[|page| - 1] == history[hi - 1] != 0
                  && CountBelow(history, history[hi - 1] + 1) == hi)
  {
    PageIsSlice(table, channel, history, anchor, limit, false, page);
    hi := PageBounds(history, anchor, limit, false).1;
    if page != [] {
      var last := history[hi - 1];
      assert last in history;
      CountBelowElement(history, hi - 1);
    }
  }

  // ---------------------------------------------------------------- the request

  datatype Error = InvalidRequest

  /** The anchor message, or the empty one when the lookup fails: its error is overwritten by
      the next query's. */
  function AnchorMessage(table: MessageTable, id: Snowflake): Message {
    if id in table then table[id] else NO_MESSAGE
  }

  /** The page before the anchor, the anchor message, and the page after it. */
  ghost predicate Surrounds(table: MessageTable, channel: Snowflake, anchor: Snowflake, limit: int, ids: seq<Snowflake>)
  {
    exists b, a ::
      && IsPage(table, channel, anchor, limit, true, b)
      && IsPage(table, channel, anchor, limit, false, a)
      && ids == b + [AnchorMessage(table, anchor).ID] + a
  }

  /** Before and After with the same anchor ask for what surrounds it; with different anchors
      they are refused; with one of them or none the answer is one page. */
  method HandleMessagesRequest(table: MessageTable, channel: Snowflake, before: Snowflake, after: Snowflake, limit: int)
    returns (result: Result<seq<Message>, Error>)
    requires ValidTable(table)
    ensures result.Err? <==> before != 0 && after != 0 && before != after
    ensures before != 0 && after == before ==> Surrounds(table, channel, before, limit, IdsOf(result.value))
    ensures before == 0 || after == 0 ==>
              IsPage(table, channel, if before != 0 then before else after, limit, after == 0, IdsOf(result.value))
    ensures result.Ok? ==> forall m :: m in result.value ==>
              FromTable(table, [m]) || (m == NO_MESSAGE && before !in table)
    ensures before != 0 && after == before ==>
              (if before in table then table[before] else Message(0, 0, 0, 0, false, 0, 0, [], 0)) in result.value
  {
    if before != 0 && after != 0 {
      if before != after {
        return Err(InvalidRequest);
      }
      var b := GetMessagesByAnchor(table, channel, before, limit, true);
      var anchorMsg := AnchorMessage(table, before);
      var a := GetMessagesByAnchor(table, channel, after, limit, false);
      var msgs := b + [anchorMsg] + a;
      assert IdsOf(msgs) == IdsOf(b) + [anchorMsg.ID] + IdsOf(a);
      return Ok(msgs);
    }
    var page;
    if before != 0 {
      page := GetMessagesByAnchor(table, channel, before, limit, true);
    } else if after != 0 {
      page := GetMessagesByAnchor(table, channel, after, limit, false);
    } else {
      page := GetMessagesByAnchor(table, channel, 0, limit, true);
    }
    result := Ok(page);
  }

  ghost predicate IsSegment(history: seq<Snowflake>, s: seq<Snowflake>) {
    exists lo: nat, hi: nat :: lo <= hi <= |history| && s == history[lo..hi]
  }

  /** The two-sided answer is a contiguous, ascending segment of the channel exactly when the
      anchor is a message of the channel. Otherwise it has a foreign or an empty message in
      the middle. */
  lemma TwoSidedIsSegmentIff(table: MessageTable, channel: Snowflake, history: seq<Snowflake>, anchor: Snowflake,
                             limit: int, ids: seq<Snowflake>)
    requires ValidTable(table) && IsHistory(table, channel, history) && anchor != 0
    requires Surrounds(table, channel, anchor, limit, ids)
    ensures IsSegment(history, ids) <==> anchor in table && table[anchor].ChannelID == channel
    ensures IsSegment(history, ids) ==> Ascending(ids)
  {
    var middle := AnchorMessage(table, anchor).ID;
    var beforePage, afterPage :|
      && IsPage(table, channel, anchor, limit, true, beforePage)
      && IsPage(table, channel, anchor, limit, false, afterPage)
      && ids == beforePage + [middle] + afterPage;
    if anchor in table && table[anchor].ChannelID == channel {
      AroundAnchor(table, channel, history, anchor, limit, beforePage, afterPage);
    } else {
      assert ids[|beforePage|] == middle;
      ForeignNotSegment(history, ids, middle);
    }
  }

  lemma ForeignNotSegment(history: seq<Snowflake>, s: seq<Snowflake>, x: Snowflake)
    requires x in s && x !in history
    ensures !IsSegment(history, s)
  {
    forall lo: nat, hi: nat | lo <= hi <= |history| ensures s != history[lo..hi] {
      assert x !in history[lo..hi];
    }
  }

  lemma AroundAnchor(table: MessageTable, channel: Snowflake, history: seq<Snowflake>, anchor: Snowflake, limit: int,
                     beforePage: seq<Snowflake>, afterPage: seq<Snowflake>)
    requires ValidTable(table) && IsHistory(table, channel, history) && anchor in history && anchor != 0
    requires IsPage(table, channel, anchor, limit, true, beforePage)
    requires IsPage(table, channel, anchor, limit, false, afterPage)
    ensures IsSegment(history, beforePage + [anchor] + afterPage)
  {
    var k :| 0 <= k < |history| && history[k] == anchor;
    CountBelowElement(history, k);
    PageIsSlice(table, channel, history, anchor, limit, true, beforePage);
    PageIsSlice(table, channel, history, anchor, limit, false, afterPage);
    var lo, hi := PageBounds(history, anchor, limit, true).0, PageBounds(history, anchor, limit, false).1;
    SegmentAround(history, lo, k, hi);
  }

  lemma SegmentAround(history: seq<Snowflake>, lo: nat, k: nat, hi: nat)
    requires lo <= k < hi <= |history|
    ensures IsSegment(history, history[lo..k] + [history[k]] + history[k + 1..hi])
  {
    assert history[lo..k] + [history[k]] + history[k + 1..hi] == history[lo..hi];
  }
}
