// `Command.handle`: the category name of the page, the start point after
// the thin rule under the heading, and the walk that cuts the siblings
// into quote blocks at every wide rule, processing each non-empty block.
//
// The page is taken already fetched and parsed: `content` is the children
// of the quote cell (the second <td> of the 700-wide table).

module Scrape {
  import opened Wrappers
  import opened PyStr
  import opened Html
  import opened CleanText
  import opened Store
  import opened QuoteBlock

  /** A value, or the message of the `CommandError` the command fails with. */
  datatype Result<T> = Ok(value: T) | Err(message: string)

  const InitialSectionPath := "cgi-bin/quotes.cgi?section=Love and Dreams"
  const SectionKey := "section="
  const NoStartMessage := "Could not find the starting point for quotes parsing."

  /** Line 123: any error other than a `requests` error raised inside the
      `try` of line 65, the start-point error of line 91 among them, is
      re-raised as a `CommandError` whose message has this prefix. */
  const UnexpectedPrefix := "An unexpected error occurred during scraping: "

  /** Line 76: the text after the last `section=`, `+` read as a space. */
  function CategoryName(path: string): (r: string)
    ensures '+' !in r
  {
    ReplaceChar(LastPiece(path, SectionKey), '+', " ")
  }

  /** The category keeps the last piece character for character, with each
      `+` turned into a space, and holds no `section=` of its own. */
  lemma CategoryNameIsLastSection(path: string)
    ensures |CategoryName(path)| == |LastPiece(path, SectionKey)|
    ensures forall i :: 0 <= i < |CategoryName(path)| ==>
              CategoryName(path)[i] ==
              (if LastPiece(path, SectionKey)[i] == '+' then ' ' else LastPiece(path, SectionKey)[i])
    ensures forall j: nat :: !OccursAt(CategoryName(path), SectionKey, j)
  {
    var tail := LastPiece(path, SectionKey);
    var r := CategoryName(path);
    ReplaceCharPointwise(tail, '+', ' ');
    forall j: nat | OccursAt(r, SectionKey, j) ensures OccursAt(tail, SectionKey, j) {
      forall m | 0 <= m < |SectionKey| ensures tail[j + m] == SectionKey[m] {
        assert r[j + m] == SectionKey[m];
      }
    }
  }

  /** The only place `section=` occurs in the page's path is index 19. */
  lemma SectionKeyOnce(p: nat)
    requires OccursAt(InitialSectionPath, SectionKey, p)
    ensures p == 19
  {
    var s := InitialSectionPath;
    assert s[p + 0] == SectionKey[0] && s[p + 1] == SectionKey[1] && s[p + 7] == SectionKey[7];
  }

  /** `section=` sits at offset 19 of the page's path, and the category
      text starts right after it, at offset 27. */
  lemma SectionKeyAt19()
    ensures OccursAt(InitialSectionPath, SectionKey, 19)
    ensures InitialSectionPath[27..] == "Love and Dreams"
  {
    var s := InitialSectionPath;
    assert forall m :: 0 <= m < 8 ==> s[19..27][m] == s[19 + m];
    assert forall m :: 0 <= m < 15 ==> s[27..][m] == s[27 + m];
  }

  /** The quotes of the page go to the source "Love and Dreams". */
  lemma PageCategory()
    ensures CategoryName(InitialSectionPath) == "Love and Dreams"
  {
    var s := InitialSectionPath;
    var tail := LastPiece(s, SectionKey);
    SectionKeyAt19();
    SectionKeyOnce(|s| - |tail| - |SectionKey|);
    assert tail == "Love and Dreams";
    ReplaceAbsent(tail, '+', " ");
  }

  /** `find('h1')` */
  const Heading := Selector("h1", map[], None)
  /** `find_next_sibling('hr', size="1")` */
  const ThinRule := Selector("hr", map["size" := "1"], None)

  /** What the start locator skips: a `<br>` or a whitespace-only string. */
  predicate Filler(n: Node)
  {
    IsTag(n, "br") || (n.Text? && Strip(n.s) == "")
  }

  /** Line 86: from index `j`, skip true fillers. */
  function SkipFiller(sibs: seq<Node>, j: nat): (k: nat)
    requires j <= |sibs|
    ensures j <= k <= |sibs|
    ensures forall t :: j <= t < k ==> Truthy(sibs[t]) && Filler(sibs[t])
    ensures k < |sibs| ==> !(Truthy(sibs[k]) && Filler(sibs[k]))
    decreases |sibs| - j
  {
    if j < |sibs| && Truthy(sibs[j]) && Filler(sibs[j]) then SkipFiller(sibs, j + 1) else j
  }

  /** A position in a sibling list: the cursor `current_element`. */
  datatype Cursor = Cursor(siblings: seq<Node>, index: nat)

  /** Lines 80-91: the first node after the heading's thin rule that is
      neither a `<br>` nor a whitespace-only string. It fails when there is
      no heading, no thin rule after it, or no such node (running off the
      end or reaching an empty string, which Python reads as false). */
  function StartPoint(content: seq<Node>): (r: Result<Cursor>)
    ensures r.Err? ==> r.message == NoStartMessage
  {
    match Find(content, Heading)
    case None => Err(NoStartMessage)
    case Some(h) =>
      match NextSibling(h.siblings, h.index + 1, ThinRule)
      case None => Err(NoStartMessage)
      case Some(j) =>
        var k := SkipFiller(h.siblings, j + 1);
        if k < |h.siblings| && Truthy(h.siblings[k]) then Ok(Cursor(h.siblings, k))
        else Err(NoStartMessage)
  }

  /** The start point, when found, lies among the heading's siblings: it is
      a true node that is not filler, after the first thin rule that follows
      the heading, with only filler in between. Without a heading there is
      no start point. */
  lemma StartPointAfterRule(content: seq<Node>)
    ensures Find(content, Heading).None? ==> StartPoint(content).Err?
    ensures StartPoint(content).Ok? ==>
              var h := Find(content, Heading).value;
              var sibs := StartPoint(content).value.siblings;
              var k := StartPoint(content).value.index;
              sibs == h.siblings && h.index < k < |sibs| &&
              Truthy(sibs[k]) && !Filler(sibs[k]) &&
              (exists j :: h.index < j < k && Matches(sibs[j], ThinRule) &&
                           (forall t :: h.index < t < j ==> !Matches(sibs[t], ThinRule)) &&
                           (forall t :: j < t < k ==> Truthy(sibs[t]) && Filler(sibs[t])))
  {
    if StartPoint(content).Ok? {
      var h := Find(content, Heading).value;
      var j := NextSibling(h.siblings, h.index + 1, ThinRule).value;
      assert h.index < j < StartPoint(content).value.index;
    }
  }

  /** Conversely, a true non-filler node `k` that follows the first thin
      rule `j` after the first heading, with only true filler in between,
      is the start point. */
  lemma StartPointFromRule(content: seq<Node>, j: nat, k: nat)
    requires Find(content, Heading).Some?
    requires var h := Find(content, Heading).value;
             var sibs := h.siblings;
             h.index < j < k < |sibs| && Matches(sibs[j], ThinRule) &&
             (forall t :: h.index < t < j ==> !Matches(sibs[t], ThinRule)) &&
             (forall t :: j < t < k ==> Truthy(sibs[t]) && Filler(sibs[t])) &&
             Truthy(sibs[k]) && !Filler(sibs[k])
    ensures StartPoint(content) == Ok(Cursor(Find(content, Heading).value.siblings, k))
  {
    var h := Find(content, Heading).value;
    assert NextSibling(h.siblings, h.index + 1, ThinRule) == Some(j);
    assert SkipFiller(h.siblings, j + 1) == k;
  }

  /** Lines 85-87: step over `<br>` tags and whitespace-only strings. */
  method SkipFillerNodes(sibs: seq<Node>, j: nat) returns (current: nat)
    requires j <= |sibs|
    ensures current == SkipFiller(sibs, j)
  {
    current := j;
    while current < |sibs| && Truthy(sibs[current]) &&
          (IsTag(sibs[current], "br") || (sibs[current].Text? && Strip(sibs[current].s) == ""))
      invariant j <= current <= |sibs|
      invariant SkipFiller(sibs, current) == SkipFiller(sibs, j)
    {
      current := current + 1;
    }
  }

  /** Lines 80-91 as the source runs them. */
  method LocateStart(content: seq<Node>) returns (r: Result<Cursor>)
    ensures r == StartPoint(content)
  {
    var h1Tag := Find(content, Heading);
    if h1Tag.None? {
      return Err(NoStartMessage);
    }
    var sibs := h1Tag.value.siblings;
    var hrAfterH1 := NextSibling(sibs, h1Tag.value.index + 1, ThinRule);
    if hrAfterH1.None? {
      return Err(NoStartMessage);
    }
    var current := SkipFillerNodes(sibs, hrAfterH1.value + 1);
    if current == |sibs| || !Truthy(sibs[current]) {
      return Err(NoStartMessage);
    }
    r := Ok(Cursor(sibs, current));
  }

  /** `<hr width="50%">`: the rule between two quotes. */
  predicate Delimiter(n: Node)
  {
    IsTag(n, "hr") && Attr(n, "width") == Some("50%")
  }

  /** `<div id="pagination">`: the end of the quotes. */
  predicate Pagination(n: Node)
  {
    IsTag(n, "div") && Attr(n, "id") == Some("pagination")
  }

  /** Where the walk from index `i` stops: the end of the siblings, an empty
      string (false in Python) or the pagination block. */
  function WalkEnd(sibs: seq<Node>, i: nat): (k: nat)
    requires i <= |sibs|
    ensures i <= k <= |sibs|
    ensures forall t :: i <= t < k ==> Truthy(sibs[t]) && !Pagination(sibs[t])
    ensures k < |sibs| ==> !Truthy(sibs[k]) || Pagination(sibs[k])
    decreases |sibs| - i
  {
    if i == |sibs| || !Truthy(sibs[i]) || Pagination(sibs[i]) then i else WalkEnd(sibs, i + 1)
  }

  /** The pending group as a list of processed groups: none when empty. */
  function Close(group: seq<Node>): seq<seq<Node>>
  {
    if group == [] then [] else [group]
  }

  /** The groups the walk processes from `ns`, with `group` pending. */
  function GroupsFrom(ns: seq<Node>, group: seq<Node>): seq<seq<Node>>
  {
    if |ns| == 0 then Close(group)
    else if Delimiter(ns[0]) then Close(group) + GroupsFrom(ns[1..], [])
    else GroupsFrom(ns[1..], group + [ns[0]])
  }

  /** Lines 94-114: the quote blocks of a run of siblings. They are exactly
      the non-empty pieces between delimiters; none is empty or holds a
      delimiter; and together they are the siblings, in order, without the
      delimiters. */
  function Groups(ns: seq<Node>): (r: seq<seq<Node>>)
    ensures r == NonEmpty(Pieces(ns))
    ensures forall g :: g in r ==> g != [] && forall n :: n in g ==> !Delimiter(n)
    ensures Flatten(r) == DropDelimiters(ns)
  {
    GroupsFromArePieces(ns, []);
    assert [] + Pieces(ns)[0] == Pieces(ns)[0];
    assert [Pieces(ns)[0]] + Pieces(ns)[1..] == Pieces(ns);
    GroupsWellFormed(ns, []);
    GroupsCoverWalk(ns, []);
    assert [] + DropDelimiters(ns) == DropDelimiters(ns);
    GroupsFrom(ns, [])
  }

  /** The pieces between delimiters, empty ones included (like `str.split`). */
  function Pieces(ns: seq<Node>): (r: seq<seq<Node>>)
    ensures |r| >= 1
  {
    if |ns| == 0 then [[]]
    else if Delimiter(ns[0]) then [[]] + Pieces(ns[1..])
    else var rest := Pieces(ns[1..]); [[ns[0]] + rest[0]] + rest[1..]
  }

  function NonEmpty(gs: seq<seq<Node>>): seq<seq<Node>>
  {
    if |gs| == 0 then [] else Close(gs[0]) + NonEmpty(gs[1..])
  }

  /** The walk's groups are exactly the non-empty pieces between delimiters:
      consecutive delimiters yield no group, and the last piece counts even
      without a delimiter after it. */
  lemma {:induction false} GroupsFromArePieces(ns: seq<Node>, group: seq<Node>)
    ensures GroupsFrom(ns, group) == NonEmpty([group + Pieces(ns)[0]] + Pieces(ns)[1..])
  {
    if |ns| == 0 {
      assert group + [] == group;
      assert NonEmpty([group]) == Close(group) + NonEmpty([]);
    } else if Delimiter(ns[0]) {
      GroupsFromArePieces(ns[1..], []);
      var p := Pieces(ns[1..]);
      assert [] + p[0] == p[0];
      assert [p[0]] + p[1..] == p;
      assert group + [] == group;
      assert [group] + Pieces(ns)[1..] == [group] + p;
    } else {
      GroupsFromArePieces(ns[1..], group + [ns[0]]);
      var p := Pieces(ns[1..]);
      assert group + [ns[0]] + p[0] == group + ([ns[0]] + p[0]);
    }
  }

  /** No group is empty and no group holds a delimiter. */
  lemma {:induction false} GroupsWellFormed(ns: seq<Node>, group: seq<Node>)
    requires forall n :: n in group ==> !Delimiter(n)
    ensures forall g :: g in GroupsFrom(ns, group) ==> g != [] && forall n :: n in g ==> !Delimiter(n)
  {
    if |ns| > 0 {
      if Delimiter(ns[0]) {
        GroupsWellFormed(ns[1..], []);
      } else {
        GroupsWellFormed(ns[1..], group + [ns[0]]);
      }
    }
  }

  function Flatten(gs: seq<seq<Node>>): seq<Node>
  {
    if |gs| == 0 then [] else gs[0] + Flatten(gs[1..])
  }

  /** `ns` with every delimiter removed. */
  function DropDelimiters(ns: seq<Node>): seq<Node>
  {
    if |ns| == 0 then [] else (if Delimiter(ns[0]) then [] else [ns[0]]) + DropDelimiters(ns[1..])
  }

  lemma {:induction false} FlattenAppend(a: seq<seq<Node>>, b: seq<seq<Node>>)
    ensures Flatten(a + b) == Flatten(a) + Flatten(b)
  {
    if |a| == 0 {
      assert a + b == b;
    } else {
      assert (a + b)[1..] == a[1..] + b;
      FlattenAppend(a[1..], b);
    }
  }

  /** Together the groups are the walked siblings, in order, without the
      delimiters: nothing is lost, repeated or reordered. */
  lemma {:induction false} GroupsCoverWalk(ns: seq<Node>, group: seq<Node>)
    ensures Flatten(GroupsFrom(ns, group)) == group + DropDelimiters(ns)
  {
    if |ns| == 0 {
      assert Flatten([group]) == group + Flatten([]);
    } else if Delimiter(ns[0]) {
      GroupsCoverWalk(ns[1..], []);
      FlattenAppend(Close(group), GroupsFrom(ns[1..], []));
      assert Flatten([group]) == group + Flatten([]);
      assert [] + DropDelimiters(ns[1..]) == DropDelimiters(ns[1..]);
    } else {
      GroupsCoverWalk(ns[1..], group + [ns[0]]);
      assert group + [ns[0]] + DropDelimiters(ns[1..]) == group + ([ns[0]] + DropDelimiters(ns[1..]));
    }
  }

  /** `[A, <hr width="50%">, B, C]` gives the blocks `[A]` and `[B, C]`. */
  lemma TwoBlocks(a: Node, hr: Node, b: Node, c: Node)
    requires Delimiter(hr) && !Delimiter(a) && !Delimiter(b) && !Delimiter(c)
    ensures Groups([a, hr, b, c]) == [[a], [b, c]]
  {
    assert [a, hr, b, c][0] == a && [a, hr, b, c][1..] == [hr, b, c];
    assert [hr, b, c][0] == hr && [hr, b, c][1..] == [b, c];
    assert [b, c][0] == b && [b, c][1..] == [c];
    assert [c][0] == c && [c][1..] == [];
    assert [b] + [c] == [b, c];
    assert [] + [a] == [a] && [] + [b] == [b];
    assert GroupsFrom([], [b, c]) == [[b, c]];
    assert GroupsFrom([c], [b]) == [[b, c]];
    assert GroupsFrom([b, c], []) == [[b, c]];
    assert GroupsFrom([hr, b, c], [a]) == [[a]] + [[b, c]];
  }

  /** Two delimiters in a row close nothing between them. */
  lemma {:induction false} AdjacentDelimiters(ns: seq<Node>, hr1: Node, hr2: Node)
    requires Delimiter(hr1) && Delimiter(hr2)
    ensures Groups([hr1, hr2] + ns) == Groups(ns)
  {
    assert ([hr1, hr2] + ns)[0] == hr1;
    assert ([hr1, hr2] + ns)[1..] == [hr2] + ns;
    assert ([hr2] + ns)[1..] == ns;
    assert GroupsFrom([hr2] + ns, []) == [] + GroupsFrom(ns, []);
    assert [] + GroupsFrom(ns, []) == GroupsFrom(ns, []);
  }

  /** The block records of a page, in document order. */
  function Records(db: UnicodeDb, groups: seq<seq<Node>>): (r: seq<Extracted>)
    ensures |r| == |groups|
    ensures forall i :: 0 <= i < |groups| ==> r[i] == Extract(db, groups[i])
  {
    seq(|groups|, i requires 0 <= i < |groups| => Extract(db, groups[i]))
  }

  /** What a successful run ends with: `scraped_quotes_count`, the store,
      and the outcome of each processed block. */
  datatype Report = Report(count: nat, store: Db, outcomes: seq<Outcome>)

  /** The blocks `handle` processes, once the start point is known. */
  function PageGroups(c: Cursor): seq<seq<Node>>
    requires c.index <= |c.siblings|
  {
    Groups(c.siblings[c.index..WalkEnd(c.siblings, c.index)])
  }

  /** Lines 76-117: one run of the command over a parsed page. */
  function Scrape(db: UnicodeDb, content: seq<Node>, store: Db): (r: Result<Report>)
    ensures r.Err? <==> StartPoint(content).Err?
    ensures r.Err? ==> r.message == UnexpectedPrefix + NoStartMessage
  {
    match StartPoint(content)
    case Err(m) => Err(UnexpectedPrefix + m)
    case Ok(c) =>
      var groups := PageGroups(c);
      var saved := SaveAll(store, Records(db, groups), CategoryName(InitialSectionPath));
      Ok(Report(|groups|, saved.0, saved.1))
  }

  /** Processing one more block continues the pass from where it stood. */
  lemma SaveNextBlock(db: UnicodeDb, store: Db, done: seq<seq<Node>>, block: seq<Node>, category: string)
    ensures var (db1, os) := SaveAll(store, Records(db, done), category);
            SaveAll(store, Records(db, done + [block]), category) ==
            (SaveQuote(db1, Extract(db, block), category).0, os + [SaveQuote(db1, Extract(db, block), category).1])
  {
    RecordsSnoc(db, done, block);
    SaveAllSnoc(store, Records(db, done), Extract(db, block), category);
  }

  lemma RecordsSnoc(db: UnicodeDb, done: seq<seq<Node>>, block: seq<Node>)
    ensures Records(db, done + [block]) == Records(db, done) + [Extract(db, block)]
  {
    var r := Records(db, done + [block]);
    var q := Records(db, done) + [Extract(db, block)];
    forall i | 0 <= i < |r| ensures r[i] == q[i] {
      if i < |done| {
        assert (done + [block])[i] == done[i];
      } else {
        assert (done + [block])[i] == block;
      }
    }
  }

  /** One step of the walk over the node `ns[0]`: a delimiter closes the
      pending group, anything else joins it. */
  lemma GroupsStep(done: seq<seq<Node>>, ns: seq<Node>, group: seq<Node>)
    requires |ns| > 0
    ensures Delimiter(ns[0]) ==>
              done + GroupsFrom(ns, group) == (done + Close(group)) + GroupsFrom(ns[1..], [])
    ensures !Delimiter(ns[0]) ==>
              done + GroupsFrom(ns, group) == done + GroupsFrom(ns[1..], group + [ns[0]])
  {
    if Delimiter(ns[0]) {
      assert done + (Close(group) + GroupsFrom(ns[1..], [])) ==
             (done + Close(group)) + GroupsFrom(ns[1..], []);
    }
  }

  /** Lines 104-107 and 114-117: process the pending block when it is not
      empty, counting it. */
  method ProcessPending(db: UnicodeDb, block: seq<Node>, category: string,
                        ghost store0: Db, ghost done: seq<seq<Node>>,
                        store: Db, outcomes: seq<Outcome>, count: nat)
    returns (store': Db, outcomes': seq<Outcome>, count': nat)
    requires (store, outcomes) == SaveAll(store0, Records(db, done), category)
    requires count == |done|
    ensures (store', outcomes') == SaveAll(store0, Records(db, done + Close(block)), category)
    ensures count' == |done + Close(block)|
  {
    if block == [] {
      assert done + Close(block) == done;
      return store, outcomes, count;
    }
    SaveNextBlock(db, store0, done, block, category);
    var outcome;
    store', outcome := ProcessQuoteBlock(db, block, category, store);
    outcomes' := outcomes + [outcome];
    count' := count + 1;
  }

  /** Where the walk stands at `current`: it goes on to the next sibling
      exactly when that sibling is true and not the pagination block. */
  lemma WalkEndAt(sibs: seq<Node>, first: nat, current: nat)
    requires first <= |sibs| && first <= current <= WalkEnd(sibs, first)
    ensures current < WalkEnd(sibs, first) <==>
              current < |sibs| && Truthy(sibs[current]) && !Pagination(sibs[current])
  {
  }

  /** The walk's view of the remaining siblings: the next one, then the rest. */
  lemma SliceStep(sibs: seq<Node>, current: nat, end: nat)
    requires current < end <= |sibs|
    ensures |sibs[current..end]| > 0
    ensures sibs[current..end][0] == sibs[current]
    ensures sibs[current..end][1..] == sibs[current + 1..end]
  {
  }

  /** Lines 101-108: one step of the walk over `element`, the first of the
      remaining siblings `ns`. A delimiter processes the pending block and
      empties it; any other node joins it. */
  method TakeNode(db: UnicodeDb, category: string, element: Node, group: seq<Node>,
                  ghost store0: Db, ghost processed: seq<seq<Node>>, ghost ns: seq<Node>,
                  store: Db, outcomes: seq<Outcome>, count: nat)
    returns (group': seq<Node>, store': Db, outcomes': seq<Outcome>, count': nat,
             ghost processed': seq<seq<Node>>)
    requires |ns| > 0 && ns[0] == element
    requires (store, outcomes) == SaveAll(store0, Records(db, processed), category)
    requires count == |processed|
    ensures (store', outcomes') == SaveAll(store0, Records(db, processed'), category)
    ensures count' == |processed'|
    ensures processed + GroupsFrom(ns, group) == processed' + GroupsFrom(ns[1..], group')
    ensures Delimiter(element) ==> group' == [] && processed' == processed + Close(group)
    ensures !Delimiter(element) ==> group' == group + [element] && processed' == processed
  {
    GroupsStep(processed, ns, group);
    if Delimiter(element) {
      store', outcomes', count' :=
        ProcessPending(db, group, category, store0, processed, store, outcomes, count);
      processed' := processed + Close(group);
      group' := [];
    } else {
      group', store', outcomes', count', processed' := group + [element], store, outcomes, count, processed;
    }
  }

  /** Lines 94-114: walk the siblings from `first`, cutting at every wide
      rule, processing and counting each non-empty block. */
  method WalkPage(db: UnicodeDb, sibs: seq<Node>, first: nat, category: string, store: Db)
    returns (count: nat, store': Db, outcomes: seq<Outcome>)
    requires first <= |sibs|
    ensures var groups := Groups(sibs[first..WalkEnd(sibs, first)]);
            count == |groups| && (store', outcomes) == SaveAll(store, Records(db, groups), category)
  {
    ghost var end := WalkEnd(sibs, first);
    ghost var groups := Groups(sibs[first..end]);
    ghost var rest := sibs[first..end];
    ghost var processed: seq<seq<Node>> := [];
    count := 0;
    store' := store;
    outcomes := [];
    var current := first;
    var quoteBlockElements: seq<Node> := [];
    while current < |sibs| && Truthy(sibs[current])
      invariant first <= current <= end
      invariant rest == sibs[current..end]
      invariant processed + GroupsFrom(rest, quoteBlockElements) == groups
      invariant (store', outcomes) == SaveAll(store, Records(db, processed), category)
      invariant count == |processed|
    {
      var element := sibs[current];
      WalkEndAt(sibs, first, current);
      if Pagination(element) {
        break;
      }
      SliceStep(sibs, current, end);
      quoteBlockElements, store', outcomes, count, processed :=
        TakeNode(db, category, element, quoteBlockElements, store, processed, rest,
                 store', outcomes, count);
      rest := rest[1..];
      current := current + 1;
    }
    assert rest == [] by {
      WalkEndAt(sibs, first, current);
    }
    assert processed + Close(quoteBlockElements) == groups;
    store', outcomes, count :=
      ProcessPending(db, quoteBlockElements, category, store, processed, store', outcomes, count);
  }

  /** `Command.handle` after the page is parsed: the category name, the
      start point, then the walk. */
  method Handle(db: UnicodeDb, content: seq<Node>, store: Db) returns (r: Result<Report>)
    ensures r == Scrape(db, content, store)
  {
    var categoryName := CategoryName(InitialSectionPath);
    var start := LocateStart(content);
    if start.Err? {
      return Err(UnexpectedPrefix + start.message);
    }
    var scrapedQuotesCount, store', outcomes :=
      WalkPage(db, start.value.siblings, start.value.index, categoryName, store);
    r := Ok(Report(scrapedQuotesCount, store', outcomes));
  }

  /** `scraped_quotes_count` counts every processed block, new or not: a
      second run over the same page reports the same count while adding no
      quote and leaving the store as it was. */
  lemma CountIsBlocksNotNewQuotes(db: UnicodeDb, content: seq<Node>, store: Db)
    requires Scrape(db, content, store).Ok?
    ensures var first := Scrape(db, content, store).value;
            var second := Scrape(db, content, first.store);
            second.Ok? && second.value.count == first.count &&
            second.value.store == first.store && CountAdded(second.value.outcomes) == 0
  {
    var c := StartPoint(content).value;
    var recs := Records(db, PageGroups(c));
    var category := CategoryName(InitialSectionPath);
    RerunAddsNothing(store, recs, category);
    NoAddedCountsZero(SaveAll(SaveAll(store, recs, category).0, recs, category).1);
  }

  lemma {:induction false} NoAddedCountsZero(os: seq<Outcome>)
    requires Added !in os
    ensures CountAdded(os) == 0
  {
    if |os| > 0 {
      assert os[0] != Added;
      NoAddedCountsZero(os[1..]);
    }
  }
}
