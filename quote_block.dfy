// `process_quote_block`: the body text, author and source of one quote
// block, and the decision to store it.
//
// The source serialises the block's nodes and parses them again (lines
// 127-128); the model takes the parsed block to be the block's nodes.

module QuoteBlock {
  import opened Wrappers
  import opened PyStr
  import opened Html
  import opened CleanText
  import opened Store

  /** `find('p', align='right')` */
  const RightParagraph := Selector("p", map["align" := "right"], None)
  /** `find('span', class_='author')` */
  const AuthorSpan := Selector("span", map[], Some("author"))
  /** `find('span', class_='source')` */
  const SourceSpan := Selector("span", map[], Some("source"))

  /** The tags at which the backward walk from the right-aligned paragraph stops. */
  predicate StopsBody(n: Node)
  {
    n.Element? && (n.name == "hr" || n.name == "img" || n.name == "h1" || n.name == "div")
  }

  /** First index of the body before index `i`: just after the nearest
      stopping tag before `i`, or 0 when there is none. */
  function BodyStart(sibs: seq<Node>, i: nat): (j: nat)
    requires i <= |sibs|
    ensures j <= i
    ensures forall k :: j <= k < i ==> !StopsBody(sibs[k])
    ensures j > 0 ==> StopsBody(sibs[j - 1])
  {
    if i == 0 || StopsBody(sibs[i - 1]) then i else BodyStart(sibs, i - 1)
  }

  /** What one sibling adds to the raw body: a string verbatim, `<br>` a
      newline, any other tag nothing. */
  function Contribution(n: Node): string
  {
    if n.Text? then n.s else if IsTag(n, "br") then "\n" else ""
  }

  /** The contributions of `ns` in document order: every character comes
      from one of the strings or is a `<br>`'s newline, every character of
      every string is there, and every `<br>` adds a newline. */
  function RawBody(ns: seq<Node>): (r: string)
    ensures forall ch :: ch in r ==> ch == '\n' || exists n :: n in ns && n.Text? && ch in n.s
    ensures forall n, ch :: n in ns && n.Text? && ch in n.s ==> ch in r
    ensures (exists n :: n in ns && IsTag(n, "br")) ==> '\n' in r
  {
    if |ns| == 0 then "" else RawBody(ns[..|ns| - 1]) + Contribution(ns[|ns| - 1])
  }

  lemma {:induction false} RawBodyConcat(a: seq<Node>, b: seq<Node>)
    ensures RawBody(a + b) == RawBody(a) + RawBody(b)
    decreases |b|
  {
    if |b| == 0 {
      assert a + b == a;
    } else {
      var init := b[..|b| - 1];
      var last := b[|b| - 1];
      assert (a + b)[..|a + b| - 1] == a + init;
      assert (a + b)[|a + b| - 1] == last;
      assert RawBody(a + b) == RawBody(a + init) + Contribution(last);
      assert RawBody(b) == RawBody(init) + Contribution(last);
      RawBodyConcat(a, init);
    }
  }

  lemma RawBodySnoc(ns: seq<Node>, p: nat)
    requires p < |ns|
    ensures RawBody(ns[..p + 1]) == RawBody(ns[..p]) + Contribution(ns[p])
  {
    assert ns[..p + 1][..p] == ns[..p];
  }

  /** Strings and `<br>` tags: the only siblings that add to the body. */
  function TextAndBreaks(ns: seq<Node>): (r: seq<Node>)
    ensures forall n :: n in r ==> n in ns && (n.Text? || IsTag(n, "br"))
  {
    if |ns| == 0 then []
    else TextAndBreaks(ns[..|ns| - 1]) +
         (if ns[|ns| - 1].Text? || IsTag(ns[|ns| - 1], "br") then [ns[|ns| - 1]] else [])
  }

  /** Tags other than `<br>` contribute nothing to the body. */
  lemma {:induction false} RawBodyIgnoresOtherTags(ns: seq<Node>)
    ensures RawBody(ns) == RawBody(TextAndBreaks(ns))
  {
    if |ns| > 0 {
      var init := ns[..|ns| - 1];
      var last := ns[|ns| - 1];
      RawBodyIgnoresOtherTags(init);
      if last.Text? || IsTag(last, "br") {
        assert TextAndBreaks(ns)[..|TextAndBreaks(ns)| - 1] == TextAndBreaks(init);
      } else {
        assert TextAndBreaks(ns) == TextAndBreaks(init);
      }
    }
  }

  /** `clean_text_for_db(tag.get_text(strip=True))` for the first tag `sel`
      finds, or `None` when there is none. */
  function SpanText(db: UnicodeDb, block: seq<Node>, sel: Selector): (r: Option<string>)
    ensures r.None? <==> forall n :: n in Preorder(block) ==> !Matches(n, sel)
    ensures r.Some? ==> exists k: nat :: FirstMatchAt(Preorder(block), k, sel) &&
                                         r.value == Clean(db, TextsOf(Preorder(Preorder(block)[k].children)))
    ensures r.Some? ==> Trimmed(r.value) && LinesTrimmed(r.value)
  {
    assert block[0..] == block;
    match Find(block, sel)
    case None => None
    case Some(h) =>
      FindIsFirst(block, 0, sel);
      Some(Clean(db, StrippedText(h.siblings[h.index].children)))
  }

  /** The cleaned body text of a block: with a right-aligned paragraph, the
      strings and line breaks among its previous siblings back to the nearest
      stopping tag; without one, all the block's text, each string stripped. */
  function BodyText(db: UnicodeDb, block: seq<Node>): (r: string)
    ensures (forall n :: n in Preorder(block) ==> !Matches(n, RightParagraph)) ==>
              r == Clean(db, TextsOf(Preorder(block)))
    ensures forall k: nat :: FirstMatchAt(Preorder(block), k, RightParagraph) ==>
              k < |Locations(block, 0)| &&
              var h := Locations(block, 0)[k];
              h.index <= |h.siblings| && r == Clean(db, RawBody(h.siblings[BodyStart(h.siblings, h.index)..h.index]))
  {
    assert block[0..] == block;
    FindAtFirstMatch(block, RightParagraph);
    match Find(block, RightParagraph)
    case Some(h) =>
      var sibs := h.siblings;
      Clean(db, RawBody(sibs[BodyStart(sibs, h.index)..h.index]))
    case None => Clean(db, StrippedText(block))
  }

  /** Everything `process_quote_block` pulls out of a block. */
  function Extract(db: UnicodeDb, block: seq<Node>): (r: Extracted)
    ensures Trimmed(r.text) && LinesTrimmed(r.text)
    ensures r.author.None? <==> forall n :: n in Preorder(block) ==> !Matches(n, AuthorSpan)
    ensures r.source.None? <==> forall n :: n in Preorder(block) ==> !Matches(n, SourceSpan)
    ensures r.author.Some? ==> Trimmed(r.author.value) && LinesTrimmed(r.author.value)
    ensures r.source.Some? ==> Trimmed(r.source.value) && LinesTrimmed(r.source.value)
  {
    Extracted(BodyText(db, block), SpanText(db, block, AuthorSpan), SpanText(db, block, SourceSpan))
  }

  /** Lines 135-139: the previous siblings of `sibs[i]`, nearest first, up
      to the nearest stopping tag. */
  method CollectBodyNodes(sibs: seq<Node>, i: nat) returns (rawTextElements: seq<Node>)
    requires i <= |sibs|
    ensures |rawTextElements| == i - BodyStart(sibs, i)
    ensures forall t :: 0 <= t < |rawTextElements| ==> rawTextElements[t] == sibs[i - 1 - t]
  {
    rawTextElements := [];
    var k := i;
    while k > 0
      invariant 0 <= k <= i
      invariant |rawTextElements| == i - k
      invariant forall t :: 0 <= t < |rawTextElements| ==> rawTextElements[t] == sibs[i - 1 - t]
      invariant BodyStart(sibs, k) == BodyStart(sibs, i)
    {
      var element := sibs[k - 1];
      if StopsBody(element) {
        break;
      }
      rawTextElements := rawTextElements + [element];
      k := k - 1;
    }
  }

  /** Lines 143-151: the collected nodes taken in reverse, that is in
      document order `kept`, strings verbatim and `<br>` as a newline. */
  method JoinReversed(rawTextElements: seq<Node>, ghost kept: seq<Node>) returns (rawTextContent: string)
    requires |kept| == |rawTextElements|
    requires forall t :: 0 <= t < |kept| ==> rawTextElements[t] == kept[|kept| - 1 - t]
    ensures rawTextContent == RawBody(kept)
  {
    rawTextContent := "";
    var n := |rawTextElements|;
    for p := 0 to n
      invariant rawTextContent == RawBody(kept[..p])
    {
      var element := rawTextElements[n - 1 - p];
      assert element == kept[p];
      RawBodySnoc(kept, p);
      if element.Text? {
        rawTextContent := rawTextContent + element.s;
      } else if IsTag(element, "br") {
        rawTextContent := rawTextContent + "\n";
      }
    }
    assert kept[..n] == kept;
  }

  /** Lines 133-154: the body before the right-aligned paragraph at
      `sibs[i]`, collected by walking its previous siblings back to a stopping
      tag, put back in document order, joined and cleaned. */
  method AssembleBody(db: UnicodeDb, sibs: seq<Node>, i: nat) returns (body: string)
    requires i <= |sibs|
    ensures body == Clean(db, RawBody(sibs[BodyStart(sibs, i)..i]))
  {
    var rawTextElements := CollectBodyNodes(sibs, i);
    ghost var kept := sibs[BodyStart(sibs, i)..i];
    var rawTextContent := JoinReversed(rawTextElements, kept);
    body := CleanTextForDb(db, rawTextContent);
  }

  /** `process_quote_block` on the parsed block: body, author and source,
      then the save decision on the store. */
  method ProcessQuoteBlock(db: UnicodeDb, block: seq<Node>, category: string, store: Db)
    returns (store': Db, outcome: Outcome)
    ensures (store', outcome) == SaveQuote(store, Extract(db, block), category)
  {
    var fullQuoteText := "";
    var pTag := Find(block, RightParagraph);
    if pTag.Some? {
      fullQuoteText := AssembleBody(db, pTag.value.siblings, pTag.value.index);
    } else {
      fullQuoteText := CleanTextForDb(db, StrippedText(block));
    }

    var authorName: Option<string> := None;
    var sourceName: Option<string> := None;
    var authorTag := Find(block, AuthorSpan);
    if authorTag.Some? {
      var name := CleanTextForDb(db, StrippedText(authorTag.value.siblings[authorTag.value.index].children));
      authorName := Some(name);
    }
    var sourceTag := Find(block, SourceSpan);
    if sourceTag.Some? {
      var name := CleanTextForDb(db, StrippedText(sourceTag.value.siblings[sourceTag.value.index].children));
      sourceName := Some(name);
    }

    var saved := SaveQuote(store, Extracted(fullQuoteText, authorName, sourceName), category);
    store', outcome := saved.0, saved.1;
  }

  /** A `<br>` between two strings becomes the newline between them. */
  lemma BreakBecomesNewline(a: string, b: string)
    ensures RawBody([Text(a), Element("br", map[], [], []), Text(b)]) == a + "\n" + b
  {
    var br := Element("br", map[], [], []);
    assert [Text(a), br, Text(b)][..2] == [Text(a), br];
    assert [Text(a), br][..1] == [Text(a)];
    assert [Text(a)][..0] == [];
    assert RawBody([Text(a)]) == a;
    assert RawBody([Text(a), br]) == a + "\n";
  }

  /** The line structure survives cleaning: two single, already clean lines
      that NFKC leaves alone, joined by a newline, are cleaned to themselves. */
  lemma TwoLinesKept(db: UnicodeDb, a: string, b: string)
    requires a != "" && b != "" && Trimmed(a) && Trimmed(b)
    requires '\n' !in a && '\n' !in b
    requires forall c :: c in a + "\n" + b ==> !Folded(c) && Kept(db, c)
    requires db.nfkc(a + "\n" + b) == a + "\n" + b
    ensures Clean(db, a + "\n" + b) == a + "\n" + b
  {
    var x := a + "\n" + b;
    assert Join([a, b], '\n') == x;
    SplitJoin([a, b], '\n');
    assert LinesTrimmed(x);
    assert x[0] == a[0] && x[|x| - 1] == b[|b| - 1];
    CleanFixedPoint(db, x);
  }
}
