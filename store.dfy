// The save decision of `process_quote_block` over an abstract store: the
// tables Author, Source and Category keyed by their unique names, and Quote
// keyed by its text, with `get_or_create` and `categories.add` written out
// as map and set updates.

module Store {
  import opened Wrappers

  /** A stored quote: its author (nullable foreign key), its source and the
      names of the categories it belongs to. */
  datatype QuoteRow = QuoteRow(author: Option<string>, source: string, categories: set<string>)

  datatype Db = Db(
    authors: set<string>,
    sources: set<string>,
    categories: set<string>,
    quotes: map<string, QuoteRow>)

  /** What `process_quote_block` extracted from one block: cleaned body text,
      and the cleaned author and source span texts when the spans exist. */
  datatype Extracted = Extracted(text: string, author: Option<string>, source: Option<string>)

  /** The three ways a block ends: a new quote, an existing one, or no text. */
  datatype Outcome = Added | AlreadyExists | SkippedEmpty

  /** The category every scraped quote is put in. */
  const MainCategory := "Quotes"

  /** `author_name if author_name else None`: an empty name links no author. */
  function AuthorKey(rec: Extracted): (r: Option<string>)
    ensures r != Some("")
    ensures r.Some? ==> r == rec.author
    ensures rec.author.Some? && rec.author.value != "" ==> r.Some?
  {
    if rec.author.Some? && rec.author.value != "" then rec.author else None
  }

  /** `later` keeps everything `earlier` holds: no name, quote or category
      membership is ever removed. */
  predicate Grows(earlier: Db, later: Db)
  {
    earlier.authors <= later.authors && earlier.sources <= later.sources &&
    earlier.categories <= later.categories &&
    (forall t :: t in earlier.quotes ==>
       t in later.quotes && earlier.quotes[t].categories <= later.quotes[t].categories)
  }

  /** Everything saving `rec` under `category` would create is present. */
  predicate Holds(db: Db, rec: Extracted, category: string)
  {
    rec.text == "" ||
    (rec.text in db.quotes && MainCategory in db.quotes[rec.text].categories &&
     MainCategory in db.categories && category in db.sources &&
     (AuthorKey(rec).Some? ==> AuthorKey(rec).value in db.authors))
  }

  /** Lines 172-189: nothing is saved for an empty body; otherwise the author
      (when named), the main category and the source named after the page's
      category are fetched or created, the quote is fetched or created by its
      exact text (author and source are set only on creation), and the main
      category is added when the quote does not have it yet. */
  function SaveQuote(db: Db, rec: Extracted, category: string): (r: (Db, Outcome))
    ensures rec.text == "" <==> r.1 == SkippedEmpty
    ensures rec.text == "" ==> r.0 == db
    ensures r.1 == Added <==> rec.text != "" && rec.text !in db.quotes
    ensures rec.text != "" ==> r.0.quotes.Keys == db.quotes.Keys + {rec.text}
    ensures r.1 == Added ==> r.0.quotes[rec.text] == QuoteRow(AuthorKey(rec), category, {MainCategory})
    ensures r.1 == AlreadyExists ==>
              r.0.quotes[rec.text] ==
              db.quotes[rec.text].(categories := db.quotes[rec.text].categories + {MainCategory})
    ensures forall t :: t in db.quotes && t != rec.text ==> r.0.quotes[t] == db.quotes[t]
    ensures rec.text != "" ==>
              r.0.authors == db.authors + (if AuthorKey(rec).Some? then {AuthorKey(rec).value} else {}) &&
              r.0.sources == db.sources + {category} &&
              r.0.categories == db.categories + {MainCategory}
    ensures Grows(db, r.0) && Holds(r.0, rec, category)
  {
    if rec.text == "" then (db, SkippedEmpty)
    else
      var author := AuthorKey(rec);
      var named := db.(
        authors := if author.Some? then db.authors + {author.value} else db.authors,
        categories := db.categories + {MainCategory},
        sources := db.sources + {category});
      var created := rec.text !in db.quotes;
      var row := if created then QuoteRow(author, category, {}) else db.quotes[rec.text];
      var row' := if created || MainCategory !in row.categories
                  then row.(categories := row.categories + {MainCategory}) else row;
      (named.(quotes := db.quotes[rec.text := row']), if created then Added else AlreadyExists)
  }

  /** The source span's text plays no part in what is stored. */
  lemma SourceSpanUnused(db: Db, rec: Extracted, category: string, other: Option<string>)
    ensures SaveQuote(db, rec.(source := other), category) == SaveQuote(db, rec, category)
  {
  }

  lemma GrowsTransitive(a: Db, b: Db, c: Db)
    requires Grows(a, b) && Grows(b, c)
    ensures Grows(a, c)
  {
  }

  lemma HoldsGrows(a: Db, b: Db, rec: Extracted, category: string)
    requires Holds(a, rec, category) && Grows(a, b)
    ensures Holds(b, rec, category)
  {
  }

  /** Saving a block whose records are already present changes nothing and
      reports no new quote. */
  lemma SaveHeld(db: Db, rec: Extracted, category: string)
    requires Holds(db, rec, category)
    ensures SaveQuote(db, rec, category) ==
            (db, if rec.text == "" then SkippedEmpty else AlreadyExists)
  {
    if rec.text != "" {
      assert db.quotes[rec.text := db.quotes[rec.text]] == db.quotes;
      assert db.categories + {MainCategory} == db.categories;
      assert db.sources + {category} == db.sources;
      if AuthorKey(rec).Some? {
        assert db.authors + {AuthorKey(rec).value} == db.authors;
      }
    }
  }

  /** The blocks of one page saved in document order. */
  function SaveAll(db: Db, recs: seq<Extracted>, category: string): (r: (Db, seq<Outcome>))
    ensures |r.1| == |recs|
    decreases |recs|
  {
    if |recs| == 0 then (db, [])
    else
      var (db1, o) := SaveQuote(db, recs[0], category);
      var (db2, os) := SaveAll(db1, recs[1..], category);
      (db2, [o] + os)
  }

  /** A pass removes nothing: every name, quote and category membership
      present before is present after. */
  lemma {:induction false} SaveAllGrows(db: Db, recs: seq<Extracted>, category: string)
    ensures Grows(db, SaveAll(db, recs, category).0)
    decreases |recs|
  {
    if |recs| > 0 {
      var db1 := SaveQuote(db, recs[0], category).0;
      SaveAllGrows(db1, recs[1..], category);
      GrowsTransitive(db, db1, SaveAll(db1, recs[1..], category).0);
    }
  }

  /** A pass over one block is that block's save. */
  lemma SaveAllOne(db: Db, rec: Extracted, category: string)
    ensures SaveAll(db, [rec], category) == (SaveQuote(db, rec, category).0, [SaveQuote(db, rec, category).1])
  {
    assert [rec][0] == rec && [rec][1..] == [];
    assert [SaveQuote(db, rec, category).1] + [] == [SaveQuote(db, rec, category).1];
  }

  /** Saving one more block after a pass continues from the pass's store. */
  lemma {:induction false} SaveAllSnoc(db: Db, recs: seq<Extracted>, rec: Extracted, category: string)
    ensures SaveAll(db, recs + [rec], category) ==
            (SaveQuote(SaveAll(db, recs, category).0, rec, category).0,
             SaveAll(db, recs, category).1 + [SaveQuote(SaveAll(db, recs, category).0, rec, category).1])
    decreases |recs|
  {
    if |recs| == 0 {
      assert recs + [rec] == [rec];
      assert SaveAll(db, recs, category) == (db, []);
      assert [] + [SaveQuote(db, rec, category).1] == [SaveQuote(db, rec, category).1];
      SaveAllOne(db, rec, category);
    } else {
      var all := recs + [rec];
      assert all[0] == recs[0];
      assert all[1..] == recs[1..] + [rec];
      var first := SaveQuote(db, recs[0], category);
      SaveAllSnoc(first.0, recs[1..], rec, category);
      var rest := SaveAll(first.0, recs[1..], category);
      var last := SaveQuote(rest.0, rec, category);
      assert [first.1] + (rest.1 + [last.1]) == ([first.1] + rest.1) + [last.1];
    }
  }

  /** After a pass every saved block's quote is in the store. */
  lemma {:induction false} SaveAllHolds(db: Db, recs: seq<Extracted>, category: string)
    ensures forall i :: 0 <= i < |recs| ==> Holds(SaveAll(db, recs, category).0, recs[i], category)
    decreases |recs|
  {
    if |recs| > 0 {
      var db1 := SaveQuote(db, recs[0], category).0;
      SaveAllHolds(db1, recs[1..], category);
      SaveAllGrows(db1, recs[1..], category);
      HoldsGrows(db1, SaveAll(db, recs, category).0, recs[0], category);
      forall i | 1 <= i < |recs| ensures Holds(SaveAll(db, recs, category).0, recs[i], category) {
        assert recs[i] == recs[1..][i - 1];
      }
    }
  }

  /** A pass over blocks that are all present already leaves the store as it
      is and adds no quote. */
  lemma {:induction false} SaveAllHeld(db: Db, recs: seq<Extracted>, category: string)
    requires forall i :: 0 <= i < |recs| ==> Holds(db, recs[i], category)
    ensures SaveAll(db, recs, category).0 == db
    ensures Added !in SaveAll(db, recs, category).1
    decreases |recs|
  {
    if |recs| > 0 {
      SaveHeld(db, recs[0], category);
      forall i | 0 <= i < |recs[1..]| ensures Holds(db, recs[1..][i], category) {
        assert recs[1..][i] == recs[i + 1];
      }
      SaveAllHeld(db, recs[1..], category);
    }
  }

  /** Running the same page again stores nothing new: the second pass leaves
      the store unchanged and reports every quote as already present. */
  lemma RerunAddsNothing(db: Db, recs: seq<Extracted>, category: string)
    ensures var first := SaveAll(db, recs, category).0;
            SaveAll(first, recs, category).0 == first && Added !in SaveAll(first, recs, category).1
  {
    SaveAllHolds(db, recs, category);
    SaveAllHeld(SaveAll(db, recs, category).0, recs, category);
  }

  function CountAdded(os: seq<Outcome>): nat
  {
    if |os| == 0 then 0 else (if os[0] == Added then 1 else 0) + CountAdded(os[1..])
  }

  /** Each `Added` outcome is exactly one new quote text in the store. */
  lemma {:induction false} AddedCountsNewQuotes(db: Db, recs: seq<Extracted>, category: string)
    ensures |SaveAll(db, recs, category).0.quotes.Keys| ==
            |db.quotes.Keys| + CountAdded(SaveAll(db, recs, category).1)
    decreases |recs|
  {
    if |recs| > 0 {
      var (db1, o) := SaveQuote(db, recs[0], category);
      AddedCountsNewQuotes(db1, recs[1..], category);
      if o == Added {
        assert recs[0].text !in db.quotes.Keys;
      } else if o == AlreadyExists {
        assert db.quotes.Keys + {recs[0].text} == db.quotes.Keys;
      }
    }
  }
}
