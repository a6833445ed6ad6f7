/**
 * The pure part of the quote widget: the quote records, the startup
 * defaults, the category filter and pick behind "show new quote", the
 * category index behind the filter menu, and the validation of a new quote.
 */
module Quotes {
  import opened Wrappers
  import opened Strings
  import opened Sequences

  datatype Quote = Quote(text: string, category: string)

  /** The filter value meaning "no filter": the first option of the menu. */
  const AllSentinel: string := "all"
  const AllLabel: string := "All Categories"

  /** The three quotes the store starts with when nothing usable is stored. */
  const Seed: seq<Quote> := [
    Quote("The only way to do great work is to love what you do", "Motivation"),
    Quote("In the middle of every difficulty lies opportunity", "Inspiration"),
    Quote("Happiness depends upon ourselves.", "Philosophy")
  ]

  // ---------------------------------------------------------------------------
  // Startup

  /**
   * The store at startup. `stored` is the parsed value under the `quotes`
   * key, `None` when the key is absent or parses to a falsy value; an empty
   * stored array is truthy and is kept.
   */
  function InitialQuotes(stored: Option<seq<Quote>>): (r: seq<Quote>)
    ensures stored.Some? ==> r == stored.value
    ensures stored.None? ==> |r| == 3 && r == Seed
  {
    if stored.Some? then stored.value else Seed
  }

  /**
   * The last selected category at startup. `stored` is the raw string under
   * the `lastSelectedCategory` key; a missing key and the empty string are
   * both falsy and give the sentinel.
   */
  function InitialCategory(stored: Option<string>): (r: string)
    ensures r != []
    ensures stored.Some? && stored.value != [] ==> r == stored.value
    ensures stored.None? || stored.value == [] ==> r == AllSentinel
  {
    if stored.Some? && stored.value != [] then stored.value else AllSentinel
  }

  // ---------------------------------------------------------------------------
  // Filter and pick

  /** The filter's comparison: both categories lower-cased, then compared exactly. */
  predicate SameCategory(q: Quote, category: string)
  {
    Lower(q.category) == Lower(category)
  }

  /** Whether a quote is a candidate under the filter value `category`. */
  predicate Selected(q: Quote, category: string)
  {
    category == AllSentinel || SameCategory(q, category)
  }

  /** `quotes.filter(q => q.category.toLowerCase() === category.toLowerCase())`. */
  function FilterByCategory(quotes: seq<Quote>, category: string): (r: seq<Quote>)
    ensures |r| <= |quotes|
  {
    if quotes == [] then []
    else
      var q := quotes[|quotes| - 1];
      FilterByCategory(quotes[..|quotes| - 1], category) + (if SameCategory(q, category) then [q] else [])
  }

  /** The candidate list of `showRandomQuote`: the whole store for the sentinel, else the filtered store. */
  function Candidates(quotes: seq<Quote>, category: string): (r: seq<Quote>)
    ensures category == AllSentinel ==> r == quotes
    ensures forall q :: q in r <==> q in quotes && Selected(q, category)
  {
    FilterMembers(quotes, category);
    if category == AllSentinel then quotes else FilterByCategory(quotes, category)
  }

  /** The outcome of "show new quote": the "no quotes available" message, or one quote shown. */
  datatype Display = NoQuotes | Shown(quote: Quote)

  /**
   * `showRandomQuote` with the random draw made explicit: `i` stands for
   * `Math.floor(Math.random() * candidates.length)`, which lies in range
   * whenever there is a candidate.
   */
  function ShowRandomQuote(quotes: seq<Quote>, category: string, i: nat): (d: Display)
    requires Candidates(quotes, category) != [] ==> i < |Candidates(quotes, category)|
    ensures d.NoQuotes? <==> !exists q :: q in quotes && Selected(q, category)
    ensures d.Shown? ==> d.quote == Candidates(quotes, category)[i]
    ensures d.Shown? ==> d.quote in quotes && Selected(d.quote, category)
  {
    var candidates := Candidates(quotes, category);
    if |candidates| == 0 then
      assert forall q :: q in quotes ==> !Selected(q, category);
      NoQuotes
    else
      assert candidates[0] in quotes;
      Shown(candidates[i])
  }

  /** The filter keeps the matching quotes of the store and nothing else. */
  lemma {:induction false} FilterMembers(quotes: seq<Quote>, category: string)
    ensures forall q :: q in FilterByCategory(quotes, category) <==> q in quotes && SameCategory(q, category)
  {
    if quotes != [] {
      var n := |quotes| - 1;
      FilterMembers(quotes[..n], category);
      assert quotes == quotes[..n] + [quotes[n]];
    }
  }

  /** The positions of the matches in `quotes`, listed in increasing order, are `idx`. */
  ghost predicate MatchPositions(quotes: seq<Quote>, category: string, idx: seq<nat>)
  {
    && SubsequenceAt(FilterByCategory(quotes, category), quotes, idx)
    && forall j :: 0 <= j < |quotes| ==> (j in idx <==> SameCategory(quotes[j], category))
  }

  lemma MatchPositionsSnoc(p: seq<Quote>, q: Quote, category: string, idx': seq<nat>)
    requires MatchPositions(p, category, idx')
    ensures MatchPositions(p + [q], category, idx' + if SameCategory(q, category) then [|p|] else [])
  {
    var quotes := p + [q];
    var n := |p|;
    assert quotes[..n] == p;
    assert FilterByCategory(quotes, category) == FilterByCategory(p, category) + if SameCategory(q, category) then [q] else [];
    SubsequenceSnoc(FilterByCategory(p, category), p, idx', q);
    var idx: seq<nat> := idx' + if SameCategory(q, category) then [n] else [];
    forall j | 0 <= j < |quotes| ensures j in idx <==> SameCategory(quotes[j], category) {
      if j < n {
        assert quotes[j] == p[j];
        assert j in idx <==> j in idx';
      } else {
        assert forall k :: 0 <= k < |idx'| ==> idx'[k] < n;
        assert n !in idx';
      }
    }
  }

  /** The filter keeps exactly the positions of the matching quotes, in increasing order. */
  lemma {:induction false} FilterPositions(quotes: seq<Quote>, category: string)
    ensures exists idx: seq<nat> :: MatchPositions(quotes, category, idx)
  {
    if quotes == [] {
      assert MatchPositions(quotes, category, []);
    } else {
      var n := |quotes| - 1;
      var p := quotes[..n];
      FilterPositions(p, category);
      var idx' :| MatchPositions(p, category, idx');
      assert quotes == p + [quotes[n]];
      MatchPositionsSnoc(p, quotes[n], category, idx');
    }
  }

  /** Candidates are a subsequence of the store: selected quotes only, every one of them, in store order. */
  lemma CandidatesPositions(quotes: seq<Quote>, category: string)
    ensures exists idx: seq<nat> :: SubsequenceAt(Candidates(quotes, category), quotes, idx)
                          && forall j :: 0 <= j < |quotes| ==> (j in idx <==> Selected(quotes[j], category))
  {
    if category == AllSentinel {
      var idx: seq<nat> := seq(|quotes|, k requires 0 <= k < |quotes| => k);
      forall j | 0 <= j < |quotes| ensures j in idx {
        assert idx[j] == j;
      }
      assert SubsequenceAt(Candidates(quotes, category), quotes, idx)
             && forall j :: 0 <= j < |quotes| ==> (j in idx <==> Selected(quotes[j], category));
    } else {
      FilterPositions(quotes, category);
      var idx :| MatchPositions(quotes, category, idx);
      assert SubsequenceAt(Candidates(quotes, category), quotes, idx);
    }
  }

  /** The filter keeps each matching quote as many times as the store holds it, and drops the rest. */
  lemma {:induction false} FilterMultiplicity(quotes: seq<Quote>, category: string, x: Quote)
    ensures multiset(FilterByCategory(quotes, category))[x] == if SameCategory(x, category) then multiset(quotes)[x] else 0
  {
    if quotes != [] {
      var n := |quotes| - 1;
      FilterMultiplicity(quotes[..n], category, x);
      assert quotes == quotes[..n] + [quotes[n]];
    }
  }

  /** Filtering distributes over concatenation, so the filter never reorders. */
  lemma {:induction false} FilterAppend(a: seq<Quote>, b: seq<Quote>, category: string)
    ensures FilterByCategory(a + b, category) == FilterByCategory(a, category) + FilterByCategory(b, category)
  {
    if b == [] {
      assert a + b == a;
    } else {
      var n := |b| - 1;
      var ab := a + b;
      var tail := if SameCategory(b[n], category) then [b[n]] else [];
      assert ab[..|ab| - 1] == a + b[..n];
      assert ab[|ab| - 1] == b[n];
      assert FilterByCategory(ab, category) == FilterByCategory(a + b[..n], category) + tail;
      assert FilterByCategory(b, category) == FilterByCategory(b[..n], category) + tail;
      FilterAppend(a, b[..n], category);
    }
  }

  /**
   * The filter at line 15 cannot tell apart two filter values that differ
   * only in letter case (the sentinel test before it is case-sensitive:
   * see `SentinelIsCaseSensitive`).
   */
  lemma {:induction false} FilterIgnoresCase(quotes: seq<Quote>, c1: string, c2: string)
    requires Lower(c1) == Lower(c2)
    ensures FilterByCategory(quotes, c1) == FilterByCategory(quotes, c2)
  {
    if quotes != [] {
      FilterIgnoresCase(quotes[..|quotes| - 1], c1, c2);
    }
  }

  /** Only the exact string "all" is the sentinel: "ALL" lower-cases alike but is filtered like any other value. */
  lemma SentinelIsCaseSensitive()
    ensures Lower("ALL") == Lower(AllSentinel)
    ensures Candidates([Quote("x", "Motivation")], AllSentinel) == [Quote("x", "Motivation")]
    ensures Candidates([Quote("x", "Motivation")], "ALL") == []
  {
    var store := [Quote("x", "Motivation")];
    assert !SameCategory(store[0], "ALL") by {
      assert Lower(store[0].category)[0] != Lower("ALL")[0];
    }
    FilterMembers(store, "ALL");
    HeadIsElement(Candidates(store, "ALL"));
  }

  /** With the sentinel, a non-empty store always shows a quote: exactly the one drawn. */
  lemma ShowAllNeverEmpty(quotes: seq<Quote>, i: nat)
    requires i < |quotes|
    ensures ShowRandomQuote(quotes, AllSentinel, i) == Shown(quotes[i])
  {
  }

  /** Every candidate is shown for some draw. */
  lemma EveryCandidateCanBeShown(quotes: seq<Quote>, category: string, q: Quote)
    requires q in quotes && Selected(q, category)
    ensures exists i: nat :: i < |Candidates(quotes, category)| && ShowRandomQuote(quotes, category, i) == Shown(q)
  {
    var i := FirstIndex(Candidates(quotes, category), q);
    assert ShowRandomQuote(quotes, category, i) == Shown(q);
  }

  // ---------------------------------------------------------------------------
  // Category index

  /** `quotes.map(q => q.category)`. */
  function CategoriesOf(quotes: seq<Quote>): (r: seq<string>)
    ensures |r| == |quotes|
    ensures forall k :: 0 <= k < |quotes| ==> r[k] == quotes[k].category
  {
    seq(|quotes|, k requires 0 <= k < |quotes| => quotes[k].category)
  }

  /** `[...new Set(quotes.map(q => q.category))]`: the store's categories, each once, unnormalised. */
  function DistinctCategories(quotes: seq<Quote>): (r: seq<string>)
    ensures |r| <= |quotes|
  {
    Dedup(CategoriesOf(quotes))
  }

  /** The category index holds the category of every quote and nothing else, each exactly once. */
  lemma DistinctCategoriesMembers(quotes: seq<Quote>)
    ensures forall c :: c in DistinctCategories(quotes) <==> exists k :: 0 <= k < |quotes| && quotes[k].category == c
    ensures Distinct(DistinctCategories(quotes))
  {
    var cats := CategoriesOf(quotes);
    forall c | c in cats ensures exists k :: 0 <= k < |quotes| && quotes[k].category == c {
      var k :| 0 <= k < |cats| && cats[k] == c;
    }
  }

  /**
   * A sequence is the category index exactly when it holds every category
   * of the store and nothing else, each once, ordered by first occurrence.
   */
  lemma DistinctCategoriesCharacterized(quotes: seq<Quote>, r: seq<string>)
    ensures r == DistinctCategories(quotes) <==>
              && (forall c :: c in r <==> c in CategoriesOf(quotes))
              && Distinct(r)
              && InFirstOccurrenceOrder(r, CategoriesOf(quotes))
  {
    var cats := CategoriesOf(quotes);
    DedupFirstOccurrence(cats);
    if (forall c :: c in r <==> c in cats) && Distinct(r) && InFirstOccurrenceOrder(r, cats) {
      DedupUnique(cats, r);
    }
  }

  /** One entry of the category menu: option value and option text shown. */
  datatype MenuEntry = MenuEntry(value: string, text: string)

  /** The entries `populateCategories` appends after the fixed first one, one per category. */
  function CategoryEntries(cats: seq<string>): (m: seq<MenuEntry>)
    ensures |m| == |cats|
    ensures forall k :: 0 <= k < |cats| ==> m[k] == MenuEntry(cats[k], cats[k])
  {
    seq(|cats|, k requires 0 <= k < |cats| => MenuEntry(cats[k], cats[k]))
  }

  /** The category menu: the sentinel option first, then each distinct category in order. */
  function CategoryMenu(quotes: seq<Quote>): (m: seq<MenuEntry>)
    ensures |m| == 1 + |DistinctCategories(quotes)|
    ensures m[0] == MenuEntry(AllSentinel, AllLabel)
    ensures m[1..] == CategoryEntries(DistinctCategories(quotes))
  {
    [MenuEntry(AllSentinel, AllLabel)] + CategoryEntries(DistinctCategories(quotes))
  }

  /** After the sentinel option, the menu offers only categories of the store, none of them twice. */
  lemma MenuOffersOnlyStoreCategories(quotes: seq<Quote>)
    ensures forall k :: 1 <= k < |CategoryMenu(quotes)| ==>
              exists j :: 0 <= j < |quotes| && quotes[j].category == CategoryMenu(quotes)[k].value
    ensures forall k, l :: 1 <= k < l < |CategoryMenu(quotes)| ==> CategoryMenu(quotes)[k].value != CategoryMenu(quotes)[l].value
  {
    var m := CategoryMenu(quotes);
    var d := DistinctCategories(quotes);
    DistinctCategoriesMembers(quotes);
    forall k | 1 <= k < |m| ensures m[k].value == d[k - 1] {
      assert m[k] == m[1..][k - 1];
    }
    forall k | 1 <= k < |m| ensures exists j :: 0 <= j < |quotes| && quotes[j].category == m[k].value {
      assert d[k - 1] in d;
    }
  }

  /** Every category of the store is offered after the sentinel option. */
  lemma MenuOffersEveryCategory(quotes: seq<Quote>)
    ensures forall j :: 0 <= j < |quotes| ==>
              exists k :: 1 <= k < |CategoryMenu(quotes)| && CategoryMenu(quotes)[k].value == quotes[j].category
  {
    var m := CategoryMenu(quotes);
    var d := DistinctCategories(quotes);
    DistinctCategoriesMembers(quotes);
    forall j | 0 <= j < |quotes| ensures exists k :: 1 <= k < |m| && m[k].value == quotes[j].category {
      var c := quotes[j].category;
      assert c in d;
      var i := FirstIndex(d, c);
      assert m[i + 1] == m[1..][i];
    }
  }

  // ---------------------------------------------------------------------------
  // Adding a quote

  /**
   * The store after `addQuote` given the raw input field values: `None` when
   * either trimmed value is empty (the store is then left alone).
   */
  function TryAdd(quotes: seq<Quote>, textInput: string, categoryInput: string): (r: Option<seq<Quote>>)
    ensures r.None? <==> Trim(textInput) == [] || Trim(categoryInput) == []
    ensures r.Some? ==> |r.value| == |quotes| + 1 && r.value[..|quotes|] == quotes
    ensures r.Some? ==> r.value[|quotes|] == Quote(Trim(textInput), Trim(categoryInput))
  {
    var text := Trim(textInput);
    var category := Trim(categoryInput);
    if text != [] && category != [] then Some(quotes + [Quote(text, category)]) else None
  }

  /** An add is rejected exactly when one of the two form values is empty or white space only. */
  lemma TryAddRejectsBlank(quotes: seq<Quote>, textInput: string, categoryInput: string)
    ensures TryAdd(quotes, textInput, categoryInput).None? <==> AllSpace(textInput) || AllSpace(categoryInput)
  {
    TrimEmptyIffAllSpace(textInput);
    TrimEmptyIffAllSpace(categoryInput);
  }

  /** Form values already free of surrounding white space are stored exactly as entered. */
  lemma AddUnpadded(quotes: seq<Quote>, text: string, category: string)
    requires text != [] && !IsSpace(text[0]) && !IsSpace(text[|text| - 1])
    requires category != [] && !IsSpace(category[0]) && !IsSpace(category[|category| - 1])
    ensures TryAdd(quotes, text, category) == Some(quotes + [Quote(text, category)])
  {
    TrimUnpadded(text);
    TrimUnpadded(category);
  }

  /** An added quote has non-empty fields with no white space at either end. */
  lemma AddedQuoteIsTrimmed(quotes: seq<Quote>, textInput: string, categoryInput: string)
    requires TryAdd(quotes, textInput, categoryInput).Some?
    ensures var q := TryAdd(quotes, textInput, categoryInput).value[|quotes|];
            && q.text != [] && !IsSpace(q.text[0]) && !IsSpace(q.text[|q.text| - 1])
            && q.category != [] && !IsSpace(q.category[0]) && !IsSpace(q.category[|q.category| - 1])
            && Trim(q.text) == q.text && Trim(q.category) == q.category
  {
    var q := TryAdd(quotes, textInput, categoryInput).value[|quotes|];
    assert q.text == Trim(textInput) && q.category == Trim(categoryInput);
    TrimIdempotent(textInput);
    TrimIdempotent(categoryInput);
  }

  /** Appending a quote extends the candidates of any filter by that quote if the filter selects it, and leaves them otherwise. */
  lemma AppendExtendsCandidates(quotes: seq<Quote>, q: Quote, category: string)
    ensures Candidates(quotes + [q], category) == Candidates(quotes, category) + if Selected(q, category) then [q] else []
  {
    assert (quotes + [q])[..|quotes|] == quotes;
  }

  /** Appending a quote adds its category at the end of the category index, unless the index already had it. */
  lemma AppendExtendsCategories(quotes: seq<Quote>, q: Quote)
    ensures DistinctCategories(quotes + [q])
              == DistinctCategories(quotes) + if q.category in DistinctCategories(quotes) then [] else [q.category]
  {
    assert CategoriesOf(quotes + [q])[..|quotes|] == CategoriesOf(quotes);
  }

  /** The seed store's category index. */
  lemma SeedCategories()
    ensures DistinctCategories(Seed) == ["Motivation", "Inspiration", "Philosophy"]
  {
    var cats := CategoriesOf(Seed);
    assert cats == ["Motivation", "Inspiration", "Philosophy"];
    assert cats[..2][..1] == ["Motivation"];
    assert cats[..2] == ["Motivation", "Inspiration"];
    assert Dedup(cats[..2][..1]) == ["Motivation"];
  }

  /** No seed quote is in the category "testing", whatever its letter case. */
  lemma SeedHasNoTestingQuote()
    ensures Candidates(Seed, "testing") == []
  {
    forall q | q in Seed ensures !SameCategory(q, "testing") {
      assert |Lower(q.category)| != |Lower("testing")|;
    }
    FilterMembers(Seed, "testing");
    HeadIsElement(Candidates(Seed, "testing"));
  }

  /** The quote added in the walk-through below. */
  const TestQuote: Quote := Quote("Test quote", "Testing")

  lemma TestingIsNewCategory()
    ensures TestQuote.category !in DistinctCategories(Seed)
  {
    SeedCategories();
    var d := DistinctCategories(Seed);
    assert forall c :: c in d ==> |c| >= 10;
  }

  /** Walk-through on the seed store: the form values "Test quote" and "Testing" are accepted as they are. */
  lemma TestQuoteAccepted()
    ensures TryAdd(Seed, TestQuote.text, TestQuote.category) == Some(Seed + [TestQuote])
  {
    AddUnpadded(Seed, TestQuote.text, TestQuote.category);
  }

  lemma TestQuoteMatchesLowerCase()
    ensures SameCategory(TestQuote, "testing")
  {
    assert Lower(TestQuote.category) == Lower("testing");
  }

  /**
   * Walk-through on the seed store, continued: adding "Test quote" in
   * "Testing" gives four quotes, and the category index ends with "Testing".
   */
  lemma AddToSeedExtendsIndex()
    ensures |Seed + [TestQuote]| == 4
    ensures DistinctCategories(Seed + [TestQuote]) == ["Motivation", "Inspiration", "Philosophy", "Testing"]
  {
    SeedCategories();
    TestingIsNewCategory();
    AppendExtendsCategories(Seed, TestQuote);
  }

  /**
   * Second half: filtering the grown store by "testing" (lower case) has the
   * new quote as its only candidate, so that is the quote shown.
   */
  lemma AddToSeedShowsNewQuote()
    ensures Candidates(Seed + [TestQuote], "testing") == [TestQuote]
    ensures ShowRandomQuote(Seed + [TestQuote], "testing", 0) == Shown(TestQuote)
  {
    SeedHasNoTestingQuote();
    TestQuoteMatchesLowerCase();
    AppendExtendsCandidates(Seed, TestQuote, "testing");
  }
}
