/**
 * The page's state and the operations that change it: the in-memory
 * `quotes` list, the `lastSelectedCategory` read at startup, and the value
 * `filterQuotes` writes under the persisted key `lastSelectedCategory`.
 */
module Store {
  import opened Wrappers
  import opened Quotes

  /**
   * What `addQuote` reports: success, with the rebuilt category menu and the
   * value the menu is set back to, or the "enter both" rejection.
   */
  datatype AddOutcome = Accepted(menu: seq<MenuEntry>, selection: string) | Rejected

  class QuoteStore {
    var quotes: seq<Quote>
    var lastSelectedCategory: string
    /** The raw string persisted under `lastSelectedCategory`, if any. */
    var storedCategory: Option<string>

    /**
     * Page startup from what persistent storage holds: the parsed `quotes`
     * value (`None` when absent or falsy) and the raw `lastSelectedCategory`.
     */
    constructor (storedQuotes: Option<seq<Quote>>, storedCategory: Option<string>)
      ensures quotes == InitialQuotes(storedQuotes)
      ensures lastSelectedCategory == InitialCategory(storedCategory)
      ensures this.storedCategory == storedCategory
    {
      quotes := InitialQuotes(storedQuotes);
      lastSelectedCategory := InitialCategory(storedCategory);
      this.storedCategory := storedCategory;
    }

    /**
     * `populateCategories`: collect the distinct categories through a set of
     * those already seen, then emit the sentinel option followed by one
     * option per category; `selection` is the value the menu is then set to.
     */
    method PopulateCategories() returns (menu: seq<MenuEntry>, selection: string)
      ensures menu == CategoryMenu(quotes)
      ensures selection == lastSelectedCategory
    {
      var seen: set<string> := {};
      var categories: seq<string> := [];
      var k := 0;
      while k < |quotes|
        invariant 0 <= k <= |quotes|
        invariant categories == DistinctCategories(quotes[..k])
        invariant forall c :: c in seen <==> c in categories
      {
        AppendExtendsCategories(quotes[..k], quotes[k]);
        assert quotes[..k + 1] == quotes[..k] + [quotes[k]];
        var c := quotes[k].category;
        if c !in seen {
          seen := seen + {c};
          categories := categories + [c];
        }
        k := k + 1;
      }
      assert quotes[..k] == quotes;
      menu := [MenuEntry(AllSentinel, AllLabel)];
      var j := 0;
      while j < |categories|
        invariant 0 <= j <= |categories|
        invariant menu == [MenuEntry(AllSentinel, AllLabel)] + CategoryEntries(categories[..j])
      {
        assert CategoryEntries(categories[..j + 1]) == CategoryEntries(categories[..j]) + [MenuEntry(categories[j], categories[j])];
        menu := menu + [MenuEntry(categories[j], categories[j])];
        j := j + 1;
      }
      assert categories[..j] == categories;
      selection := lastSelectedCategory;
    }

    /**
     * `filterQuotes`: persist the chosen filter value, then show a quote for
     * it. The in-memory `lastSelectedCategory` and the quotes stay as they were.
     */
    method FilterQuotes(selectedCategory: string, i: nat) returns (d: Display)
      requires Candidates(quotes, selectedCategory) != [] ==> i < |Candidates(quotes, selectedCategory)|
      modifies this`storedCategory
      ensures storedCategory == Some(selectedCategory)
      ensures quotes == old(quotes) && lastSelectedCategory == old(lastSelectedCategory)
      ensures d == ShowRandomQuote(quotes, selectedCategory, i)
    {
      storedCategory := Some(selectedCategory);
      d := ShowRandomQuote(quotes, selectedCategory, i);
    }

    /**
     * `addQuote`: `TryAdd` trims and checks both form values. When it accepts,
     * the extended list replaces `quotes`, and the menu is rebuilt and set back
     * to `lastSelectedCategory`; otherwise nothing changes and the add is rejected.
     */
    method AddQuote(textInput: string, categoryInput: string) returns (outcome: AddOutcome)
      modifies this`quotes
      ensures TryAdd(old(quotes), textInput, categoryInput) == if outcome.Accepted? then Some(quotes) else None
      ensures outcome.Rejected? ==> quotes == old(quotes)
      ensures outcome.Accepted? ==> outcome.menu == CategoryMenu(quotes)
      ensures outcome.Accepted? ==> outcome.selection == lastSelectedCategory
      ensures lastSelectedCategory == old(lastSelectedCategory)
      ensures storedCategory == old(storedCategory)
    {
      var added := TryAdd(quotes, textInput, categoryInput);
      if added.Some? {
        quotes := added.value;
        var menu, selection := PopulateCategories();
        outcome := Accepted(menu, selection);
      } else {
        outcome := Rejected;
      }
    }
  }
}
