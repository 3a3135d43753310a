/** The result list of handleSearch (App.js:42-64). The fuzzy matcher
    (Fuse.js over title, description, categories and brand, threshold 0.3)
    is not modelled: it is a parameter, any function from a query and the
    catalogue to a ranked list of hits. What the model fixes is what the
    component does around it: the short cut for a blank query or an empty
    catalogue, and the category filter applied to the hits. */
module Search {
  import opened Wrappers
  import opened Seqs
  import opened JsString
  import opened Products

  /** The selected category meaning "no filter" */
  const ShowAll: string := "all"

  /** The fuzzy matcher: query and catalogue to ranked hits */
  type Matcher = (string, seq<Product>) -> seq<Product>

  /** product.categories && product.categories.toLowerCase().includes(category.toLowerCase()) */
  predicate InCategory(category: string, p: Product) {
    p.categories.Some? && p.categories.value != ""
    && Contains(ToLower(p.categories.value), ToLower(category))
  }

  /** The filter callback for one selected category */
  function CategoryFilter(category: string): Product -> bool {
    p => InCategory(category, p)
  }

  /** The list handleSearch stores as the new results */
  function SearchResults(query: string, products: seq<Product>, category: string, matcher: Matcher): seq<Product> {
    if Trim(query) == "" || |products| == 0 then []
    else
      var hits := matcher(query, products);
      if category == ShowAll then hits else Filter(hits, CategoryFilter(category))
  }

  /** A query of white space only, or an empty catalogue, gives no results
      whatever the matcher and the category */
  lemma BlankOrEmptyGivesNothing(query: string, products: seq<Product>, category: string, matcher: Matcher)
    requires AllSpace(query) || products == []
    ensures SearchResults(query, products, category, matcher) == []
  {
  }

  /** With a real query and catalogue, "all" returns the matcher's hits as
      they are, in the matcher's order */
  lemma AllPassesHits(query: string, products: seq<Product>, matcher: Matcher)
    requires !AllSpace(query) && products != []
    ensures SearchResults(query, products, ShowAll, matcher) == matcher(query, products)
  {
  }

  /** Any other category keeps exactly the hits in that category: in the
      matcher's order, each as often as the matcher listed it, and none
      without a categories cell. */
  lemma CategoryNarrowsHits(query: string, products: seq<Product>, category: string, matcher: Matcher)
    requires !AllSpace(query) && products != [] && category != ShowAll
    ensures var hits, r := matcher(query, products), SearchResults(query, products, category, matcher);
      && IsSubsequence(r, hits)
      && (forall i | 0 <= i < |r| :: InCategory(category, r[i]))
      && (forall i | 0 <= i < |r| :: r[i].categories.Some? && r[i].categories.value != "")
      && (forall i | 0 <= i < |hits| && InCategory(category, hits[i]) :: hits[i] in r)
      && (forall p :: multiset(r)[p] == if InCategory(category, p) then multiset(hits)[p] else 0)
  {
    var hits := matcher(query, products);
    FilterIsSubsequence(hits, CategoryFilter(category));
    forall p ensures multiset(Filter(hits, CategoryFilter(category)))[p] == if InCategory(category, p) then multiset(hits)[p] else 0 {
      FilterCounts(hits, CategoryFilter(category), p);
    }
  }

  /** Every result is a catalogue product when every hit is */
  lemma ResultsFromCatalogue(query: string, products: seq<Product>, category: string, matcher: Matcher)
    requires forall i | 0 <= i < |matcher(query, products)| :: matcher(query, products)[i] in products
    ensures var r := SearchResults(query, products, category, matcher);
      forall i | 0 <= i < |r| :: r[i] in products
  {
  }

  /** The category match ignores ASCII case on both sides */
  lemma CategoryIgnoresCase(c1: string, c2: string, p: Product)
    requires ToLower(c1) == ToLower(c2)
    ensures InCategory(c1, p) <==> InCategory(c2, p)
  {
  }

  /** The empty category is contained in every text: it keeps exactly the
      hits that have a categories cell */
  lemma EmptyCategoryKeepsCategorised(p: Product)
    ensures InCategory("", p) <==> p.categories.Some? && p.categories.value != ""
  {
    if p.categories.Some? {
      ContainsWitness(ToLower(p.categories.value), ToLower(""), 0);
    }
  }

  /** A product filed under "Living Room, Sofas" is found under "SOFA" */
  lemma SofaExample(p: Product)
    requires p.categories == Some("Living Room, " + "Sofas")
    ensures InCategory("SOFA", p)
  {
    var a, b := "Living Room, ", "Sofas";
    ToLowerConcat(a, b);
    LowerSofa();
    ContainsAfter(ToLower(a), "sofas", "sofa");
  }

  lemma LowerSofa()
    ensures ToLower("Sofas") == "sofas" && ToLower("SOFA") == "sofa" && "sofa" <= "sofas"
  {
  }
}
