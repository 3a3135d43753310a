/** The state of the ProductRecommender component (App.js:5-10) and the
    handlers that change it. Each `useState` pair becomes a field; a setter
    call becomes an assignment. Rendering is not modelled. */
module Recommender {
  import opened Seqs
  import opened JsString
  import opened Json
  import opened Products
  import opened Categories
  import opened Search

  class ProductRecommender {
    var query: string
    var products: seq<Product>
    var results: seq<Product>
    var loading: bool
    var selectedCategory: string

    /** The initial state of every `useState` */
    constructor ()
      ensures query == "" && products == [] && results == []
      ensures !loading && selectedCategory == Search.ShowAll
    {
      query := "";
      products := [];
      results := [];
      loading := false;
      selectedCategory := Search.ShowAll;
    }

    /** The chips getCategories computes from the loaded catalogue, read
        afresh on every render: the first ten truthy values in the order
        they are first seen */
    function Categories(): (r: seq<Json>)
      reads this
      ensures ChipsSpec(r, AllCategories(products))
      ensures FirstTen(r, AllCategories(products))
    {
      CategoryChips(products);
      GetCategories(products)
    }

    /** loadCSVData starts: the spinner is shown */
    method BeginLoad()
      modifies this
      ensures loading
      ensures query == old(query) && products == old(products)
      ensures results == old(results) && selectedCategory == old(selectedCategory)
    {
      loading := true;
    }

    /** Papa.parse completes: the rows become the catalogue. The results of an
        earlier search are not recomputed. */
    method LoadComplete(rows: seq<Product>)
      modifies this
      ensures products == rows && !loading
      ensures query == old(query) && results == old(results)
      ensures selectedCategory == old(selectedCategory)
    {
      products := rows;
      loading := false;
    }

    /** The fetch or the parser fails: the spinner goes, the catalogue stays */
    method LoadFailed()
      modifies this
      ensures !loading
      ensures query == old(query) && products == old(products)
      ensures results == old(results) && selectedCategory == old(selectedCategory)
    {
      loading := false;
    }

    /** The search box's onChange */
    method SetQuery(text: string)
      modifies this
      ensures query == text
      ensures products == old(products) && results == old(results)
      ensures loading == old(loading) && selectedCategory == old(selectedCategory)
    {
      query := text;
    }

    /** A category chip, or the "all" chip, is clicked */
    method SelectCategory(category: string)
      modifies this
      ensures selectedCategory == category
      ensures query == old(query) && products == old(products)
      ensures results == old(results) && loading == old(loading)
    {
      selectedCategory := category;
    }

    /** handleSearch: only the results change. They are empty for a blank
        query or an empty catalogue, and otherwise the matcher's hits,
        narrowed to the selected category unless that is "all". */
    method HandleSearch(matcher: Matcher)
      modifies this
      ensures results == SearchResults(query, products, selectedCategory, matcher)
      ensures AllSpace(query) || products == [] ==> results == []
      ensures (forall i | 0 <= i < |matcher(query, products)| :: matcher(query, products)[i] in products)
        ==> forall i | 0 <= i < |results| :: results[i] in products
      ensures query == old(query) && products == old(products)
      ensures loading == old(loading) && selectedCategory == old(selectedCategory)
    {
      if Trim(query) == "" || |products| == 0 {
        results := [];
        return;
      }
      var hits := matcher(query, products);
      var finalResults := if selectedCategory == Search.ShowAll then hits
        else Filter(hits, CategoryFilter(selectedCategory));
      results := finalResults;
      if forall i | 0 <= i < |hits| :: hits[i] in products {
        ResultsFromCatalogue(query, products, selectedCategory, matcher);
      }
    }

    /** clearSearch: query, results and category are reset, the catalogue and
        the spinner are left alone; a search run now finds nothing. */
    method ClearSearch()
      modifies this
      ensures query == "" && results == [] && selectedCategory == Search.ShowAll
      ensures products == old(products) && loading == old(loading)
      ensures forall m: Matcher :: SearchResults(query, products, selectedCategory, m) == []
    {
      query := "";
      results := [];
      selectedCategory := Search.ShowAll;
    }
  }
}
