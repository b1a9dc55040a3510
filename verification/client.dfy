/**
  The browser client's result state: the stored results, the current page
  and the active starting letter, and the views the page shows. Only the
  state logic is modelled; the DOM is reduced to the `View` value each
  handler leaves on screen.
 */
module Client {
  import opened Text
  import opened Python

  const PageSize := 10

  datatype ClientState = ClientState(currentResults: seq<Row>, currentPage: int, activeLetter: string)

  const Initial := ClientState([], 1, "")

  /** What the results area shows. */
  datatype View =
    | Blank                        // cleared, nothing rendered yet
    | NoResults                    // the search returned nothing
    | NoLetterMatches(letter: string)
    | Cards(items: seq<Row>)
    | ErrorText(message: string)

  /** The response of `POST /search`: the rows, or the error message shown. */
  datatype SearchResponse = ResultsReceived(data: seq<Row>) | RequestFailed(message: string)

  // ---------------------------------------------------------------------
  // Slicing a page
  // ---------------------------------------------------------------------

  /** A slice bound as `Array.prototype.slice` resolves it: negative counts from the end, then clamped. */
  function SliceBound(k: int, len: nat): (r: nat)
    ensures r <= len
    ensures 0 <= k <= len ==> r == k
  {
    if k < 0 then (if len + k < 0 then 0 else len + k)
    else if k > len then len else k
  }

  /** `s.slice(start, end)`. */
  function JsSlice<T>(s: seq<T>, start: int, end: int): (r: seq<T>)
    ensures |r| <= |s|
  {
    var lo, hi := SliceBound(start, |s|), SliceBound(end, |s|);
    if hi <= lo then [] else s[lo..hi]
  }

  /** The items of page `page`: `results.slice((page - 1) * 10, (page - 1) * 10 + 10)`. */
  function PageItems<T>(results: seq<T>, page: int): (r: seq<T>)
    ensures |r| <= PageSize
    ensures page >= 1 ==> var start := (page - 1) * PageSize;
      r == if start >= |results| then [] else results[start..if start + PageSize <= |results| then start + PageSize else |results|]
  {
    JsSlice(results, (page - 1) * PageSize, (page - 1) * PageSize + PageSize)
  }

  /** Pages `1..n` one after another. */
  function FirstPages<T>(results: seq<T>, n: nat): seq<T> {
    if n == 0 then [] else FirstPages(results, n - 1) + PageItems(results, n)
  }

  /** The first `n` pages hold the first `n * 10` results, in order, with nothing skipped or repeated. */
  lemma {:induction false} PagesCoverResults<T>(results: seq<T>, n: nat)
    ensures FirstPages(results, n) == results[..if n * PageSize <= |results| then n * PageSize else |results|]
  {
    if n > 0 {
      PagesCoverResults(results, n - 1);
      var a := if (n - 1) * PageSize <= |results| then (n - 1) * PageSize else |results|;
      var b := if n * PageSize <= |results| then n * PageSize else |results|;
      assert results[..a] + results[a..b] == results[..b];
    }
  }

  /** Enough pages show every result. */
  lemma EveryResultOnSomePage<T>(results: seq<T>, i: int)
    requires 0 <= i < |results|
    ensures var p := i / PageSize + 1; results[i] in PageItems(results, p)
  {
    var p := i / PageSize + 1;
    assert results[i] == PageItems(results, p)[i - (p - 1) * PageSize];
  }

  // ---------------------------------------------------------------------
  // The starting-letter filter
  // ---------------------------------------------------------------------

  /** An item whose upper-cased name starts with the letter; a missing or empty name never matches. */
  predicate StartsWithLetter(item: Row, letter: string) {
    var name := Get(item, "NombreCompleto");
    name.Str? && name.s != "" && StartsWith(Upper(name.s), letter)
  }

  function FilterByLetter(rows: seq<Row>, letter: string): seq<Row> {
    if |rows| == 0 then []
    else (if StartsWithLetter(rows[0], letter) then [rows[0]] else []) + FilterByLetter(rows[1..], letter)
  }

  /** The filter keeps exactly the matching items. */
  lemma {:induction false} FilterMembership(rows: seq<Row>, letter: string)
    ensures forall x :: x in FilterByLetter(rows, letter) <==> x in rows && StartsWithLetter(x, letter)
    ensures |FilterByLetter(rows, letter)| <= |rows|
  {
    if |rows| > 0 {
      FilterMembership(rows[1..], letter);
      assert forall x :: x in rows <==> x == rows[0] || x in rows[1..];
    }
  }

  /** The filter keeps the input order: it works item by item and distributes over concatenation. */
  lemma {:induction false} FilterAppend(a: seq<Row>, b: seq<Row>, letter: string)
    ensures FilterByLetter(a + b, letter) == FilterByLetter(a, letter) + FilterByLetter(b, letter)
  {
    if |a| > 0 {
      assert (a + b)[1..] == a[1..] + b;
      FilterAppend(a[1..], b, letter);
    } else {
      assert a + b == b;
    }
  }

  /** Filtering again by the same letter changes nothing. */
  lemma {:induction false} FilterIdempotent(rows: seq<Row>, letter: string)
    ensures FilterByLetter(FilterByLetter(rows, letter), letter) == FilterByLetter(rows, letter)
  {
    if |rows| > 0 {
      FilterIdempotent(rows[1..], letter);
      var rest := FilterByLetter(rows[1..], letter);
      if StartsWithLetter(rows[0], letter) {
        var kept := [rows[0]] + rest;
        assert FilterByLetter(rows, letter) == kept;
        assert kept[0] == rows[0] && kept[1..] == rest;
        assert FilterByLetter(kept, letter) == [rows[0]] + FilterByLetter(rest, letter);
      } else {
        assert FilterByLetter(rows, letter) == rest;
      }
    }
  }

  /** The list on display: every result when no letter is active, the matching ones otherwise. */
  function Displayed(st: ClientState): (r: seq<Row>)
    ensures st.activeLetter == "" ==> r == st.currentResults
    ensures forall x :: x in r ==> x in st.currentResults
    ensures st.activeLetter != "" ==> forall x :: x in r <==> x in st.currentResults && StartsWithLetter(x, st.activeLetter)
  {
    FilterMembership(st.currentResults, st.activeLetter);
    if st.activeLetter == "" then st.currentResults else FilterByLetter(st.currentResults, st.activeLetter)
  }

  // ---------------------------------------------------------------------
  // Handlers
  // ---------------------------------------------------------------------

  /** `renderPage`: the current page of a list, or the no-match message for an empty list. */
  function RenderPage(st: ClientState, results: seq<Row>): (v: View)
    ensures results == [] <==> v == NoLetterMatches(st.activeLetter)
    ensures results != [] ==> v == Cards(PageItems(results, st.currentPage))
    ensures v.Cards? ==> |v.items| <= PageSize && forall x :: x in v.items ==> x in results
  {
    if |results| == 0 then NoLetterMatches(st.activeLetter)
    else
      var items := PageItems(results, st.currentPage);
      assert forall x :: x in items ==> x in results by {
        var lo, hi := SliceBound((st.currentPage - 1) * PageSize, |results|), SliceBound((st.currentPage - 1) * PageSize + PageSize, |results|);
        assert hi > lo ==> items == results[lo..hi];
      }
      Cards(items)
  }

  /** `renderFilteredResults`: back to page 1 of the displayed list. */
  function RenderFilteredResults(st: ClientState): (r: (ClientState, View))
    ensures r.0 == st.(currentPage := 1)
    ensures Displayed(st) != [] ==> r.1 == Cards(PageItems(Displayed(st), 1))
    ensures Displayed(st) == [] ==> r.1 == NoLetterMatches(st.activeLetter)
  {
    var next := st.(currentPage := 1);
    (next, RenderPage(next, Displayed(next)))
  }

  /** `clearUI`: always back to page 1; the full reset also drops the results and the letter. */
  function ClearUI(st: ClientState, clearFormAndFilter: bool): (r: ClientState)
    ensures r.currentPage == 1
    ensures clearFormAndFilter ==> r == Initial
    ensures !clearFormAndFilter ==> r.currentResults == st.currentResults && r.activeLetter == st.activeLetter
  {
    if clearFormAndFilter then ClientState([], 1, "") else st.(currentPage := 1)
  }

  /** `handleSearchResults`: empty data leaves the state alone; otherwise the data replace the results and the letter is cleared. */
  function HandleSearchResults(st: ClientState, data: seq<Row>): (r: (ClientState, View))
    ensures data == [] ==> r == (st, NoResults)
    ensures data != [] ==> r.0 == ClientState(data, 1, "")
  {
    if |data| == 0 then (st, NoResults)
    else RenderFilteredResults(st.(currentResults := data, activeLetter := ""))
  }

  /** The submit handler: a partial reset, then the results or the error message. */
  function Submit(st: ClientState, response: SearchResponse): (r: (ClientState, View))
    ensures r.0.currentPage == 1
    ensures response.RequestFailed? ==> r == (st.(currentPage := 1), ErrorText("Error al procesar la búsqueda: " + response.message))
  {
    var cleared := ClearUI(st, false);
    match response
    case RequestFailed(message) => (cleared, ErrorText("Error al procesar la búsqueda: " + message))
    case ResultsReceived(data) => HandleSearchResults(cleared, data)
  }

  /** A fresh non-empty result list is shown from its first item, at most ten at a time, unfiltered. */
  lemma NewResultsShowFirstPage(st: ClientState, data: seq<Row>)
    requires data != []
    ensures HandleSearchResults(st, data).1 == Cards(data[..if |data| < PageSize then |data| else PageSize])
  {
  }

  /** Choosing a letter shows the first page of the matching results, in their original order. */
  lemma LetterShowsFirstMatches(st: ClientState, letter: string)
    requires letter != ""
    ensures var r := RenderFilteredResults(st.(activeLetter := letter));
      var m := FilterByLetter(st.currentResults, letter);
      r.1 == if m == [] then NoLetterMatches(letter) else Cards(m[..if |m| < PageSize then |m| else PageSize])
  {
  }

  /** A search that returns nothing keeps the previous results and letter (only the page is reset). */
  lemma EmptySearchKeepsResults(st: ClientState)
    ensures Submit(st, ResultsReceived([])).0 == st.(currentPage := 1)
    ensures Submit(st, ResultsReceived([])).1 == NoResults
  {
  }

  /** After the clear button the displayed list is empty and no letter is active. */
  lemma ClearEmptiesDisplay(st: ClientState)
    ensures Displayed(ClearUI(st, true)) == [] && ClearUI(st, true).activeLetter == ""
  {
  }
}
