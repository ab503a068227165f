/** The search dialog's status bar: its fixed set of messages, how an update replaces what it
    shows, and the messages the input's `input`, `focus` and `blur` events pick. */
module StatusBar {
  import opened Dom

  const Ready := "Ready"
  const EnterTerms := "Enter search terms"
  const Searching := "Searching..."
  const Complete := "Search complete"
  const Cleared := "Search cleared"

  const QueryPrefix := "Searching for \""
  const QuerySuffix := "\"..."

  /** The message shown while a query is typed. */
  function SearchingFor(q: string): string {
    QueryPrefix + q + QuerySuffix
  }

  /** The query a message reports, if it reports one. */
  function QueryOf(m: string): (r: Option<string>)
    ensures r.Some? ==> SearchingFor(r.value) == m
  {
    if |m| >= |QueryPrefix| + |QuerySuffix| && m[..|QueryPrefix|] == QueryPrefix && m[|m| - |QuerySuffix|..] == QuerySuffix
    then
      var q := m[|QueryPrefix|..|m| - |QuerySuffix|];
      assert m == m[..|QueryPrefix|] + q + m[|m| - |QuerySuffix|..];
      Some(q)
    else None
  }

  /** A query message names its query exactly, whatever the query contains. */
  lemma QueryRoundTrip(q: string)
    ensures QueryOf(SearchingFor(q)) == Some(q)
  {
    var m := SearchingFor(q);
    assert m[..|QueryPrefix|] == QueryPrefix;
    assert m[|m| - |QuerySuffix|..] == QuerySuffix;
    assert m[|QueryPrefix|..|m| - |QuerySuffix|] == q;
  }

  /** The fixed messages report no query. */
  lemma FixedMessagesHaveNoQuery()
    ensures QueryOf(Ready) == None && QueryOf(EnterTerms) == None && QueryOf(Searching) == None
    ensures QueryOf(Complete) == None && QueryOf(Cleared) == None
  {
    assert EnterTerms[..|QueryPrefix|] != QueryPrefix by { assert EnterTerms[0] != QueryPrefix[0]; }
    assert Complete[..|QueryPrefix|] != QueryPrefix by { assert Complete[7] != QueryPrefix[7]; }
  }

  /** The messages the status bar can be given. */
  predicate Known(m: string) {
    m == Ready || m == EnterTerms || m == Searching || m == Complete || m == Cleared || QueryOf(m).Some?
  }

  /** `.predictive-search-status`: the text of each child it holds. */
  datatype Bar = Bar(spans: seq<string>)

  /** The bar holds one known message, or does not exist. */
  predicate Settled(bar: Option<Bar>) {
    bar.None? || (|bar.value.spans| == 1 && Known(bar.value.spans[0]))
  }

  /** `updateStatusBar`: the bar then holds exactly one message, `m`, whatever it held before;
      without a bar nothing happens. */
  function Update(bar: Option<Bar>, m: string): (r: Option<Bar>)
    ensures r.Some? <==> bar.Some?
    ensures r.Some? ==> |r.value.spans| == 1 && r.value.spans[0] == m
    ensures Known(m) ==> Settled(r)
  {
    if bar.None? then None else Some(Bar([m]))
  }

  /** An update keeps no history: only the last message matters. */
  lemma UpdateForgetsHistory(bar: Option<Bar>, m1: string, m2: string)
    ensures Update(Update(bar, m1), m2) == Update(bar, m2)
  {
  }

  /** The message for the input's value: the trimmed query when there is one, else `Ready`. */
  function InputMessage(value: string): (r: string)
    ensures Known(r)
    ensures QueryOf(r) == (if IsBlank(value) then None else Some(Trim(value)))
    ensures r == Ready <==> IsBlank(value)
  {
    var q := Trim(value);
    if |q| > 0 then
      QueryRoundTrip(q);
      SearchingFor(q)
    else
      FixedMessagesHaveNoQuery();
      Ready
  }

  /** The bar after a `blur`: `Ready` when the trimmed value is empty, and untouched
      otherwise. */
  function BlurUpdate(bar: Option<Bar>, value: string): (r: Option<Bar>)
    ensures IsBlank(value) ==> r == Update(bar, Ready)
    ensures !IsBlank(value) ==> r == bar
  {
    if |Trim(value)| == 0 then Update(bar, Ready) else bar
  }
}
