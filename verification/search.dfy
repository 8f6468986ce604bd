/**
 * The query builder of the `search_book` handler (POST /search/): three
 * optional form fields become a parameterised SELECT over the books table.
 *
 * The fields are visited in the fixed order of SearchParameters; each one
 * with a truthy value (present and not empty) contributes the condition
 * "<field> LIKE ?" and the bound value "%<value>%". With at least one
 * condition the query gets " WHERE " and the conditions joined by " AND ";
 * it always ends with ";".
 */
module SearchQuery {
  import opened Options

  /** The searchable columns, in the order their conditions are emitted. */
  const SearchParameters: seq<string> := ["author", "published", "title"]

  /** The text the query starts from, a triple-quoted literal in the handler. */
  const BaseQuery: string := "\n    SELECT * FROM books\n    "

  /** The optional form fields of a search request. */
  datatype SearchForm = SearchForm(published: Option<string>, author: Option<string>, title: Option<string>)

  /** The handler's local variable named `parameter`; names that are not form fields have no value. */
  function Argument(form: SearchForm, parameter: string): Option<string> {
    if parameter == "author" then form.author
    else if parameter == "published" then form.published
    else if parameter == "title" then form.title
    else None
  }

  /** Python truthiness of an optional string: present and not empty. */
  predicate Truthy(v: Option<string>) {
    v.Some? && v.value != ""
  }

  function Condition(parameter: string): string {
    parameter + " LIKE ?"
  }

  /** The bound value for a LIKE substring match. */
  function Pattern(value: string): string {
    "%" + value + "%"
  }

  predicate Filters(form: SearchForm, i: nat)
    requires i < |SearchParameters|
  {
    Truthy(Argument(form, SearchParameters[i]))
  }

  /** Indices of the first n parameters whose argument is truthy, in ascending order. */
  function Selected(form: SearchForm, n: nat): (sel: seq<nat>)
    requires n <= |SearchParameters|
    ensures forall k :: 0 <= k < |sel| ==> sel[k] < n
  {
    if n == 0 then []
    else Selected(form, n - 1) + (if Filters(form, n - 1) then [n - 1] else [])
  }

  /** The condition list after the loop has visited the first n parameters. */
  function ConditionsUpTo(form: SearchForm, n: nat): seq<string>
    requires n <= |SearchParameters|
  {
    if n == 0 then []
    else
      ConditionsUpTo(form, n - 1)
      + (if Filters(form, n - 1) then [Condition(SearchParameters[n - 1])] else [])
  }

  /** The bound-value list after the loop has visited the first n parameters. */
  function ValuesUpTo(form: SearchForm, n: nat): seq<string>
    requires n <= |SearchParameters|
  {
    if n == 0 then []
    else
      ValuesUpTo(form, n - 1)
      + (if Filters(form, n - 1) then [Pattern(Argument(form, SearchParameters[n - 1]).value)] else [])
  }

  function Conditions(form: SearchForm): seq<string> {
    ConditionsUpTo(form, |SearchParameters|)
  }

  function BoundValues(form: SearchForm): seq<string> {
    ValuesUpTo(form, |SearchParameters|)
  }

  /** `" AND ".join(cs)` */
  function JoinAnd(cs: seq<string>): string {
    if |cs| == 0 then ""
    else if |cs| == 1 then cs[0]
    else cs[0] + " AND " + JoinAnd(cs[1..])
  }

  /** The WHERE clause the conditions make; none when there are no conditions. */
  function WhereClause(conditions: seq<string>): string {
    if conditions != [] then " WHERE " + JoinAnd(conditions) else ""
  }

  /** The SQL text the handler passes to execute. */
  function QueryText(form: SearchForm): string {
    BaseQuery + WhereClause(Conditions(form)) + ";"
  }

  /** How often c occurs in s. */
  function Occurrences(s: string, c: char): nat {
    if s == [] then 0
    else Occurrences(s[..|s| - 1], c) + (if s[|s| - 1] == c then 1 else 0)
  }

  /**
   * Builds the query text and its bound values as search_book does. The
   * placeholders in the text are exactly as many as the bound values.
   */
  method SearchBook(form: SearchForm) returns (query: string, values: seq<string>)
    ensures query == QueryText(form)
    ensures values == BoundValues(form)
    ensures Occurrences(query, '?') == |values|
  {
    query := BaseQuery;
    var conditions: seq<string> := [];
    values := [];
    for i := 0 to |SearchParameters|
      invariant conditions == ConditionsUpTo(form, i)
      invariant values == ValuesUpTo(form, i)
    {
      var parameter := SearchParameters[i];
      var argument := Argument(form, parameter);
      if argument.Some? && argument.value != "" {
        conditions := conditions + [parameter + " LIKE ?"];
        values := values + ["%" + argument.value + "%"];
      }
    }
    if conditions != [] {
      query := query + " WHERE ";
      query := query + JoinAnd(conditions);
    }
    query := query + ";";
    PlaceholdersMatchValues(form);
  }

  // ---------------------------------------------------------------------
  // Which fields contribute, and in which order

  /** Parameter i is selected exactly when its argument is truthy; selection keeps the fixed order. */
  lemma {:induction false} SelectedExactly(form: SearchForm, n: nat)
    requires n <= |SearchParameters|
    ensures forall i :: 0 <= i < n ==> (i in Selected(form, n) <==> Filters(form, i))
    ensures forall a, b :: 0 <= a < b < |Selected(form, n)| ==> Selected(form, n)[a] < Selected(form, n)[b]
  {
    if n > 0 {
      SelectedExactly(form, n - 1);
    }
  }

  /**
   * The k-th condition and the k-th bound value come from the same field:
   * the k-th selected one. So the two lists align one to one.
   */
  lemma {:induction false} Aligned(form: SearchForm, n: nat)
    requires n <= |SearchParameters|
    ensures |ConditionsUpTo(form, n)| == |ValuesUpTo(form, n)| == |Selected(form, n)|
    ensures forall k :: 0 <= k < |Selected(form, n)| ==>
              var i := Selected(form, n)[k];
              && Filters(form, i)
              && ConditionsUpTo(form, n)[k] == Condition(SearchParameters[i])
              && ValuesUpTo(form, n)[k] == Pattern(Argument(form, SearchParameters[i]).value)
  {
    if n > 0 {
      Aligned(form, n - 1);
    }
  }

  // ---------------------------------------------------------------------
  // The query text

  lemma {:induction false} OccurrencesConcat(a: string, b: string, c: char)
    ensures Occurrences(a + b, c) == Occurrences(a, c) + Occurrences(b, c)
  {
    if b != [] {
      assert (a + b)[..|a + b| - 1] == a + b[..|b| - 1];
      OccurrencesConcat(a, b[..|b| - 1], c);
    } else {
      assert a + b == a;
    }
  }

  lemma {:induction false} OccurrencesAbsent(s: string, c: char)
    requires c !in s
    ensures Occurrences(s, c) == 0
  {
    if s != [] {
      assert c !in s[..|s| - 1];
      OccurrencesAbsent(s[..|s| - 1], c);
    }
  }

  /** Every condition holds exactly one placeholder. */
  lemma {:induction false} ConditionPlaceholder(i: nat)
    requires i < |SearchParameters|
    ensures Occurrences(Condition(SearchParameters[i]), '?') == 1
  {
    var name := SearchParameters[i];
    assert '?' !in name;
    OccurrencesAbsent(name, '?');
    OccurrencesAbsent(" LIKE ", '?');
    OccurrencesConcat(" LIKE ", "?", '?');
    assert " LIKE " + "?" == " LIKE ?";
    OccurrencesConcat(name, " LIKE ?", '?');
  }

  /** Joining with " AND " adds no placeholder. */
  lemma {:induction false} JoinPlaceholders(cs: seq<string>)
    requires forall k :: 0 <= k < |cs| ==> Occurrences(cs[k], '?') == 1
    ensures Occurrences(JoinAnd(cs), '?') == |cs|
  {
    if |cs| > 1 {
      JoinPlaceholders(cs[1..]);
      OccurrencesAbsent(" AND ", '?');
      OccurrencesConcat(cs[0], " AND ", '?');
      OccurrencesConcat(cs[0] + " AND ", JoinAnd(cs[1..]), '?');
    }
  }

  /** The query carries exactly one placeholder per bound value. */
  lemma {:induction false} PlaceholdersMatchValues(form: SearchForm)
    ensures Occurrences(QueryText(form), '?') == |BoundValues(form)|
  {
    var conditions := Conditions(form);
    Aligned(form, |SearchParameters|);
    forall k | 0 <= k < |conditions|
      ensures Occurrences(conditions[k], '?') == 1
    {
      ConditionPlaceholder(Selected(form, |SearchParameters|)[k]);
    }
    WherePlaceholders(conditions);
    var clause := WhereClause(conditions);
    OccurrencesAbsent(BaseQuery, '?');
    OccurrencesAbsent(";", '?');
    OccurrencesConcat(BaseQuery, clause, '?');
    OccurrencesConcat(BaseQuery + clause, ";", '?');
  }

  lemma {:induction false} WherePlaceholders(conditions: seq<string>)
    requires forall k :: 0 <= k < |conditions| ==> Occurrences(conditions[k], '?') == 1
    ensures Occurrences(WhereClause(conditions), '?') == |conditions|
  {
    if conditions != [] {
      JoinPlaceholders(conditions);
      OccurrencesAbsent(" WHERE ", '?');
      OccurrencesConcat(" WHERE ", JoinAnd(conditions), '?');
    }
  }

  lemma {:induction false} NoFiltersUpTo(form: SearchForm, n: nat)
    requires n <= |SearchParameters|
    requires forall i :: 0 <= i < |SearchParameters| ==> !Filters(form, i)
    ensures ConditionsUpTo(form, n) == [] && ValuesUpTo(form, n) == []
  {
    if n > 0 {
      NoFiltersUpTo(form, n - 1);
    }
  }

  /** With no truthy field the query is the unfiltered SELECT and nothing is bound. */
  lemma NoFilters(form: SearchForm)
    requires forall i :: 0 <= i < |SearchParameters| ==> !Filters(form, i)
    ensures QueryText(form) == BaseQuery + ";"
    ensures BoundValues(form) == []
  {
    NoFiltersUpTo(form, |SearchParameters|);
  }

  /** A truthy field among the first n puts its condition into the list. */
  lemma {:induction false} ContributesUpTo(form: SearchForm, i: nat, n: nat)
    requires i < n <= |SearchParameters| && Filters(form, i)
    ensures Condition(SearchParameters[i]) in ConditionsUpTo(form, n)
  {
    if i < n - 1 {
      ContributesUpTo(form, i, n - 1);
    }
  }

  /** With a truthy field the query filters on the AND of the conditions, in field order. */
  lemma SomeFilters(form: SearchForm, i: nat)
    requires i < |SearchParameters| && Filters(form, i)
    ensures Condition(SearchParameters[i]) in Conditions(form)
    ensures QueryText(form) == BaseQuery + " WHERE " + JoinAnd(Conditions(form)) + ";"
  {
    ContributesUpTo(form, i, |SearchParameters|);
  }

  /** The conditions, and so the query text, depend only on which fields are truthy. */
  lemma {:induction false} ConditionsIgnoreValues(f: SearchForm, g: SearchForm, n: nat)
    requires n <= |SearchParameters|
    requires forall i :: 0 <= i < |SearchParameters| ==> (Filters(f, i) <==> Filters(g, i))
    ensures ConditionsUpTo(f, n) == ConditionsUpTo(g, n)
  {
    if n > 0 {
      ConditionsIgnoreValues(f, g, n - 1);
    }
  }

  /**
   * User text never reaches the SQL: two searches that filter on the same
   * fields produce the same query text, whatever values they search for.
   */
  lemma QueryIgnoresValues(f: SearchForm, g: SearchForm)
    requires forall i :: 0 <= i < |SearchParameters| ==> (Filters(f, i) <==> Filters(g, i))
    ensures QueryText(f) == QueryText(g)
  {
    ConditionsIgnoreValues(f, g, |SearchParameters|);
  }
}
