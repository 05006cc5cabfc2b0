/**
 * The SPARQL query the app sends to the dblp endpoint: one row per
 * publication of the protagonist that passes the filters, with its
 * coauthors, their ids, their count and the average pair strength.
 *
 * The text is assembled from the filter record alone. The optional pieces
 * are the venue restriction, the two year bounds, the minimum-publications
 * sub-query with its `HAVING` clauses and the top-K focus sub-query; the
 * lemmas below say when each piece appears and what it contains.
 */
module DblpSparql {
  import opened Wrappers
  import opened Text

  /** The publication kinds a query may select. */
  datatype PubType = Article | Inproceedings | Incollection | Informal | Book | Data | Editorship | Reference

  /** The `DblpFilters` record; an absent optional field is `None`. */
  datatype Filters = Filters(
    protagonistPid: string,
    types: seq<PubType>,
    venueSuffix: Option<string>,
    minAuthorPubs: Option<int>,
    focusTopAuthors: Option<int>,
    yearMin: Option<int>,
    yearMax: Option<int>)

  /** Person IRIs are this prefix followed by the dblp pid. */
  const PidPrefix := "https://dblp.org/pid/"

  // ------------------------------------------------------------------ clause pieces

  function TypeName(t: PubType): string {
    match t
    case Article => "Article"
    case Inproceedings => "Inproceedings"
    case Incollection => "Incollection"
    case Informal => "Informal"
    case Book => "Book"
    case Data => "Data"
    case Editorship => "Editorship"
    case Reference => "Reference"
  }

  /** The class term for one kind, `dblp:<T>`. */
  function TypeTerm(t: PubType): string {
    "dblp:" + TypeName(t)
  }

  /** The selected kinds; an empty selection means articles and conference papers. */
  function TypeList(types: seq<PubType>): seq<PubType> {
    if |types| > 0 then types else [Article, Inproceedings]
  }

  function TypeTerms(types: seq<PubType>): seq<string> {
    seq(|types|, i requires 0 <= i < |types| => TypeTerm(types[i]))
  }

  /** The `VALUES` list: the class terms, separated by single spaces. */
  function TypesText(types: seq<PubType>): string {
    Join(TypeTerms(TypeList(types)), " ")
  }

  const VenueHead := "?pub dblp:publishedInStream <https://dblp.org/streams/"
  const VenueTail := "> ."

  /** The venue restriction; an absent or empty suffix restricts nothing. */
  function VenueClause(venueSuffix: Option<string>): string {
    match venueSuffix
    case Some(v) => if v != "" then VenueHead + v + VenueTail else ""
    case None => ""
  }

  /** `FILTER(<v> <op> "<bound>"^^xsd:gYear)` for a set bound, nothing otherwise. */
  function YearFilter(v: string, op: string, bound: Option<int>): string {
    match bound
    case Some(y) => "FILTER(" + v + YearBound(op, y)
    case None => ""
  }

  /** The comparison and the bound of a year filter, after its variable. */
  function YearBound(op: string, y: int): string {
    " " + op + " \"" + IntToString(y) + "\"^^xsd:gYear)"
  }

  /** `filter(Boolean)`: the non-empty strings, in order. */
  function NonEmpty(xs: seq<string>): (r: seq<string>)
    ensures forall i :: 0 <= i < |r| ==> r[i] != ""
    ensures forall x :: x in r <==> x in xs && x != ""
  {
    if xs == [] then []
    else NonEmpty(xs[..|xs| - 1]) + (if xs[|xs| - 1] != "" then [xs[|xs| - 1]] else [])
  }

  /** The year bounds of the main pattern, over `v`, joined by a line break. */
  function YearClauses(v: string, yearMin: Option<int>, yearMax: Option<int>): string {
    Join(NonEmpty([YearFilter(v, ">=", yearMin), YearFilter(v, "<=", yearMax)]), "\n  ")
  }

  /** `Math.max(0, minAuthorPubs ?? 0)`. */
  function MinPubs(minAuthorPubs: Option<int>): (m: int)
    ensures m >= 0
    ensures m > 0 <==> minAuthorPubs.Some? && minAuthorPubs.value > 0
    ensures m > 0 ==> m == minAuthorPubs.value
  {
    match minAuthorPubs
    case Some(n) => if n > 0 then n else 0
    case None => 0
  }

  /** `focusTopAuthors ?? 0`. */
  function TopK(focusTopAuthors: Option<int>): int {
    match focusTopAuthors
    case Some(k) => k
    case None => 0
  }

  function ProtagonistIri(pid: string): string {
    PidPrefix + pid
  }

  /** `HAVING (COUNT(DISTINCT ?joint) >= ${minPubs})`. */
  function Having(counted: string, minPubs: int): string {
    "HAVING (COUNT(DISTINCT " + counted + ") >= " + IntToString(minPubs) + ")"
  }

  const KeepFilterText := "FILTER(?co = ?keepCo)"
  const MinFilterText := "FILTER(?co = ?a)"
  const HavingInSet := "HAVING (COUNT(DISTINCT ?pInSet) >= "
  const LimitText := "LIMIT "

  /** The top-K restriction on the coauthor variable, present only when K is positive. */
  function KeepFilter(topK: int): string {
    if topK > 0 then KeepFilterText else ""
  }

  // ------------------------------------------------------------------ templates

  /*
   * Each template literal is kept as its fixed strings, written line by
   * line; `Fill` puts the substituted values in between. The lemmas below
   * hold for any fixed text of the right `Shaped`; the text of the real
   * query has that shape.
   */

  /** The fixed strings of the three template literals: the query, the min-publications block and the focus block. */
  datatype Template = Template(query: seq<string>, minPubs: seq<string>, focus: seq<string>)

  /** One fixed string around each substitution of each template. */
  predicate Fits(t: Template) {
    |t.query| == 13 && |t.minPubs| == 6 && |t.focus| == 8
  }

  /** The fixed text the lemmas rely on: where the IRI, the `HAVING` minimum and `LIMIT` are spliced in, and how the query ends. */
  ghost predicate Shaped(t: Template) {
    Fits(t)
    && EndsWith(t.query[0], "BIND(<")
    && EndsWith(t.query[12], Tail)
    && EndsWith(t.minPubs[4], HavingInSet)
    && Contains(t.minPubs[5], MinFilterText)
    && EndsWith(t.focus[6], LimitText)
  }

  /** The prefixes, the projection and the opening of the pattern. */
  const QueryHead :=
    "\n      PREFIX dblp: <https://dblp.org/rdf/schema#>"
    + "\n      PREFIX xsd: <http://www.w3.org/2001/XMLSchema#>"
    + "\n"
    + "\n      SELECT ?pub ?title ?year ?type"
    + "\n             (GROUP_CONCAT(DISTINCT ?coName; separator=\"|\") AS ?coauthors)"
    + "\n             (GROUP_CONCAT(DISTINCT STR(?co); separator=\"|\") AS ?coIds)"
    + "\n             (COUNT(DISTINCT ?co) AS ?coCount)"
    + "\n             (AVG(?pairStrength) AS ?avgCoauthorStrength)"
    + "\n      WHERE {"
    + "\n"
    + "\n        "

  /** The protagonist's publications, up to the kinds. */
  const MainPattern :=
    "> AS ?p)"
    + "\n"
    + "\n        ?pub a ?type ;"
    + "\n             dblp:hasSignature ?sigP ;"
    + "\n             dblp:title ?title ;"
    + "\n             dblp:yearOfPublication ?year ."
    + "\n        ?sigP dblp:signatureCreator ?p ."
    + "\n        VALUES ?type { "

  /** The coauthors of each publication, then the opening of the pair-strength sub-query. */
  const CoauthorPattern :=
    "\n"
    + "\n        # coauthors on this pub"
    + "\n"
    + "\n        ?pub dblp:hasSignature ?sigA ."
    + "\n        ?sigA dblp:signatureCreator ?co ."
    + "\n        FILTER(?co != ?p)"
    + "\n        ?co dblp:primaryCreatorName ?coName ."
    + "\n"
    + "\n        # pair strength within filtered set"
    + "\n"
    + "\n        {"
    + "\n          SELECT ?co (COUNT(DISTINCT ?joint) AS ?pairStrength) WHERE {"
    + "\n            BIND(<"

  /** The close of the pair-strength sub-query. */
  const StrengthTail :=
    "\n            ?sp dblp:signatureCreator ?p ."
    + "\n            ?sa dblp:signatureCreator ?co ."
    + "\n            FILTER(?co != ?p)"
    + "\n          }"
    + "\n          GROUP BY ?co"
    + "\n        }"
    + "\n"
    + "\n        # filter coauthors by min pubs in selected set (WITH protagonist)"
    + "\n"
    + "\n        "

  const FocusComment :=
    "\n"
    + "\n        # optional focus on top-K coauthors (join with ?keepCo from subquery)"
    + "\n"
    + "\n        "

  /** The closing grouping and ordering of every query. */
  const Tail := "GROUP BY ?pub ?title ?year ?type" + "\n      ORDER BY DESC(?year)" + "\n      "

  /**
   * The whole query; values: IRI, types, venue, year bounds, then IRI, types,
   * venue and the two `?y2` bounds of the pair-strength sub-query, then the
   * min-publications block, the focus block and the `?keepCo` join.
   */
  const QueryStrings := [
    QueryHead + "BIND(<",
    MainPattern,
    " }\n        ",
    "\n        ",
    CoauthorPattern,
    "> AS ?p)" + "\n            ?joint a ?type2 ; dblp:hasSignature ?sp, ?sa ." + "\n            VALUES ?type2 { ",
    " }\n            ",
    "\n            ?joint dblp:yearOfPublication ?y2 ." + "\n            ",
    "\n            ",
    StrengthTail,
    FocusComment,
    "\n        ",
    "\n      }\n\n      " + Tail]

  /** The fixed text of `buildQuery`. */
  const DblpTemplate := Template(QueryStrings, MinPubsStrings, FocusStrings)

  /** The minimum-publications sub-query and its join; values: IRI, types, venue, year bounds, minimum. */
  const MinPubsStrings := [
    "\n        {" + "\n          SELECT ?a WHERE {" + "\n            BIND(<",
    "> AS ?p)" + "\n            ?pInSet a ?type2 ; dblp:hasSignature ?sp, ?sa ." + "\n            VALUES ?type2 { ",
    " }\n            ",
    "\n            ?pInSet dblp:yearOfPublication ?y2 ." + "\n            ?sp dblp:signatureCreator ?p ."
    + "\n            ?sa dblp:signatureCreator ?a ." + "\n            FILTER(?a != ?p)" + "\n            ",
    "\n          } GROUP BY ?a " + HavingInSet,
    ")" + "\n        }" + "\n        " + MinFilterText + "\n        "]

  /** The top-K focus sub-query; values: IRI, types, venue, the two `?y2` bounds, `HAVING`, K. */
  const FocusStrings := [
    "\n    {" + "\n      SELECT ?keepCo (COUNT(DISTINCT ?joint) AS ?jointPubs)" + "\n      WHERE {" + "\n        BIND(<",
    "> AS ?p)" + "\n        ?joint a ?type2 ; dblp:hasSignature ?sp, ?sa ." + "\n        VALUES ?type2 { ",
    " }\n        ",
    "\n        ?joint dblp:yearOfPublication ?y2 ." + "\n        ",
    "\n        ",
    "\n        ?sp dblp:signatureCreator ?p ." + "\n        ?sa dblp:signatureCreator ?keepCo ." + "\n        FILTER(?keepCo != ?p)"
    + "\n      }" + "\n      GROUP BY ?keepCo" + "\n      ",
    "\n      ORDER BY DESC(?jointPubs)" + "\n      " + LimitText,
    "\n    }" + "\n    "]

  /** The minimum-publications sub-query and its join, or nothing when the minimum is not positive. */
  function MinPubsBlock(t: Template, f: Filters): string
    requires Fits(t)
  {
    var minPubs := MinPubs(f.minAuthorPubs);
    if minPubs > 0 then Fill(t.minPubs, MinPubsValues(f)) else ""
  }

  function MinPubsValues(f: Filters): seq<string> {
    [ProtagonistIri(f.protagonistPid), TypesText(f.types), VenueClause(f.venueSuffix),
     ReplaceAll(YearClauses("?year", f.yearMin, f.yearMax), "?year", "?y2"), IntToString(MinPubs(f.minAuthorPubs))]
  }

  /** The top-K focus sub-query, or nothing when K is not positive. */
  function FocusBlock(t: Template, f: Filters): string
    requires Fits(t)
  {
    if TopK(f.focusTopAuthors) > 0 then Fill(t.focus, FocusValues(f)) else ""
  }

  function FocusValues(f: Filters): seq<string> {
    var minPubs := MinPubs(f.minAuthorPubs);
    [ProtagonistIri(f.protagonistPid), TypesText(f.types), VenueClause(f.venueSuffix),
     YearFilter("?y2", ">=", f.yearMin), YearFilter("?y2", "<=", f.yearMax),
     if minPubs > 0 then Having("?joint", minPubs) else "", IntToString(TopK(f.focusTopAuthors))]
  }

  /** The query from the fixed text `t`. */
  function Query(t: Template, f: Filters): string
    requires Fits(t)
  {
    Fill(t.query, QueryValues(t, f))
  }

  function QueryValues(t: Template, f: Filters): seq<string>
    requires Fits(t)
  {
    var iri, types, venue := ProtagonistIri(f.protagonistPid), TypesText(f.types), VenueClause(f.venueSuffix);
    [iri, types, venue, YearClauses("?year", f.yearMin, f.yearMax),
     iri, types, venue, YearFilter("?y2", ">=", f.yearMin), YearFilter("?y2", "<=", f.yearMax),
     MinPubsBlock(t, f), FocusBlock(t, f), KeepFilter(TopK(f.focusTopAuthors))]
  }

  /** `buildQuery(f)`. */
  function BuildQuery(f: Filters): string {
    Query(DblpTemplate, f)
  }

  // ------------------------------------------------------------------ the type list

  lemma TypeTermNoSpace(t: PubType)
    ensures ' ' !in TypeTerm(t)
  {
  }

  /** Different kinds have different class terms. */
  lemma TypeTermInjective(t: PubType, u: PubType)
    requires TypeTerm(t) == TypeTerm(u)
    ensures t == u
  {
    assert TypeTerm(t)[5..] == TypeName(t) && TypeTerm(u)[5..] == TypeName(u);
    assert TypeName(t) == TypeName(u);
    assert TypeName(t)[0] == TypeName(u)[0] && |TypeName(t)| == |TypeName(u)|;
    assert |TypeName(t)| > 2 && TypeName(t)[2] == TypeName(u)[2];
  }

  /**
   * An empty selection stands for articles and conference papers; the
   * `VALUES` list splits at its spaces into exactly one class term per
   * selected kind, in the selected order.
   */
  lemma TypesTextSplit(types: seq<PubType>)
    ensures types == [] ==> TypeList(types) == [Article, Inproceedings]
    ensures types != [] ==> TypeList(types) == types
    ensures Split(TypesText(types), ' ') == TypeTerms(TypeList(types))
  {
    var kinds := TypeList(types);
    var terms := TypeTerms(kinds);
    forall i | 0 <= i < |terms| ensures ' ' !in terms[i] {
      TypeTermNoSpace(kinds[i]);
    }
    SplitJoin(terms, ' ');
  }

  /** The `VALUES` list determines the selected kinds. */
  lemma TypesTextDetermines(types: seq<PubType>, others: seq<PubType>)
    requires TypesText(types) == TypesText(others)
    ensures TypeList(types) == TypeList(others)
  {
    TypesTextSplit(types);
    TypesTextSplit(others);
    var a, b := TypeList(types), TypeList(others);
    assert |a| == |TypeTerms(a)| == |TypeTerms(b)| == |b|;
    forall i | 0 <= i < |a| ensures a[i] == b[i] {
      assert TypeTerms(a)[i] == TypeTerms(b)[i];
      TypeTermInjective(a[i], b[i]);
    }
  }

  // ------------------------------------------------------------------ venue

  /** Reads the stream suffix back out of a venue restriction. */
  function VenueOf(clause: string): Option<string> {
    if |VenueHead| + |VenueTail| <= |clause| && StartsWith(clause, VenueHead)
    then Some(clause[|VenueHead|..|clause| - |VenueTail|])
    else None
  }

  /**
   * The venue restriction is empty exactly when no (or an empty) suffix is
   * given, and otherwise names that stream: reading it back gives the suffix.
   */
  lemma VenueClauseRoundTrip(venueSuffix: Option<string>)
    ensures VenueClause(venueSuffix) == "" <==> venueSuffix == None || venueSuffix == Some("")
    ensures VenueOf(VenueClause(venueSuffix)) == if venueSuffix == Some("") then None else venueSuffix
  {
    if venueSuffix.Some? && venueSuffix.value != "" {
      var v := venueSuffix.value;
      var c := VenueHead + v + VenueTail;
      assert c[..|VenueHead|] == VenueHead;
      assert c[|VenueHead|..|c| - |VenueTail|] == v;
    }
  }

  // ------------------------------------------------------------------ year bounds

  lemma NonEmptyPair(x: string, y: string)
    ensures NonEmpty([x, y]) == (if x != "" then [x] else []) + (if y != "" then [y] else [])
  {
    assert [x, y][..1] == [x];
    assert NonEmpty([x]) == (if x != "" then [x] else []) by {
      assert [x][..0] == [];
      assert NonEmpty([]) == [];
    }
  }

  /** A year filter is there exactly when its bound is, and shows its comparison and no other. */
  lemma YearFilterMarks(v: string, op: string, bound: Option<int>)
    requires op == ">=" || op == "<="
    requires '<' !in v && '>' !in v
    ensures YearFilter(v, op, bound) == "" <==> bound.None?
    ensures '>' in YearFilter(v, op, bound) <==> bound.Some? && op == ">="
    ensures '<' in YearFilter(v, op, bound) <==> bound.Some? && op == "<="
  {
    if bound.Some? {
      var d := IntToString(bound.value);
      assert '<' !in d && '>' !in d;
      assert op[0] in op;
    }
  }

  /** The year bounds are the filters that are there, joined by a line break. */
  lemma YearClausesCases(v: string, yearMin: Option<int>, yearMax: Option<int>)
    ensures YearClauses(v, yearMin, yearMax)
         == var lo, hi := YearFilter(v, ">=", yearMin), YearFilter(v, "<=", yearMax);
            if lo != "" && hi != "" then lo + "\n  " + hi else lo + hi
  {
    var lo, hi := YearFilter(v, ">=", yearMin), YearFilter(v, "<=", yearMax);
    NonEmptyPair(lo, hi);
    if lo != "" && hi != "" {
      assert Join([lo, hi], "\n  ") == lo + "\n  " + Join([hi], "\n  ");
    } else if lo != "" {
      assert lo + hi == lo;
    } else if hi != "" {
      assert lo + hi == hi;
    }
  }

  /**
   * Each year bound contributes its own filter, independently of the other;
   * unset bounds leave nothing behind.
   */
  lemma YearClausesBounds(v: string, yearMin: Option<int>, yearMax: Option<int>)
    requires '<' !in v && '>' !in v
    ensures YearClauses(v, yearMin, yearMax) == "" <==> yearMin.None? && yearMax.None?
    ensures '>' in YearClauses(v, yearMin, yearMax) <==> yearMin.Some?
    ensures '<' in YearClauses(v, yearMin, yearMax) <==> yearMax.Some?
  {
    YearFilterMarks(v, ">=", yearMin);
    YearFilterMarks(v, "<=", yearMax);
    YearClausesCases(v, yearMin, yearMax);
    assert '<' !in "\n  " && '>' !in "\n  ";
  }

  /** Renaming the variable of one year filter: the text after it is rewritten on its own. */
  lemma YearFilterRewrite(op: string, bound: Option<int>, rest: string)
    requires '?' !in op
    ensures ReplaceAll(YearFilter("?year", op, bound) + rest, "?year", "?y2")
         == YearFilter("?y2", op, bound) + ReplaceAll(rest, "?year", "?y2")
  {
    if bound.Some? {
      var t := YearBound(op, bound.value);
      assert '?' !in t by {
        assert '?' !in IntToString(bound.value);
      }
      RenameAfter("FILTER(", t, rest);
    } else {
      assert YearFilter("?year", op, bound) + rest == rest;
    }
  }

  /** `?year` between two `?`-free pieces becomes `?y2`, and nothing else before `rest` changes. */
  lemma RenameAfter(pre: string, t: string, rest: string)
    requires '?' !in pre && '?' !in t
    ensures ReplaceAll(pre + "?year" + t + rest, "?year", "?y2") == pre + "?y2" + t + ReplaceAll(rest, "?year", "?y2")
  {
    assert pre + "?year" + t + rest == pre + ("?year" + (t + rest));
    ReplaceAllSkip(pre, "?year" + (t + rest), "?year", "?y2");
    ReplaceAllAtStart("?year", t + rest, "?y2");
    ReplaceAllSkip(t, rest, "?year", "?y2");
  }

  /**
   * The min-publications sub-query renames `?year` to `?y2` in the year
   * bounds: the result is the same bounds written over `?y2`, as the other
   * sub-queries write them.
   */
  lemma YearClausesRewrite(yearMin: Option<int>, yearMax: Option<int>)
    ensures ReplaceAll(YearClauses("?year", yearMin, yearMax), "?year", "?y2") == YearClauses("?y2", yearMin, yearMax)
  {
    var lo, hi := YearFilter("?year", ">=", yearMin), YearFilter("?year", "<=", yearMax);
    var lo2, hi2 := YearFilter("?y2", ">=", yearMin), YearFilter("?y2", "<=", yearMax);
    YearClausesCases("?year", yearMin, yearMax);
    YearClausesCases("?y2", yearMin, yearMax);
    YearFilterRenamed(">=", yearMin);
    YearFilterRenamed("<=", yearMax);
    if lo != "" && hi != "" {
      YearFilterRewrite(">=", yearMin, "\n  " + hi);
    }
    RenamePieces(lo, hi, lo2, hi2);
  }

  /** Renaming in the filters that are there, joined by a line break, renames each of them. */
  lemma RenamePieces(lo: string, hi: string, lo2: string, hi2: string)
    requires ReplaceAll(lo, "?year", "?y2") == lo2 && ReplaceAll(hi, "?year", "?y2") == hi2
    requires (lo == "" <==> lo2 == "") && (hi == "" <==> hi2 == "")
    requires lo != "" && hi != "" ==>
      ReplaceAll(lo + ("\n  " + hi), "?year", "?y2") == lo2 + ReplaceAll("\n  " + hi, "?year", "?y2")
    ensures ReplaceAll(if lo != "" && hi != "" then lo + "\n  " + hi else lo + hi, "?year", "?y2")
         == if lo2 != "" && hi2 != "" then lo2 + "\n  " + hi2 else lo2 + hi2
  {
    if lo != "" && hi != "" {
      JoinRenamed(lo, hi, lo2, hi2);
    } else if lo != "" {
      assert lo + hi == lo && lo2 + hi2 == lo2;
    } else {
      assert lo + hi == hi && lo2 + hi2 == hi2;
    }
  }

  /** No `?year` is left in the renamed bounds. */
  lemma YearClausesRenamedFully(yearMin: Option<int>, yearMax: Option<int>)
    ensures !Contains(ReplaceAll(YearClauses("?year", yearMin, yearMax), "?year", "?y2"), "?year")
  {
    ReplaceYearLeavesNone(YearClauses("?year", yearMin, yearMax));
  }

  /** Renaming in two filters joined by a line break renames each of them. */
  lemma JoinRenamed(lo: string, hi: string, lo2: string, hi2: string)
    requires ReplaceAll(lo + ("\n  " + hi), "?year", "?y2") == lo2 + ReplaceAll("\n  " + hi, "?year", "?y2")
    requires ReplaceAll(hi, "?year", "?y2") == hi2
    ensures ReplaceAll(lo + "\n  " + hi, "?year", "?y2") == lo2 + "\n  " + hi2
  {
    var sep := "\n  ";
    assert "?year"[0] !in sep by { assert sep == ['\n', ' ', ' ']; }
    ReplaceAllSkip(sep, hi, "?year", "?y2");
    assert lo + sep + hi == lo + (sep + hi);
    assert lo2 + (sep + hi2) == lo2 + sep + hi2;
  }

  lemma YearFilterRenamed(op: string, bound: Option<int>)
    requires '?' !in op
    ensures ReplaceAll(YearFilter("?year", op, bound), "?year", "?y2") == YearFilter("?y2", op, bound)
    ensures YearFilter("?year", op, bound) == "" <==> YearFilter("?y2", op, bound) == ""
  {
    YearFilterRewrite(op, bound, "");
    assert YearFilter("?year", op, bound) + "" == YearFilter("?year", op, bound);
    assert YearFilter("?y2", op, bound) + "" == YearFilter("?y2", op, bound);
  }

  // ------------------------------------------------------------------ optional sub-queries

  /**
   * A non-positive (or absent) minimum leaves out the min-publications
   * sub-query and both `HAVING` clauses: the query is the one without the
   * option. A positive minimum adds the sub-query with its `HAVING` on the
   * minimum and the join on `?a`, and, with a top-K focus, the `HAVING` in
   * the focus block; the sub-query's year bounds are over `?y2`.
   */
  lemma MinPubsClauses(t: Template, f: Filters)
    requires Shaped(t)
    ensures MinPubsBlock(t, f) == "" <==> MinPubs(f.minAuthorPubs) == 0
    ensures MinPubs(f.minAuthorPubs) == 0 ==> Query(t, f) == Query(t, f.(minAuthorPubs := None))
    ensures MinPubs(f.minAuthorPubs) > 0 ==>
      Contains(Query(t, f), HavingInSet + IntToString(f.minAuthorPubs.value))
      && Contains(Query(t, f), MinFilterText)
      && Contains(MinPubsBlock(t, f), YearClauses("?y2", f.yearMin, f.yearMax))
    ensures MinPubs(f.minAuthorPubs) > 0 && TopK(f.focusTopAuthors) > 0 ==>
      Contains(Query(t, f), Having("?joint", f.minAuthorPubs.value))
  {
    var m := MinPubs(f.minAuthorPubs);
    if m > 0 {
      var q, block, values := Query(t, f), MinPubsBlock(t, f), MinPubsValues(f);
      FillValue(t.query, QueryValues(t, f), 9);
      assert QueryValues(t, f)[9] == block;
      FillSeam(t.minPubs, values, 4);
      ContainsSeam(block, t.minPubs[4], HavingInSet, values[4]);
      ContainsTrans(q, block, HavingInSet + IntToString(m));
      FillString(t.minPubs, values, 5);
      ContainsTrans(block, t.minPubs[5], MinFilterText);
      ContainsTrans(q, block, MinFilterText);
      YearClausesRewrite(f.yearMin, f.yearMax);
      FillValue(t.minPubs, values, 3);
      if TopK(f.focusTopAuthors) > 0 {
        FocusHaving(t, f);
      }
    } else {
      var g := f.(minAuthorPubs := None);
      assert QueryValues(t, f) == QueryValues(t, g) by {
        assert FocusValues(f) == FocusValues(g);
      }
    }
  }

  lemma FocusHaving(t: Template, f: Filters)
    requires Fits(t)
    requires MinPubs(f.minAuthorPubs) > 0 && TopK(f.focusTopAuthors) > 0
    ensures Contains(Query(t, f), Having("?joint", f.minAuthorPubs.value))
  {
    FillValue(t.query, QueryValues(t, f), 10);
    assert QueryValues(t, f)[10] == FocusBlock(t, f);
    FillValue(t.focus, FocusValues(f), 5);
    ContainsTrans(Query(t, f), FocusBlock(t, f), Having("?joint", f.minAuthorPubs.value));
  }

  /**
   * A non-positive (or absent) top-K leaves out the focus sub-query and the
   * `?keepCo` join: the query is the one without the option. A positive K
   * adds both, and the focus sub-query keeps at most K coauthors.
   */
  lemma TopKClauses(t: Template, f: Filters)
    requires Shaped(t)
    ensures FocusBlock(t, f) == "" <==> TopK(f.focusTopAuthors) <= 0
    ensures KeepFilter(TopK(f.focusTopAuthors)) == "" <==> TopK(f.focusTopAuthors) <= 0
    ensures TopK(f.focusTopAuthors) <= 0 ==> Query(t, f) == Query(t, f.(focusTopAuthors := None))
    ensures TopK(f.focusTopAuthors) > 0 ==>
      Contains(Query(t, f), LimitText + IntToString(f.focusTopAuthors.value))
      && Contains(Query(t, f), KeepFilterText)
  {
    var k := TopK(f.focusTopAuthors);
    if k > 0 {
      var q, block, values := Query(t, f), FocusBlock(t, f), FocusValues(f);
      FillValue(t.query, QueryValues(t, f), 10);
      assert QueryValues(t, f)[10] == block;
      FillSeam(t.focus, values, 6);
      ContainsSeam(block, t.focus[6], LimitText, values[6]);
      ContainsTrans(q, block, LimitText + IntToString(k));
      FillValue(t.query, QueryValues(t, f), 11);
      assert QueryValues(t, f)[11] == KeepFilterText;
    } else {
      var g := f.(focusTopAuthors := None);
      assert QueryValues(t, f) == QueryValues(t, g);
    }
  }

  // ------------------------------------------------------------------ the whole query

  /**
   * Every query binds the protagonist's person IRI, selects the chosen kinds,
   * and carries the venue restriction and the year bounds.
   */
  lemma QueryFrame(t: Template, f: Filters)
    requires Shaped(t)
    ensures ProtagonistIri(f.protagonistPid)[..|PidPrefix|] == PidPrefix
    ensures ProtagonistIri(f.protagonistPid)[|PidPrefix|..] == f.protagonistPid
    ensures Contains(Query(t, f), "BIND(<" + ProtagonistIri(f.protagonistPid))
    ensures Contains(Query(t, f), TypesText(f.types))
    ensures Contains(Query(t, f), VenueClause(f.venueSuffix))
    ensures Contains(Query(t, f), YearClauses("?year", f.yearMin, f.yearMax))
  {
    var vs := QueryValues(t, f);
    FillSeam(t.query, vs, 0);
    ContainsSeam(Query(t, f), t.query[0], "BIND(<", vs[0]);
    FillValue(t.query, vs, 1);
    FillValue(t.query, vs, 2);
    FillValue(t.query, vs, 3);
  }

  /** Every query ends with the grouping by publication and the newest-first ordering. */
  lemma QueryEnd(t: Template, f: Filters)
    requires Shaped(t)
    ensures EndsWith(Query(t, f), Tail)
  {
    FillEnd(t.query, QueryValues(t, f));
    EndsWithTrans(Query(t, f), t.query[12], Tail);
  }

  // ------------------------------------------------------------------ the fixed text

  lemma QueryStringsShaped()
    ensures |QueryStrings| == 13
    ensures EndsWith(QueryStrings[0], "BIND(<") && EndsWith(QueryStrings[12], Tail)
  {
    EndsWithAppend(QueryHead, "BIND(<");
    EndsWithAppend("\n      }\n\n      ", Tail);
  }

  lemma MinPubsStringsShaped()
    ensures |MinPubsStrings| == 6
    ensures EndsWith(MinPubsStrings[4], HavingInSet) && Contains(MinPubsStrings[5], MinFilterText)
  {
    EndsWithAppend("\n          } GROUP BY ?a ", HavingInSet);
    ContainsIn(")" + "\n        }" + "\n        ", MinFilterText, "\n        ");
  }

  lemma FocusStringsShaped()
    ensures |FocusStrings| == 8
    ensures EndsWith(FocusStrings[6], LimitText)
  {
    EndsWithAppend("\n      ORDER BY DESC(?jointPubs)" + "\n      ", LimitText);
  }

  /** The text of `buildQuery` has the shape the lemmas above rely on. */
  lemma DblpTemplateShaped()
    ensures Shaped(DblpTemplate)
  {
    QueryStringsShaped();
    MinPubsStringsShaped();
    FocusStringsShaped();
  }

  /**
   * `buildQuery` itself binds the protagonist, keeps the chosen kinds and
   * years, and ends with the grouping and ordering.
   */
  lemma BuildQueryFrame(f: Filters)
    ensures Contains(BuildQuery(f), "BIND(<" + ProtagonistIri(f.protagonistPid))
    ensures Contains(BuildQuery(f), TypesText(f.types))
    ensures Contains(BuildQuery(f), YearClauses("?year", f.yearMin, f.yearMax))
    ensures EndsWith(BuildQuery(f), Tail)
  {
    DblpTemplateShaped();
    QueryFrame(DblpTemplate, f);
    QueryEnd(DblpTemplate, f);
  }

  /** `buildQuery` has the minimum-publications part exactly when the minimum is positive. */
  lemma BuildQueryMinPubs(f: Filters)
    ensures MinPubs(f.minAuthorPubs) > 0 ==> Contains(BuildQuery(f), HavingInSet + IntToString(f.minAuthorPubs.value))
    ensures MinPubs(f.minAuthorPubs) == 0 ==> BuildQuery(f) == BuildQuery(f.(minAuthorPubs := None))
  {
    DblpTemplateShaped();
    MinPubsClauses(DblpTemplate, f);
  }

  /** `buildQuery` has the top-K part exactly when K is positive. */
  lemma BuildQueryTopK(f: Filters)
    ensures TopK(f.focusTopAuthors) > 0 ==> Contains(BuildQuery(f), LimitText + IntToString(f.focusTopAuthors.value))
    ensures TopK(f.focusTopAuthors) <= 0 ==> BuildQuery(f) == BuildQuery(f.(focusTopAuthors := None))
  {
    DblpTemplateShaped();
    TopKClauses(DblpTemplate, f);
  }
}
