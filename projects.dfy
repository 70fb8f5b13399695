/** The Projects tab's search-and-category filter (app.py, lines 104-119).
    The catalog is a sequence of project records, the search text is the
    raw contents of the search box, and the category selection is the
    list the multiselect yields. The filter keeps, in catalog order, the
    records that pass both the search test and the category test, and the
    page shows a "no matches" message when nothing is kept. */
module Projects {
  import opened Text

  datatype Option<T> = None | Some(value: T)

  /** One entry of the project catalog. `year` is a display label only. */
  datatype Project = Project(
    title: string,
    category: string,
    year: string,
    stack: seq<string>,
    highlights: seq<string>,
    github: Option<string>,
    link: Option<string>)

  /** The options offered by the category multiselect. */
  const Categories: seq<string> :=
    ["Web / AI", "Data / Dashboard", "ML / Finance", "IoT / Power Electronics", "EV Systems"]

  /** What the Projects tab shows below the filters. */
  datatype Listing = NoMatches | Cards(projects: seq<Project>)

  // ---------------------------------------------------------------------
  // The filter
  // ---------------------------------------------------------------------

  /** The text a search runs against: the title and every stack tag,
      joined with single spaces, lower-cased. */
  function Haystack(p: Project): (hay: string)
    ensures NoUpper(hay)
    ensures IsPrefix(Lower(p.title), hay)
  {
    var joined := Join(" ", [p.title] + p.stack);
    LowerSlice(joined, 0, |p.title|);
    Lower(joined)
  }

  /** The search half of the test: no search text, or the text occurs in
      the haystack. */
  predicate SearchOk(p: Project, q: string)
    ensures SearchOk(p, q) <==> q == [] || exists i :: OccursAt(q, Haystack(p), i)
  {
    SubstringIffOccurs(q, Haystack(p));
    q == [] || IsSubstring(q, Haystack(p))
  }

  /** The category half of the test: no selection, or the project's
      category is one of the selected ones. */
  predicate CategoryOk(p: Project, selected: seq<string>)
    ensures CategoryOk(p, selected) <==> selected == [] || exists i :: 0 <= i < |selected| && selected[i] == p.category
  {
    selected == [] || p.category in selected
  }

  /** `match(p)`: `ok` starts true, a non-empty search text replaces it by
      the substring test, and a non-empty selection conjoins the category
      test, so `match` is the conjunction of the two tests. */
  predicate Match(p: Project, q: string, selected: seq<string>)
    ensures Match(p, q, selected) <==> SearchOk(p, q) && CategoryOk(p, selected)
  {
    var ok := if q != [] then IsSubstring(q, Haystack(p)) else true;
    if selected != [] then ok && p.category in selected else ok
  }

  /** The comprehension `[p for p in data if match(p)]`: the records that
      match, and only those. */
  function Filter(data: seq<Project>, q: string, selected: seq<string>): (r: seq<Project>)
    ensures |r| <= |data|
    ensures forall p :: p in r <==> p in data && Match(p, q, selected)
  {
    if data == [] then []
    else if Match(data[0], q, selected) then [data[0]] + Filter(data[1..], q, selected)
    else Filter(data[1..], q, selected)
  }

  /** The Projects tab from its inputs: normalise the search text, filter
      the catalog, and show "no matches" exactly when no record matches. */
  function ProjectsTab(data: seq<Project>, rawQuery: string, selected: seq<string>): (v: Listing)
    ensures v.NoMatches? <==> forall i :: 0 <= i < |data| ==> !Match(data[i], Normalize(rawQuery), selected)
    ensures v.Cards? ==> v.projects != [] && v.projects == Filter(data, Normalize(rawQuery), selected)
  {
    var filtered := Filter(data, Normalize(rawQuery), selected);
    if filtered == [] then NoMatches
    else
      assert filtered[0] in data;
      Cards(filtered)
  }

  // ---------------------------------------------------------------------
  // The result is exactly the matching records, in catalog order
  // ---------------------------------------------------------------------

  /** The positions `from`, ..., `|data| - 1` of the records that match,
      in increasing order. */
  function MatchingPositions(data: seq<Project>, q: string, selected: seq<string>, from: nat): (idx: seq<nat>)
    requires from <= |data|
    ensures forall k :: 0 <= k < |idx| ==> from <= idx[k] < |data|
    ensures forall k, l :: 0 <= k < l < |idx| ==> idx[k] < idx[l]
    ensures forall i :: from <= i < |data| ==> (i in idx <==> Match(data[i], q, selected))
    decreases |data| - from
  {
    if from == |data| then []
    else
      var rest := MatchingPositions(data, q, selected, from + 1);
      if Match(data[from], q, selected) then [from] + rest else rest
  }

  /** The filtered list is the catalog read at the matching positions, in
      increasing order: an order-preserving subsequence holding every
      matching record and nothing else. */
  lemma FilterSelectsMatchingPositions(data: seq<Project>, q: string, selected: seq<string>)
    ensures var idx := MatchingPositions(data, q, selected, 0);
            var r := Filter(data, q, selected);
            |r| == |idx| && forall k :: 0 <= k < |idx| ==> r[k] == data[idx[k]]
  {
    FilterFrom(data, q, selected, 0);
    assert data[0..] == data;
  }

  lemma {:induction false} FilterFrom(data: seq<Project>, q: string, selected: seq<string>, from: nat)
    requires from <= |data|
    ensures var idx := MatchingPositions(data, q, selected, from);
            var r := Filter(data[from..], q, selected);
            |r| == |idx| && forall k :: 0 <= k < |idx| ==> r[k] == data[idx[k]]
    decreases |data| - from
  {
    if from < |data| {
      FilterFrom(data, q, selected, from + 1);
      var rest := MatchingPositions(data, q, selected, from + 1);
      var tail := Filter(data[from + 1..], q, selected);
      assert data[from..][0] == data[from];
      assert data[from..][1..] == data[from + 1..];
      if Match(data[from], q, selected) {
        assert Filter(data[from..], q, selected) == [data[from]] + tail;
        assert MatchingPositions(data, q, selected, from) == [from] + rest;
        ReadAtPositionsCons(data, from, tail, rest);
      }
    }
  }

  /** Reading `data` at positions `rest` gives `tail`; then reading it at
      `[from] + rest` gives `[data[from]] + tail`. */
  lemma ReadAtPositionsCons(data: seq<Project>, from: nat, tail: seq<Project>, rest: seq<nat>)
    requires from < |data| && |tail| == |rest|
    requires forall k :: 0 <= k < |rest| ==> rest[k] < |data| && tail[k] == data[rest[k]]
    ensures var idx := [from] + rest;
            var r := [data[from]] + tail;
            |r| == |idx| && forall k :: 0 <= k < |idx| ==> idx[k] < |data| && r[k] == data[idx[k]]
  {
  }

  // ---------------------------------------------------------------------
  // Properties of the filter
  // ---------------------------------------------------------------------

  /** With no search text and no category selected every record matches,
      so the whole catalog is shown in its own order. */
  lemma {:induction false} NoFiltersShowAll(data: seq<Project>)
    ensures Filter(data, [], []) == data
  {
    if data != [] {
      NoFiltersShowAll(data[1..]);
      assert [data[0]] + data[1..] == data;
    }
  }

  /** Filtering the filtered list again with the same inputs changes nothing. */
  lemma {:induction false} FilterIdempotent(data: seq<Project>, q: string, selected: seq<string>)
    ensures Filter(Filter(data, q, selected), q, selected) == Filter(data, q, selected)
  {
    if data != [] {
      FilterIdempotent(data[1..], q, selected);
      var r := Filter(data, q, selected);
      if Match(data[0], q, selected) {
        assert r[0] == data[0] && r[1..] == Filter(data[1..], q, selected);
      }
    }
  }

  /** The combined filter is the category filter applied to the search-only result. */
  lemma {:induction false} SearchThenCategory(data: seq<Project>, q: string, selected: seq<string>)
    ensures Filter(Filter(data, q, []), [], selected) == Filter(data, q, selected)
  {
    if data != [] {
      SearchThenCategory(data[1..], q, selected);
      var s := Filter(data, q, []);
      if Match(data[0], q, []) {
        assert s[0] == data[0] && s[1..] == Filter(data[1..], q, []);
      }
    }
  }

  /** The combined filter is also the search filter applied to the
      category-only result: the order of the two tests does not matter. */
  lemma {:induction false} CategoryThenSearch(data: seq<Project>, q: string, selected: seq<string>)
    ensures Filter(Filter(data, [], selected), q, []) == Filter(data, q, selected)
  {
    if data != [] {
      CategoryThenSearch(data[1..], q, selected);
      var s := Filter(data, [], selected);
      if Match(data[0], [], selected) {
        assert s[0] == data[0] && s[1..] == Filter(data[1..], [], selected);
      }
    }
  }

  /** With a category selected, every kept record has a selected category,
      and every record with a selected category that passes the search is kept. */
  lemma CategorySelectionExact(data: seq<Project>, q: string, selected: seq<string>)
    requires selected != []
    ensures forall p :: p in Filter(data, q, selected) ==> p.category in selected
    ensures forall p :: p in data && p.category in selected && SearchOk(p, q) ==> p in Filter(data, q, selected)
  {
  }

  /** A categorised project outside the multiselect's options is never
      shown while a category filter made of those options is active. */
  lemma UnlistedCategoryExcluded(data: seq<Project>, q: string, selected: seq<string>, p: Project)
    requires selected != [] && forall c :: c in selected ==> c in Categories
    requires p.category !in Categories
    ensures p !in Filter(data, q, selected)
  {
  }

  /** A text found in the lower-cased title or in one lower-cased tag is
      enough to pass the search test. */
  lemma SearchHitsTitleOrTag(p: Project, q: string)
    ensures IsSubstring(q, Lower(p.title)) ==> SearchOk(p, q)
    ensures forall t :: t in p.stack && IsSubstring(q, Lower(t)) ==> SearchOk(p, q)
  {
    var parts := [p.title] + p.stack;
    var joined := Join(" ", parts);
    if IsSubstring(q, Lower(p.title)) {
      assert parts[0] == p.title;
      SubstringLower(p.title, joined);
      SubstringTransitive(q, Lower(p.title), Haystack(p));
    }
    forall t | t in p.stack && IsSubstring(q, Lower(t)) ensures SearchOk(p, q) {
      var k :| 0 <= k < |p.stack| && p.stack[k] == t;
      assert parts[k + 1] == t;
      SubstringLower(t, joined);
      SubstringTransitive(q, Lower(t), Haystack(p));
    }
  }

  // ---------------------------------------------------------------------
  // Properties of the Projects tab
  // ---------------------------------------------------------------------

  /** The tab sees the search text only through its normal form. */
  lemma SameNormalFormSameTab(data: seq<Project>, raw1: string, raw2: string, selected: seq<string>)
    requires Normalize(raw1) == Normalize(raw2)
    ensures ProjectsTab(data, raw1, selected) == ProjectsTab(data, raw2, selected)
  {
  }

  /** Case and surrounding whitespace of the typed search text do not matter. */
  lemma QueryNormalisation(data: seq<Project>, pre: string, raw: string, post: string, selected: seq<string>)
    requires AllSpace(pre) && AllSpace(post)
    ensures ProjectsTab(data, pre + raw + post, selected) == ProjectsTab(data, raw, selected)
    ensures ProjectsTab(data, Lower(raw), selected) == ProjectsTab(data, raw, selected)
  {
    NormalizeIgnoresPadding(pre, raw, post);
    NormalizeIgnoresCase(raw);
    SameNormalFormSameTab(data, pre + raw + post, raw, selected);
    SameNormalFormSameTab(data, Lower(raw), raw, selected);
  }

  /** "REACT", " react " and "react" give the same tab. */
  lemma ReactQueries(data: seq<Project>, selected: seq<string>)
    ensures ProjectsTab(data, "REACT", selected) == ProjectsTab(data, "react", selected)
    ensures ProjectsTab(data, " react ", selected) == ProjectsTab(data, "react", selected)
  {
    UpperCaseReact(data, selected);
    PaddedReact(data, selected);
  }

  lemma UpperCaseReact(data: seq<Project>, selected: seq<string>)
    ensures ProjectsTab(data, "REACT", selected) == ProjectsTab(data, "react", selected)
  {
    assert Lower("REACT") == "react" by {
      assert forall k :: 0 <= k < 5 ==> LowerChar("REACT"[k]) == "react"[k];
    }
    NormalizeIgnoresCase("REACT");
    SameNormalFormSameTab(data, "REACT", "react", selected);
  }

  lemma PaddedReact(data: seq<Project>, selected: seq<string>)
    ensures ProjectsTab(data, " react ", selected) == ProjectsTab(data, "react", selected)
  {
    assert " react " == " " + "react" + " ";
    NormalizeIgnoresPadding(" ", "react", " ");
    SameNormalFormSameTab(data, " react ", "react", selected);
  }

  /** An empty catalog always shows "no matches", whatever the filters. */
  lemma EmptyCatalogNoMatches(rawQuery: string, selected: seq<string>)
    ensures ProjectsTab([], rawQuery, selected) == NoMatches
  {
  }

  /** A search can straddle the boundary between the title and the first
      tag, through the single space that joins them: any tail of the title,
      a space and any head of the first tag, lower-cased, passes the search. */
  lemma SearchAcrossTitleAndTag(p: Project, i: nat, j: nat)
    requires p.stack != [] && i <= |p.title| && j <= |p.stack[0]|
    ensures SearchOk(p, Lower(p.title[i..] + " " + p.stack[0][..j]))
  {
    var parts := [p.title] + p.stack;
    var joined := Join(" ", parts);
    var tail := Join(" ", p.stack);
    assert parts[1..] == p.stack;
    assert joined == p.title + " " + tail;
    assert IsPrefix(p.stack[0], tail);
    var x := p.title[i..] + " " + p.stack[0][..j];
    assert joined[i..i + |x|] == x;
    SubstringAt(x, joined, i);
    SubstringLower(x, joined);
  }

  /** A one-record catalog shows that record exactly when it matches. */
  lemma SingleRecordTab(p: Project, rawQuery: string, selected: seq<string>)
    ensures ProjectsTab([p], rawQuery, selected)
            == if Match(p, Normalize(rawQuery), selected) then Cards([p]) else NoMatches
  {
    assert [p][1..] == [];
  }

  /** A one-record catalog whose record is tagged "MQTT" and categorised
      "EV Systems": the search "mqtt" shows it, and adding the category
      "Web / AI" to the search leaves "no matches". */
  lemma TagSearchAndCategoryMismatch(p: Project)
    requires "MQTT" in p.stack && p.category == "EV Systems"
    ensures ProjectsTab([p], "mqtt", []) == Cards([p])
    ensures ProjectsTab([p], "mqtt", ["Web / AI"]) == NoMatches
  {
    MqttIsNormal();
    MqttFindsTag(p);
    SingleRecordTab(p, "mqtt", []);
    SingleRecordTab(p, "mqtt", ["Web / AI"]);
  }

  lemma MqttIsNormal()
    ensures Normalize("mqtt") == "mqtt"
  {
    LowerFixesLowercase("mqtt");
    StripOfPadded([], "mqtt", []);
    assert [] + "mqtt" + [] == "mqtt";
  }

  lemma MqttFindsTag(p: Project)
    requires "MQTT" in p.stack
    ensures Match(p, "mqtt", [])
  {
    assert Lower("MQTT") == "mqtt" by {
      assert forall k :: 0 <= k < 4 ==> LowerChar("MQTT"[k]) == "mqtt"[k];
    }
    PrefixIsSubstring("mqtt", "mqtt");
    SearchHitsTitleOrTag(p, "mqtt");
  }
}
