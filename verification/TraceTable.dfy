/**
 The trace table of the web UI: filtering of request traces by method, errors
 and path text, and the transitions of the filter state.
 */
module TraceTable {
  import opened Text
  import opened Metrics
  import opened Bags

  datatype MethodFilter = ALL | GET | POST | PUT | DELETE

  datatype FilterState = FilterState(verb: MethodFilter, errorsOnly: bool, pathSearch: string)

  const CLEARED := FilterState(ALL, false, "")

  function MethodText(m: MethodFilter): string {
    match m
    case ALL => "ALL"
    case GET => "GET"
    case POST => "POST"
    case PUT => "PUT"
    case DELETE => "DELETE"
  }

  // ---------- The three criteria ----------

  const SIGMA := '\U{3A3}'
  const SMALL_SIGMA := '\U{3C3}'
  const FINAL_SIGMA := '\U{3C2}'

  /**
   What `toLowerCase` knows of characters: the lower case of each, possibly
   several characters long, and which are cased or ignorable next to a sigma.
   */
  datatype Casing = Casing(fold: char -> string, cased: char -> bool, ignorable: char -> bool)

  /** The text ends in a cased character, ignorable ones aside. */
  predicate EndsCased(c: Casing, s: string) {
    s != "" && (c.cased(s[|s| - 1]) || (c.ignorable(s[|s| - 1]) && EndsCased(c, s[..|s| - 1])))
  }

  /** The text begins with a cased character, ignorable ones aside. */
  predicate BeginsCased(c: Casing, s: string) {
    s != "" && (c.cased(s[0]) || (c.ignorable(s[0]) && BeginsCased(c, s[1..])))
  }

  /** One character in its context: a capital sigma becomes final at the end of a word. */
  function LowerChar(c: Casing, before: string, x: char, after: string): string {
    if x != SIGMA then c.fold(x)
    else if EndsCased(c, before) && !BeginsCased(c, after) then [FINAL_SIGMA]
    else [SMALL_SIGMA]
  }

  /** The lower case of `s` as part of `before + s + after`. */
  function LowerPart(c: Casing, before: string, s: string, after: string): string {
    if s == "" then ""
    else
      var init, last := s[..|s| - 1], s[|s| - 1];
      LowerPart(c, before, init, [last] + after) + LowerChar(c, before + init, last, after)
  }

  /** The text ends in a cased character followed by ignorable ones only. */
  lemma {:induction false} EndsCasedIff(c: Casing, s: string)
    ensures EndsCased(c, s) <==>
              exists k :: 0 <= k < |s| && c.cased(s[k]) && forall j :: k < j < |s| ==> c.ignorable(s[j])
  {
    if s == "" {
    } else {
      var init := s[..|s| - 1];
      EndsCasedIff(c, init);
      if EndsCased(c, init) && c.ignorable(s[|init|]) {
        var k :| 0 <= k < |init| && c.cased(init[k]) && forall j :: k < j < |init| ==> c.ignorable(init[j]);
        assert c.cased(s[k]) && forall j :: k < j < |s| ==> c.ignorable(s[j]);
      }
      if k :| 0 <= k < |init| && c.cased(s[k]) && forall j :: k < j < |s| ==> c.ignorable(s[j]) {
        assert c.cased(init[k]) && forall j :: k < j < |init| ==> c.ignorable(init[j]);
        assert c.ignorable(s[|init|]);
      }
    }
  }

  /** The text begins with ignorable characters, if any, followed by a cased one. */
  lemma {:induction false} BeginsCasedIff(c: Casing, s: string)
    ensures BeginsCased(c, s) <==>
              exists k :: 0 <= k < |s| && c.cased(s[k]) && forall j :: 0 <= j < k ==> c.ignorable(s[j])
  {
    if s == "" {
    } else {
      var rest := s[1..];
      BeginsCasedIff(c, rest);
      if BeginsCased(c, rest) && c.ignorable(s[0]) {
        var k :| 0 <= k < |rest| && c.cased(rest[k]) && forall j :: 0 <= j < k ==> c.ignorable(rest[j]);
        assert c.cased(s[k + 1]) && forall j :: 0 <= j < k + 1 ==> c.ignorable(s[j]);
      }
      if k :| 1 <= k < |s| && c.cased(s[k]) && forall j :: 0 <= j < k ==> c.ignorable(s[j]) {
        assert c.cased(rest[k - 1]) && forall j :: 0 <= j < k - 1 ==> c.ignorable(rest[j]);
        assert c.ignorable(s[0]);
      }
    }
  }

  /**
   A capital sigma becomes final exactly if a cased character precedes it and
   none follows, ignorable characters in between not counting.
   */
  lemma FinalSigma(c: Casing, before: string, after: string)
    ensures LowerChar(c, before, SIGMA, after) == (
              if (exists k :: 0 <= k < |before| && c.cased(before[k]) && forall j :: k < j < |before| ==> c.ignorable(before[j]))
                 && !(exists k :: 0 <= k < |after| && c.cased(after[k]) && forall j :: 0 <= j < k ==> c.ignorable(after[j]))
              then "\U{3C2}" else "\U{3C3}")
  {
    EndsCasedIff(c, before);
    BeginsCasedIff(c, after);
  }

  /** `toLowerCase`. */
  function ToLower(c: Casing, s: string): string {
    LowerPart(c, "", s, "")
  }

  predicate VerbFits(f: FilterState, t: Trace) {
    f.verb == ALL || t.verb == MethodText(f.verb)
  }

  predicate StatusFits(f: FilterState, t: Trace) {
    !f.errorsOnly || t.status >= 400
  }

  predicate PathFits(c: Casing, f: FilterState, t: Trace) {
    f.pathSearch == "" || Contains(ToLower(c, t.path), ToLower(c, f.pathSearch))
  }

  /** The callback of `applyFilters` rejects on the first criterion that fails. */
  predicate Keeps(c: Casing, f: FilterState, t: Trace) {
    if f.verb != ALL && t.verb != MethodText(f.verb) then false
    else if f.errorsOnly && t.status < 400 then false
    else if f.pathSearch != "" && !Contains(ToLower(c, t.path), ToLower(c, f.pathSearch)) then false
    else true
  }

  function Keeping(c: Casing, f: FilterState): Trace -> bool {
    (t: Trace) => Keeps(c, f, t)
  }

  function ApplyFilters(c: Casing, traces: seq<Trace>, f: FilterState): seq<Trace> {
    Filter(traces, Keeping(c, f))
  }

  function ByVerb(traces: seq<Trace>, f: FilterState): seq<Trace> {
    Filter(traces, (t: Trace) => VerbFits(f, t))
  }

  function ByStatus(traces: seq<Trace>, f: FilterState): seq<Trace> {
    Filter(traces, (t: Trace) => StatusFits(f, t))
  }

  function ByPath(c: Casing, traces: seq<Trace>, f: FilterState): seq<Trace> {
    Filter(traces, (t: Trace) => PathFits(c, f, t))
  }

  // ---------- Filter algebra ----------

  lemma {:induction false} FilterTwice(s: seq<Trace>, p: Trace -> bool, q: Trace -> bool, both: Trace -> bool)
    requires forall t: Trace :: both(t) == (p(t) && q(t))
    ensures Filter(Filter(s, p), q) == Filter(s, both)
  {
    if s == [] {
    } else {
      var init, last := s[..|s| - 1], s[|s| - 1];
      FilterTwice(init, p, q, both);
      if p(last) {
        FilterAppend(Filter(init, p), last, q);
        assert Filter(s, p) == Filter(init, p) + [last];
      } else {
        assert Filter(s, p) == Filter(init, p);
      }
    }
  }

  /** The combined filter is the composition of its three parts. */
  lemma Composition(c: Casing, traces: seq<Trace>, f: FilterState)
    ensures ApplyFilters(c, traces, f) == ByPath(c, ByStatus(ByVerb(traces, f), f), f)
  {
    var v, s, p := (t: Trace) => VerbFits(f, t), (t: Trace) => StatusFits(f, t), (t: Trace) => PathFits(c, f, t);
    var vs, vsp := (t: Trace) => VerbFits(f, t) && StatusFits(f, t),
                   (t: Trace) => VerbFits(f, t) && StatusFits(f, t) && PathFits(c, f, t);
    FilterTwice(traces, v, s, vs);
    FilterTwice(traces, vs, p, vsp);
    SameFilter(traces, vsp, Keeping(c, f));
  }

  lemma {:induction false} SameFilter(s: seq<Trace>, p: Trace -> bool, q: Trace -> bool)
    requires forall i :: 0 <= i < |s| ==> p(s[i]) == q(s[i])
    ensures Filter(s, p) == Filter(s, q)
  {
    if s == [] {
    } else {
      SameFilter(s[..|s| - 1], p, q);
    }
  }

  /** Any two filters commute, hence the three parts may be applied in any order. */
  lemma Commute(s: seq<Trace>, p: Trace -> bool, q: Trace -> bool)
    ensures Filter(Filter(s, p), q) == Filter(Filter(s, q), p)
  {
    FilterTwice(s, p, q, (t: Trace) => p(t) && q(t));
    FilterTwice(s, q, p, (t: Trace) => p(t) && q(t));
  }

  lemma AnyOrder(c: Casing, traces: seq<Trace>, f: FilterState)
    ensures var r := ApplyFilters(c, traces, f);
            && r == ByPath(c, ByVerb(ByStatus(traces, f), f), f)
            && r == ByStatus(ByPath(c, ByVerb(traces, f), f), f)
            && r == ByStatus(ByVerb(ByPath(c, traces, f), f), f)
            && r == ByVerb(ByPath(c, ByStatus(traces, f), f), f)
            && r == ByVerb(ByStatus(ByPath(c, traces, f), f), f)
  {
    var v, s, p := (t: Trace) => VerbFits(f, t), (t: Trace) => StatusFits(f, t), (t: Trace) => PathFits(c, f, t);
    Composition(c, traces, f);
    Commute(traces, v, s);
    Commute(ByVerb(traces, f), s, p);
    Commute(traces, v, p);
    Commute(ByStatus(traces, f), v, p);
    Commute(traces, s, p);
  }

  /** Filtering what is already filtered changes nothing. */
  lemma Idempotent(c: Casing, traces: seq<Trace>, f: FilterState)
    ensures ApplyFilters(c, ApplyFilters(c, traces, f), f) == ApplyFilters(c, traces, f)
  {
    FilterTwice(traces, Keeping(c, f), Keeping(c, f), Keeping(c, f));
  }

  /** The positions of the rows a filter shows. */
  function Positions(s: seq<Trace>, p: Trace -> bool): seq<nat> {
    if s == [] then []
    else
      var n := |s| - 1;
      Positions(s[..n], p) + (if p(s[n]) then [n] else [])
  }

  /** Strictly increasing positions below `n`. */
  predicate Ascending(idx: seq<nat>, n: nat) {
    && (forall i :: 0 <= i < |idx| ==> idx[i] < n)
    && (forall i, j :: 0 <= i < j < |idx| ==> idx[i] < idx[j])
  }

  /** The shown rows stand in their original order. */
  lemma {:induction false} KeepsOrder(s: seq<Trace>, p: Trace -> bool)
    ensures Ascending(Positions(s, p), |s|)
  {
    if s == [] {
    } else {
      var n := |s| - 1;
      KeepsOrder(s[..n], p);
      assert Ascending(Positions(s[..n], p), n);
    }
  }

  /** The filtered rows are those at the positions. */
  lemma {:induction false} ShowsPositions(s: seq<Trace>, p: Trace -> bool)
    ensures var idx := Positions(s, p);
            && |Filter(s, p)| == |idx|
            && (forall i :: 0 <= i < |idx| ==> idx[i] < |s| && Filter(s, p)[i] == s[idx[i]])
  {
    if s == [] {
    } else {
      ShowsPositions(s[..|s| - 1], p);
    }
  }

  /** A row is shown exactly if it fits. */
  lemma {:induction false} ShowsAllFitting(s: seq<Trace>, p: Trace -> bool, k: nat)
    requires k < |s|
    ensures p(s[k]) <==> k in Positions(s, p)
  {
    var n := |s| - 1;
    KeepsOrder(s[..n], p);
    if k == n {
    } else {
      ShowsAllFitting(s[..n], p, k);
    }
  }

  /** The filter shows exactly the fitting rows, each at its place in the original order. */
  lemma ShownRows(c: Casing, traces: seq<Trace>, f: FilterState)
    ensures var shown, idx := ApplyFilters(c, traces, f), Positions(traces, Keeping(c, f));
            && |shown| == |idx| && Ascending(idx, |traces|)
            && (forall i :: 0 <= i < |idx| ==> shown[i] == traces[idx[i]])
            && (forall k :: 0 <= k < |traces| ==>
                  (k in idx <==>
                     && (f.verb == ALL || traces[k].verb == MethodText(f.verb))
                     && (!f.errorsOnly || traces[k].status >= 400)
                     && (f.pathSearch == "" || Contains(ToLower(c, traces[k].path), ToLower(c, f.pathSearch)))))
  {
    var keep := Keeping(c, f);
    KeepsOrder(traces, keep);
    ShowsPositions(traces, keep);
    forall k | 0 <= k < |traces| ensures k in Positions(traces, keep) <==> keep(traces[k]) {
      ShowsAllFitting(traces, keep, k);
    }
  }

  /** Each method chip shows exactly the requests of its own method, the first one all. */
  lemma ChipShows(c: Casing, traces: seq<Trace>, k: nat)
    requires k < |traces|
    ensures k in Positions(traces, Keeping(c, CLEARED.(verb := ALL)))
    ensures k in Positions(traces, Keeping(c, CLEARED.(verb := GET))) <==> traces[k].verb == "GET"
    ensures k in Positions(traces, Keeping(c, CLEARED.(verb := POST))) <==> traces[k].verb == "POST"
    ensures k in Positions(traces, Keeping(c, CLEARED.(verb := PUT))) <==> traces[k].verb == "PUT"
    ensures k in Positions(traces, Keeping(c, CLEARED.(verb := DELETE))) <==> traces[k].verb == "DELETE"
  {
    ShowsAllFitting(traces, Keeping(c, CLEARED.(verb := ALL)), k);
    ShowsAllFitting(traces, Keeping(c, CLEARED.(verb := GET)), k);
    ShowsAllFitting(traces, Keeping(c, CLEARED.(verb := POST)), k);
    ShowsAllFitting(traces, Keeping(c, CLEARED.(verb := PUT)), k);
    ShowsAllFitting(traces, Keeping(c, CLEARED.(verb := DELETE)), k);
  }

  // ---------- Search ----------

  /** Texts are lower-cased part by part, each part in its context. */
  lemma {:induction false} LowerConcat(c: Casing, before: string, a: string, b: string, after: string)
    ensures LowerPart(c, before, a + b, after) == LowerPart(c, before, a, b + after) + LowerPart(c, before + a, b, after)
  {
    if b == "" {
      assert a + b == a && b + after == after;
    } else {
      var init, last := b[..|b| - 1], b[|b| - 1];
      assert (a + b)[..|a + b| - 1] == a + init;
      LowerConcat(c, before, a, init, [last] + after);
      assert init + ([last] + after) == b + after;
      assert before + (a + init) == before + a + init;
    }
  }

  /** Without a capital sigma the context does not matter. */
  lemma {:induction false} NoSigmaNoContext(c: Casing, before: string, s: string, after: string)
    requires SIGMA !in s
    ensures LowerPart(c, before, s, after) == ToLower(c, s)
    decreases |s|
  {
    if s == "" {
    } else {
      var init, last := s[..|s| - 1], s[|s| - 1];
      NoSigmaNoContext(c, before, init, [last] + after);
      NoSigmaNoContext(c, "", init, [last]);
      assert [last] + "" == [last];
    }
  }

  lemma SliceOfSlice(s: string, i: nat, n: nat, j: nat, m: nat)
    requires i + n <= |s| && j + m <= n
    ensures s[i..i + n][j..j + m] == s[i + j..i + j + m]
  {
    var t := s[i..i + n];
    var inner, outer := t[j..j + m], s[i + j..i + j + m];
    forall k | 0 <= k < m ensures inner[k] == outer[k] {
      assert inner[k] == t[j + k];
    }
  }

  lemma ContainsPart(hay: string, left: string, middle: string, right: string)
    requires Contains(hay, left + middle + right)
    ensures Contains(hay, middle)
  {
    var whole := left + middle + right;
    var i: nat :| i <= |hay| && OccursAt(hay, whole, i);
    var at := i + |left|;
    assert whole[|left|..|left| + |middle|] == middle;
    SliceOfSlice(hay, i, |whole|, |left|, |middle|);
    assert OccursAt(hay, middle, at);
  }

  lemma ContainsTransitive(hay: string, whole: string, part: string)
    requires Contains(hay, whole) && Contains(whole, part)
    ensures Contains(hay, part)
  {
    var i: nat :| i <= |whole| && OccursAt(whole, part, i);
    assert whole == whole[..i] + part + whole[i + |part|..];
    ContainsPart(hay, whole[..i], part, whole[i + |part|..]);
  }

  /** Whatever `f` with search text `text` shows, `f` itself shows too. */
  ghost predicate Narrows(c: Casing, f: FilterState, text: string) {
    var g := f.(pathSearch := text);
    forall traces :: ApplyFilters(c, traces, g) == ApplyFilters(c, ApplyFilters(c, traces, f), g)
  }

  /**
   Changing the search text narrows every list of traces if and only if the
   old text is empty or its lower case is contained in that of the new text.
   */
  lemma SearchNarrows(c: Casing, f: FilterState, text: string)
    ensures Narrows(c, f, text) <==> f.pathSearch == "" || Contains(ToLower(c, text), ToLower(c, f.pathSearch))
  {
    if f.pathSearch == "" || Contains(ToLower(c, text), ToLower(c, f.pathSearch)) {
      forall traces ensures ApplyFilters(c, traces, f.(pathSearch := text))
                         == ApplyFilters(c, ApplyFilters(c, traces, f), f.(pathSearch := text)) {
        ContainedNarrows(c, traces, f, text);
      }
    } else {
      NotContainedWidens(c, f, text);
    }
  }

  lemma ContainedNarrows(c: Casing, traces: seq<Trace>, f: FilterState, text: string)
    requires f.pathSearch == "" || Contains(ToLower(c, text), ToLower(c, f.pathSearch))
    ensures var g := f.(pathSearch := text);
            ApplyFilters(c, traces, g) == ApplyFilters(c, ApplyFilters(c, traces, f), g)
  {
    var g := f.(pathSearch := text);
    forall t: Trace | PathFits(c, g, t) ensures PathFits(c, f, t) {
      if f.pathSearch != "" {
        if text == "" { assert OccursAt(ToLower(c, t.path), ToLower(c, text), 0); }
        ContainsTransitive(ToLower(c, t.path), ToLower(c, text), ToLower(c, f.pathSearch));
      }
    }
    var keepF := (t: Trace) => VerbFits(f, t) && StatusFits(f, t) && PathFits(c, f, t);
    var keepG := (t: Trace) => VerbFits(g, t) && StatusFits(g, t) && PathFits(c, g, t);
    Conjunction(c, traces, f, keepF);
    Conjunction(c, traces, g, keepG);
    Conjunction(c, ApplyFilters(c, traces, f), g, keepG);
    FilterTwice(traces, keepF, keepG, keepG);
  }

  lemma OneRow(c: Casing, f: FilterState, t: Trace)
    ensures ApplyFilters(c, [t], f) == if Keeps(c, f, t) then [t] else []
  {
    FilterAppend([], t, Keeping(c, f));
    assert [] + [t] == [t];
  }

  /** Otherwise a trace whose path is the new text appears only now. */
  lemma NotContainedWidens(c: Casing, f: FilterState, text: string)
    requires f.pathSearch != "" && !Contains(ToLower(c, text), ToLower(c, f.pathSearch))
    ensures !Narrows(c, f, text)
  {
    var g := f.(pathSearch := text);
    var t := Trace(MethodText(f.verb), text, 400, 0.0, "");
    assert OccursAt(ToLower(c, text), ToLower(c, text), 0);
    assert Keeps(c, g, t) && !Keeps(c, f, t);
    OneRow(c, g, t);
    OneRow(c, f, t);
    assert ApplyFilters(c, ApplyFilters(c, [t], f), g) == [];
  }

  /** Extending a search text without capital sigma, on either side, only narrows what is shown. */
  lemma LongerSearchNarrows(c: Casing, f: FilterState, left: string, right: string)
    requires SIGMA !in f.pathSearch
    ensures Narrows(c, f, left + f.pathSearch + right)
  {
    var p := f.pathSearch;
    LowerConcat(c, "", left + p, right, "");
    LowerConcat(c, "", left, p, right + "");
    NoSigmaNoContext(c, "" + left, p, right + "");
    var whole := ToLower(c, left + p + right);
    assert OccursAt(whole, whole, 0);
    ContainsPart(whole, LowerPart(c, "", left, p + (right + "")), ToLower(c, p), LowerPart(c, "" + (left + p), right, ""));
    SearchNarrows(c, f, left + p + right);
  }

  lemma LowerOne(c: Casing, before: string, x: char, after: string)
    ensures LowerPart(c, before, [x], after) == LowerChar(c, before, x, after)
  {
    assert [x][..0] == "" && before + "" == before;
  }

  /** An alpha and a sigma, in context. */
  lemma AlphaSigma(c: Casing, before: string, after: string)
    requires c.fold('\U{391}') == "\U{3B1}" && c.cased('\U{391}')
    ensures LowerPart(c, before, "\U{391}\U{3A3}", after)
         == "\U{3B1}" + (if BeginsCased(c, after) then [SMALL_SIGMA] else [FINAL_SIGMA])
  {
    hide LowerPart;
    var a, z := "\U{391}", [SIGMA];
    assert a + z == "\U{391}\U{3A3}";
    LowerConcat(c, before, a, z, after);
    LowerOne(c, before, a[0], z + after);
    LowerOne(c, before + a, SIGMA, after);
    assert (before + a)[|before + a| - 1] == a[0];
  }

  /** Only at the end of its word is the sigma final. */
  lemma SigmaTexts(c: Casing)
    requires c.fold('/') == "/" && c.fold('\U{391}') == "\U{3B1}" && c.cased('\U{391}')
    ensures ToLower(c, "\U{391}\U{3A3}") == "\U{3B1}\U{3C2}"
    ensures ToLower(c, "\U{391}\U{3A3}\U{391}") == "\U{3B1}\U{3C3}\U{3B1}"
    ensures ToLower(c, "/\U{391}\U{3A3}\U{391}") == "/\U{3B1}\U{3C3}\U{3B1}"
  {
    hide LowerPart;
    var a, az, aza, slash := "\U{391}", "\U{391}\U{3A3}", "\U{391}\U{3A3}\U{391}", "/";
    AlphaSigma(c, "", "");
    assert az + a == aza && slash + aza == "/\U{391}\U{3A3}\U{391}" && a + "" == a && aza + "" == aza;
    forall before ensures LowerPart(c, before, aza, "") == "\U{3B1}\U{3C3}\U{3B1}" {
      LowerConcat(c, before, az, a, "");
      AlphaSigma(c, before, a);
      LowerOne(c, before + az, a[0], "");
    }
    LowerConcat(c, "", slash, aza, "");
    LowerOne(c, "", '/', aza);
  }

  /**
   With a capital sigma it may not: the search for an alpha and a sigma hides
   a path that the search for alpha, sigma and alpha shows.
   */
  lemma SigmaExample(c: Casing)
    requires c.fold('/') == "/" && c.fold('\U{391}') == "\U{3B1}" && c.cased('\U{391}')
    ensures var f, t := CLEARED.(pathSearch := "\U{391}\U{3A3}"), Trace("GET", "/\U{391}\U{3A3}\U{391}", 200, 0.0, "");
            && ApplyFilters(c, [t], f) == []
            && ApplyFilters(c, [t], f.(pathSearch := f.pathSearch + "\U{391}")) == [t]
            && !Narrows(c, f, f.pathSearch + "\U{391}")
  {
    var a, short, long, path := '\U{391}', "\U{391}\U{3A3}", "\U{391}\U{3A3}\U{391}", "/\U{391}\U{3A3}\U{391}";
    var f, t := CLEARED.(pathSearch := short), Trace("GET", path, 200, 0.0, "");
    SigmaTexts(c);
    assert OccursAt(ToLower(c, path), ToLower(c, long), 1);
    forall i: nat | i <= |ToLower(c, path)| ensures !OccursAt(ToLower(c, path), ToLower(c, short), i) {
      if i + 2 <= |ToLower(c, path)| {
        assert ToLower(c, path)[i..i + 2][1] != FINAL_SIGMA;
      }
    }
    assert short + [a] == long;
    OneRow(c, f, t);
    OneRow(c, f.(pathSearch := long), t);
    assert ApplyFilters(c, [], f.(pathSearch := long)) == [];
  }

  lemma Conjunction(c: Casing, traces: seq<Trace>, f: FilterState, keep: Trace -> bool)
    requires forall t: Trace :: keep(t) == (VerbFits(f, t) && StatusFits(f, t) && PathFits(c, f, t))
    ensures ApplyFilters(c, traces, f) == Filter(traces, keep)
  {
    SameFilter(traces, keep, Keeping(c, f));
  }

  // ---------- Active filters ----------

  /** `countActiveFilters`. */
  method CountActiveFilters(f: FilterState) returns (count: nat)
    ensures count == ActiveFilters(f)
  {
    count := 0;
    if f.verb != ALL {
      count := count + 1;
    }
    if f.errorsOnly {
      count := count + 1;
    }
    if |f.pathSearch| > 0 {
      count := count + 1;
    }
  }

  /** How many components differ from the cleared state. */
  function ActiveFilters(f: FilterState): nat {
    |(if f.verb == CLEARED.verb then {} else {0}) + (if f.errorsOnly == CLEARED.errorsOnly then {} else {1})
     + (if f.pathSearch == CLEARED.pathSearch then {} else {2})|
  }

  /**
   The badge shows 0 exactly for the cleared state, and exactly then does the
   table show every list of traces unfiltered.
   */
  lemma InactiveIsIdentity(c: Casing, f: FilterState)
    requires forall x :: c.fold(x) != ""
    ensures ActiveFilters(f) == 0 <==> f == CLEARED
    ensures f == CLEARED <==> forall traces :: ApplyFilters(c, traces, f) == traces
  {
    if f == CLEARED {
      forall traces ensures ApplyFilters(c, traces, f) == traces {
        KeepAll(c, traces);
      }
    } else {
      var hidden := Trace("", "", 200, 0.0, "");
      assert !(VerbFits(f, hidden) && StatusFits(f, hidden) && PathFits(c, f, hidden)) by {
        if f.pathSearch != "" {
          assert LowerChar(c, "" + f.pathSearch[..|f.pathSearch| - 1], f.pathSearch[|f.pathSearch| - 1], "") != "";
          assert ToLower(c, f.pathSearch) != "";
          assert ToLower(c, "") == "";
        }
      }
      Conjunction(c, [hidden], f, (t: Trace) => VerbFits(f, t) && StatusFits(f, t) && PathFits(c, f, t));
      assert [hidden][..0] == [];
      assert ApplyFilters(c, [hidden], f) == [];
    }
  }

  lemma {:induction false} KeepAll(c: Casing, traces: seq<Trace>)
    ensures ApplyFilters(c, traces, CLEARED) == traces
  {
    if traces == [] {
    } else {
      KeepAll(c, traces[..|traces| - 1]);
    }
  }

  // ---------- Filter-state transitions ----------

  datatype Action = ClickMethod(verb: MethodFilter) | ToggleErrors | TypeSearch(text: string) | ClearAll

  /** The clear button is there only while a filter is active. */
  predicate Offered(f: FilterState, a: Action) {
    a.ClearAll? ==> ActiveFilters(f) > 0
  }

  function Perform(f: FilterState, a: Action): FilterState {
    match a
    case ClickMethod(m) => f.(verb := if f.verb == m then ALL else m)
    case ToggleErrors => f.(errorsOnly := !f.errorsOnly)
    case TypeSearch(text) => f.(pathSearch := text)
    case ClearAll => CLEARED
  }

  /**
   What each action leaves behind: a click selects its method, or all methods if
   it was selected, so that a second click on a method ends its selection;
   toggling twice is no change; the last typed text stands; nothing else moves.
   */
  lemma ActionsLeave(f: FilterState, m: MethodFilter, text: string, last: string)
    ensures Perform(f, ClickMethod(m)) == FilterState(if f.verb == m then ALL else m, f.errorsOnly, f.pathSearch)
    ensures Perform(Perform(f, ClickMethod(m)), ClickMethod(m))
         == FilterState(if f.verb == m then m else ALL, f.errorsOnly, f.pathSearch)
    ensures Perform(f, ToggleErrors) == FilterState(f.verb, !f.errorsOnly, f.pathSearch)
    ensures Perform(Perform(f, ToggleErrors), ToggleErrors) == f
    ensures Perform(Perform(f, TypeSearch(text)), TypeSearch(last)) == FilterState(f.verb, f.errorsOnly, last)
    ensures Perform(f, ClearAll) == FilterState(ALL, false, "")
  {
  }

  function PerformAll(f: FilterState, actions: seq<Action>): FilterState {
    if actions == [] then f else Perform(PerformAll(f, actions[..|actions| - 1]), actions[|actions| - 1])
  }

  /**
   After any actions the user either sees everything unfiltered or is offered
   the clear button, which leads there.
   */
  lemma ClearReachable(c: Casing, actions: seq<Action>, traces: seq<Trace>)
    requires forall x :: c.fold(x) != ""
    ensures var f := PerformAll(CLEARED, actions);
            if Offered(f, ClearAll) then PerformAll(CLEARED, actions + [ClearAll]) == CLEARED
            else ApplyFilters(c, traces, f) == traces
  {
    var f := PerformAll(CLEARED, actions);
    InactiveIsIdentity(c, f);
    assert (actions + [ClearAll])[..|actions|] == actions;
  }
}
