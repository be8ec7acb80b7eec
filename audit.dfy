/** The report both entry points build: the server-side checker's main
    function and the extension's content script run the same eight checks
    over the page and collect `{title, details}` records in a `results`
    list, with the colour-contrast check filling its own `contrastIssues`
    list element by element. The page is an abstract snapshot of what the
    DOM queries return. */
module Audit {
  import opened JsRuntime
  import opened Contrast

  /** An `<img>`: its `src` and its `alt` text (`""` when there is none). */
  datatype Image = Image(src: string, alt: string)

  /** An element with the `color` and `backgroundColor` of its computed
      style and its `outerHTML`. */
  datatype StyledElement = StyledElement(color: string, backgroundColor: string, outerHtml: string)

  /** A `<form>`: its submission method and its action. */
  datatype Form = Form(httpMethod: string, action: string)

  /** What the queries on the page return: every `<img>`, the number of
      elements per tag name, the markup of every focusable element, every
      element in document order, every `<form>`, and whether a viewport
      `<meta>` tag is present. */
  datatype PageSnapshot = PageSnapshot(
    images: seq<Image>,
    tagCounts: map<string, nat>,
    focusable: seq<string>,
    elements: seq<StyledElement>,
    forms: seq<Form>,
    hasViewportMeta: bool)

  /** One entry of `results`. */
  datatype Finding = Finding(title: string, details: string)

  /** `document.querySelectorAll(tag).length`: a tag that does not occur counts 0. */
  function TagCount(page: PageSnapshot, tag: string): nat
  {
    if tag in page.tagCounts then page.tagCounts[tag] else 0
  }

  const SEMANTIC_TAGS: seq<string> := ["header", "nav", "main", "footer", "article", "section"]

  /** The titles of the eight entries, in the order they are pushed. */
  const TITLES: seq<string> := [
    "Alt Text Check",
    "Semantic HTML Check",
    "Keyboard Accessibility Check",
    "Color Contrast Check",
    "Navigational Clarity Check",
    "Forms and Interactive Elements Check",
    "Adaptive and Responsive Design Check",
    "Accessibility Testing and Compliance"]

  const COMPLIANCE_NOTE: string :=
    "Regular accessibility audits and testing are essential to identify and address accessibility barriers. "
    + "Compliance with standards like WCAG ensures websites meet recognized accessibility criteria."

  // ---------------------------------------------------------------------
  // 1. Alt text
  // ---------------------------------------------------------------------

  /** `images.filter(img => !img.alt)`. */
  function MissingAlts(images: seq<Image>): (m: seq<Image>)
    ensures |m| <= |images|
    decreases |images|
  {
    if images == [] then []
    else
      var last := images[|images| - 1];
      MissingAlts(images[..|images| - 1]) + (if last.alt == "" then [last] else [])
  }

  /** The filter keeps the images whose alt text is the empty string, each as
      often as it occurs, and no other. */
  lemma {:induction false} MissingAltsMultiset(images: seq<Image>)
    ensures forall x :: multiset(MissingAlts(images))[x] == if x.alt == "" then multiset(images)[x] else 0
    decreases |images|
  {
    if images != [] {
      var init, last := images[..|images| - 1], images[|images| - 1];
      assert images == init + [last];
      MissingAltsMultiset(init);
    }
  }

  /** The positions of the images without alt text. */
  function EmptyAltPositions(images: seq<Image>): set<int>
  {
    set i | 0 <= i < |images| && images[i].alt == ""
  }

  /** The alt-text count is the number of positions holding an image
      without alt text. */
  lemma {:induction false} MissingAltsCount(images: seq<Image>)
    ensures |MissingAlts(images)| == |EmptyAltPositions(images)|
    decreases |images|
  {
    if images != [] {
      var n := |images| - 1;
      MissingAltsCount(images[..n]);
      EmptyAltPositionsStep(images);
    }
  }

  /** One more image adds its position when its alt text is empty. */
  lemma EmptyAltPositionsStep(images: seq<Image>)
    requires images != []
    ensures var n := |images| - 1;
            && n !in EmptyAltPositions(images[..n])
            && EmptyAltPositions(images) == EmptyAltPositions(images[..n]) + (if images[n].alt == "" then {n} else {})
  {
    var n := |images| - 1;
    var a, b := EmptyAltPositions(images), EmptyAltPositions(images[..n]);
    forall i ensures i in a <==> i in b || (i == n && images[n].alt == "") {
      if 0 <= i < n {
        assert images[..n][i] == images[i];
      }
    }
  }

  /** A template literal with one count in it: `${prefix}${n}${suffix}`. */
  function CountSentence(prefix: string, n: nat, suffix: string): string
  {
    prefix + NatToString(n) + suffix
  }

  /** The text of the alt-text entry. */
  function AltTextDetails(missing: nat): string
  {
    CountSentence("Found ", missing, " images without alt text.")
  }

  // ---------------------------------------------------------------------
  // 2. Semantic HTML
  // ---------------------------------------------------------------------

  /** `${t.tag}: ${t.count}` for one tag. */
  function TagEntry(page: PageSnapshot, tag: string): string
  {
    tag + ": " + NatToString(TagCount(page, tag))
  }

  /** The entry of every tag of `tags`, in order. */
  function TagEntries(page: PageSnapshot, tags: seq<string>): (entries: seq<string>)
    ensures |entries| == |tags|
    ensures forall k :: 0 <= k < |tags| ==> entries[k] == TagEntry(page, tags[k])
  {
    if tags == [] then [] else [TagEntry(page, tags[0])] + TagEntries(page, tags[1..])
  }

  /** The details of the semantic-HTML entry. */
  function SemanticDetails(page: PageSnapshot): string
  {
    "Semantic tags found: " + Join(TagEntries(page, SEMANTIC_TAGS), ", ")
  }

  /** The semantic details list header, nav, main, footer, article and
      section, in that order, each as `tag: count`, separated by `, `. */
  lemma SemanticDetailsSpelledOut(page: PageSnapshot)
    ensures SemanticDetails(page) == "Semantic tags found: " +
      (TagEntry(page, "header") + ", " +
      (TagEntry(page, "nav") + ", " +
      (TagEntry(page, "main") + ", " +
      (TagEntry(page, "footer") + ", " +
      (TagEntry(page, "article") + ", " +
       TagEntry(page, "section"))))))
  {
    var e := TagEntries(page, SEMANTIC_TAGS);
    assert e == [TagEntry(page, "header"), TagEntry(page, "nav"), TagEntry(page, "main"),
                 TagEntry(page, "footer"), TagEntry(page, "article"), TagEntry(page, "section")];
    JoinSix(e[0], e[1], e[2], e[3], e[4], e[5], ", ");
  }

  /** Joining six parts puts the separator between neighbours. */
  lemma JoinSix(a: string, b: string, c: string, d: string, e: string, f: string, sep: string)
    ensures Join([a, b, c, d, e, f], sep) == a + sep + (b + sep + (c + sep + (d + sep + (e + sep + f))))
  {
    assert [e, f][1..] == [f];
    assert Join([e, f], sep) == e + sep + f;
    assert [d, e, f][1..] == [e, f];
    assert Join([d, e, f], sep) == d + sep + (e + sep + f);
    assert [c, d, e, f][1..] == [d, e, f];
    assert Join([c, d, e, f], sep) == c + sep + (d + sep + (e + sep + f));
    assert [b, c, d, e, f][1..] == [c, d, e, f];
    assert Join([b, c, d, e, f], sep) == b + sep + (c + sep + (d + sep + (e + sep + f)));
    assert [a, b, c, d, e, f][1..] == [b, c, d, e, f];
  }

  // ---------------------------------------------------------------------
  // 4. Colour contrast
  // ---------------------------------------------------------------------

  /** The condition of the contrast loop: both colours are set (a non-empty
      string) and `checkContrast` rejects them. */
  predicate HasInsufficientContrast(pow: SrgbPower, el: StyledElement)
  {
    el.color != "" && el.backgroundColor != "" && !CheckContrast(pow, el.color, el.backgroundColor)
  }

  /** The condition as a function value. */
  function IssueTest(pow: SrgbPower): (test: StyledElement -> bool)
    ensures forall el :: test(el) == HasInsufficientContrast(pow, el)
  {
    el => HasInsufficientContrast(pow, el)
  }

  /** The markup of the elements of `els` that pass `test`, in document order. */
  function Collect(test: StyledElement -> bool, els: seq<StyledElement>): (issues: seq<string>)
    ensures |issues| <= |els|
    decreases |els|
  {
    if els == [] then []
    else
      var last := els[|els| - 1];
      Collect(test, els[..|els| - 1]) + (if test(last) then [last.outerHtml] else [])
  }

  /** The positions of the elements that pass `test`, in increasing order: a
      position is listed exactly when its element passes. */
  function Positions(test: StyledElement -> bool, els: seq<StyledElement>): (p: seq<int>)
    ensures forall k :: 0 <= k < |p| ==> 0 <= p[k] < |els| && test(els[p[k]])
    ensures forall k, l :: 0 <= k < l < |p| ==> p[k] < p[l]
    ensures forall i :: 0 <= i < |els| && test(els[i]) ==> i in p
    decreases |els|
  {
    if els == [] then []
    else
      var n := |els| - 1;
      var p' := Positions(test, els[..n]);
      assert forall i :: 0 <= i < n ==> els[..n][i] == els[i];
      if test(els[n]) then p' + [n] else p'
  }

  /** What `Collect` keeps is the markup of exactly the passing elements, in
      document order: its k-th entry is the markup at the k-th passing position. */
  lemma {:induction false} CollectExact(test: StyledElement -> bool, els: seq<StyledElement>)
    ensures var p, issues := Positions(test, els), Collect(test, els);
            |issues| == |p| && forall k :: 0 <= k < |p| ==> issues[k] == els[p[k]].outerHtml
    decreases |els|
  {
    if els != [] {
      var n := |els| - 1;
      CollectExact(test, els[..n]);
      var p' := Positions(test, els[..n]);
      forall k | 0 <= k < |p'| ensures els[..n][p'[k]] == els[p'[k]] {
      }
    }
  }

  /** When every element passes, `Collect` keeps the markup of all of them. */
  lemma {:induction false} CollectAll(test: StyledElement -> bool, els: seq<StyledElement>)
    requires forall i :: 0 <= i < |els| ==> test(els[i])
    ensures var issues := Collect(test, els);
            |issues| == |els| && forall i :: 0 <= i < |els| ==> issues[i] == els[i].outerHtml
    decreases |els|
  {
    if els != [] {
      var n := |els| - 1;
      var init := els[..n];
      assert forall i :: 0 <= i < n ==> init[i] == els[i];
      CollectAll(test, init);
      var c := Collect(test, init);
      assert Collect(test, els) == c + [els[n].outerHtml];
    }
  }

  /** The markup the contrast loop collects from `els`. */
  function ContrastIssues(pow: SrgbPower, els: seq<StyledElement>): (issues: seq<string>)
    ensures |issues| <= |els|
  {
    Collect(IssueTest(pow), els)
  }

  /** The positions of the elements with insufficient contrast. */
  function FlaggedPositions(pow: SrgbPower, els: seq<StyledElement>): (p: seq<int>)
    ensures forall k :: 0 <= k < |p| ==> 0 <= p[k] < |els| && HasInsufficientContrast(pow, els[p[k]])
    ensures forall i :: 0 <= i < |els| ==> (i in p <==> HasInsufficientContrast(pow, els[i]))
    ensures forall k, l :: 0 <= k < l < |p| ==> p[k] < p[l]
  {
    Positions(IssueTest(pow), els)
  }

  /** The contrast issues are the markup of exactly the elements with both
      colours set that `checkContrast` rejects, in document order, and their
      number is the number of such elements. */
  lemma ContrastIssuesExact(pow: SrgbPower, els: seq<StyledElement>)
    ensures var p, issues := FlaggedPositions(pow, els), ContrastIssues(pow, els);
            |issues| == |p| && forall k :: 0 <= k < |p| ==> issues[k] == els[p[k]].outerHtml
  {
    CollectExact(IssueTest(pow), els);
  }

  /** The `forEach` over all elements that pushes the markup of each flagged one. */
  method CollectContrastIssues(pow: SrgbPower, els: seq<StyledElement>) returns (issues: seq<string>)
    ensures issues == ContrastIssues(pow, els)
  {
    issues := [];
    var i := 0;
    while i < |els|
      invariant 0 <= i <= |els|
      invariant issues == Collect(IssueTest(pow), els[..i])
    {
      var el := els[i];
      assert els[..i + 1][..i] == els[..i];
      if el.color != "" && el.backgroundColor != "" && !CheckContrast(pow, el.color, el.backgroundColor) {
        issues := issues + [el.outerHtml];
      }
      i := i + 1;
    }
    assert els[..i] == els;
  }

  /** Computed styles give colours in functional notation, which decode to
      black: then every element whose background is set is reported. */
  lemma FunctionalNotationFlagsAll(pow: SrgbPower, els: seq<StyledElement>)
    requires forall i :: 0 <= i < |els| ==> IsFunctionalNotation(els[i].color) && els[i].backgroundColor != ""
    ensures var issues := ContrastIssues(pow, els);
            |issues| == |els| && forall i :: 0 <= i < |els| ==> issues[i] == els[i].outerHtml
  {
    forall i | 0 <= i < |els| ensures HasInsufficientContrast(pow, els[i]) {
      FunctionalNotationIsBlack(els[i].color);
      BlackForegroundNeverPasses(pow, els[i].color, els[i].backgroundColor);
    }
    CollectAll(IssueTest(pow), els);
  }

  // ---------------------------------------------------------------------
  // The report
  // ---------------------------------------------------------------------

  function FocusableDetails(n: nat): string
  {
    CountSentence("Found ", n, " focusable elements.")
  }

  function ContrastDetails(n: nat): string
  {
    CountSentence("Found ", n, " elements with insufficient color contrast.")
  }

  function NavigationDetails(n: nat): string
  {
    CountSentence("Found ", n, " navigation elements.")
  }

  function FormsDetails(n: nat): string
  {
    CountSentence("Found ", n, " forms.")
  }

  function ViewportDetails(present: bool): string
  {
    "Viewport meta tag present: " + BoolToString(present)
  }

  /** The eight entries, in the order they are pushed, for a page and the
      contrast issues found on it. */
  function AuditReport(page: PageSnapshot, contrastIssues: seq<string>): (r: seq<Finding>)
  {
    [ Finding(TITLES[0], AltTextDetails(|MissingAlts(page.images)|)),
      Finding(TITLES[1], SemanticDetails(page)),
      Finding(TITLES[2], FocusableDetails(|page.focusable|)),
      Finding(TITLES[3], ContrastDetails(|contrastIssues|)),
      Finding(TITLES[4], NavigationDetails(TagCount(page, "nav"))),
      Finding(TITLES[5], FormsDetails(|page.forms|)),
      Finding(TITLES[6], ViewportDetails(page.hasViewportMeta)),
      Finding(TITLES[7], COMPLIANCE_NOTE) ]
  }

  /** The body of the entry point: push the eight findings one after the
      other, running the contrast loop for the fourth. */
  method RunAudit(pow: SrgbPower, page: PageSnapshot) returns (results: seq<Finding>, contrastIssues: seq<string>)
    ensures contrastIssues == ContrastIssues(pow, page.elements)
    ensures results == AuditReport(page, contrastIssues)
  {
    results := [];
    var missingAlts := MissingAlts(page.images);
    results := results + [Finding(TITLES[0], AltTextDetails(|missingAlts|))];
    results := results + [Finding(TITLES[1], SemanticDetails(page))];
    var focusableElements := page.focusable;
    results := results + [Finding(TITLES[2], FocusableDetails(|focusableElements|))];
    contrastIssues := CollectContrastIssues(pow, page.elements);
    results := results + [Finding(TITLES[3], ContrastDetails(|contrastIssues|))];
    var navElements := TagCount(page, "nav");
    results := results + [Finding(TITLES[4], NavigationDetails(navElements))];
    var forms := page.forms;
    results := results + [Finding(TITLES[5], FormsDetails(|forms|))];
    var viewportMeta := page.hasViewportMeta;
    results := results + [Finding(TITLES[6], ViewportDetails(viewportMeta))];
    results := results + [Finding(TITLES[7], COMPLIANCE_NOTE)];
  }

  /** The report has eight entries with the fixed titles in the fixed order,
      whatever the page. */
  lemma ReportShape(page: PageSnapshot, contrastIssues: seq<string>)
    ensures var r := AuditReport(page, contrastIssues);
            |r| == 8 && forall k :: 0 <= k < 8 ==> r[k].title == TITLES[k]
  {
  }

  /** The counts the report states: images without alt text, flagged
      elements, and the same `nav` count in the semantic and navigation entries. */
  lemma ReportCounts(pow: SrgbPower, page: PageSnapshot)
    ensures var r := AuditReport(page, ContrastIssues(pow, page.elements));
            var nav := "nav: " + NatToString(TagCount(page, "nav"));
            var at := |"Semantic tags found: " + TagEntry(page, "header") + ", "|;
            && r[0].details == AltTextDetails(|EmptyAltPositions(page.images)|)
            && r[3].details == ContrastDetails(|FlaggedPositions(pow, page.elements)|)
            && at + |nav| <= |r[1].details| && r[1].details[at..at + |nav|] == nav
            && r[4].details == NavigationDetails(TagCount(page, "nav"))
  {
    MissingAltsCount(page.images);
    ContrastIssuesExact(pow, page.elements);
    SemanticNavEntry(page);
  }

  /** The semantic details hold the `nav` entry right after the `header` entry. */
  lemma SemanticNavEntry(page: PageSnapshot)
    ensures var nav := "nav: " + NatToString(TagCount(page, "nav"));
            var at := |"Semantic tags found: " + TagEntry(page, "header") + ", "|;
            var s := SemanticDetails(page);
            at + |nav| <= |s| && s[at..at + |nav|] == nav
  {
    SemanticDetailsSpelledOut(page);
    MiddleSlice("Semantic tags found: ", TagEntry(page, "header") + ", ", TagEntry(page, "nav"), ", ",
      TagEntry(page, "main") + ", " + (TagEntry(page, "footer") + ", " +
      (TagEntry(page, "article") + ", " + TagEntry(page, "section"))));
  }

  /** The third part of a concatenation starts after the first two. */
  lemma MiddleSlice(a: string, b: string, c: string, d: string, e: string)
    ensures var s := a + (b + ((c + d) + e));
            |a + b| + |c| <= |s| && s[|a + b|..|a + b| + |c|] == c
  {
    var s := a + (b + ((c + d) + e));
    var k := |a + b|;
    forall i | 0 <= i < |c| ensures s[k + i] == c[i] {
      assert s[k + i] == ((c + d) + e)[i];
    }
  }

  /** The number in a sentence can be read back: the text between the fixed
      prefix and suffix is the decimal notation of the count. */
  lemma CountReadBack(prefix: string, n: nat, suffix: string)
    ensures var s := CountSentence(prefix, n, suffix);
            |prefix| + |suffix| < |s|
            && AllDecimal(s[|prefix|..|s| - |suffix|])
            && ParseDecimal(s[|prefix|..|s| - |suffix|]) == n
  {
    var s := CountSentence(prefix, n, suffix);
    assert s[|prefix|..|s| - |suffix|] == NatToString(n);
    DecimalRoundTrip(n);
  }

  /** Two sentences of the same template state the same count only if the
      counts are equal: different page contents give different entries. */
  lemma CountSentenceInjective(prefix: string, a: nat, b: nat, suffix: string)
    requires CountSentence(prefix, a, suffix) == CountSentence(prefix, b, suffix)
    ensures a == b
  {
    CountReadBack(prefix, a, suffix);
    CountReadBack(prefix, b, suffix);
  }
}
