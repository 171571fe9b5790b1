/** What `getHTML` puts into a commit card, without the markup around it:
    the link target, the grade colour, which texts are escaped and which are
    inserted raw, the violation lines and the suggestion fallbacks. Shared by
    the backend's display class and the older top-level one. */
module Display {
  import opened Wrappers
  import opened Text
  import opened Models
  import opened RuleCatalog
  import opened HtmlEscape

  /** `getGradeColor`. */
  function GradeColor(grade: int): (color: string)
    ensures (0 <= grade <= 5) == (color != "gray")
  {
    if grade == 0 then "red"
    else if grade == 1 then "orange"
    else if grade == 2 then "yellow"
    else if grade == 3 then "green"
    else if grade == 4 then "blue"
    else if grade == 5 then "purple"
    else "gray"
  }

  /** The six grades get six different colours, and every grade a graded
      commit can have is one of them. */
  lemma GradeColorsDistinct(x: int, y: int, violations: seq<Violation>)
    ensures 0 <= x <= 5 && 0 <= y <= 5 && x != y ==> GradeColor(x) != GradeColor(y)
    ensures GradeColor(GradeOf(violations)) != "gray"
  {
  }

  /** One `<li>` of the violation list: the rule number and its description
      or "Unknown rule". */
  datatype ViolationLine = ViolationLine(rule: int, name: string)

  /** A text inserted into the markup, either as it is or through
      `escapeHTML`. */
  datatype Fragment = Raw(text: string) | Escaped(text: string)

  /** The characters a fragment contributes to the page. */
  function Render(f: Fragment): string {
    match f
    case Raw(t) => t
    case Escaped(t) => EscapeHtml(t)
  }

  /** The variable content of one card. */
  datatype Card = Card(
    linkHref: Option<string>,
    gradeColor: string,
    header: Fragment,
    body: Fragment,
    hash: Fragment,
    grade: int,
    lines: seq<ViolationLine>,
    suggestionColor: string,
    suggestion: Fragment,
    bodySuggestionColor: string,
    bodySuggestion: Fragment)

  const NoSuggestion := "No suggestion provided."
  const NoBodySuggestion := "No body suggestion provided."

  /** Colour of a suggestion paragraph: the default colour when there is a
      suggestion, grey when the fallback text is shown. */
  function SuggestionColor(s: Option<string>): string {
    if Truthy(s) then "" else "#ddd"
  }

  /** `violations.map(v => <li>...)`, one line per entry in stored order. */
  function ViolationLines(violations: seq<Violation>, catalog: map<int, Rule>): (lines: seq<ViolationLine>)
    ensures |lines| == |violations|
    ensures forall i :: 0 <= i < |violations| ==>
      lines[i].rule == violations[i].rule &&
      (violations[i].rule in catalog ==> lines[i].name == Description(catalog[violations[i].rule])) &&
      (violations[i].rule !in catalog ==> lines[i].name == UnknownRule)
  {
    seq(|violations|, i requires 0 <= i < |violations| =>
      ViolationLine(violations[i].rule, RuleName(catalog, violations[i].rule)))
  }

  /** The card for a commit with optional url, shown with `grade`. The link
      wraps the card exactly when a url is defined and points to "#" when it
      is empty. */
  function MakeCard(url: Option<string>, header: string, body: string, hash: string, grade: int,
                    violations: seq<Violation>, suggestion: Option<string>, bodySuggestion: Option<string>,
                    catalog: map<int, Rule>): Card
  {
    Card(
      if url.Some? then Some(if url.value == "" then "#" else url.value) else None,
      GradeColor(grade),
      Raw(header),
      Raw(body),
      Escaped(hash),
      grade,
      ViolationLines(violations, catalog),
      SuggestionColor(suggestion),
      Escaped(OrElse(suggestion, NoSuggestion)),
      SuggestionColor(bodySuggestion),
      Escaped(OrElse(bodySuggestion, NoBodySuggestion)))
  }

  /** Page text holding none of the characters that could open markup or
      end an attribute value. */
  predicate NoRawMarkup(page: string) {
    forall i :: 0 <= i < |page| ==> page[i] != '<' && page[i] != '>' && page[i] != '"' && page[i] != '\''
  }

  /** An escaped text reaches the page with no raw markup character and
      decodes back to itself. */
  lemma EscapedShown(t: string)
    ensures NoRawMarkup(Render(Escaped(t))) && Unescape(Render(Escaped(t)), Padded) == t
  {
    UnescapeEscape(t, Padded);
  }

  /** What a card puts on the page: the header and body exactly as they
      are, markup included; the hash and each suggestion (or its fallback
      text) free of raw markup characters and decoding back to that text. */
  lemma CardPage(url: Option<string>, header: string, body: string, hash: string, grade: int,
                 violations: seq<Violation>, suggestion: Option<string>, bodySuggestion: Option<string>,
                 catalog: map<int, Rule>)
    ensures var card := MakeCard(url, header, body, hash, grade, violations, suggestion, bodySuggestion, catalog);
      && Render(card.header) == header && Render(card.body) == body
      && NoRawMarkup(Render(card.hash)) && Unescape(Render(card.hash), Padded) == hash
      && NoRawMarkup(Render(card.suggestion))
      && Unescape(Render(card.suggestion), Padded) == OrElse(suggestion, NoSuggestion)
      && NoRawMarkup(Render(card.bodySuggestion))
      && Unescape(Render(card.bodySuggestion), Padded) == OrElse(bodySuggestion, NoBodySuggestion)
  {
    var card := MakeCard(url, header, body, hash, grade, violations, suggestion, bodySuggestion, catalog);
    assert card.hash == Escaped(hash);
    assert card.suggestion == Escaped(OrElse(suggestion, NoSuggestion));
    assert card.bodySuggestion == Escaped(OrElse(bodySuggestion, NoBodySuggestion));
    EscapedShown(hash);
    EscapedShown(OrElse(suggestion, NoSuggestion));
    EscapedShown(OrElse(bodySuggestion, NoBodySuggestion));
  }

  /** A missing or empty suggestion is shown greyed, a present one in the
      default colour; the grade colour is the grade's. */
  lemma CardColors(url: Option<string>, header: string, body: string, hash: string, grade: int,
                   violations: seq<Violation>, suggestion: Option<string>, bodySuggestion: Option<string>,
                   catalog: map<int, Rule>)
    ensures var card := MakeCard(url, header, body, hash, grade, violations, suggestion, bodySuggestion, catalog);
      && (card.suggestionColor == "#ddd" <==> !Truthy(suggestion))
      && (card.bodySuggestionColor == "#ddd" <==> !Truthy(bodySuggestion))
      && card.gradeColor == GradeColor(grade)
  {
  }

  /** The link wraps the card exactly when a url is defined, and points to
      "#" when the url is empty. */
  lemma CardLink(url: Option<string>, header: string, body: string, hash: string, grade: int,
                 violations: seq<Violation>, suggestion: Option<string>, bodySuggestion: Option<string>,
                 catalog: map<int, Rule>)
    ensures var card := MakeCard(url, header, body, hash, grade, violations, suggestion, bodySuggestion, catalog);
      && (card.linkHref.Some? <==> url.Some?)
      && (url == Some("") ==> card.linkHref == Some("#"))
      && (Truthy(url) ==> card.linkHref == url)
  {
  }
}
